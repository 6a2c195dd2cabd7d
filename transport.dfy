/// Request/response exchanges: `wait` seen as an abstract outcome, and the
/// fixed three-attempt loops of `beginInternal` and `switchAlgorithmInternal`.
///
/// The clock (`control.millis`), the pauses (`basic.pause`) and the bus
/// writes (`pins.i2cWriteBuffer`) are not modelled as effects: each call of
/// `wait` is given its outcome, and the packets written are returned in order.
module Transport {
  import opened Bytes
  import opened Protocol
  import Wire

  /** What one call of `wait` observed: the deadline passed without a valid
      frame, or a frame with valid checksum arrived; `cmd` is its command byte
      and `buffer` a copy of the whole receive buffer at that moment. */
  datatype WaitOutcome = Timeout | Received(cmd: byte, buffer: seq<byte>)

  /** The outcome of the k-th call of `wait` in an exchange; calls beyond
      the given outcomes time out. */
  function OutcomeAt(outcomes: seq<WaitOutcome>, k: nat): WaitOutcome
  {
    if k < |outcomes| then outcomes[k] else Timeout
  }

  /** `wait(cmd, command)`: true exactly when a frame arrived and its command
      byte equals `command`. The first argument `cmd` is never read. */
  predicate WaitSucceeds(cmd: int, command: int, o: WaitOutcome)
  {
    o.Received? && o.cmd == command
  }

  /** The attempt (counted from k) at which a wait for `command` first
      succeeds, or Retry when none of the remaining attempts does. */
  function FirstSuccess(command: int, outcomes: seq<WaitOutcome>, k: nat): (j: nat)
    requires k <= Retry
    ensures k <= j <= Retry
    ensures j < Retry ==> WaitSucceeds(0, command, OutcomeAt(outcomes, j))
    ensures forall i :: k <= i < j ==> !WaitSucceeds(0, command, OutcomeAt(outcomes, i))
    decreases Retry - k
  {
    if k == Retry then Retry
    else if WaitSucceeds(0, command, OutcomeAt(outcomes, k)) then k
    else FirstSuccess(command, outcomes, k + 1)
  }

  /** n copies of a packet: what n attempts write on the bus. */
  function Repeat(pkt: seq<byte>, n: nat): (r: seq<seq<byte>>)
    ensures |r| == n && forall i :: 0 <= i < n ==> r[i] == pkt
  {
    seq(n, _ => pkt)
  }

  /** The retry loop shared by `beginInternal` and `switchAlgorithmInternal`:
      up to three times, write the packet and wait for `expected`. */
  method Exchange(pkt: seq<byte>, request: int, expected: int, outcomes: seq<WaitOutcome>)
    returns (ok: bool, writes: seq<seq<byte>>)
    ensures var j := FirstSuccess(expected, outcomes, 0);
      && (ok <==> j < Retry)
      && writes == Repeat(pkt, if ok then j + 1 else Retry)
  {
    writes := [];
    for i := 0 to Retry
      invariant writes == Repeat(pkt, i)
      invariant forall k :: 0 <= k < i ==> !WaitSucceeds(request, expected, OutcomeAt(outcomes, k))
    {
      writes := writes + [pkt];
      if WaitSucceeds(request, expected, OutcomeAt(outcomes, i)) {
        return true, writes;
      }
    }
    return false, writes;
  }

  /** The handshake packet: KNOCK to algorithm 0 with a 10-byte payload
      whose first byte is 1. */
  function KnockPacket(): seq<byte>
  {
    Wire.Encode(Wire.Fields(None, None, CommandKnock, AlgorithmAny, Zeros(10)[0 := 1], []))
  }

  /** The algorithm-switch packet: SET_ALGORITHM to algorithm 0 with a
      10-byte payload whose first byte is the requested algorithm. */
  function SwitchPacket(algo: int): seq<byte>
  {
    Wire.Encode(Wire.Fields(None, None, CommandSetAlgorithm, AlgorithmAny, Zeros(10)[0 := algo % 256], []))
  }

  /** `beginInternal`: succeeds when one of three knocks is answered by
      RETURN_OK. */
  method BeginInternal(outcomes: seq<WaitOutcome>) returns (ok: bool, writes: seq<seq<byte>>)
    ensures ok <==> exists k :: 0 <= k < Retry && WaitSucceeds(CommandKnock, ReturnOk, OutcomeAt(outcomes, k))
    ensures |writes| == (if ok then FirstSuccess(ReturnOk, outcomes, 0) + 1 else Retry)
    ensures forall i :: 0 <= i < |writes| ==> writes[i] == KnockPacket()
  {
    var dataBuf := Zeros(10)[0 := 1];
    var pkt := Wire.FromFields(Wire.Fields(None, None, CommandKnock, AlgorithmAny, dataBuf, []));
    ok, writes := Exchange(pkt, CommandKnock, ReturnOk, outcomes);
  }

  /** `switchAlgorithmInternal`: succeeds when one of three requests is
      answered by RETURN_OK. It writes no state: in particular the custom
      algorithm table is left as it is. */
  method SwitchAlgorithmInternal(algo: int, outcomes: seq<WaitOutcome>) returns (ok: bool, writes: seq<seq<byte>>)
    ensures ok <==> exists k :: 0 <= k < Retry && WaitSucceeds(CommandSetAlgorithm, ReturnOk, OutcomeAt(outcomes, k))
    ensures |writes| == (if ok then FirstSuccess(ReturnOk, outcomes, 0) + 1 else Retry)
    ensures forall i :: 0 <= i < |writes| ==> writes[i] == SwitchPacket(algo)
  {
    var dataBuf := Zeros(10)[0 := algo % 256];
    var pkt := Wire.FromFields(Wire.Fields(None, None, CommandSetAlgorithm, AlgorithmAny, dataBuf, []));
    ok, writes := Exchange(pkt, CommandSetAlgorithm, ReturnOk, outcomes);
  }
}
