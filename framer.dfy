/// The byte framer: `husky_lens_protocol_receive` and `validateCheckSum`
/// over the module-level `receive_index` and `receive_buffer`, the
/// queue-draining loop of `protocolAvailable`, and the polling loop of `wait`.
///
/// `FrameState`, `Step`, `Drain` and `Poll` say what the framer does as
/// functions; the class `Receiver` holds the state the source mutates and its
/// methods are proved to follow those functions.
module Framer {
  import opened Bytes
  import opened Protocol
  import opened Transport

  /** Entries the receive buffer can ever hold: five header bytes, up to
      255 content bytes and the checksum. `receive_buffer` is a JavaScript
      array of 128 entries that grows when a frame is longer. */
  const Capacity := 261

  /** The framer's state: `receive_index`, `receive_buffer` (all Capacity
      entries; those at or past `jsLength` have never been written) and the
      JavaScript length of `receive_buffer`. */
  datatype FrameState = FrameState(index: nat, buf: seq<byte>, jsLength: nat)

  /** The framer's invariant: once past the length byte, the position never
      passes the checksum position of the frame being received. */
  predicate Inv(s: FrameState)
  {
    && |s.buf| == Capacity
    && FrameBufferSize <= s.jsLength <= Capacity
    && (s.index < ContentIndex || s.index <= s.buf[ContentSizeIndex] + ContentIndex)
  }

  /** `validateCheckSum`: the sum of the bytes before the checksum position
      (length byte + 5), modulo 256, equals the byte at that position. */
  predicate ValidChecksum(buf: seq<byte>)
    requires |buf| == Capacity
  {
    var n := buf[ContentSizeIndex] + ContentIndex;
    Sum(buf[..n]) % 256 == buf[n]
  }

  /** `husky_lens_protocol_receive(data)`: the new state, and whether a
      frame with a valid checksum has just been completed.
      (The source also checks, at the length byte, whether the position is
      at least 122; the position there is always 4, so that reset never
      happens and is not part of this function.) */
  function Step(s: FrameState, d: byte): (r: (FrameState, bool))
    requires Inv(s)
    ensures Inv(r.0)
    ensures r.1 ==> r.0.index == 0
  {
    if s.index == 0 then
      if d != 0x55 then (s.(index := 0), false) else (s.(buf := s.buf[0 := 0x55], index := 1), false)
    else if s.index == 1 then
      if d != 0xAA then (s.(index := 0), false) else (s.(buf := s.buf[1 := 0xAA], index := 2), false)
    else if s.index < ContentIndex then
      (s.(buf := s.buf[s.index := d], index := s.index + 1), false)
    else
      var t := s.(buf := s.buf[s.index := d], jsLength := Max(s.jsLength, s.index + 1));
      if s.index == t.buf[ContentSizeIndex] + ContentIndex then (t.(index := 0), ValidChecksum(t.buf))
      else (t.(index := s.index + 1), false)
  }

  /** The framer run over a sequence of bytes: the final state and what each
      call returned. */
  function Feed(s: FrameState, input: seq<byte>): (r: (FrameState, seq<bool>))
    requires Inv(s)
    ensures Inv(r.0) && |r.1| == |input|
    decreases |input|
  {
    if input == [] then (s, [])
    else
      var (s1, b) := Step(s, input[0]);
      var (s2, bs) := Feed(s1, input[1..]);
      (s2, [b] + bs)
  }

  /** The queue-draining loop of `protocolAvailable`: bytes are taken from
      the front of the queue until one completes a valid frame; the state,
      whether that happened, and what is left of the queue. */
  function Drain(s: FrameState, queue: seq<byte>): (r: (FrameState, bool, seq<byte>))
    requires Inv(s)
    ensures Inv(r.0) && |r.2| <= |queue| && r.2 == queue[|queue| - |r.2|..]
    ensures !r.1 ==> r.2 == []
    ensures queue != [] ==> |r.2| < |queue|
    decreases |queue|
  {
    if queue == [] then (s, false, [])
    else
      var (s1, done) := Step(s, queue[0]);
      if done then (s1, true, queue[1..]) else Drain(s1, queue[1..])
  }

  /** The polling loop of `wait`: one `protocolAvailable` per bus read made
      before the deadline, each read appended to the cached queue, until a
      valid frame is completed. */
  function Poll(s: FrameState, cached: seq<byte>, polls: seq<seq<byte>>): (r: (FrameState, seq<byte>, bool))
    requires Inv(s)
    ensures Inv(r.0)
    ensures polls != [] && !r.2 ==> r.1 == []
    decreases |polls|
  {
    if polls == [] then (s, cached, false)
    else
      var (t, found, rest) := Drain(s, cached + polls[0]);
      if found then (t, rest, true) else Poll(t, rest, polls[1..])
  }

  /** A complete frame: sync bytes, and as many bytes as its length byte
      announces, plus six. */
  predicate WellFramed(f: seq<byte>)
  {
    |f| >= ProtocolSize && f[0] == 0x55 && f[1] == 0xAA && |f| == f[ContentSizeIndex] + ProtocolSize
  }

  /** The frame's last byte is the sum of the others modulo 256. */
  predicate FrameChecksumOk(f: seq<byte>)
    requires |f| > 0
  {
    Sum(f[..|f| - 1]) % 256 == f[|f| - 1]
  }

  function Falses(n: nat): (r: seq<bool>)
    ensures |r| == n && forall i :: 0 <= i < n ==> !r[i]
  {
    seq(n, _ => false)
  }

  lemma FalsesCons(n: nat)
    ensures [false] + Falses(n) == Falses(n + 1)
  {
  }

  /** Feeding a concatenation is feeding one part after the other. */
  lemma {:induction false} FeedAppend(s: FrameState, a: seq<byte>, b: seq<byte>)
    requires Inv(s)
    ensures Feed(s, a + b) == (Feed(Feed(s, a).0, b).0, Feed(s, a).1 + Feed(Feed(s, a).0, b).1)
    decreases |a|
  {
    if a == [] {
      assert a + b == b;
      assert Feed(s, a) == (s, []);
      assert [] + Feed(s, b).1 == Feed(s, b).1;
    } else {
      assert (a + b)[0] == a[0] && (a + b)[1..] == a[1..] + b;
      var (s1, x) := Step(s, a[0]);
      FeedAppend(s1, a[1..], b);
      var (m, xs) := Feed(s1, a[1..]);
      var (t, ys) := Feed(m, b);
      assert Feed(s, a) == (m, [x] + xs);
      assert Feed(s, a + b) == (t, [x] + (xs + ys));
      assert [x] + (xs + ys) == ([x] + xs) + ys;
    }
  }

  /** Framer completion, from position k on: with the bytes before k already
      in place, the framer returns false until the last byte of the frame,
      then the frame's checksum verdict, and is back at position 0 with the
      whole frame in its buffer. */
  lemma FeedFrameFrom(s: FrameState, f: seq<byte>, k: nat)
    requires Inv(s) && WellFramed(f) && k < |f|
    requires s.index == k && s.buf[..k] == f[..k]
    ensures var (t, out) := Feed(s, f[k..]);
      && t.index == 0 && t.buf[..|f|] == f && t.jsLength == Max(s.jsLength, |f|)
      && out == Falses(|f| - k - 1) + [FrameChecksumOk(f)]
  {
    FrameStateFrom(s, f, k);
    FrameOutputFrom(s, f, k);
  }

  /** The state part of `FeedFrameFrom`. */
  lemma {:induction false} FrameStateFrom(s: FrameState, f: seq<byte>, k: nat)
    requires Inv(s) && WellFramed(f) && k < |f|
    requires s.index == k && s.buf[..k] == f[..k]
    ensures var t := Feed(s, f[k..]).0;
      t.index == 0 && t.buf[..|f|] == f && t.jsLength == Max(s.jsLength, |f|)
    decreases |f| - k
  {
    var (s1, b) := Step(s, f[k]);
    StepInFrame(s, f, k);
    FeedCons(s, f[k..]);
    assert f[k..][0] == f[k] && f[k..][1..] == f[k + 1..];
    if k == |f| - 1 {
      assert f[k + 1..] == [];
    } else {
      FrameStateFrom(s1, f, k + 1);
    }
  }

  /** The output part of `FeedFrameFrom`. */
  lemma {:induction false} FrameOutputFrom(s: FrameState, f: seq<byte>, k: nat)
    requires Inv(s) && WellFramed(f) && k < |f|
    requires s.index == k && s.buf[..k] == f[..k]
    ensures Feed(s, f[k..]).1 == Falses(|f| - k - 1) + [FrameChecksumOk(f)]
    decreases |f| - k
  {
    var (s1, b) := Step(s, f[k]);
    StepInFrame(s, f, k);
    FeedCons(s, f[k..]);
    assert f[k..][0] == f[k] && f[k..][1..] == f[k + 1..];
    if k == |f| - 1 {
      assert f[k + 1..] == [];
    } else {
      FrameOutputFrom(s1, f, k + 1);
      FalsesCons(|f| - k - 2);
      var out := Feed(s1, f[k + 1..]).1;
      assert [b] + out == ([false] + Falses(|f| - k - 2)) + [FrameChecksumOk(f)];
    }
  }

  /** Feeding a non-empty input is one step, then the rest. */
  lemma FeedCons(s: FrameState, q: seq<byte>)
    requires Inv(s) && q != []
    ensures var (s1, b) := Step(s, q[0]);
      Feed(s, q) == (Feed(s1, q[1..]).0, [b] + Feed(s1, q[1..]).1)
  {
  }


  /** One byte of a frame at position k: the byte lands at k, and the step
      reports the checksum verdict exactly at the last byte. */
  lemma StepInFrame(s: FrameState, f: seq<byte>, k: nat)
    requires Inv(s) && WellFramed(f) && k < |f|
    requires s.index == k && s.buf[..k] == f[..k]
    ensures var (s1, b) := Step(s, f[k]);
      && s1.buf[..k + 1] == f[..k + 1]
      && s1.jsLength == (if k < ContentIndex then s.jsLength else Max(s.jsLength, k + 1))
      && (k < |f| - 1 ==> s1.index == k + 1 && !b)
      && (k == |f| - 1 ==> s1.index == 0 && b == FrameChecksumOk(f))
  {
    var (s1, b) := Step(s, f[k]);
    assert s1.buf[..k + 1] == f[..k + 1];
    if k >= ContentIndex {
      assert s.buf[ContentSizeIndex] == f[ContentSizeIndex];
    }
    if k == |f| - 1 {
      assert s1.buf[..|f| - 1] == f[..|f| - 1];
    }
  }


  /** Framer completion: from position 0, a frame with length byte L gives
      false on each of its first 5 + L bytes and the checksum verdict on the
      last; the framer is then back at position 0, whatever the verdict. */
  lemma FrameCompletes(s: FrameState, f: seq<byte>)
    requires Inv(s) && s.index == 0 && WellFramed(f)
    ensures var (t, out) := Feed(s, f);
      && t.index == 0 && t.buf[..|f|] == f
      && (forall j :: 0 <= j < |f| - 1 ==> !out[j])
      && out[|f| - 1] == FrameChecksumOk(f)
  {
    assert f[0..] == f;
    FeedFrameFrom(s, f, 0);
  }

  /** Resynchronisation: at position 0, bytes other than 0x55 leave the
      state untouched and each returns false. */
  lemma {:induction false} GarbageIgnored(s: FrameState, g: seq<byte>)
    requires Inv(s) && s.index == 0
    requires forall k :: 0 <= k < |g| ==> g[k] != 0x55
    ensures Feed(s, g) == (s, Falses(|g|))
    decreases |g|
  {
    if g != [] {
      GarbageIgnored(s, g[1..]);
      FalsesCons(|g| - 1);
    }
  }

  /** A garbage prefix containing no 0x55 does not change what the framer
      makes of the frame after it. */
  lemma ResyncAfterGarbage(s: FrameState, g: seq<byte>, f: seq<byte>)
    requires Inv(s) && s.index == 0
    requires forall k :: 0 <= k < |g| ==> g[k] != 0x55
    ensures Feed(s, g + f) == (Feed(s, f).0, Falses(|g|) + Feed(s, f).1)
  {
    FeedAppend(s, g, f);
    GarbageIgnored(s, g);
  }

  /** At position 1, any byte but 0xAA sends the framer back to position 0
      without being stored, even when it is 0x55 itself. */
  lemma SyncMismatchResets(s: FrameState, d: byte)
    requires Inv(s) && s.index == 1 && d != 0xAA
    ensures Step(s, d) == (s.(index := 0), false)
  {
  }

  /** A stray 0x55 right before a frame loses that frame: the frame's own
      0x55 is taken as the second sync byte and rejected, its 0xAA is then
      ignored at position 0, and the rest of the frame is scanned as if it
      were garbage. */
  lemma StraySyncLosesFrame(s: FrameState, f: seq<byte>)
    requires Inv(s) && s.index == 0 && |f| >= 2 && f[0] == 0x55 && f[1] == 0xAA
    ensures var t := s.(buf := s.buf[0 := 0x55]);
      Feed(s, [0x55] + f) == (Feed(t, f[2..]).0, Falses(3) + Feed(t, f[2..]).1)
  {
    var sync: seq<byte> := [0x55, 0x55, 0xAA];
    assert [0x55] + f == sync + f[2..];
    FeedAppend(s, sync, f[2..]);
    DoubleSync(s);
  }

  /** 55 55 AA from position 0 ends at position 0 with nothing found. */
  lemma DoubleSync(s: FrameState)
    requires Inv(s) && s.index == 0
    ensures Feed(s, [0x55, 0x55, 0xAA]) == (s.(buf := s.buf[0 := 0x55]), Falses(3))
  {
    var s1 := s.(buf := s.buf[0 := 0x55], index := 1);
    var t := s.(buf := s.buf[0 := 0x55]);
    assert Step(s, 0x55) == (s1, false);
    assert Step(s1, 0x55) == (t, false);
    assert Step(t, 0xAA) == (t, false);
    var q3: seq<byte> := [0xAA];
    var q2: seq<byte> := [0x55] + q3;
    var q1: seq<byte> := [0x55] + q2;
    assert q3[0] == 0xAA && q3[1..] == [];
    assert q2[0] == 0x55 && q2[1..] == q3;
    assert q1[0] == 0x55 && q1[1..] == q2;
    assert Feed(t, []) == (t, []);
    FeedCons(t, q3);
    assert Feed(t, q3) == (Feed(Step(t, q3[0]).0, q3[1..]).0, [Step(t, q3[0]).1] + Feed(Step(t, q3[0]).0, q3[1..]).1);
    assert Step(t, q3[0]) == (t, false);
    assert Feed(Step(t, q3[0]).0, q3[1..]) == (t, []);
    assert [Step(t, q3[0]).1] + Feed(Step(t, q3[0]).0, q3[1..]).1 == [false];
    assert Feed(t, q3) == (t, [false]);
    FeedCons(s1, q2);
    assert Feed(s1, q2) == (Feed(Step(s1, q2[0]).0, q2[1..]).0, [Step(s1, q2[0]).1] + Feed(Step(s1, q2[0]).0, q2[1..]).1);
    assert Step(s1, q2[0]) == (t, false);
    assert Feed(Step(s1, q2[0]).0, q2[1..]) == (t, [false]);
    assert [Step(s1, q2[0]).1] + Feed(Step(s1, q2[0]).0, q2[1..]).1 == [false, false];
    assert Feed(s1, q2) == (t, [false, false]);
    FeedCons(s, q1);
    assert Feed(s, q1) == (Feed(Step(s, q1[0]).0, q1[1..]).0, [Step(s, q1[0]).1] + Feed(Step(s, q1[0]).0, q1[1..]).1);
    assert Step(s, q1[0]) == (s1, false);
    assert Feed(Step(s, q1[0]).0, q1[1..]) == (t, [false, false]);
    assert [Step(s, q1[0]).1] + Feed(Step(s, q1[0]).0, q1[1..]).1 == [false, false, false];
    assert q1 == [0x55, 0x55, 0xAA];
    assert Falses(3) == [false, false, false];
  }

  /** Changing one byte of a frame with a valid checksum, at a position other
      than the sync bytes and the length byte, makes the framer report an
      invalid frame on its last byte. */
  lemma CorruptedFrameRejected(s: FrameState, f: seq<byte>, p: nat, v: byte)
    requires Inv(s) && s.index == 0 && WellFramed(f) && FrameChecksumOk(f)
    requires 2 <= p < |f| && p != ContentSizeIndex && v != f[p]
    ensures var (t, out) := Feed(s, f[p := v]);
      !out[|f| - 1] && forall j :: 0 <= j < |f| ==> !out[j]
  {
    var f' := f[p := v];
    FrameCompletes(s, f');
    var n := |f| - 1;
    if p < n {
      assert f'[..n] == f[..n][p := v];
      SumUpdate(f[..n], p, v);
    } else {
      assert f'[..n] == f[..n];
    }
  }

  /** What `protocolAvailable`'s loop does, as a run of the framer: it feeds
      the queue up to the byte it stops after; every byte fed returns false
      except that last one when a frame was found. */
  lemma {:induction false} DrainFeeds(s: FrameState, q: seq<byte>)
    requires Inv(s)
    ensures var (t, found, rest) := Drain(s, q);
      var n := |q| - |rest|;
      q != [] ==> Feed(s, q[..n]) == (t, Falses(n - 1) + [found])
    decreases |q|
  {
    if q != [] {
      var (s1, done) := Step(s, q[0]);
      var (t, found, rest) := Drain(s, q);
      var n := |q| - |rest|;
      FeedPrefix(s, q, n);
      var inner := Feed(s1, q[1..][..n - 1]);
      if done {
        assert Drain(s, q) == (s1, true, q[1..]);
        assert n == 1 && q[1..][..0] == [];
        assert inner == (s1, []);
        assert [true] + inner.1 == [true] == Falses(0) + [found];
      } else if q[1..] == [] {
        assert Drain(s, q) == (s1, false, []);
        assert n == 1 && q[1..][..0] == [];
        assert inner == (s1, []);
        assert [false] + inner.1 == [false] == Falses(0) + [found];
      } else {
        DrainFeeds(s1, q[1..]);
        assert Drain(s1, q[1..]) == (t, found, rest);
        FalsesCons(n - 2);
        assert [false] + (Falses(n - 2) + [found]) == Falses(n - 1) + [found];
      }
    }
  }


  /** `protocolAvailable` stops at the first completed frame: when feeding
      the first m bytes of the queue reports a frame on the m-th byte only,
      draining ends there with the rest of the queue left. */
  lemma {:induction false} DrainStopsAtFirst(s: FrameState, q: seq<byte>, m: nat)
    requires Inv(s) && 1 <= m <= |q|
    requires Feed(s, q[..m]).1 == Falses(m - 1) + [true]
    ensures Drain(s, q) == (Feed(s, q[..m]).0, true, q[m..])
    decreases m
  {
    var (s1, b) := Step(s, q[0]);
    FeedPrefix(s, q, m);
    var inner := Feed(s1, q[1..][..m - 1]);
    assert Feed(s, q[..m]) == (inner.0, [b] + inner.1);
    if m == 1 {
      assert q[1..][..0] == [];
      assert inner == (s1, []);
      assert ([b] + inner.1)[0] == (Falses(0) + [true])[0];
      assert Drain(s, q) == (s1, true, q[1..]);
    } else {
      assert ([b] + inner.1)[0] == (Falses(m - 1) + [true])[0];
      FalsesCons(m - 2);
      assert inner.1 == ([b] + inner.1)[1..] == (Falses(m - 1) + [true])[1..] == Falses(m - 2) + [true];
      DrainStopsAtFirst(s1, q[1..], m - 1);
      assert q[1..][m - 1..] == q[m..];
      assert Drain(s, q) == Drain(s1, q[1..]);
    }
  }

  /** The polling loop of `wait` succeeds on a read that completes a frame
      with a valid checksum: starting between frames, it stops after that
      frame, which is then in the buffer, and keeps the bytes after it. */
  lemma PollFindsFrame(s: FrameState, cached: seq<byte>, polls: seq<seq<byte>>, f: seq<byte>, tail: seq<byte>)
    requires Inv(s) && s.index == 0 && WellFramed(f) && FrameChecksumOk(f)
    requires polls != [] && cached + polls[0] == f + tail
    ensures var (t, rest, found) := Poll(s, cached, polls);
      && found && rest == tail && t.index == 0
      && t.buf[..|f|] == f && t.buf[CommandIndex] == f[CommandIndex]
  {
    var q := f + tail;
    FeedFrameFrom(s, f, 0);
    assert f[0..] == f && q[..|f|] == f && q[|f|..] == tail;
    DrainStopsAtFirst(s, q, |f|);
  }

  /** Feeding a non-empty prefix is one step, then the rest of the prefix. */
  lemma FeedPrefix(s: FrameState, q: seq<byte>, n: nat)
    requires Inv(s) && 1 <= n <= |q|
    ensures var (s1, b) := Step(s, q[0]);
      var inner := Feed(s1, q[1..][..n - 1]);
      Feed(s, q[..n]) == (inner.0, [b] + inner.1)
  {
    assert q[..n][0] == q[0] && q[..n][1..] == q[1..][..n - 1];
  }


  /** The receive side of the driver: `receive_index`, `receive_buffer` and
      the queue of bytes read from the bus but not yet framed. */
  class Receiver {
    const buffer: array<byte>
    var index: nat
    var jsLength: nat
    var cached: seq<byte>

    ghost predicate Valid()
      reads this, buffer
    {
      buffer.Length == Capacity && Inv(State())
    }

    function State(): FrameState
      reads this, buffer
    {
      FrameState(index, buffer[..], jsLength)
    }

    /** The module's initialisation: position 0, 128 zeros, empty queue. */
    constructor ()
      ensures Valid() && fresh(buffer) && cached == []
      ensures State() == FrameState(0, Zeros(Capacity), FrameBufferSize)
    {
      buffer := new byte[Capacity](_ => 0);
      index := 0;
      jsLength := FrameBufferSize;
      cached := [];
    }

    /** `validateCheckSum`. */
    method ValidateCheckSum() returns (ok: bool)
      requires Valid()
      ensures ok == ValidChecksum(buffer[..])
    {
      var stackSumIndex := buffer[ContentSizeIndex] + ContentIndex;
      var sum: int := 0;
      var i := 0;
      while i < stackSumIndex
        invariant 0 <= i <= stackSumIndex
        invariant sum == Sum(buffer[..i])
      {
        SumSnoc(buffer[..], i);
        assert buffer[..][..i + 1] == buffer[..i + 1];
        sum := sum + buffer[i];
        i := i + 1;
      }
      sum := sum % 256;
      var expected := buffer[stackSumIndex];
      ok := sum == expected;
    }

    /** `husky_lens_protocol_receive`. */
    method Receive(data: byte) returns (complete: bool)
      requires Valid()
      modifies this, buffer
      ensures Valid() && cached == old(cached)
      ensures (State(), complete) == Step(old(State()), data)
    {
      if index == 0 {
        if data != 0x55 {
          index := 0;
          return false;
        }
        buffer[0] := 0x55;
      } else if index == 1 {
        if data != 0xAA {
          index := 0;
          return false;
        }
        buffer[1] := 0xAA;
      } else if index == CommandIndex {
        buffer[CommandIndex] := data;
      } else if index == 3 {
        buffer[3] := data;
      } else if index == ContentSizeIndex {
        // the source resets here when the position is at least 122; it is 4
        assert index < FrameBufferSize - ProtocolSize;
        buffer[ContentSizeIndex] := data;
      } else {
        buffer[index] := data;
        if index + 1 > jsLength {
          jsLength := index + 1;
        }
        var expectedLen := buffer[ContentSizeIndex] + ContentIndex;
        if index == expectedLen {
          index := 0;
          complete := ValidateCheckSum();
          return;
        }
      }
      index := index + 1;
      complete := false;
    }

    /** `protocolAvailable`: the bytes read from the bus are appended to the
        queue, which is then drained into the framer until a frame is
        complete. */
    method ProtocolAvailable(response: seq<byte>) returns (found: bool)
      requires Valid()
      modifies this, buffer
      ensures Valid()
      ensures (State(), found, cached) == Drain(old(State()), old(cached) + response)
    {
      cached := cached + response;
      while |cached| > 0
        invariant Valid()
        invariant Drain(State(), cached) == Drain(old(State()), old(cached) + response)
        decreases |cached|
      {
        var data := cached[0];
        cached := cached[1..];
        found := Receive(data);
        if found {
          return;
        }
      }
      found := false;
    }

    /** `wait(cmd, command)`: `polls` are the bus reads made before the
        deadline. On the first completed frame, the outcome is that frame's
        command byte and a copy of the receive buffer, and the wait succeeds
        iff the command byte is `command`. */
    method Wait(cmd: int, command: int, polls: seq<seq<byte>>) returns (ok: bool, outcome: WaitOutcome)
      requires Valid()
      modifies this, buffer
      ensures Valid()
      ensures var (t, rest, found) := Poll(old(State()), old(cached), polls);
        && State() == t && cached == rest
        && outcome == (if found then Received(t.buf[CommandIndex], t.buf[..t.jsLength]) else Timeout)
        && ok == WaitSucceeds(cmd, command, outcome)
    {
      var i := 0;
      while i < |polls|
        invariant 0 <= i <= |polls| && Valid()
        invariant Poll(State(), cached, polls[i..]) == Poll(old(State()), old(cached), polls)
        decreases |polls| - i
      {
        assert polls[i..][0] == polls[i] && polls[i..][1..] == polls[i + 1..];
        var available := ProtocolAvailable(polls[i]);
        if available {
          var receivedCmd := buffer[CommandIndex];
          outcome := Received(receivedCmd, buffer[..jsLength]);
          ok := command == receivedCmd;
          return;
        }
        i := i + 1;
      }
      outcome := Timeout;
      ok := false;
    }
  }
}
