/// The result cache: `toRealID`, `getResultInternal` and the table it
/// fills (`result`, `maxID`, `customId`).
///
/// `FetchResult` says, as a function of the wait outcomes, what one fetch
/// returns, which slots it fills and what it records as the highest learned
/// ID; `ResultCache.GetResultInternal` is proved to do exactly that to the
/// table.
module Cache {
  import opened Bytes
  import opened Protocol
  import opened Payload
  import opened Records
  import opened Queries
  import opened Transport
  import Wire

  /** The scan of `toRealID` over the custom-algorithm table from entry i:
      the first entry equal to `id` gives custom row 22 + i. */
  function CustomScan(customId: seq<int>, id: int, i: nat): (r: int)
    requires |customId| == CustomAlgorithmCount && i <= CustomAlgorithmCount && id >= AlgorithmCustomBegin
    ensures r == id ||
      exists k ::
        && i <= k < CustomAlgorithmCount && customId[k] == id && r == AlgorithmCustom0 + k
        && forall m :: i <= m < k ==> customId[m] != id
    ensures r == id <==> forall k :: i <= k < CustomAlgorithmCount ==> customId[k] != id
    decreases CustomAlgorithmCount - i
  {
    if i == CustomAlgorithmCount then id
    else if customId[i] == id then AlgorithmCustom0 + i
    else CustomScan(customId, id, i + 1)
  }

  /** `toRealID`: IDs below 128 are rows already; larger ones are looked up
      in the custom-algorithm table and are left as they are when absent. */
  function RealID(customId: seq<int>, id: int): (r: int)
    requires |customId| == CustomAlgorithmCount
    ensures id < AlgorithmCustomBegin ==> r == id
    ensures id >= AlgorithmCustomBegin ==> r == id || AlgorithmCustom0 <= r < AlgorithmCount
  {
    if id >= AlgorithmCustomBegin then CustomScan(customId, id, 0) else id
  }

  /** Resolving twice is resolving once. */
  lemma RealIDIdempotent(customId: seq<int>, id: int)
    requires |customId| == CustomAlgorithmCount
    ensures RealID(customId, RealID(customId, id)) == RealID(customId, id)
  {
  }

  /** While the custom-algorithm table holds only 0 (as it does from
      initialisation on), every ID resolves to itself. */
  lemma RealIDUnassigned(id: int)
    ensures RealID([AlgorithmAny, AlgorithmAny, AlgorithmAny], id) == id
  {
    if id >= AlgorithmCustomBegin {
      var r := CustomScan([AlgorithmAny, AlgorithmAny, AlgorithmAny], id, 0);
    }
  }

  /** The bytes handed to the decoders: `buf.slice(5, buf.length - 1)`,
      i.e. the received buffer from offset 5 to its end. */
  function PayloadOf(o: WaitOutcome): seq<byte>
    requires o.Received?
  {
    Slice(o.buffer, ContentIndex, |o.buffer| - 1)
  }

  /** The payload starts at the frame's content: byte j of the payload is
      byte 5 + j of the received buffer. */
  lemma PayloadIsContent(o: WaitOutcome, j: nat)
    requires o.Received? && ContentIndex + j < |o.buffer|
    ensures |PayloadOf(o)| == |o.buffer| - ContentIndex && PayloadOf(o)[j] == o.buffer[ContentIndex + j]
  {
  }

  /** The info payload with total_results (bytes 2-3) and total_blocks
      (bytes 6-7) clamped to 6. */
  function Info(o: WaitOutcome): seq<byte>
    requires o.Received?
  {
    ClampU16(ClampU16(PayloadOf(o), 2, MaxResultNum), 6, MaxResultNum)
  }

  function TotalResults(o: WaitOutcome): int
    requires o.Received?
  {
    U16(Info(o), 2)
  }

  function TotalBlocks(o: WaitOutcome): int
    requires o.Received?
  {
    U16(Info(o), 6)
  }

  /** The totals a fetch works with are the reported ones, capped at 6. */
  lemma InfoTotals(o: WaitOutcome)
    requires o.Received?
    ensures TotalResults(o) == Min(First(PayloadOf(o)), MaxResultNum)
    ensures TotalBlocks(o) == Min(Third(PayloadOf(o)), MaxResultNum)
  {
    var p := PayloadOf(o);
    var q := ClampU16(p, 2, MaxResultNum);
    assert U16(q, 6) == U16(p, 6);
    assert At(Info(o), 2) == At(q, 2) && At(Info(o), 3) == At(q, 3);
  }

  /** The request packet: GET_RESULT for the algorithm as given (before
      resolution), with no payload. */
  function RequestPacket(algo: int): seq<byte>
  {
    Wire.Encode(Wire.Fields(None, None, CommandGetResult, algo, [], []))
  }

  /** Slot i after a fetch whose info response was the j-th wait: the
      (j + 1 + i)-th wait fills it when it succeeds, with a block decoded by
      the algorithm's variant for i < total_blocks and with a plain record
      for total_blocks <= i < total_results; all other slots stay null. */
  function FetchedSlot(decode: Decoder, row: int, outcomes: seq<WaitOutcome>, j: nat, blocks: int, results: int, i: nat): Option<Record>
  {
    var o := OutcomeAt(outcomes, j + 1 + i);
    if i < blocks then Arrival(decode, o, ReturnBlock, KindFor(row))
    else if i < results then Arrival(decode, o, ReturnArrow, Plain)
    else None
  }

  /** How a payload becomes a record of a given variant. A fetch uses
      `DecodeRecord`; the loops that store records take it as a parameter. */
  type Decoder = (Kind, seq<byte>) -> Record

  /** What one wait for `command` leaves in its slot: the payload decoded
      as a record of the given variant when the wait succeeds, else null. */
  function Arrival(decode: Decoder, o: WaitOutcome, command: int, k: Kind): Option<Record>
  {
    if WaitSucceeds(0, command, o) then Some(decode(k, PayloadOf(o))) else None
  }

  /** What one `getResultInternal` does: its return value, the row it
      leaves, the new highest learned ID (none when unchanged), and how many
      request packets it wrote. */
  datatype Fetch = Fetch(count: int, slots: Row, maxId: Option<int>, attempts: nat)

  function FetchResult(decode: Decoder, row: int, outcomes: seq<WaitOutcome>): (f: Fetch)
    ensures |f.slots| == MaxResultNum
    ensures 1 <= f.attempts <= Retry && -1 <= f.count <= MaxResultNum
    ensures f.count == -1 <==> f.maxId.None?
  {
    var j := FirstSuccess(ReturnInfo, outcomes, 0);
    if j == Retry then Fetch(-1, seq(MaxResultNum, _ => None), None, Retry)
    else
      var o := OutcomeAt(outcomes, j);
      var blocks, results := TotalBlocks(o), TotalResults(o);
      var slots := Slots(decode, row, outcomes, j, blocks, results);
      Fetch(Count(slots), slots, Some(Id(PayloadOf(o))), j + 1)
  }

  /** A fetch fails, with -1 and an empty row, exactly when none of the
      three info waits succeeds; otherwise it returns the number of filled
      slots, which is at most 6, and records byte 0 of the info payload. */
  lemma FetchOutcome(decode: Decoder, row: int, outcomes: seq<WaitOutcome>)
    ensures var f := FetchResult(decode, row, outcomes);
      && (f.count == -1 <==> forall k :: 0 <= k < Retry ==> !WaitSucceeds(CommandGetResult, ReturnInfo, OutcomeAt(outcomes, k)))
      && (f.count == -1 ==> f.attempts == Retry && f.maxId.None? && forall i :: 0 <= i < MaxResultNum ==> f.slots[i].None?)
      && (f.count != -1 ==>
            && 0 <= f.count <= MaxResultNum && f.count == Count(f.slots)
            && 1 <= f.attempts <= Retry && OutcomeAt(outcomes, f.attempts - 1).Received?
            && f.maxId == Some(Id(PayloadOf(OutcomeAt(outcomes, f.attempts - 1)))))
  {
    var j := FirstSuccess(ReturnInfo, outcomes, 0);
    var f := FetchResult(decode, row, outcomes);
    if j < Retry {
      assert WaitSucceeds(CommandGetResult, ReturnInfo, OutcomeAt(outcomes, j));
      assert f.count == Count(f.slots) && f.attempts == j + 1;
    } else {
      assert f.count == -1;
    }
  }

  /** A slot is filled exactly when the info wait succeeded, the slot lies
      below the clamped totals and its own wait brought the code its
      position calls for. A filled slot holds that wait's payload, decoded
      with the algorithm's variant for a block (below total_blocks) and as a
      plain record for an arrow (after the blocks). */
  lemma FetchedSlotShape(decode: Decoder, row: int, outcomes: seq<WaitOutcome>, i: nat)
    requires i < MaxResultNum
    ensures var f := FetchResult(decode, row, outcomes);
      f.slots[i].Some? ==>
        var o := OutcomeAt(outcomes, f.attempts - 1);
        var o' := OutcomeAt(outcomes, f.attempts + i);
        && f.count != -1 && o.Received? && o'.Received?
        && i < Max(TotalBlocks(o), TotalResults(o))
        && if i < TotalBlocks(o) then o'.cmd == ReturnBlock && f.slots[i] == Some(decode(KindFor(row), PayloadOf(o')))
           else o'.cmd == ReturnArrow && f.slots[i] == Some(decode(Plain, PayloadOf(o')))
    ensures var f := FetchResult(decode, row, outcomes);
      var o := OutcomeAt(outcomes, f.attempts - 1);
      var o' := OutcomeAt(outcomes, f.attempts + i);
      && f.count != -1 && o.Received? && o'.Received?
      && i < Max(TotalBlocks(o), TotalResults(o))
      && o'.cmd == (if i < TotalBlocks(o) then ReturnBlock else ReturnArrow)
      ==> f.slots[i].Some?
  {
    var j := FirstSuccess(ReturnInfo, outcomes, 0);
    var f := FetchResult(decode, row, outcomes);
    if j < Retry {
      var o := OutcomeAt(outcomes, j);
      assert f.attempts - 1 == j;
      var blocks, results := TotalBlocks(o), TotalResults(o);
      assert f.slots[i] == FetchedSlot(decode, row, outcomes, j, blocks, results, i);
    } else {
      assert f.slots[i].None?;
    }
  }

  /** A wrong response code to the request uses up an attempt like a
      timeout does: a wrong code, then the info response, is a fetch on the
      second attempt. */
  lemma WrongCodeUsesAttempt(decode: Decoder, row: int, outcomes: seq<WaitOutcome>)
    requires |outcomes| >= 2 && outcomes[0].Received? && outcomes[0].cmd != ReturnInfo
    requires outcomes[1].Received? && outcomes[1].cmd == ReturnInfo
    ensures FetchResult(decode, row, outcomes).attempts == 2 && FetchResult(decode, row, outcomes).count >= 0
  {
    assert FirstSuccess(ReturnInfo, outcomes, 0) == 1;
    var f := FetchResult(decode, row, outcomes);
    assert f.attempts == 2;
  }

  /** An info response announcing 2 blocks and 3 results, followed by two
      blocks and one arrow, fills slots 0, 1 and 2 in arrival order and
      leaves slots 3 to 5 null; the fetch returns 3. */
  lemma FetchTwoBlocksOneArrow(decode: Decoder, row: int, info: seq<byte>, b0: seq<byte>, b1: seq<byte>, a0: seq<byte>)
    requires var p := Slice(info, ContentIndex, |info| - 1); First(p) == 3 && Third(p) == 2
    ensures var outcomes := [Received(ReturnInfo, info), Received(ReturnBlock, b0), Received(ReturnBlock, b1), Received(ReturnArrow, a0)];
      var f := FetchResult(decode, row, outcomes);
      && f.count == 3 && f.attempts == 1
      && f.slots[0] == Some(decode(KindFor(row), Slice(b0, ContentIndex, |b0| - 1)))
      && f.slots[1] == Some(decode(KindFor(row), Slice(b1, ContentIndex, |b1| - 1)))
      && f.slots[2] == Some(decode(Plain, Slice(a0, ContentIndex, |a0| - 1)))
      && f.slots[3].None? && f.slots[4].None? && f.slots[5].None?
  {
    var outcomes := [Received(ReturnInfo, info), Received(ReturnBlock, b0), Received(ReturnBlock, b1), Received(ReturnArrow, a0)];
    assert TotalBlocks(outcomes[0]) == 2 && TotalResults(outcomes[0]) == 3 by {
      InfoTotals(outcomes[0]);
    }
    TwoBlocksOneArrowSlots(decode, row, outcomes);
    assert Arrival(decode, outcomes[1], ReturnBlock, KindFor(row)) == Some(decode(KindFor(row), Slice(b0, ContentIndex, |b0| - 1)));
    assert Arrival(decode, outcomes[2], ReturnBlock, KindFor(row)) == Some(decode(KindFor(row), Slice(b1, ContentIndex, |b1| - 1)));
    assert Arrival(decode, outcomes[3], ReturnArrow, Plain) == Some(decode(Plain, Slice(a0, ContentIndex, |a0| - 1)));
  }

  /** The fetch of `FetchTwoBlocksOneArrow`, once the totals are known. */
  lemma TwoBlocksOneArrowSlots(decode: Decoder, row: int, outcomes: seq<WaitOutcome>)
    requires |outcomes| == 4 && outcomes[0].Received? && outcomes[0].cmd == ReturnInfo
    requires TotalBlocks(outcomes[0]) == 2 && TotalResults(outcomes[0]) == 3
    requires WaitSucceeds(0, ReturnBlock, outcomes[1]) && WaitSucceeds(0, ReturnBlock, outcomes[2])
    requires WaitSucceeds(0, ReturnArrow, outcomes[3])
    ensures var f := FetchResult(decode, row, outcomes);
      && f.count == 3 && f.attempts == 1
      && f.slots == [Arrival(decode, outcomes[1], ReturnBlock, KindFor(row)), Arrival(decode, outcomes[2], ReturnBlock, KindFor(row)),
                     Arrival(decode, outcomes[3], ReturnArrow, Plain), None, None, None]
  {
    assert FirstSuccess(ReturnInfo, outcomes, 0) == 0;
    FetchAfterInfo(decode, row, outcomes);
    var slots := Slots(decode, row, outcomes, 0, 2, 3);
    SlotsTwoBlocksOneArrow(decode, row, outcomes);
    CountThree(slots);
  }

  /** The fetch once its info response, the j-th wait, has arrived. */
  lemma FetchAfterInfo(decode: Decoder, row: int, outcomes: seq<WaitOutcome>)
    requires FirstSuccess(ReturnInfo, outcomes, 0) < Retry
    ensures var j := FirstSuccess(ReturnInfo, outcomes, 0);
      var o := OutcomeAt(outcomes, j);
      var s := Slots(decode, row, outcomes, j, TotalBlocks(o), TotalResults(o));
      FetchResult(decode, row, outcomes) == Fetch(Count(s), s, Some(Id(PayloadOf(o))), j + 1)
  {
  }

  lemma SlotsTwoBlocksOneArrow(decode: Decoder, row: int, outcomes: seq<WaitOutcome>)
    requires |outcomes| == 4
    ensures Slots(decode, row, outcomes, 0, 2, 3)
      == [Arrival(decode, outcomes[1], ReturnBlock, KindFor(row)), Arrival(decode, outcomes[2], ReturnBlock, KindFor(row)),
          Arrival(decode, outcomes[3], ReturnArrow, Plain), None, None, None]
  {
    var slots := Slots(decode, row, outcomes, 0, 2, 3);
    assert slots[0] == FetchedSlot(decode, row, outcomes, 0, 2, 3, 0);
    assert slots[1] == FetchedSlot(decode, row, outcomes, 0, 2, 3, 1);
    assert slots[2] == FetchedSlot(decode, row, outcomes, 0, 2, 3, 2);
    assert slots[3] == FetchedSlot(decode, row, outcomes, 0, 2, 3, 3);
    assert slots[4] == FetchedSlot(decode, row, outcomes, 0, 2, 3, 4);
    assert slots[5] == FetchedSlot(decode, row, outcomes, 0, 2, 3, 5);
  }

  lemma CountThree(slots: Row)
    requires WellSized(slots) && slots[0].Some? && slots[1].Some? && slots[2].Some?
    requires slots[3].None? && slots[4].None? && slots[5].None?
    ensures Count(slots) == 3
  {
    assert CountUpTo(slots, 1) == 1 && CountUpTo(slots, 2) == 2 && CountUpTo(slots, 3) == 3;
    CountNoneTail(slots, 3, MaxResultNum);
  }

  /** Slots are not compacted: when the first block wait fails and the
      second succeeds, slot 0 stays null and the block lands in slot 1. */
  lemma FailedBlockLeavesGap(decode: Decoder, row: int, info: seq<byte>, b1: seq<byte>)
    requires var p := Slice(info, ContentIndex, |info| - 1); First(p) == 2 && Third(p) == 2
    ensures var outcomes := [Received(ReturnInfo, info), Timeout, Received(ReturnBlock, b1)];
      var f := FetchResult(decode, row, outcomes);
      && f.count == 1 && f.slots[0].None? && f.slots[1].Some?
  {
    var outcomes := [Received(ReturnInfo, info), Timeout, Received(ReturnBlock, b1)];
    assert FirstSuccess(ReturnInfo, outcomes, 0) == 0;
    InfoTotals(outcomes[0]);
    var f := FetchResult(decode, row, outcomes);
    assert TotalBlocks(outcomes[0]) == 2 && TotalResults(outcomes[0]) == 2;
    assert forall i :: 0 <= i < MaxResultNum ==> f.slots[i] == FetchedSlot(decode, row, outcomes, 0, 2, 2, i);
    assert CountUpTo(f.slots, 1) == 0 && CountUpTo(f.slots, 2) == 1;
    CountNoneTail(f.slots, 2, MaxResultNum);
  }

  /** The driver's result table: 25 rows of 6 slots, the highest learned ID
      per row, and the custom-algorithm table, which is never written. */
  class ResultCache {
    var result: seq<Row>
    var maxID: seq<int>
    const customId: seq<int>

    ghost predicate Valid()
      reads this
    {
      && |result| == AlgorithmCount
      && (forall a :: 0 <= a < AlgorithmCount ==> |result[a]| == MaxResultNum)
      && |maxID| == AlgorithmCount
      && customId == [AlgorithmAny, AlgorithmAny, AlgorithmAny]
    }

    /** The module's initialisation: every slot null, every maxID 0 and the
        custom table [0, 0, 0]. */
    constructor ()
      ensures Valid() && customId == [AlgorithmAny, AlgorithmAny, AlgorithmAny]
      ensures forall a :: 0 <= a < AlgorithmCount ==> result[a] == seq(MaxResultNum, _ => None) && maxID[a] == 0
    {
      result := seq(AlgorithmCount, _ => seq(MaxResultNum, _ => None));
      maxID := seq(AlgorithmCount, _ => 0);
      customId := [AlgorithmAny, AlgorithmAny, AlgorithmAny];
    }

    /** `toRealID`. */
    method ToRealID(id: int) returns (algo: int)
      requires Valid()
      ensures algo == RealID(customId, id)
    {
      algo := id;
      if id >= AlgorithmCustomBegin {
        var i := 0;
        while i < CustomAlgorithmCount
          invariant 0 <= i <= CustomAlgorithmCount
          invariant CustomScan(customId, id, i) == RealID(customId, id)
        {
          if customId[i] == algo {
            algo := AlgorithmCustom0 + i;
            break;
          }
          i := i + 1;
        }
      }
    }

    /** The row a query for `algo` reads. */
    function Row(algo: int): (r: Row)
      reads this
      requires Valid() && 0 <= RealID(customId, algo) < AlgorithmCount
      ensures WellSized(r)
      ensures 0 <= algo < AlgorithmCount && r == result[algo]
    {
      RealIDUnassigned(algo);
      result[RealID(customId, algo)]
    }

    /** `getCachedResultMaxID`: the highest learned ID recorded for the
        algorithm's row. */
    function CachedResultMaxID(algo: int): (m: int)
      reads this
      requires Valid() && 0 <= RealID(customId, algo) < AlgorithmCount
      ensures 0 <= algo < AlgorithmCount && m == maxID[algo]
    {
      RealIDUnassigned(algo);
      maxID[RealID(customId, algo)]
    }

    /** `getCachedResultLearnedNumInternal` resolves the ID before calling
        `getCachedResultMaxID`, which resolves it again: same answer. */
    function CachedResultLearnedNum(algo: int): (m: int)
      reads this
      requires Valid() && 0 <= RealID(customId, algo) < AlgorithmCount
      ensures m == CachedResultMaxID(algo)
    {
      RealIDIdempotent(customId, algo);
      CachedResultMaxID(RealID(customId, algo))
    }

    /** `getResultInternal(algo)`: clears the algorithm's row, requests the
        results, and fills the row from the responses; returns -1 when no
        info response arrives, and the number of records received otherwise.
        Only that row and its maxID entry change. */
    method GetResultInternal(algo: int, outcomes: seq<WaitOutcome>) returns (count: int, writes: seq<seq<byte>>)
      requires Valid() && 0 <= RealID(customId, algo) < AlgorithmCount
      modifies this
      ensures Valid()
      ensures var row := RealID(customId, algo);
        var f := FetchResult(DecodeRecord, row, outcomes);
        && count == f.count
        && result == old(result)[row := f.slots]
        && maxID == (if f.maxId.Some? then old(maxID)[row := f.maxId.value] else old(maxID))
        && writes == Repeat(RequestPacket(algo), f.attempts)
    {
      var pkt := Wire.FromFields(Wire.Fields(None, None, CommandGetResult, algo, [], []));
      var row := ToRealID(algo);
      ClearRow(row);
      var k, info;
      k, info, writes := AwaitInfo(row, pkt, outcomes);
      if k == Retry {
        return -1, writes;
      }
      count := FillRow(DecodeRecord, row, outcomes, k, U16(info, 6), U16(info, 2));
    }

    /** The info phase of `getResultInternal`: up to three times, write the
        request and wait for RETURN_INFO. On success, k is the attempt, maxID
        of the row takes byte 0 of the payload, and `info` is the payload
        with its totals clamped to 6. */
    method AwaitInfo(row: int, pkt: seq<byte>, outcomes: seq<WaitOutcome>) returns (k: nat, info: seq<byte>, writes: seq<seq<byte>>)
      requires Valid() && 0 <= row < AlgorithmCount
      modifies this
      ensures Valid() && result == old(result)
      ensures k == FirstSuccess(ReturnInfo, outcomes, 0)
      ensures writes == Repeat(pkt, if k < Retry then k + 1 else Retry)
      ensures k < Retry ==>
        && OutcomeAt(outcomes, k).Received? && info == Info(OutcomeAt(outcomes, k))
        && maxID == old(maxID)[row := Id(PayloadOf(OutcomeAt(outcomes, k)))]
      ensures k == Retry ==> maxID == old(maxID)
    {
      info := Zeros(10);
      writes := [];
      k := 0;
      while k < Retry
        invariant 0 <= k <= Retry && writes == Repeat(pkt, k)
        invariant forall m :: 0 <= m < k ==> !WaitSucceeds(0, ReturnInfo, OutcomeAt(outcomes, m))
        invariant result == old(result) && maxID == old(maxID)
      {
        writes := writes + [pkt];
        var o := OutcomeAt(outcomes, k);
        if WaitSucceeds(CommandGetResult, ReturnInfo, o) {
          info := Slice(o.buffer, ContentIndex, |o.buffer| - 1);
          maxID := maxID[row := Id(info)];
          if U16(info, 2) > MaxResultNum {
            info := SetU16(info, 2, MaxResultNum);
          }
          if U16(info, 6) > MaxResultNum {
            info := SetU16(info, 6, MaxResultNum);
          }
          assert FirstSuccess(ReturnInfo, outcomes, 0) == k;
          return;
        }
        k := k + 1;
      }
    }

    /** The first loop of `getResultInternal`: every slot of the row null. */
    method ClearRow(row: int)
      requires Valid() && 0 <= row < AlgorithmCount
      modifies this
      ensures Valid() && maxID == old(maxID)
      ensures result == old(result)[row := seq(MaxResultNum, _ => None)]
    {
      var i := 0;
      while i < MaxResultNum
        invariant 0 <= i <= MaxResultNum && Valid() && maxID == old(maxID)
        invariant forall a :: 0 <= a < AlgorithmCount && a != row ==> result[a] == old(result)[a]
        invariant forall s :: 0 <= s < i ==> result[row][s].None?
      {
        result := result[row := result[row][i := None]];
        i := i + 1;
      }
      assert result[row] == seq(MaxResultNum, _ => None);
      assert result == old(result)[row := seq(MaxResultNum, _ => None)];
    }

    /** The block and arrow loops of `getResultInternal`, after the info
        response was the j-th wait: fills the slots and returns how many
        waits succeeded. */
    method FillRow(decode: Decoder, row: int, outcomes: seq<WaitOutcome>, j: nat, blocks: int, results: int) returns (count: int)
      requires Valid() && 0 <= row < AlgorithmCount && 0 <= blocks <= MaxResultNum && 0 <= results <= MaxResultNum
      requires result[row] == seq(MaxResultNum, _ => None)
      modifies this
      ensures Valid() && maxID == old(maxID)
      ensures var slots := Slots(decode, row, outcomes, j, blocks, results);
        result == old(result)[row := slots] && count == Count(slots)
    {
      ghost var slots := Slots(decode, row, outcomes, j, blocks, results);
      count := FillBlocks(decode, row, KindFor(row), outcomes, j, blocks, slots);
      count := FillArrows(decode, row, outcomes, j, blocks, results, slots, count);
      SlotsTail(decode, row, outcomes, j, blocks, results);
      HoldsAll(result[row], slots, Max(blocks, results));
      assert result == old(result)[row := slots];
    }

    /** One wait of the block or arrow loop: when it brings `command`, the
        payload (`buf.slice(5, buf.length - 1)`) is decoded as a record of
        variant k into slot i; otherwise the slot is left as it is. */
    method StoreArrival(decode: Decoder, row: int, i: int, o: WaitOutcome, command: int, k: Kind) returns (received: bool)
      requires Valid() && 0 <= row < AlgorithmCount && 0 <= i < MaxResultNum
      modifies this
      ensures Valid() && maxID == old(maxID)
      ensures received == WaitSucceeds(0, command, o)
      ensures result == if received then old(result)[row := old(result)[row][i := Arrival(decode, o, command, k)]] else old(result)
    {
      received := WaitSucceeds(0, command, o);
      if received {
        var dataBuf := Slice(o.buffer, ContentIndex, |o.buffer| - 1);
        var rec := decode(k, dataBuf);
        assert Arrival(decode, o, command, k) == Some(rec);
        var slots := result[row][i := Some(rec)];
        result := result[row := slots];
      }
    }

    /** The block loop: for i < total_blocks, the (j + 1 + i)-th wait, when
        it brings RETURN_BLOCK, fills slot i with the algorithm's variant. */
    method FillBlocks(decode: Decoder, row: int, k: Kind, outcomes: seq<WaitOutcome>, j: nat, blocks: int, ghost slots: Row) returns (count: int)
      requires Valid() && 0 <= row < AlgorithmCount && 0 <= blocks <= MaxResultNum
      requires WellSized(slots) && forall s :: 0 <= s < blocks ==> slots[s] == Arrival(decode, OutcomeAt(outcomes, j + 1 + s), ReturnBlock, k)
      requires Holds(result[row], slots, 0)
      modifies this
      ensures Valid() && maxID == old(maxID)
      ensures forall a :: 0 <= a < AlgorithmCount && a != row ==> result[a] == old(result)[a]
      ensures Holds(result[row], slots, blocks) && count == CountUpTo(slots, blocks)
    {
      count := 0;
      var i := 0;
      while i < blocks
        invariant 0 <= i <= blocks && Valid() && maxID == old(maxID)
        invariant forall a :: 0 <= a < AlgorithmCount && a != row ==> result[a] == old(result)[a]
        invariant Holds(result[row], slots, i) && count == CountUpTo(slots, i)
      {
        var o := OutcomeAt(outcomes, j + 1 + i);
        ghost var before := result[row];
        var received := StoreArrival(decode, row, i, o, ReturnBlock, k);
        if received {
          HoldsStore(before, slots, i);
          count := count + 1;
        } else {
          HoldsSkip(before, slots, i);
        }
        i := i + 1;
      }
    }

    /** The arrow loop: for total_blocks <= i < total_results, the
        (j + 1 + i)-th wait, when it brings RETURN_ARROW, fills slot i with a
        plain record. Returns the number of those waits that succeeded. */
    method FillArrows(decode: Decoder, row: int, outcomes: seq<WaitOutcome>, j: nat, blocks: int, results: int, ghost slots: Row, start: int) returns (count: int)
      requires Valid() && 0 <= row < AlgorithmCount && 0 <= blocks <= MaxResultNum && 0 <= results <= MaxResultNum
      requires WellSized(slots) && forall s :: blocks <= s < results ==> slots[s] == Arrival(decode, OutcomeAt(outcomes, j + 1 + s), ReturnArrow, Plain)
      requires Holds(result[row], slots, blocks) && start == CountUpTo(slots, blocks)
      modifies this
      ensures Valid() && maxID == old(maxID)
      ensures forall a :: 0 <= a < AlgorithmCount && a != row ==> result[a] == old(result)[a]
      ensures Holds(result[row], slots, Max(blocks, results))
      ensures count == CountUpTo(slots, Max(blocks, results))
    {
      ghost var n := Max(blocks, results);
      count := start;
      var i := blocks;
      while i < results
        invariant blocks <= i <= n && Valid() && maxID == old(maxID)
        invariant forall a :: 0 <= a < AlgorithmCount && a != row ==> result[a] == old(result)[a]
        invariant Holds(result[row], slots, i) && count == CountUpTo(slots, i)
      {
        var o := OutcomeAt(outcomes, j + 1 + i);
        ghost var before := result[row];
        var received := StoreArrival(decode, row, i, o, ReturnArrow, Plain);
        assert slots[i] == Arrival(decode, o, ReturnArrow, Plain);
        if received {
          HoldsStore(before, slots, i);
          count := count + 1;
        } else {
          HoldsSkip(before, slots, i);
        }
        i := i + 1;
      }
      assert i == n;
    }
  }

  /** The row a fetch leaves, as `FetchResult` states it. */
  function Slots(decode: Decoder, row: int, outcomes: seq<WaitOutcome>, j: nat, blocks: int, results: int): (r: Row)
    ensures WellSized(r)
  {
    seq(MaxResultNum, i requires 0 <= i => FetchedSlot(decode, row, outcomes, j, blocks, results, i))
  }

  /** A row holds the first n slots of `slots`, the others null. */
  ghost predicate Holds(row: Row, slots: Row, n: nat)
  {
    && |row| == MaxResultNum && |slots| == MaxResultNum
    && forall s :: 0 <= s < MaxResultNum ==> row[s] == (if s < n then slots[s] else None)
  }

  /** Storing slot i's value extends the agreement by one slot. */
  lemma HoldsStore(row: Row, slots: Row, i: nat)
    requires Holds(row, slots, i) && i < MaxResultNum
    ensures Holds(row[i := slots[i]], slots, i + 1)
  {
  }

  /** An empty slot i needs no write for the agreement to extend. */
  lemma HoldsSkip(row: Row, slots: Row, i: nat)
    requires Holds(row, slots, i) && i < MaxResultNum && slots[i].None?
    ensures Holds(row, slots, i + 1)
  {
  }

  /** Past both totals, a fetch leaves every slot null. */
  lemma SlotsTail(decode: Decoder, row: int, outcomes: seq<WaitOutcome>, j: nat, blocks: int, results: int)
    ensures var slots := Slots(decode, row, outcomes, j, blocks, results);
      forall s :: 0 <= s && Max(blocks, results) <= s < MaxResultNum ==> slots[s].None?
  {
    var slots := Slots(decode, row, outcomes, j, blocks, results);
    forall s | 0 <= s && Max(blocks, results) <= s < MaxResultNum
      ensures slots[s].None?
    {
      assert slots[s] == FetchedSlot(decode, row, outcomes, j, blocks, results, s);
    }
  }

  /** A row that agrees with `slots` on the first n slots, when the rest of
      `slots` is null, is `slots`, and holds as many records as its prefix. */
  lemma HoldsAll(row: Row, slots: Row, n: nat)
    requires Holds(row, slots, n) && n <= MaxResultNum
    requires forall s :: n <= s < MaxResultNum ==> slots[s].None?
    ensures row == slots && Count(slots) == CountUpTo(slots, n)
  {
    CountNoneTail(slots, n, MaxResultNum);
  }
}
