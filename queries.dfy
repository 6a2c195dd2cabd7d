/// The read-only queries over one row of the result table (the six slots
/// of one algorithm): `availableInternal` through `getBranchInternal`, and
/// `getLineTrackingPropertyValue`. Each `…Internal` function of the driver
/// resolves its algorithm to a row first (see the `Cache` module) and then
/// computes the function of the same name here on that row.
module Queries {
  import opened Bytes
  import opened Protocol
  import opened Payload
  import opened Records

  /** One algorithm's slots; `None` is a null slot. */
  type Row = seq<Option<Record>>

  predicate WellSized(row: Row) { |row| == MaxResultNum }

  /** Non-null slots among the first n. */
  function CountUpTo(row: Row, n: nat): (c: nat)
    requires n <= |row|
    ensures c <= n
    ensures c == 0 <==> forall k :: 0 <= k < n ==> row[k].None?
  {
    if n == 0 then 0 else CountUpTo(row, n - 1) + (if row[n - 1].Some? then 1 else 0)
  }

  /** `getCachedResultNumInternal`: the number of non-null slots. */
  function Count(row: Row): (c: nat)
    requires WellSized(row)
    ensures c <= MaxResultNum
    ensures c == 0 <==> forall k :: 0 <= k < MaxResultNum ==> row[k].None?
  {
    CountUpTo(row, MaxResultNum)
  }

  /** Null slots at the end do not change the count. */
  lemma {:induction false} CountNoneTail(row: Row, m: nat, n: nat)
    requires m <= n <= |row|
    requires forall k :: m <= k < n ==> row[k].None?
    ensures CountUpTo(row, n) == CountUpTo(row, m)
    decreases n
  {
    if n > m {
      CountNoneTail(row, m, n - 1);
    }
  }

  /** A record nobody has consumed. */
  predicate Unused(row: Row, k: int)
    requires 0 <= k < |row|
  {
    row[k].Some? && row[k].value.used == 0
  }

  /** The scan of `availableInternal` from slot i on. */
  function AvailableFrom(row: Row, i: nat): (b: bool)
    requires WellSized(row) && i <= MaxResultNum
    ensures b <==> exists k :: i <= k < MaxResultNum && Unused(row, k)
    decreases MaxResultNum - i
  {
    if i == MaxResultNum then false
    else if Unused(row, i) then true
    else AvailableFrom(row, i + 1)
  }

  /** `availableInternal`. */
  function Available(row: Row): bool
    requires WellSized(row)
  {
    AvailableFrom(row, 0)
  }

  /** As no record is ever marked used, a row is available exactly when it
      holds a record. */
  lemma AvailableIffCount(row: Row)
    requires WellSized(row)
    requires forall k :: 0 <= k < |row| && row[k].Some? ==> row[k].value.used == 0
    ensures Available(row) <==> Count(row) > 0
  {
    if Count(row) > 0 {
      var k :| 0 <= k < MaxResultNum && row[k].Some?;
      assert Unused(row, k);
    }
  }

  /** Squared distance of a record's centre (xCenter, yCenter) to the
      centre of the 640 x 480 screen. */
  function Dist(r: Record): nat
  {
    var dx := First(r.buffer) - LcdWidth / 2;
    var dy := Second(r.buffer) - LcdHeight / 2;
    dx * dx + dy * dy
  }

  /** The initial `minLen` of `getCachedCenterResultInternal`. */
  const NoDistance := 999999999

  /** The scan of `getCachedCenterResultInternal` from slot i on, with the
      smallest distance so far and its slot (-1 for none): a later slot
      replaces the current one only when strictly closer. */
  function CenterFrom(row: Row, i: nat, minLen: int, centerIndex: int): (c: int)
    requires WellSized(row) && i <= MaxResultNum && centerIndex < i
    ensures c == centerIndex || (i <= c < MaxResultNum && row[c].Some? && Dist(row[c].value) < minLen)
    ensures c == centerIndex ==> forall k :: i <= k < MaxResultNum && row[k].Some? ==> Dist(row[k].value) >= minLen
    ensures c != centerIndex ==> forall k :: i <= k < MaxResultNum && row[k].Some? ==> Dist(row[c].value) <= Dist(row[k].value)
    ensures c != centerIndex ==> forall k :: i <= k < c && row[k].Some? ==> Dist(row[c].value) < Dist(row[k].value)
    decreases MaxResultNum - i
  {
    if i == MaxResultNum then centerIndex
    else if row[i].Some? && Dist(row[i].value) < minLen then CenterFrom(row, i + 1, Dist(row[i].value), i)
    else CenterFrom(row, i + 1, minLen, centerIndex)
  }

  /** `getCachedCenterResultInternal`. */
  function Center(row: Row): Option<Record>
    requires WellSized(row)
  {
    var c := CenterFrom(row, 0, NoDistance, -1);
    if c != -1 then row[c] else None
  }

  /** The nearest-to-centre query returns the record closest to the centre,
      the first one among equally close records, and none exactly when no
      record is closer than 999999999. */
  lemma CenterIsNearest(row: Row)
    requires WellSized(row)
    ensures Center(row).None? <==> forall k :: 0 <= k < MaxResultNum && row[k].Some? ==> Dist(row[k].value) >= NoDistance
    ensures Center(row).Some? ==>
      exists c ::
        && 0 <= c < MaxResultNum && row[c] == Center(row)
        && Dist(row[c].value) < NoDistance
        && (forall k :: 0 <= k < MaxResultNum && row[k].Some? ==> Dist(row[c].value) <= Dist(row[k].value))
        && (forall k :: 0 <= k < c && row[k].Some? ==> Dist(row[c].value) < Dist(row[k].value))
  {
    var c := CenterFrom(row, 0, NoDistance, -1);
    if c != -1 {
      assert row[c] == Center(row);
    }
  }

  /** `getCachedResultByIndexInternal`: the slot itself; none from index 6
      on, and none for a negative index (the array read gives `undefined`). */
  function ByIndex(row: Row, index: int): (r: Option<Record>)
    requires WellSized(row)
    ensures r.Some? ==> 0 <= index < MaxResultNum && r == row[index]
    ensures 0 <= index < MaxResultNum ==> r == row[index]
  {
    if index >= MaxResultNum || index < 0 then None else row[index]
  }

  /** Slot k holds a record whose ID is `id`. */
  predicate Matches(row: Row, k: int, id: int)
    requires 0 <= k < |row|
  {
    row[k].Some? && Id(row[k].value.buffer) == id
  }

  /** The scan of `getCachedResultByIDInternal` from slot i on. */
  function ByIDFrom(row: Row, i: nat, id: int): (r: Option<Record>)
    requires WellSized(row) && i <= MaxResultNum
    ensures r.Some? <==> exists k :: i <= k < MaxResultNum && Matches(row, k, id)
    ensures r.Some? ==>
      exists k ::
        && i <= k < MaxResultNum && Matches(row, k, id) && r == row[k]
        && forall m :: i <= m < k ==> !Matches(row, m, id)
    decreases MaxResultNum - i
  {
    if i == MaxResultNum then None
    else if Matches(row, i, id) then row[i]
    else ByIDFrom(row, i + 1, id)
  }

  /** `getCachedResultByIDInternal`. */
  function ByID(row: Row, id: int): Option<Record>
    requires WellSized(row)
  {
    ByIDFrom(row, 0, id)
  }

  /** The counting loop of `getCachedResultNumByIDInternal` from slot i on. */
  function CountByIDFrom(row: Row, i: nat, id: int): (c: nat)
    requires WellSized(row) && i <= MaxResultNum
    ensures c <= MaxResultNum - i
    ensures c == 0 <==> forall k :: i <= k < MaxResultNum ==> !Matches(row, k, id)
    decreases MaxResultNum - i
  {
    if i == MaxResultNum then 0
    else (if Matches(row, i, id) then 1 else 0) + CountByIDFrom(row, i + 1, id)
  }

  /** `getCachedResultNumByIDInternal`. */
  function CountByID(row: Row, id: int): nat
    requires WellSized(row)
  {
    CountByIDFrom(row, 0, id)
  }

  /** The scan of `getCachedIndexResultByIDInternal` from slot i on, with n
      matching records still to skip. */
  function NthByIDFrom(row: Row, i: nat, id: int, n: int): (r: Option<Record>)
    requires WellSized(row) && i <= MaxResultNum
    ensures r.Some? ==> Id(r.value.buffer) == id
    decreases MaxResultNum - i
  {
    if i == MaxResultNum then None
    else if Matches(row, i, id) then (if n == 0 then row[i] else NthByIDFrom(row, i + 1, id, n - 1))
    else NthByIDFrom(row, i + 1, id, n)
  }

  /** `getCachedIndexResultByIDInternal` (n counted from 0). */
  function NthByID(row: Row, id: int, n: int): Option<Record>
    requires WellSized(row)
  {
    NthByIDFrom(row, 0, id, n)
  }

  /** The n-th record with a given ID exists exactly when
      0 <= n < the number of records with that ID. */
  lemma {:induction false} NthExistsIff(row: Row, i: nat, id: int, n: int)
    requires WellSized(row) && i <= MaxResultNum
    ensures NthByIDFrom(row, i, id, n).Some? <==> 0 <= n < CountByIDFrom(row, i, id)
    decreases MaxResultNum - i
  {
    if i < MaxResultNum {
      if Matches(row, i, id) {
        if n != 0 {
          NthExistsIff(row, i + 1, id, n - 1);
        }
      } else {
        NthExistsIff(row, i + 1, id, n);
      }
    }
  }

  /** The n-th record with an ID is the one in the slot preceded, in the
      scan, by exactly n slots with that ID. */
  lemma {:induction false} NthIsNthMatch(row: Row, i: nat, id: int, n: int)
    requires WellSized(row) && i <= MaxResultNum
    ensures var r := NthByIDFrom(row, i, id, n);
      r.Some? ==>
        exists k ::
          && i <= k < MaxResultNum && Matches(row, k, id) && r == row[k]
          && CountByIDFrom(row, i, id) - CountByIDFrom(row, k, id) == n
    decreases MaxResultNum - i
  {
    var r := NthByIDFrom(row, i, id, n);
    if i < MaxResultNum && r.Some? {
      if Matches(row, i, id) && n == 0 {
        assert r == row[i];
      } else if Matches(row, i, id) {
        NthIsNthMatch(row, i + 1, id, n - 1);
        assert r == NthByIDFrom(row, i + 1, id, n - 1);
      } else {
        NthIsNthMatch(row, i + 1, id, n);
        assert r == NthByIDFrom(row, i + 1, id, n);
      }
    }
  }

  /** The first record with an ID is the 0-th one. */
  lemma {:induction false} ByIDIsNthZero(row: Row, i: nat, id: int)
    requires WellSized(row) && i <= MaxResultNum
    ensures ByIDFrom(row, i, id) == NthByIDFrom(row, i, id, 0)
    decreases MaxResultNum - i
  {
    if i < MaxResultNum && !Matches(row, i, id) {
      ByIDIsNthZero(row, i + 1, id);
    }
  }

  /** `getCurrentBranchInternal`: slot 0, only when its level is 1. */
  function CurrentBranch(row: Row): (r: Option<Record>)
    requires WellSized(row)
    ensures r.Some? <==> row[0].Some? && Level(row[0].value.buffer) == 1
    ensures r.Some? ==> r == row[0]
  {
    if row[0].Some? && Level(row[0].value.buffer) == 1 then row[0] else None
  }

  /** `getUpcomingBranchCountInternal`: one less than the number of
      non-null slots, and 0 for an empty row. */
  function UpcomingBranchCount(row: Row): (c: nat)
    requires WellSized(row)
    ensures c == (if Count(row) > 0 then Count(row) - 1 else 0)
  {
    var count := Count(row);
    if count > 0 then count - 1 else 0
  }

  /** The scan of `getBranchInternal` over slots i..5 for the slot numbered
      `target`. */
  function BranchFrom(row: Row, i: nat, target: int): Option<Record>
    requires WellSized(row) && 1 <= i <= MaxResultNum
    decreases MaxResultNum - i
  {
    if i == MaxResultNum then None
    else if row[i].Some? && i == target then row[i]
    else BranchFrom(row, i + 1, target)
  }

  /** `getBranchInternal(index)`: looks for slot index + 1. Branch `index`
      is the absolute slot index + 1, for 0 <= index <= 4, whatever the
      slots before it hold. */
  function Branch(row: Row, index: int): (r: Option<Record>)
    requires WellSized(row)
    ensures r == (if 0 <= index < MaxResultNum - 1 then row[index + 1] else None)
  {
    BranchScan(row, 1, index + 1);
    BranchFrom(row, 1, index + 1)
  }

  lemma {:induction false} BranchScan(row: Row, i: nat, target: int)
    requires WellSized(row) && 1 <= i <= MaxResultNum
    ensures BranchFrom(row, i, target) == (if i <= target < MaxResultNum then row[target] else None)
    decreases MaxResultNum - i
  {
    if i < MaxResultNum {
      BranchScan(row, i + 1, target);
    }
  }

  /** Records fill a prefix of the row: no record after a null slot. */
  predicate Packed(row: Row)
  {
    forall a, b :: 0 <= a < b < |row| && row[b].Some? ==> row[a].Some?
  }

  /** In a packed row, the branch count and the branch query agree:
      branch i exists exactly for 0 <= i < the branch count. */
  lemma BranchCountPacked(row: Row, index: int)
    requires WellSized(row) && Packed(row)
    ensures Branch(row, index).Some? <==> 0 <= index < UpcomingBranchCount(row)
  {
    var p := FirstNull(row, 0);
    PackedCount(row, p, MaxResultNum);
  }

  /** The first null slot from i on (|row| when none). */
  function FirstNull(row: Row, i: nat): (p: nat)
    requires i <= |row|
    ensures i <= p <= |row| && (p < |row| ==> row[p].None?)
    ensures forall k :: i <= k < p ==> row[k].Some?
    decreases |row| - i
  {
    if i == |row| then i else if row[i].None? then i else FirstNull(row, i + 1)
  }

  lemma {:induction false} PackedCount(row: Row, p: nat, n: nat)
    requires Packed(row) && n <= |row| && p <= |row|
    requires forall k :: 0 <= k < p ==> row[k].Some?
    requires p < |row| ==> row[p].None?
    ensures CountUpTo(row, n) == (if n < p then n else p)
    decreases n
  {
    if n > 0 {
      PackedCount(row, p, n - 1);
    }
  }

  /** A row with a gap (slot 0 null, slot 1 holding a record, as left by a
      failed first block wait) has branch count 0, yet branch 0 exists. */
  lemma BranchCountGap(row: Row)
    requires WellSized(row) && row[0].None? && row[1].Some?
    requires forall k :: 2 <= k < MaxResultNum ==> row[k].None?
    ensures UpcomingBranchCount(row) == 0 && Branch(row, 0) == row[1]
  {
    CountNoneTail(row, 2, MaxResultNum);
  }

  /** `getLineTrackingPropertyValue`: X, Y and angle (properties 0, 1, 2)
      are signed 16-bit fields at offsets 2, 4 and 6; length (property 3) is
      the unsigned field at offset 8; anything else, or no record, gives 0. */
  function LineTrackingValue(rec: Option<Record>, prop: int): (v: int)
    ensures rec.None? || prop < 0 || prop > 3 ==> v == 0
    ensures rec.Some? && 0 <= prop < 3 ==> -32768 <= v < 32768 && (v - U16(rec.value.buffer, 2 + 2 * prop)) % 65536 == 0
    ensures rec.Some? && prop == 3 ==> v == Fourth(rec.value.buffer)
  {
    if rec.None? then 0
    else
      var buf := rec.value.buffer;
      if prop == 0 then ToSigned16(First(buf))
      else if prop == 1 then ToSigned16(Second(buf))
      else if prop == 2 then ToSigned16(Third(buf))
      else if prop == 3 then Fourth(buf)
      else 0
  }
}
