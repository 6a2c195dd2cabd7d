/// Byte buffers with the semantics of MakeCode's `Buffer`, which the whole
/// protocol engine is written against.
module Bytes {

  /** One element of a MakeCode `Buffer`. */
  type byte = b: int | 0 <= b < 256

  datatype Option<+T> = None | Some(value: T)

  /** `buf[k]` on a MakeCode `Buffer`: an index outside the buffer reads 0. */
  function At(buf: seq<byte>, k: int): byte
  {
    if 0 <= k < |buf| then buf[k] else 0
  }

  /** `buf[k] = v` on a MakeCode `Buffer`: the value is truncated to its low
      byte and a write outside the buffer is ignored. */
  function Put(buf: seq<byte>, k: int, v: int): (r: seq<byte>)
    ensures |r| == |buf|
  {
    if 0 <= k < |buf| then buf[k := v % 256] else buf
  }

  /** `Buffer.create(n)`: n zero bytes. */
  function Zeros(n: nat): (r: seq<byte>)
    ensures |r| == n && forall k :: 0 <= k < n ==> r[k] == 0
  {
    seq(n, _ => 0)
  }

  /** `buf.slice(offset, length)` in MakeCode: the second argument is a
      LENGTH, not an end; a negative length means "up to the end", and both
      the start and the length are clamped to the buffer. */
  function Slice(buf: seq<byte>, offset: nat, length: int): seq<byte>
  {
    var start := if offset <= |buf| then offset else |buf|;
    var n := if length < 0 || length > |buf| - start then |buf| - start else length;
    buf[start..start + n]
  }

  function Min(a: int, b: int): int { if a < b then a else b }

  function Max(a: int, b: int): int { if a < b then b else a }

  /** Arithmetic sum of a byte sequence (no truncation). */
  function Sum(s: seq<byte>): nat
  {
    if s == [] then 0 else Sum(s[..|s| - 1]) + s[|s| - 1]
  }

  /** Sum of a prefix extended by one element. */
  lemma SumSnoc(s: seq<byte>, i: nat)
    requires i < |s|
    ensures Sum(s[..i + 1]) == Sum(s[..i]) + s[i]
  {
    assert s[..i + 1][..i] == s[..i];
  }

  /** Appending a zero byte does not change the sum. */
  lemma SumZeroSnoc(s: seq<byte>)
    ensures Sum(s + [0]) == Sum(s)
  {
    assert (s + [0])[..|s|] == s;
  }

  /** Replacing one byte changes the sum by exactly the difference. */
  lemma {:induction false} SumUpdate(s: seq<byte>, p: nat, v: byte)
    requires p < |s|
    ensures Sum(s[p := v]) == Sum(s) - s[p] + v
    decreases |s|
  {
    var n := |s| - 1;
    if p == n {
      assert s[p := v][..n] == s[..n];
    } else {
      assert s[p := v][..n] == s[..n][p := v];
      SumUpdate(s[..n], p, v);
    }
  }

  /** Sum of a concatenation. */
  lemma {:induction false} SumConcat(a: seq<byte>, b: seq<byte>)
    ensures Sum(a + b) == Sum(a) + Sum(b)
    decreases |b|
  {
    if b == [] {
      assert a + b == a;
    } else {
      var n := |b| - 1;
      assert (a + b)[..|a| + n] == a + b[..n];
      SumConcat(a, b[..n]);
    }
  }
}
