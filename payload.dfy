/// `PacketData`: fixed-offset views of a response payload. Offset 0 is a
/// one-byte field (ID, maxID, …), offset 1 another (level, confidence, …),
/// and offsets 2, 4, 6 and 8 hold little-endian 16-bit fields
/// (first/xCenter/total_results, second/yCenter, third/width/angle/
/// total_blocks, fourth/height/length). Also `toSigned16`.
module Payload {
  import opened Bytes

  /** A little-endian 16-bit field read as `buf[k] + buf[k+1] * 256`. */
  function U16(buf: seq<byte>, k: int): (r: int)
    ensures 0 <= r < 65536
    ensures r % 256 == At(buf, k) && r / 256 == At(buf, k + 1)
  {
    At(buf, k) + At(buf, k + 1) * 256
  }

  /** Byte 0: ID (maxID in an info response). */
  function Id(buf: seq<byte>): byte { At(buf, 0) }

  /** Byte 1: level (confidence in some responses). */
  function Level(buf: seq<byte>): byte { At(buf, 1) }

  /** Bytes 2-3: xCenter, xTarget, total_results. */
  function First(buf: seq<byte>): int { U16(buf, 2) }

  /** Bytes 4-5: yCenter, yTarget, total_results_learned. */
  function Second(buf: seq<byte>): int { U16(buf, 4) }

  /** Bytes 6-7: width, angle, total_blocks. */
  function Third(buf: seq<byte>): int { U16(buf, 6) }

  /** Bytes 8-9: height, length, total_blocks_learned. */
  function Fourth(buf: seq<byte>): int { U16(buf, 8) }

  /** A 16-bit setter: `buf[k] = v & 0xff; buf[k+1] = (v >> 8) & 0xff`. */
  function SetU16(buf: seq<byte>, k: int, v: int): (r: seq<byte>)
    ensures |r| == |buf|
  {
    Put(Put(buf, k, v % 256), k + 1, (v / 256) % 256)
  }

  /** Writing a 16-bit field and reading it back gives the value modulo
      2^16, and no other byte changes. */
  lemma SetThenGet(buf: seq<byte>, k: nat, v: int)
    requires k + 1 < |buf|
    ensures U16(SetU16(buf, k, v), k) == v % 65536
    ensures forall j :: 0 <= j < |buf| && j != k && j != k + 1 ==> SetU16(buf, k, v)[j] == buf[j]
  {
    LowBytes(v);
  }

  /** The low 16 bits of v are its low byte plus 256 times its second byte. */
  lemma LowBytes(v: int)
    ensures v % 65536 == ((v / 256) % 256) * 256 + v % 256
  {
    var q, lo := v / 256, v % 256;
    var q2, hi := q / 256, q % 256;
    assert v == q * 256 + lo;
    assert q == q2 * 256 + hi;
    assert v == q2 * 65536 + (hi * 256 + lo);
    assert 0 <= hi * 256 + lo < 65536;
  }

  /** Writing back the value just read changes nothing. */
  lemma GetThenSet(buf: seq<byte>, k: nat)
    requires k + 1 < |buf|
    ensures SetU16(buf, k, U16(buf, k)) == buf
  {
  }

  /** The clamp in `getResultInternal`: `if (info.f > limit) info.f = limit`. */
  function ClampU16(buf: seq<byte>, k: nat, limit: int): (r: seq<byte>)
    requires 0 <= limit < 256
    ensures |r| == |buf|
    ensures U16(r, k) == Min(U16(buf, k), limit)
    ensures forall j :: 0 <= j < |buf| && j != k && j != k + 1 ==> r[j] == buf[j]
  {
    if U16(buf, k) > limit then SetU16(buf, k, limit) else buf
  }

  /** `toSigned16`: a 16-bit field read as two's complement. */
  function ToSigned16(val: int): (r: int)
    ensures 0 <= val < 65536 ==> -32768 <= r < 32768 && (r - val) % 65536 == 0
  {
    if val > 32767 then val - 65536 else val
  }

  /** `toSigned16` inverts the 16-bit two's-complement encoding of every
      signed 16-bit value. */
  lemma ToSigned16RoundTrip(s: int)
    requires -32768 <= s < 32768
    ensures ToSigned16(s % 65536) == s
  {
  }

  /** Values below 32768 are unchanged; the raw value 65000 is -536. */
  lemma ToSigned16Examples()
    ensures forall v :: 0 <= v < 32768 ==> ToSigned16(v) == v
    ensures ToSigned16(65000) == -536 && ToSigned16(65535) == -1 && ToSigned16(32768) == -32768
  {
  }
}
