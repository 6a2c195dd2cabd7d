/// Text fields: `decodeUTF8`, `bufferToString` and `bufferToStringAtOffset`.
///
/// The decoder understands the one-byte (ASCII) and three-byte forms of
/// UTF-8 (section 3 of RFC 3629) and stops at the first NUL byte; every other
/// byte is skipped. Decoded text is a sequence of UTF-16 code units, kept as
/// integers (a lone surrogate such as the one `ED A0 80` produces cannot be a
/// Dafny `char`).
module Utf8 {
  import opened Bytes

  /** The code unit of a three-byte sequence:
      `((b1 & 0x0F) << 12) | ((b2 & 0x3F) << 6) | (b3 & 0x3F)`. */
  function CodeUnit(b1: byte, b2: byte, b3: byte): (u: int)
    ensures 0 <= u < 0x10000
  {
    (b1 % 16) * 4096 + (b2 % 64) * 64 + b3 % 64
  }

  /** `b & 0xF0 == 0xE0`: the lead byte of a three-byte sequence. */
  predicate IsLead3(b: byte) { b / 16 == 0xE }

  /** `b & 0xC0 == 0x80`: a continuation byte. */
  predicate IsCont(b: byte) { b / 64 == 2 }

  /** What the decoding loop appends from position i on, for the window
      ending (exclusively) at `end`. */
  function DecodeFrom(buf: seq<byte>, i: nat, end: int): (s: seq<int>)
    ensures |s| <= (if i < Min(end, |buf|) then Min(end, |buf|) - i else 0)
    ensures forall k :: 0 <= k < |s| ==> 0 <= s[k] < 0x10000
    decreases |buf| - i
  {
    if !(i < end && i < |buf|) then []
    else
      var b1 := buf[i];
      if b1 < 0x80 then
        if b1 == 0 then [] else [b1 as int] + DecodeFrom(buf, i + 1, end)
      else if IsLead3(b1) && i + 2 < end && i + 2 < |buf| then
        if IsCont(buf[i + 1]) && IsCont(buf[i + 2]) then
          [CodeUnit(b1, buf[i + 1], buf[i + 2])] + DecodeFrom(buf, i + 3, end)
        else DecodeFrom(buf, i + 1, end)
      else DecodeFrom(buf, i + 1, end)
  }

  /** `decodeUTF8(buf, start, length)`. */
  function Decode(buf: seq<byte>, start: nat, length: int): seq<int>
  {
    DecodeFrom(buf, start, start + length)
  }

  /** The decoding loop of `decodeUTF8`. */
  method DecodeUTF8(buf: seq<byte>, start: nat, length: int) returns (result: seq<int>)
    ensures result == Decode(buf, start, length)
  {
    result := [];
    var i := start;
    var end := start + length;
    while i < end && i < |buf|
      invariant start <= i
      invariant result + DecodeFrom(buf, i, end) == Decode(buf, start, length)
      decreases |buf| - i
    {
      var byte1 := buf[i];
      if byte1 < 0x80 {
        if byte1 == 0 {
          assert DecodeFrom(buf, i, end) == [];
          break;
        }
        assert DecodeFrom(buf, i, end) == [byte1 as int] + DecodeFrom(buf, i + 1, end);
        result := result + [byte1 as int];
        i := i + 1;
      } else if IsLead3(byte1) && i + 2 < end && i + 2 < |buf| {
        var byte2 := buf[i + 1];
        var byte3 := buf[i + 2];
        if IsCont(byte2) && IsCont(byte3) {
          var codePoint := CodeUnit(byte1, byte2, byte3);
          assert DecodeFrom(buf, i, end) == [codePoint] + DecodeFrom(buf, i + 3, end);
          result := result + [codePoint];
          i := i + 3;
        } else {
          assert DecodeFrom(buf, i, end) == DecodeFrom(buf, i + 1, end);
          i := i + 1;
        }
      } else {
        assert DecodeFrom(buf, i, end) == DecodeFrom(buf, i + 1, end);
        i := i + 1;
      }
    }
    assert DecodeFrom(buf, i, end) == [];
    assert result + [] == result;
  }

  /** Where the window ends is irrelevant once a NUL byte inside it is
      reached: decoding up to the NUL and decoding further give the same
      text. */
  lemma {:induction false} DecodeStopsAtNul(buf: seq<byte>, i: nat, z: nat, end: int)
    requires i <= z < |buf| && z <= end && buf[z] == 0
    ensures DecodeFrom(buf, i, z) == DecodeFrom(buf, i, end)
    decreases z - i
  {
    if i < z {
      var b1 := buf[i];
      if b1 < 0x80 {
        if b1 != 0 {
          DecodeStopsAtNul(buf, i + 1, z, end);
        }
      } else if IsLead3(b1) && i + 2 < z {
        if IsCont(buf[i + 1]) && IsCont(buf[i + 2]) {
          DecodeStopsAtNul(buf, i + 3, z, end);
        } else {
          DecodeStopsAtNul(buf, i + 1, z, end);
        }
      } else {
        DecodeStopsAtNul(buf, i + 1, z, end);
      }
    }
  }

  /** The decoded text depends only on the bytes of the window
      [i, min(end, |buf|)). */
  lemma {:induction false} DecodeWindow(buf: seq<byte>, buf': seq<byte>, i: nat, end: int)
    requires Min(end, |buf|) == Min(end, |buf'|)
    requires forall k :: i <= k < Min(end, |buf|) ==> buf[k] == buf'[k]
    ensures DecodeFrom(buf, i, end) == DecodeFrom(buf', i, end)
    decreases |buf| - i
  {
    if i < end && i < |buf| {
      if buf[i] < 0x80 {
        if buf[i] != 0 {
          DecodeWindow(buf, buf', i + 1, end);
        }
      } else if IsLead3(buf[i]) && i + 2 < end && i + 2 < |buf| && IsCont(buf[i + 1]) && IsCont(buf[i + 2]) {
        DecodeWindow(buf, buf', i + 3, end);
      } else {
        DecodeWindow(buf, buf', i + 1, end);
      }
    }
  }

  /** The number of code units never exceeds the number of bytes in the
      window. */
  lemma DecodeBound(buf: seq<byte>, start: nat, length: int)
    requires start + length <= |buf|
    ensures |Decode(buf, start, length)| <= (if length < 0 then 0 else length)
  {
  }

  /** Bytes 1..0x7F decode to themselves. */
  lemma {:induction false} DecodeAscii(buf: seq<byte>, i: nat)
    requires i <= |buf|
    requires forall k :: i <= k < |buf| ==> 0 < buf[k] < 0x80
    ensures DecodeFrom(buf, i, |buf|) == seq(|buf| - i, k requires 0 <= k < |buf| - i => buf[i + k] as int)
    decreases |buf| - i
  {
    if i < |buf| {
      DecodeAscii(buf, i + 1);
    }
  }

  /** The two-byte form of UTF-8 (lead byte C2..DF) is not understood: both
      of its bytes are skipped. */
  lemma TwoByteFormSkipped(b1: byte, b2: byte)
    requires 0xC2 <= b1 <= 0xDF && IsCont(b2)
    ensures Decode([b1, b2], 0, 2) == []
  {
    assert DecodeFrom([b1, b2], 1, 2) == DecodeFrom([b1, b2], 2, 2);
  }

  /** The encoding the decoder inverts: code units 1..0x7F as one byte,
      all others (0x80..0xFFFF) in the three-byte form. */
  function EncodeUnit(u: int): (r: seq<byte>)
    requires 0 < u < 0x10000
    ensures |r| == 1 || |r| == 3
  {
    if u < 0x80 then [u as byte]
    else [(0xE0 + u / 4096) as byte, (0x80 + (u / 64) % 64) as byte, (0x80 + u % 64) as byte]
  }

  function Encode(us: seq<int>): seq<byte>
    requires forall k :: 0 <= k < |us| ==> 0 < us[k] < 0x10000
  {
    if us == [] then [] else EncodeUnit(us[0]) + Encode(us[1..])
  }

  /** A three-byte sequence decodes back to the unit it encodes. */
  lemma CodeUnitOfEncoding(u: int)
    requires 0x80 <= u < 0x10000
    ensures var e := EncodeUnit(u); IsLead3(e[0]) && IsCont(e[1]) && IsCont(e[2]) && CodeUnit(e[0], e[1], e[2]) == u
  {
    var a, b, c := u / 4096, (u / 64) % 64, u % 64;
    assert u / 64 == a * 64 + b;
    assert u == a * 4096 + b * 64 + c;
  }

  /** Round trip: decoding the encoding of nonzero code units gives them
      back, whatever follows the encoded text. */
  lemma {:induction false} DecodeEncode(us: seq<int>, rest: seq<byte>)
    requires forall k :: 0 <= k < |us| ==> 0 < us[k] < 0x10000
    ensures DecodeFrom(Encode(us) + rest, 0, |Encode(us)|) == us
    decreases |us|
  {
    if us != [] {
      var h := EncodeUnit(us[0]);
      var t := Encode(us[1..]);
      DecodeEncode(us[1..], rest);
      assert Encode(us) + rest == h + (t + rest);
      DecodeUnit(us[0], t + rest, |t|);
      ShiftDecode(h, t + rest, |t|);
    }
  }

  /** The first unit of an encoding is decoded first. */
  lemma DecodeUnit(u: int, r: seq<byte>, n: nat)
    requires 0 < u < 0x10000
    ensures var h := EncodeUnit(u);
      DecodeFrom(h + r, 0, |h| + n) == [u] + DecodeFrom(h + r, |h|, |h| + n)
  {
    var h := EncodeUnit(u);
    var buf := h + r;
    if u >= 0x80 {
      CodeUnitOfEncoding(u);
      assert buf[0] == h[0] && buf[1] == h[1] && buf[2] == h[2];
    } else {
      assert buf[0] == u;
    }
  }

  /** Decoding after a prefix h that ends at a unit boundary is decoding
      the rest on its own. */
  lemma {:induction false} ShiftDecode(h: seq<byte>, r: seq<byte>, n: nat)
    requires n <= |r|
    ensures DecodeFrom(h + r, |h|, |h| + n) == DecodeFrom(r, 0, n)
  {
    assert forall m :: 0 <= m < |r| ==> (h + r)[|h| + m] == r[m];
    ShiftFrom(h + r, r, |h|, 0, n);
  }

  /** Decoding `r` from i is decoding, from d + i, a buffer that holds `r`
      at offset d and ends where `r` ends. */
  lemma {:induction false} ShiftFrom(buf: seq<byte>, r: seq<byte>, d: nat, i: nat, n: nat)
    requires n <= |r| && |buf| == d + |r|
    requires forall m :: 0 <= m < |r| ==> buf[d + m] == r[m]
    ensures DecodeFrom(buf, d + i, d + n) == DecodeFrom(r, i, n)
    decreases |r| - i
  {
    var j := d + i;
    if i < n && i < |r| {
      assert buf[j] == r[i];
      if r[i] < 0x80 {
        if r[i] != 0 {
          ShiftFrom(buf, r, d, i + 1, n);
          assert DecodeFrom(r, i, n) == [r[i] as int] + DecodeFrom(r, i + 1, n);
          assert DecodeFrom(buf, j, d + n) == [r[i] as int] + DecodeFrom(buf, j + 1, d + n);
        }
      } else if IsLead3(r[i]) && i + 2 < n && i + 2 < |r| {
        assert buf[j + 1] == r[i + 1] && buf[j + 2] == r[i + 2];
        if IsCont(r[i + 1]) && IsCont(r[i + 2]) {
          ShiftFrom(buf, r, d, i + 3, n);
          assert DecodeFrom(r, i, n) == [CodeUnit(r[i], r[i + 1], r[i + 2])] + DecodeFrom(r, i + 3, n);
          assert DecodeFrom(buf, j, d + n) == [CodeUnit(r[i], r[i + 1], r[i + 2])] + DecodeFrom(buf, j + 3, d + n);
        } else {
          ShiftFrom(buf, r, d, i + 1, n);
          assert DecodeFrom(r, i, n) == DecodeFrom(r, i + 1, n);
          assert DecodeFrom(buf, j, d + n) == DecodeFrom(buf, j + 1, d + n);
        }
      } else {
        ShiftFrom(buf, r, d, i + 1, n);
        assert DecodeFrom(r, i, n) == DecodeFrom(r, i + 1, n);
        assert DecodeFrom(buf, j, d + n) == DecodeFrom(buf, j + 1, d + n);
      }
    }
  }




  /** `bufferToString`: the text before the first NUL byte (or the whole
      buffer). */
  method BufferToString(buf: seq<byte>) returns (text: seq<int>)
    ensures text == Decode(buf, 0, |buf|)
  {
    var validLength := |buf|;
    var i := 0;
    while i < |buf|
      invariant 0 <= i <= |buf|
      invariant forall k :: 0 <= k < i ==> buf[k] != 0
    {
      if buf[i] == 0 {
        validLength := i;
        break;
      }
      i := i + 1;
    }
    if validLength < |buf| {
      DecodeStopsAtNul(buf, 0, validLength, |buf|);
    }
    if validLength > 0 {
      text := DecodeUTF8(buf, 0, validLength);
    } else {
      text := [];
    }
  }

  /** `bufferToStringAtOffset`: the text of the window
      [offset, offset + maxLength) before its first NUL byte. Cutting the
      window at the NUL gives the same text as decoding the whole window. */
  method BufferToStringAtOffset(buf: seq<byte>, offset: nat, maxLength: int) returns (text: seq<int>)
    ensures text == Decode(buf, offset, maxLength)
  {
    var validLength := maxLength;
    var i := 0;
    while i < maxLength && offset + i < |buf|
      invariant 0 <= i && (i == 0 || offset + i <= |buf|)
      invariant forall k :: offset <= k < offset + i ==> buf[k] != 0
      decreases maxLength - i
    {
      if buf[offset + i] == 0 {
        validLength := i;
        break;
      }
      i := i + 1;
    }
    if validLength < maxLength {
      DecodeStopsAtNul(buf, offset, offset + validLength, offset + maxLength);
    }
    if validLength > 0 {
      text := DecodeUTF8(buf, offset, validLength);
    } else {
      text := [];
    }
  }
}
