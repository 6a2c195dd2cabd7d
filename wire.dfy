/// The packet codec: `checksum`, `PacketHead.fromFields` (the encoder), the
/// `PacketHead` constructor (the parser) and `verifyChecksum`.
///
/// Wire layout: 55 AA cmd algo len content.. cs, where `content` is the data
/// followed, when a name is given, by the name's length and its bytes, and
/// `cs` is the sum of every preceding byte modulo 256.
module Wire {
  import opened Bytes
  import opened Protocol

  /** The checksum of a byte sequence: the sum of its bytes, modulo 256. */
  function Checksum(s: seq<byte>): byte
  {
    Sum(s) % 256
  }

  /** `checksum(buf)`: accumulates `(sum + buf[i]) & 0xFF` byte by byte. */
  method ComputeChecksum(buf: seq<byte>) returns (sum: byte)
    ensures sum == Sum(buf) % 256
  {
    sum := 0;
    for i := 0 to |buf|
      invariant sum == Sum(buf[..i]) % 256
    {
      SumSnoc(buf, i);
      sum := (sum + buf[i]) % 256;
    }
    assert buf[..|buf|] == buf;
  }

  /** The argument of `fromFields`. The two sync overrides are optional
      (absent means 0x55 and 0xAA); a name is given when `name` is not empty
      (`name` stands for the bytes of `Buffer.fromUTF8(name)`). */
  datatype Fields = Fields(head55: Option<int>, headaa: Option<int>, cmd: int, algoId: int,
                           data: seq<byte>, name: seq<byte>)

  /** Bytes after the length byte and before the checksum: the data, then,
      when a name is given, the name's length and the name. */
  function Content(data: seq<byte>, name: seq<byte>): seq<byte>
  {
    data + (if |name| > 0 then [|name| % 256] + name else [])
  }

  function HeadByte(h: Option<int>, default: byte): byte
  {
    match h
    case Some(v) => v % 256
    case None => default
  }

  /** The encoded packet without its checksum byte. */
  function EncodedBody(f: Fields): seq<byte>
  {
    var content := Content(f.data, f.name);
    [HeadByte(f.head55, 0x55), HeadByte(f.headaa, 0xAA), f.cmd % 256, f.algoId % 256, |content| % 256]
      + content
  }

  /** The encoded packet. */
  function Encode(f: Fields): seq<byte>
  {
    var body := EncodedBody(f);
    body + [Checksum(body)]
  }

  /** `PacketHead.fromFields`: fills a zeroed buffer of the total length,
      then sums it (the slice taken is longer than the buffer and is clamped,
      so it includes the final byte, still 0) and stores the sum last. */
  method FromFields(f: Fields) returns (r: seq<byte>)
    ensures r == Encode(f)
  {
    var data := f.data;
    var nameData := f.name;
    var totalLength := HeaderSize + |data| + 1;
    if |nameData| > 0 {
      totalLength := totalLength + |nameData| + 1;
    }
    var buf := FillPacketBuffer(f, totalLength);
    ghost var body := EncodedBody(f);
    SumZeroSnoc(body);
    ghost var whole := buf[..];
    var cs := ComputeChecksum(Slice(buf[..], 0, HeaderSize + totalLength - 1));
    assert Slice(whole, 0, HeaderSize + totalLength - 1) == whole;
    buf[totalLength - 1] := cs;
    r := buf[..];
    assert r == body + [cs] by {
      assert r == whole[|body| := cs];
      SetLast(body, 0, cs);
    }
  }

  /** The part of `fromFields` before the checksum: header, data, and the
      name with its length byte, in a zeroed buffer of the total length. */
  method FillPacketBuffer(f: Fields, totalLength: nat) returns (buf: array<byte>)
    requires totalLength == HeaderSize + |f.data| + 1 + (if |f.name| > 0 then |f.name| + 1 else 0)
    ensures fresh(buf) && buf[..] == EncodedBody(f) + [0]
  {
    var data := f.data;
    var nameData := f.name;
    buf := NewPacketBuffer(f, totalLength);
    ghost var head := EncodedBody(f)[..5];
    CopyInto(buf, 5, data);
    DataPlaced(head, data, totalLength - 5);
    if |nameData| > 0 {
      buf[5 + |data|] := |nameData| % 256;
      LengthPlaced(head + data, |nameData| % 256, |nameData| + 1);
      CopyName(buf, 5 + |data|, nameData, head + data);
      NamedBody(f);
    } else {
      UnnamedBody(f, totalLength - 5 - |data|);
    }
  }

  /** Copying the data over the zeros after a five-byte head. */
  lemma DataPlaced(head: seq<byte>, data: seq<byte>, m: nat)
    requires |head| == 5 && |data| <= m
    ensures var z := head + Zeros(m);
      z[..5] + data + z[5 + |data|..] == head + data + Zeros(m - |data|)
  {
    var z := head + Zeros(m);
    assert z[5 + |data|..] == Zeros(m - |data|);
  }

  /** Writing the name length right after the data. */
  lemma LengthPlaced(p: seq<byte>, x: byte, k: nat)
    ensures (p + Zeros(k + 1))[|p| := x] == p + [x] + Zeros(k)
  {
    assert Zeros(k + 1) == [0] + Zeros(k);
  }

  lemma NamedBody(f: Fields)
    requires |f.name| > 0
    ensures EncodedBody(f)[..5] + f.data + Content([], f.name) + [0] == EncodedBody(f) + [0]
  {
    var head := EncodedBody(f)[..5];
    assert EncodedBody(f) == head + Content(f.data, f.name);
    Assoc(head, f.data, Content([], f.name));
  }

  lemma UnnamedBody(f: Fields, k: nat)
    requires |f.name| == 0 && k == 1
    ensures EncodedBody(f)[..5] + f.data + Zeros(k) == EncodedBody(f) + [0]
  {
    assert Zeros(k) == [0];
    assert Content(f.data, f.name) == f.data;
    assert EncodedBody(f) == EncodedBody(f)[..5] + f.data;
  }

  lemma Assoc(a: seq<byte>, b: seq<byte>, c: seq<byte>)
    ensures (a + b) + c == a + (b + c)
  {
  }

  lemma SetLast(s: seq<byte>, x: byte, y: byte)
    ensures (s + [x])[|s| := y] == s + [y]
  {
  }

  /** The second `for` loop of `fromFields`, after the name length byte. */
  method CopyName(buf: array<byte>, at: nat, nameData: seq<byte>, ghost prefix: seq<byte>)
    requires |nameData| > 0 && |prefix| == at
    requires buf[..] == prefix + [|nameData| % 256] + Zeros(|nameData| + 1)
    modifies buf
    ensures buf[..] == prefix + Content([], nameData) + [0]
  {
    ghost var p := prefix + [|nameData| % 256];
    assert buf[..] == p + Zeros(|nameData| + 1);
    CopyInto(buf, at + 1, nameData);
    assert (p + Zeros(|nameData| + 1))[|p| + |nameData|..] == [0];
  }

  /** The first part of `fromFields`: a zeroed buffer of the total length
      with the five header bytes written; the length byte is the data
      length, increased by the name length and one when a name is given. */
  method NewPacketBuffer(f: Fields, totalLength: nat) returns (buf: array<byte>)
    requires totalLength == HeaderSize + |f.data| + 1 + (if |f.name| > 0 then |f.name| + 1 else 0)
    ensures fresh(buf) && buf[..] == EncodedBody(f)[..5] + Zeros(totalLength - 5)
  {
    buf := new byte[totalLength](_ => 0);
    buf[0] := HeadByte(f.head55, 0x55);
    buf[1] := HeadByte(f.headaa, 0xAA);
    buf[2] := f.cmd % 256;
    buf[3] := f.algoId % 256;
    buf[4] := |f.data| % 256;
    if |f.name| > 0 {
      buf[4] := (buf[4] + |f.name| + 1) % 256;
      ModAddLeft(|f.data|, |f.name| + 1);
    }
    assert buf[..5] == EncodedBody(f)[..5];
    assert forall k :: 5 <= k < totalLength ==> buf[k] == 0;
  }

  lemma ModAddLeft(a: nat, b: nat)
    ensures (a % 256 + b) % 256 == (a + b) % 256
  {
    var q := a / 256;
    assert a == 256 * q + a % 256;
    assert a + b == 256 * q + (a % 256 + b);
  }

  /** The `for` loops of `fromFields` that copy a buffer into `buf` at `at`. */
  method CopyInto(buf: array<byte>, at: nat, src: seq<byte>)
    requires at + |src| <= buf.Length
    modifies buf
    ensures buf[..] == old(buf[..])[..at] + src + old(buf[..])[at + |src|..]
  {
    for i := 0 to |src|
      invariant buf[..] == old(buf[..])[..at] + src[..i] + old(buf[..])[at + i..]
    {
      buf[at + i] := src[i];
      assert src[..i + 1] == src[..i] + [src[i]];
    }
    assert src[..|src|] == src;
  }

  /** Encoder layout, byte by byte. */
  lemma EncodeLayout(f: Fields)
    ensures var r := Encode(f);
      var extra := if |f.name| > 0 then |f.name| + 1 else 0;
      && |r| == 6 + |f.data| + extra
      && r[0] == HeadByte(f.head55, 0x55) && r[1] == HeadByte(f.headaa, 0xAA)
      && r[2] == f.cmd % 256 && r[3] == f.algoId % 256
      && r[4] == (|f.data| + extra) % 256
      && (forall i :: 0 <= i < |f.data| ==> r[5 + i] == f.data[i])
      && (|f.name| > 0 ==> r[5 + |f.data|] == |f.name| % 256)
      && (forall i :: 0 <= i < |f.name| ==> r[6 + |f.data| + i] == f.name[i])
      && r[|r| - 1] == Sum(r[..|r| - 1]) % 256
  {
    var r := Encode(f);
    assert r[..|r| - 1] == EncodedBody(f);
  }

  /** The fields the `PacketHead` constructor reads from a buffer. */
  datatype PacketHead = PacketHead(head55: byte, headaa: byte, cmd: byte, algoId: byte,
                                   dataLength: byte, data: seq<byte>, cs: byte)

  /** The `PacketHead` constructor. A buffer shorter than its declared length
      gives empty data and checksum 0; otherwise `data` is
      `buffer.slice(5, 5 + dataLength)` (a length, so it runs on past the
      content when the buffer is longer) and `cs` the byte after the content. */
  function ParseHead(buffer: seq<byte>): (h: PacketHead)
    ensures && h.head55 == At(buffer, 0) && h.headaa == At(buffer, 1) && h.cmd == At(buffer, 2)
            && h.algoId == At(buffer, 3) && h.dataLength == At(buffer, 4)
    ensures |buffer| < HeaderSize + h.dataLength + 1 ==> h.data == [] && h.cs == 0
    ensures |buffer| >= HeaderSize + h.dataLength + 1 ==>
      && h.data == buffer[HeaderSize..Min(|buffer|, 2 * HeaderSize + h.dataLength)]
      && h.data[..h.dataLength] == buffer[HeaderSize..HeaderSize + h.dataLength]
      && h.cs == buffer[HeaderSize + h.dataLength]
  {
    var dataLength := At(buffer, 4);
    if |buffer| < HeaderSize + dataLength + 1 then
      PacketHead(At(buffer, 0), At(buffer, 1), At(buffer, 2), At(buffer, 3), dataLength, [], 0)
    else
      PacketHead(At(buffer, 0), At(buffer, 1), At(buffer, 2), At(buffer, 3), dataLength,
                 Slice(buffer, 5, 5 + dataLength), buffer[5 + dataLength])
  }

  /** The first n bytes of d, padded with zeros: what copying d into a
      buffer of n bytes leaves there (writes past its end are ignored). */
  function Fit(d: seq<byte>, n: nat): seq<byte>
  {
    seq(n, i requires 0 <= i < n => At(d, i))
  }

  /** The bytes `verifyChecksum` sums: the five header fields and the data
      fitted into `dataLength` bytes. */
  function CheckedBytes(h: PacketHead): seq<byte>
  {
    [h.head55, h.headaa, h.cmd, h.algoId, h.dataLength] + Fit(h.data, h.dataLength)
  }

  /** What `verifyChecksum` decides. */
  predicate ChecksumMatches(h: PacketHead)
  {
    Checksum(CheckedBytes(h)) == h.cs
  }

  /** `PacketHead.verifyChecksum`: copies the header and the data into a
      zeroed buffer of 5 + dataLength bytes, sums it, and compares. */
  method VerifyChecksum(h: PacketHead) returns (ok: bool)
    ensures ok <==> ChecksumMatches(h)
  {
    var buf := new byte[HeaderSize + h.dataLength](_ => 0);
    buf[0] := h.head55;
    buf[1] := h.headaa;
    buf[2] := h.cmd;
    buf[3] := h.algoId;
    buf[4] := h.dataLength;
    ghost var head := buf[..5];
    assert head == [h.head55, h.headaa, h.cmd, h.algoId, h.dataLength];
    for i := 0 to |h.data|
      invariant buf[..5] == head
      invariant forall k :: 5 <= k < buf.Length ==> buf[k] == if k - 5 < i then At(h.data, k - 5) else 0
    {
      if 5 + i < buf.Length {  // a write past the end of a Buffer is ignored
        buf[5 + i] := h.data[i];
      }
    }
    CheckedBuffer(h, buf[..]);
    var cs := ComputeChecksum(buf[..]);
    ok := cs == h.cs;
  }

  /** The buffer `verifyChecksum` builds holds exactly the checked bytes. */
  lemma CheckedBuffer(h: PacketHead, b: seq<byte>)
    requires |b| == HeaderSize + h.dataLength
    requires b[..5] == [h.head55, h.headaa, h.cmd, h.algoId, h.dataLength]
    requires forall k :: 5 <= k < |b| ==> b[k] == if k - 5 < |h.data| then At(h.data, k - 5) else 0
    ensures b == CheckedBytes(h)
  {
    var c := CheckedBytes(h);
    forall k | 0 <= k < |b|
      ensures b[k] == c[k]
    {
      if k < 5 {
        assert b[k] == b[..5][k];
      }
    }
  }

  /** Parse round-trip: parsing an encoded packet recovers its header, its
      content and its checksum, and the checksum verifies. */
  lemma {:induction false} ParseEncoded(f: Fields)
    requires |Content(f.data, f.name)| < 256
    ensures var e := Encode(f); var h := ParseHead(e); var content := Content(f.data, f.name);
      && h.head55 == HeadByte(f.head55, 0x55) && h.headaa == HeadByte(f.headaa, 0xAA)
      && h.cmd == f.cmd % 256 && h.algoId == f.algoId % 256
      && h.dataLength == |content| && h.cs == e[|e| - 1]
      && |h.data| >= h.dataLength && h.data[..h.dataLength] == content
      && ChecksumMatches(h)
  {
    var e := Encode(f);
    var body := EncodedBody(f);
    var content := Content(f.data, f.name);
    var n := |content|;
    assert e[4] == n;
    var h := ParseHead(e);
    assert h.data == e[5..6 + n] == content + [Checksum(body)];
    assert Fit(h.data, n) == content;
    assert CheckedBytes(h) == body;
  }

  /** A buffer cut short of the length its header declares parses with
      empty data and checksum 0, whatever bytes it holds. */
  lemma TruncatedPacket(f: Fields, n: nat)
    requires |Content(f.data, f.name)| < 256
    requires 5 <= n < |Encode(f)|
    ensures var h := ParseHead(Encode(f)[..n]);
      h.cmd == f.cmd % 256 && h.algoId == f.algoId % 256 && h.data == [] && h.cs == 0
  {
    var e := Encode(f);
    assert e[..n][4] == e[4] == |Content(f.data, f.name)|;
  }

  /** Changing any one byte before the checksum, to a different value,
      changes the checksum. */
  lemma ChecksumDetectsChange(s: seq<byte>, p: nat, v: byte)
    requires p < |s| && v != s[p]
    ensures Checksum(s[p := v]) != Checksum(s)
  {
    SumUpdate(s, p, v);
  }

  /** Corrupting any single byte of an encoded packet other than its length
      byte makes `verifyChecksum` fail. */
  lemma CorruptedPacketFails(f: Fields, p: nat, v: byte)
    requires |Content(f.data, f.name)| < 256
    requires p < |Encode(f)| && p != 4 && v != Encode(f)[p]
    ensures !ChecksumMatches(ParseHead(Encode(f)[p := v]))
  {
    var e := Encode(f);
    var body := EncodedBody(f);
    var n := |Content(f.data, f.name)|;
    var e' := e[p := v];
    assert e'[4] == n;
    var h := ParseHead(e');
    assert Fit(h.data, n) == e'[5..5 + n];
    assert CheckedBytes(h) == e'[..5 + n];
    if p < 5 + n {
      assert e'[..5 + n] == body[p := v];
      ChecksumDetectsChange(body, p, v);
    } else {
      assert e'[..5 + n] == body;
    }
  }

  /** The handshake packet `beginInternal` sends: KNOCK, algorithm 0 and a
      10-byte payload whose first byte is 1. */
  lemma KnockPacketBytes()
    ensures Encode(Fields(None, None, CommandKnock, AlgorithmAny, [1] + Zeros(9), []))
         == [0x55, 0xAA, 0x20, 0x00, 0x0A, 0x01] + Zeros(9) + [0x2A]
  {
    var body := EncodedBody(Fields(None, None, CommandKnock, AlgorithmAny, [1] + Zeros(9), []));
    assert body == [0x55, 0xAA, 0x20, 0x00, 0x0A, 0x01] + Zeros(9);
    SumConcat([0x55, 0xAA, 0x20, 0x00, 0x0A, 0x01], Zeros(9));
    ZerosSum(9);
    var s: seq<byte> := [0x55, 0xAA, 0x20, 0x00, 0x0A, 0x01];
    assert s[..0] == [];
    SumSnoc(s, 0); SumSnoc(s, 1); SumSnoc(s, 2); SumSnoc(s, 3); SumSnoc(s, 4); SumSnoc(s, 5);
    assert s[..6] == s;
  }

  lemma {:induction false} ZerosSum(n: nat)
    ensures Sum(Zeros(n)) == 0
  {
    if n > 0 {
      assert Zeros(n)[..n - 1] == Zeros(n - 1);
      ZerosSum(n - 1);
    }
  }
}
