/// Result records: `Result` (length-prefixed name and content after the
/// ten fixed bytes) and the landmark variants `FaceResult`, `HandResult` and
/// `PoseResult`, as one tagged value chosen by the algorithm at decode time.
module Records {
  import opened Bytes
  import opened Protocol
  import opened Payload
  import opened Utf8

  datatype Point = Point(x: int, y: int)

  datatype Kind = Plain | Face | Hand | Pose

  /** A decoded record. `buffer` is the payload it was decoded from (the
      fixed-offset fields are read from it), `used` is never set to anything
      but 0, and `landmarks` is empty for a plain record. */
  datatype Record = Record(kind: Kind, buffer: seq<byte>, used: int, name: seq<int>, content: seq<int>, landmarks: seq<Point>)

  /** `Result`'s name and content. The name has length `buf[10]` from
      offset 11; the content has length `buf[11 + nameLength]` right after.
      Without a name, content is read from offset 12 only when the buffer
      holds more than 12 + its length bytes. */
  function ParseText(buf: seq<byte>): (r: (seq<int>, seq<int>))
    ensures At(buf, 10) == 0 ==> r.0 == []
    ensures At(buf, 10) == 0 && (|buf| <= 12 + At(buf, 11) || At(buf, 11) == 0) ==> r.1 == []
  {
    var nameLength := At(buf, 10);
    if nameLength == 0 then
      if |buf| > 11 then
        var contentLength: int := buf[11];
        if contentLength > 0 && |buf| > 12 + contentLength then ([], Decode(buf, 12, contentLength))
        else ([], [])
      else ([], [])
    else
      var contentLength := At(buf, 11 + nameLength);
      (Decode(buf, 11, nameLength), Decode(buf, 12 + nameLength, contentLength))
  }

  /** Where the landmarks start: `12 + content_length + name_length`. */
  function LandmarkOffset(buf: seq<byte>): nat
  {
    12 + At(buf, 11 + At(buf, 10)) + At(buf, 10)
  }

  /** Landmarks read as consecutive (x, y) pairs of 16-bit fields. */
  function LandmarksFrom(buf: seq<byte>, offset: int, count: nat): (r: seq<Point>)
    ensures |r| == count
    decreases count
  {
    if count == 0 then [] else [Point(U16(buf, offset), U16(buf, offset + 2))] + LandmarksFrom(buf, offset + 4, count - 1)
  }

  /** Landmark j reads x at offset + 4j and y at offset + 4j + 2. */
  lemma {:induction false} LandmarkAt(buf: seq<byte>, offset: int, count: nat, j: nat)
    requires j < count
    ensures LandmarksFrom(buf, offset, count)[j] == Point(U16(buf, offset + 4 * j), U16(buf, offset + 4 * j + 2))
    decreases count
  {
    if j > 0 {
      LandmarkAt(buf, offset + 4, count - 1, j - 1);
    }
  }

  /** Every landmark j reads x at offset + 4j and y at offset + 4j + 2. */
  lemma LandmarksAll(buf: seq<byte>, offset: int, count: nat)
    ensures forall j :: 0 <= j < count ==>
      LandmarksFrom(buf, offset, count)[j] == Point(U16(buf, offset + 4 * j), U16(buf, offset + 4 * j + 2))
  {
    forall j | 0 <= j < count
      ensures LandmarksFrom(buf, offset, count)[j] == Point(U16(buf, offset + 4 * j), U16(buf, offset + 4 * j + 2))
    {
      LandmarkAt(buf, offset, count, j);
    }
  }

  /** Points per variant: 5 for a face, 21 for a hand, 17 for a pose. */
  function PointCount(k: Kind): nat
  {
    match k
    case Plain => 0
    case Face => 5
    case Hand => 21
    case Pose => 17
  }

  /** The variant `getResultInternal` decodes a block with. */
  function KindFor(algo: int): (k: Kind)
    ensures k == Plain <==> algo != AlgorithmFaceRecognition && algo != AlgorithmHandRecognition && algo != AlgorithmPoseRecognition
  {
    if algo == AlgorithmFaceRecognition then Face
    else if algo == AlgorithmHandRecognition then Hand
    else if algo == AlgorithmPoseRecognition then Pose
    else Plain
  }

  /** Decodes a payload as a record of the given variant: its text, and
      its landmarks as 16-bit pairs right after the text. */
  function DecodeRecord(k: Kind, buf: seq<byte>): (r: Record)
    ensures r.kind == k && r.buffer == buf && r.used == 0
    ensures (r.name, r.content) == ParseText(buf)
    ensures |r.landmarks| == PointCount(k)
    ensures forall j :: 0 <= j < PointCount(k) ==>
      r.landmarks[j] == Point(U16(buf, LandmarkOffset(buf) + 4 * j), U16(buf, LandmarkOffset(buf) + 4 * j + 2))
  {
    LandmarksAll(buf, LandmarkOffset(buf), PointCount(k));
    var text := ParseText(buf);
    Record(k, buf, 0, text.0, text.1, LandmarksFrom(buf, LandmarkOffset(buf), PointCount(k)))
  }

  /** The bytes a device sends for a record: ten fixed bytes, the name with
      its length, the content with its length, then whatever follows. */
  function RecordBytes(fixed: seq<byte>, name: seq<byte>, content: seq<byte>, tail: seq<byte>): seq<byte>
    requires |fixed| == 10 && |name| < 256 && |content| < 256
  {
    fixed + [|name| as byte] + name + [|content| as byte] + content + tail
  }

  /** Code units the decoder can return: 1..0xFFFF. */
  predicate Units(us: seq<int>) { forall k :: 0 <= k < |us| ==> 0 < us[k] < 0x10000 }

  /** Decoding a record recovers a non-empty name and a content, each sent
      as UTF-8 (one byte per unit below 0x80, three bytes otherwise), and
      the landmarks start right after them. */
  lemma RecordRoundTrip(fixed: seq<byte>, nu: seq<int>, cu: seq<int>, tail: seq<byte>)
    requires Units(nu) && Units(cu)
    requires |fixed| == 10 && 0 < |Encode(nu)| < 256 && |Encode(cu)| < 256
    ensures var name, content := Encode(nu), Encode(cu);
      var buf := RecordBytes(fixed, name, content, tail);
      && ParseText(buf) == (nu, cu)
      && LandmarkOffset(buf) == 12 + |name| + |content|
  {
    var name, content := Encode(nu), Encode(cu);
    var buf := RecordBytes(fixed, name, content, tail);
    NamedLayout(fixed, name, content, tail);
    WindowIsEncoding(buf, 11, nu, fixed + [|name| as byte], [|content| as byte] + content + tail);
    WindowIsEncoding(buf, 12 + |name|, cu, fixed + [|name| as byte] + name + [|content| as byte], tail);
  }

  /** Where a record with a name keeps its text: the name from offset 11,
      the content right after its length byte. */
  lemma NamedLayout(fixed: seq<byte>, name: seq<byte>, content: seq<byte>, tail: seq<byte>)
    requires |fixed| == 10 && 0 < |name| < 256 && |content| < 256
    ensures var buf := RecordBytes(fixed, name, content, tail);
      && buf == (fixed + [|name| as byte]) + name + ([|content| as byte] + content + tail)
      && buf == (fixed + [|name| as byte] + name + [|content| as byte]) + content + tail
      && ParseText(buf) == (Decode(buf, 11, |name|), Decode(buf, 12 + |name|, |content|))
      && LandmarkOffset(buf) == 12 + |name| + |content|
  {
    var buf := RecordBytes(fixed, name, content, tail);
    var n := |name|;
    assert buf[10] == n;
    assert buf[11 + n] == |content|;
  }

  /** Without a name, the content is recovered only when at least one byte
      follows it; when the record ends with its content, it is dropped. */
  lemma NamelessRecord(fixed: seq<byte>, cu: seq<int>, tail: seq<byte>)
    requires Units(cu)
    requires |fixed| == 10 && 0 < |Encode(cu)| < 256
    ensures var buf := RecordBytes(fixed, [], Encode(cu), tail);
      ParseText(buf) == ([], if |tail| > 0 then cu else [])
  {
    var content := Encode(cu);
    var buf := RecordBytes(fixed, [], content, tail);
    assert buf[10] == 0 && buf[11] == |content|;
    if |tail| > 0 {
      WindowIsEncoding(buf, 12, cu, fixed + [0, |content| as byte], tail);
    }
  }

  /** Decoding a window that holds exactly the encoding of `us` gives `us`. */
  lemma WindowIsEncoding(buf: seq<byte>, at: nat, us: seq<int>, before: seq<byte>, after: seq<byte>)
    requires Units(us)
    requires buf == before + Encode(us) + after && |before| == at
    ensures Decode(buf, at, |Encode(us)|) == us
  {
    var e := Encode(us);
    assert buf == before + (e + after);
    ShiftDecode(before, e + after, |e|);
    DecodeEncode(us, after);
  }

  /** The landmarks of a face, hand or pose record are the 16-bit pairs
      right after its name and content, whatever the text holds. */
  lemma RecordLandmarks(k: Kind, fixed: seq<byte>, name: seq<byte>, content: seq<byte>, tail: seq<byte>, j: nat)
    requires |fixed| == 10 && |name| < 256 && |content| < 256 && j < PointCount(k)
    ensures var buf := RecordBytes(fixed, name, content, tail);
      var off := 12 + |name| + |content|;
      DecodeRecord(k, buf).landmarks[j] == Point(U16(buf, off + 4 * j), U16(buf, off + 4 * j + 2))
  {
    var buf := RecordBytes(fixed, name, content, tail);
    assert buf[10] == |name|;
    assert buf[11 + |name|] == |content|;
    assert LandmarkOffset(buf) == 12 + |name| + |content|;
  }

}
