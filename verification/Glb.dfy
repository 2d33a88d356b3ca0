/** GLB framing, as section 4.4 of the glTF 2.0 specification lays it out: a 12-byte header and a
    first chunk that holds JSON.  JSON decoding is a parameter. */
module Glb {
  import opened Wrappers
  import opened Utf8

  /** What decoding bytes as JSON gives. */
  datatype Loaded<T> = Object(value: T) | NotObject | Malformed

  datatype GlbError =
    | BadHeader | UnsupportedVersion(version: nat) | LengthMismatch
    | IncompleteHeader | BadChunk | BadJson | RootNotObject

  // ---- Little-endian words ----

  const WORD := 0x1_0000_0000

  function ReadWord(bs: seq<Byte>): (n: nat)
    requires |bs| == 4
    ensures n < WORD
  {
    var d: seq<int> := bs;
    d[0] + 256 * (d[1] + 256 * (d[2] + 256 * d[3]))
  }

  function WriteWord(n: nat): (bs: seq<Byte>)
    requires n < WORD
    ensures |bs| == 4
  {
    var n1 := n / 256;
    var n2 := n1 / 256;
    [n % 256, n1 % 256, n2 % 256, n2 / 256]
  }

  lemma ReadInvertsWrite(n: nat)
    requires n < WORD
    ensures ReadWord(WriteWord(n)) == n
  {
  }

  lemma WriteInvertsRead(bs: seq<Byte>)
    requires |bs| == 4
    ensures WriteWord(ReadWord(bs)) == bs
  {
    var n := ReadWord(bs);
    var d: seq<int> := bs;
    assert n / 256 == d[1] + 256 * (d[2] + 256 * d[3]);
    assert n / 256 / 256 == d[2] + 256 * d[3];
  }

  // ---- Reading ----

  const MAGIC: seq<Byte> := [0x67, 0x6C, 0x54, 0x46]
  const JSON_CHUNK := 0x4E4F_534A

  /** The bytes `rstrip(b"\x00 \t\r\n")` removes. */
  predicate IsPadding(b: Byte) {
    b == 0x00 || b == 0x20 || b == 0x09 || b == 0x0D || b == 0x0A
  }

  function StripPadding(bs: seq<Byte>): (r: seq<Byte>)
    ensures r <= bs
    ensures r != [] ==> !IsPadding(r[|r| - 1])
    ensures forall i | |r| <= i < |bs| :: IsPadding(bs[i])
  {
    if bs != [] && IsPadding(bs[|bs| - 1]) then StripPadding(bs[..|bs| - 1]) else bs
  }

  function GlbJson<T>(data: seq<Byte>, loads: seq<Byte> -> Loaded<T>): Result<T, GlbError> {
    if |data| < 20 then Err(IncompleteHeader)
    else
      var length, kind := ReadWord(data[12..16]), ReadWord(data[16..20]);
      if kind != JSON_CHUNK || 20 + length > |data| then Err(BadChunk)
      else
        Decoded(loads(StripPadding(data[20..20 + length])))
  }

  /** The checks of `_validate_glb`, up to the decoded payload. */
  function ReadGlb<T>(data: seq<Byte>, loads: seq<Byte> -> Loaded<T>): Result<T, GlbError> {
    if |data| < 12 || data[..4] != MAGIC then Err(BadHeader)
    else
      var version, declared := ReadWord(data[4..8]), ReadWord(data[8..12]);
      if version != 2 then Err(UnsupportedVersion(version))
      else if declared != |data| then Err(LengthMismatch)
      else GlbJson(data, loads)
  }

  // ---- Frames ----

  /** A JSON text, its padding, and whatever chunks follow. */
  datatype Frame = Frame(json: seq<Byte>, padding: seq<Byte>, rest: seq<Byte>) {
    function Size(): nat {
      20 + |json| + |padding| + |rest|
    }

    predicate Valid() {
      && Size() < WORD && (json != [] ==> !IsPadding(json[|json| - 1]))
      && forall i | 0 <= i < |padding| :: IsPadding(padding[i])
    }
  }

  function Header(size: nat, chunk: nat): (bs: seq<Byte>)
    requires size < WORD && chunk < WORD
    ensures |bs| == 20
  {
    MAGIC + WriteWord(2) + WriteWord(size) + WriteWord(chunk) + WriteWord(JSON_CHUNK)
  }

  function Bytes(f: Frame): seq<Byte>
    requires f.Valid()
  {
    Header(f.Size(), |f.json| + |f.padding|) + (f.json + f.padding + f.rest)
  }

  lemma {:induction false} StripFrame(json: seq<Byte>, padding: seq<Byte>)
    requires json != [] ==> !IsPadding(json[|json| - 1])
    requires forall i | 0 <= i < |padding| :: IsPadding(padding[i])
    ensures StripPadding(json + padding) == json
    decreases padding
  {
    var bs := json + padding;
    if padding == [] {
      assert bs == json;
    } else {
      assert bs[..|bs| - 1] == json + padding[..|padding| - 1];
      assert bs[|bs| - 1] == padding[|padding| - 1];
      StripFrame(json, padding[..|padding| - 1]);
    }
  }

  function Decoded<T>(loaded: Loaded<T>): Result<T, GlbError> {
    match loaded
    case Object(v) => Ok(v)
    case NotObject => Err(RootNotObject)
    case Malformed => Err(BadJson)
  }

  lemma ReadFrom<T>(data: seq<Byte>, json: seq<Byte>, padding: seq<Byte>, loads: seq<Byte> -> Loaded<T>)
    requires var chunk := |json| + |padding|;
             && 20 + chunk <= |data| && data[..4] == MAGIC && ReadWord(data[4..8]) == 2
             && ReadWord(data[8..12]) == |data|
             && ReadWord(data[12..16]) == chunk && ReadWord(data[16..20]) == JSON_CHUNK
             && data[20..20 + chunk] == json + padding
    requires json != [] ==> !IsPadding(json[|json| - 1])
    requires forall i | 0 <= i < |padding| :: IsPadding(padding[i])
    ensures ReadGlb(data, loads) == Decoded(loads(json))
  {
    StripFrame(json, padding);
  }

  /** Every frame is accepted, up to its JSON text, which is what gets decoded. */
  lemma FrameIsRead<T>(f: Frame, loads: seq<Byte> -> Loaded<T>)
    requires f.Valid()
    ensures ReadGlb(Bytes(f), loads) == Decoded(loads(f.json))
  {
    ReadFrom(Bytes(f), f.json, f.padding, loads);
  }

  /** The frame of a byte string whose first chunk has `n` bytes. */
  function FrameOf(data: seq<Byte>, n: nat): Frame
    requires 20 + n <= |data|
  {
    var chunk := data[20..20 + n];
    var json := StripPadding(chunk);
    Frame(json, chunk[|json|..], data[20 + n..])
  }

  lemma FromWords(data: seq<Byte>, size: nat, chunk: nat)
    requires |data| >= 20 && size < WORD && chunk < WORD
    requires data[..4] == MAGIC && ReadWord(data[4..8]) == 2 && ReadWord(data[8..12]) == size
    requires ReadWord(data[12..16]) == chunk && ReadWord(data[16..20]) == JSON_CHUNK
    ensures data[..20] == Header(size, chunk)
  {
    WriteInvertsRead(data[4..8]);
    WriteInvertsRead(data[8..12]);
    WriteInvertsRead(data[12..16]);
    WriteInvertsRead(data[16..20]);
    assert data[..20] == data[..4] + data[4..8] + data[8..12] + data[12..16] + data[16..20];
  }

  /** A byte string is accepted exactly when it is a frame around a JSON object. */
  lemma AcceptedExactly<T>(data: seq<Byte>, loads: seq<Byte> -> Loaded<T>, value: T)
    ensures ReadGlb(data, loads) == Ok(value)
            <==> exists f: Frame :: f.Valid() && Bytes(f) == data && loads(f.json) == Object(value)
  {
    if ReadGlb(data, loads) == Ok(value) {
      AcceptedIsFrame(data, loads);
    }
    forall f: Frame | f.Valid() && Bytes(f) == data && loads(f.json) == Object(value)
      ensures ReadGlb(data, loads) == Ok(value)
    {
      FrameIsRead(f, loads);
    }
  }

  lemma AcceptedIsFrame<T>(data: seq<Byte>, loads: seq<Byte> -> Loaded<T>)
    requires ReadGlb(data, loads).Ok?
    ensures |data| >= 20 && 20 + ReadWord(data[12..16]) <= |data|
    ensures var f := FrameOf(data, ReadWord(data[12..16]));
            f.Valid() && Bytes(f) == data && loads(f.json) == Object(ReadGlb(data, loads).value)
  {
    var n := ReadWord(data[12..16]);
    FromWords(data, |data|, n);
    FrameRebuilds(data, n);
  }

  lemma FrameParts(data: seq<Byte>, n: nat)
    requires 20 + n <= |data| < WORD
    ensures var f := FrameOf(data, n);
            && f.Valid() && f.Size() == |data| && |f.json| + |f.padding| == n
            && f.json + f.padding == data[20..20 + n] && f.rest == data[20 + n..]
  {
  }

  lemma FrameRebuilds(data: seq<Byte>, n: nat)
    requires 20 + n <= |data| < WORD && data[..20] == Header(|data|, n)
    ensures FrameOf(data, n).Valid() && Bytes(FrameOf(data, n)) == data
  {
    FrameParts(data, n);
    Reassembles(data, n);
  }

  lemma Reassembles(data: seq<Byte>, n: nat)
    requires 20 + n <= |data|
    ensures data == data[..20] + (data[20..20 + n] + data[20 + n..])
  {
  }

  // ---- The report ----

  /** A member of the JSON root: an array by its length, or anything else. */
  datatype Member = List(length: nat) | OtherValue

  type Payload = map<string, Member>

  datatype Shape = Shape(nodes: nat, meshes: nat, materials: nat, accessors: nat, bufferViews: nat, buffers: nat)

  datatype Report = Report(
    sha256: string, size: nat, version: nat, declaredLength: nat, shape: Shape, shapeSha256: string)

  datatype Digests = Digests(bytes: seq<Byte> -> string, shape: Shape -> string)

  /** A missing member counts as an empty array, and so does one that is no array. */
  function Count(payload: Payload, name: string): nat {
    if name in payload && payload[name].List? then payload[name].length else 0
  }

  function ShapeOf(p: Payload): Shape {
    Shape(Count(p, "nodes"), Count(p, "meshes"), Count(p, "materials"), Count(p, "accessors"), Count(p, "bufferViews"),
          Count(p, "buffers"))
  }

  function ValidateGlb(data: seq<Byte>, loads: seq<Byte> -> Loaded<Payload>, d: Digests): Result<Report, GlbError> {
    var payload :- ReadGlb(data, loads);
    var shape := ShapeOf(payload);
    Ok(Report(d.bytes(data), |data|, ReadWord(data[4..8]), ReadWord(data[8..12]), shape, d.shape(shape)))
  }

  /** What a caller knows of a report: the size, the version and the declared length agree, the counts
      are those of the payload in the frame, and the two digests are of the file and of the counts. */
  ghost predicate Describes(r: Report, f: Frame, payload: Payload, d: Digests)
    requires f.Valid()
  {
    && r.size == r.declaredLength == f.Size() && r.version == 2
    && r.shape == ShapeOf(payload) && r.sha256 == d.bytes(Bytes(f)) && r.shapeSha256 == d.shape(r.shape)
  }

  /** A byte string is validated with a report exactly when it is a frame around a JSON object that
      the report describes. */
  lemma ValidatedExactly(data: seq<Byte>, loads: seq<Byte> -> Loaded<Payload>, d: Digests, r: Report)
    ensures ValidateGlb(data, loads, d) == Ok(r)
            <==> exists f: Frame, payload: Payload ::
                   f.Valid() && Bytes(f) == data && loads(f.json) == Object(payload) && Describes(r, f, payload, d)
  {
    if ReadGlb(data, loads).Ok? {
      var payload := ReadGlb(data, loads).value;
      AcceptedIsFrame(data, loads);
      var f := FrameOf(data, ReadWord(data[12..16]));
      assert ValidateGlb(data, loads, d) == Ok(r) <==> Describes(r, f, payload, d);
    }
    forall f: Frame, payload: Payload
      | f.Valid() && Bytes(f) == data && loads(f.json) == Object(payload) && Describes(r, f, payload, d)
      ensures ValidateGlb(data, loads, d) == Ok(r)
    {
      FrameIsRead(f, loads);
    }
  }

  // ---- The layout, spelled out ----

  /** Words are little-endian. */
  lemma WordExactly(bs: seq<Byte>)
    requires |bs| == 4
    ensures ReadWord(bs) == bs[3] as int * 0x100_0000 + bs[2] as int * 0x1_0000 + bs[1] as int * 0x100 + bs[0] as int
  {
  }

  /** The header is the magic text, version 2, the two lengths and the chunk type JSON. */
  lemma HeaderExactly(size: nat, chunk: nat)
    requires size < WORD && chunk < WORD
    ensures Header(size, chunk)[..8] == [0x67, 0x6C, 0x54, 0x46, 0x02, 0x00, 0x00, 0x00]
    ensures ReadWord(Header(size, chunk)[8..12]) == size && ReadWord(Header(size, chunk)[12..16]) == chunk
    ensures Header(size, chunk)[16..] == [0x4A, 0x53, 0x4F, 0x4E]
  {
    ReadInvertsWrite(size);
    ReadInvertsWrite(chunk);
  }

  /** A frame is its header, its JSON text, NUL or blank padding, and the rest; the text does not end
      with such a byte, and the size fits a word. */
  lemma FrameExactly(f: Frame)
    ensures f.Valid()
            <==> && 20 + |f.json| + |f.padding| + |f.rest| < 0x1_0000_0000
                 && (forall b <- f.padding :: b in {0x00, 0x09, 0x0A, 0x0D, 0x20})
                 && (f.json != [] ==> f.json[|f.json| - 1] !in {0x00, 0x09, 0x0A, 0x0D, 0x20})
    ensures f.Valid() ==>
              && |Bytes(f)| == 20 + |f.json| + |f.padding| + |f.rest|
              && Bytes(f)[..20] == Header(|Bytes(f)|, |f.json| + |f.padding|)
              && Bytes(f)[20..] == f.json + f.padding + f.rest
  {
    forall b: Byte ensures IsPadding(b) <==> b in {0x00, 0x09, 0x0A, 0x0D, 0x20} {
    }
    assert forall i | 0 <= i < |f.padding| :: f.padding[i] in f.padding;
  }

  /** The header begins with the magic text and holds these two words. */
  ghost predicate Opens(data: seq<Byte>, version: nat, declared: nat) {
    && |data| >= 12 && data[..4] == [0x67, 0x6C, 0x54, 0x46]
    && ReadWord(data[4..8]) == version && ReadWord(data[8..12]) == declared
  }

  /** Each error has its cause. */
  lemma ErrorsExactly<T>(data: seq<Byte>, loads: seq<Byte> -> Loaded<T>)
    ensures ReadGlb(data, loads) == Err(BadHeader) <==> |data| < 12 || data[..4] != [0x67, 0x6C, 0x54, 0x46]
    ensures forall v: nat ::
              ReadGlb(data, loads) == Err(UnsupportedVersion(v))
              <==> v != 2 && |data| >= 12 && Opens(data, v, ReadWord(data[8..12]))
    ensures ReadGlb(data, loads) == Err(LengthMismatch)
            <==> |data| >= 12 && Opens(data, 2, ReadWord(data[8..12])) && ReadWord(data[8..12]) != |data|
    ensures ReadGlb(data, loads) == Err(IncompleteHeader) <==> |data| < 20 && Opens(data, 2, |data|)
    ensures ReadGlb(data, loads) == Err(BadChunk)
            <==> && |data| >= 20 && Opens(data, 2, |data|)
                 && (data[16..20] != [0x4A, 0x53, 0x4F, 0x4E] || 20 + ReadWord(data[12..16]) > |data|)
  {
    if |data| >= 20 {
      JsonChunk(data[16..20]);
    }
  }

  lemma JsonChunk(bs: seq<Byte>)
    requires |bs| == 4
    ensures ReadWord(bs) == JSON_CHUNK <==> bs == [0x4A, 0x53, 0x4F, 0x4E]
  {
    if ReadWord(bs) == JSON_CHUNK {
      WriteInvertsRead(bs);
    }
  }

  /** In a chunk within bounds the decoder decides. */
  lemma DecodedExactly<T>(f: Frame, loads: seq<Byte> -> Loaded<T>)
    requires f.Valid()
    ensures ReadGlb(Bytes(f), loads) == Err(BadJson) <==> loads(f.json).Malformed?
    ensures ReadGlb(Bytes(f), loads) == Err(RootNotObject) <==> loads(f.json).NotObject?
  {
    FrameIsRead(f, loads);
  }

  function LengthOf(m: Member): nat {
    match m
    case List(length) => length
    case OtherValue => 0
  }

  /** The shape counts the six arrays by name. */
  lemma ShapeExactly(p: Payload)
    ensures "nodes" in p ==> ShapeOf(p).nodes == LengthOf(p["nodes"])
    ensures "meshes" in p ==> ShapeOf(p).meshes == LengthOf(p["meshes"])
    ensures "materials" in p ==> ShapeOf(p).materials == LengthOf(p["materials"])
    ensures "accessors" in p ==> ShapeOf(p).accessors == LengthOf(p["accessors"])
    ensures "bufferViews" in p ==> ShapeOf(p).bufferViews == LengthOf(p["bufferViews"])
    ensures "buffers" in p ==> ShapeOf(p).buffers == LengthOf(p["buffers"])
    ensures ShapeOf(p).nodes == 0 || "nodes" in p
    ensures ShapeOf(p).meshes == 0 || "meshes" in p
    ensures ShapeOf(p).materials == 0 || "materials" in p
    ensures ShapeOf(p).accessors == 0 || "accessors" in p
    ensures ShapeOf(p).bufferViews == 0 || "bufferViews" in p
    ensures ShapeOf(p).buffers == 0 || "buffers" in p
  {
  }
}
