/**
 * `createMinimalGLB` of `generateModels.mjs`: the binary glTF container
 * (section 4, "GLB File Format Specification", of the Khronos glTF 2.0
 * specification) the script writes for its sample cube. The JSON text and
 * the binary payload are taken as given byte sequences; `JSON.stringify`
 * and the file write are not modelled.
 */
module Glb {
  import opened Base

  newtype Byte = x: int | 0 <= x < 0x100

  /** "glTF", the container version, and the two chunk types "JSON" and "BIN\0". */
  const Magic: nat := 0x4654_6C67
  const Version: nat := 2
  const JsonChunkType: nat := 0x4E4F_534A
  const BinChunkType: nat := 0x004E_4942

  const HeaderLength: nat := 12
  const ChunkHeaderLength: nat := 8

  /** One more than the largest value a u32 field holds. */
  const U32Limit: nat := 0x1_0000_0000

  // ---------------------------------------------------------------------
  // little-endian u32 fields
  // ---------------------------------------------------------------------

  /** `writeUInt32LE(v)`: the four bytes of `v`, least significant first. */
  function U32LE(v: nat): (r: seq<Byte>)
    requires v < U32Limit
    ensures |r| == 4
  {
    var q1 := v / 0x100;
    var q2 := q1 / 0x100;
    var q3 := q2 / 0x100;
    [(v % 0x100) as Byte, (q1 % 0x100) as Byte, (q2 % 0x100) as Byte, (q3 % 0x100) as Byte]
  }

  /** `readUInt32LE(off)`. */
  function ReadU32LE(b: seq<Byte>, off: nat): (v: nat)
    requires off + 4 <= |b|
    ensures v < U32Limit
  {
    b[off] as nat + 0x100 * (b[off + 1] as nat + 0x100 * (b[off + 2] as nat + 0x100 * b[off + 3] as nat))
  }

  /** Reading the four bytes written for `v` gives `v` back. */
  lemma U32RoundTrip(v: nat)
    requires v < U32Limit
    ensures ReadU32LE(U32LE(v), 0) == v
  {
    var q1 := v / 0x100;
    var q2 := q1 / 0x100;
    var q3 := q2 / 0x100;
    assert v == v % 0x100 + 0x100 * q1;
    assert q1 == q1 % 0x100 + 0x100 * q2;
    assert q2 == q2 % 0x100 + 0x100 * q3;
    assert q3 < 0x100 by {
      assert q1 < 0x100_0000;
      assert q2 < 0x1_0000;
    }
  }

  /** Reading at `off` looks only at the four bytes there. */
  lemma ReadWord(b: seq<Byte>, off: nat, v: nat)
    requires v < U32Limit && off + 4 <= |b|
    requires b[off] == U32LE(v)[0] && b[off + 1] == U32LE(v)[1]
    requires b[off + 2] == U32LE(v)[2] && b[off + 3] == U32LE(v)[3]
    ensures ReadU32LE(b, off) == v
  {
    U32RoundTrip(v);
  }

  // ---------------------------------------------------------------------
  // JSON chunk padding
  // ---------------------------------------------------------------------

  /** `jsonBuffer.length + (jsonPadding === 4 ? 0 : jsonPadding)` with
      `jsonPadding = 4 - jsonBuffer.length % 4`. */
  function PaddedLength(n: nat): (p: nat)
    ensures p % 4 == 0 && n <= p < n + 4
  {
    var padding := 4 - n % 4;
    n + (if padding == 4 then 0 else padding)
  }

  /** `Buffer.alloc(size, jsonBuffer)` as the script calls it: the buffer is
      filled by repeating the JSON bytes, so the padding is a prefix of the
      JSON text rather than spaces. */
  function PadJsonAsWritten(json: seq<Byte>): (r: seq<Byte>)
    ensures |r| == PaddedLength(|json|)
    ensures |json| <= |r| && r[..|json|] == json
    ensures forall i :: |json| <= i < |r| ==> r[i] == json[i % |json|]
  {
    if |json| == 0 then []
    else
      var r := seq(PaddedLength(|json|), i requires 0 <= i => json[i % |json|]);
      assert r[..|json|] == json by {
        forall i | 0 <= i < |json| ensures r[i] == json[i] {
          ModOfSmaller(i, |json|);
        }
      }
      r
  }

  lemma ModOfSmaller(i: int, n: int)
    requires 0 <= i < n
    ensures i % n == i
  {
  }

  /** The JSON text "{}" is padded with "{}", not with two spaces. */
  lemma PadJsonAsWrittenNotSpaces()
    ensures var r := PadJsonAsWritten([0x7B, 0x7D]);
      |r| == 4 && r[2] == 0x7B && r[2] != 0x20
  {
  }

  /** With at least three JSON bytes, the as-written padding is the JSON's
      own first bytes: none when the length is already a multiple of four,
      and otherwise the first one to three bytes (a document of 746 bytes
      starting `{"` is padded with `{"`). */
  lemma PadJsonAsWrittenRepeatsStart(json: seq<Byte>)
    requires |json| >= 3
    ensures |json| % 4 == 0 ==> PadJsonAsWritten(json) == json
    ensures PadJsonAsWritten(json) == json + json[..PaddedLength(|json|) - |json|]
  {
    var n := |json|;
    var r := PadJsonAsWritten(json);
    var pad := PaddedLength(n) - n;
    assert pad <= 3;
    var tail := r[n..];
    forall i | 0 <= i < pad
      ensures tail[i] == json[i]
    {
      ModOfNext(i, n);
      assert tail[i] == r[n + i];
    }
    assert tail == json[..pad];
    assert r == r[..n] + tail;
  }

  lemma ModOfNext(i: int, n: int)
    requires 0 <= i < n
    ensures (n + i) % n == i
  {
  }

  /** The padding the container format requires: trailing spaces (0x20). */
  function PadJson(json: seq<Byte>): (r: seq<Byte>)
    ensures |r| == PaddedLength(|json|) && |r| % 4 == 0
    ensures |json| <= |r| && r[..|json|] == json
    ensures forall i :: |json| <= i < |r| ==> r[i] == 0x20
  {
    json + seq(PaddedLength(|json|) - |json|, _ => 0x20)
  }

  /** Zero padding of the binary chunk to a multiple of four. */
  function PadBin(bin: seq<Byte>): (r: seq<Byte>)
    ensures |r| == PaddedLength(|bin|) && |r| % 4 == 0
    ensures |bin| <= |r| && r[..|bin|] == bin
    ensures forall i :: |bin| <= i < |r| ==> r[i] == 0
  {
    bin + seq(PaddedLength(|bin|) - |bin|, _ => 0)
  }

  /** The script writes the binary chunk unpadded: a two-byte payload gives a
      chunk whose length is not a multiple of four. */
  lemma BinUnpaddedAsWritten()
    ensures var g := CreateGlbAsWritten([0x7B, 0x7D], [1, 2]);
      g.Ok? && ReadU32LE(g.value, 24) == 2 && ReadU32LE(g.value, 24) % 4 != 0
  {
    var g := CreateGlbAsWritten([0x7B, 0x7D], [1, 2]);
    var p := PadJsonAsWritten([0x7B, 0x7D]);
    AssembleLayout(p, [1, 2]);
  }

  // ---------------------------------------------------------------------
  // the container
  // ---------------------------------------------------------------------

  /** `12 + 8 + paddedJson.length + 8 + binaryData.length`. */
  function TotalLength(paddedJson: seq<Byte>, bin: seq<Byte>): nat {
    HeaderLength + ChunkHeaderLength + |paddedJson| + ChunkHeaderLength + |bin|
  }

  /** `Buffer.concat([header, jsonChunkHeader, paddedJson, binaryChunkHeader,
      binaryData])`; `writeUInt32LE` throws when the total does not fit in
      32 bits. */
  function Assemble(paddedJson: seq<Byte>, bin: seq<Byte>): (r: Result<seq<Byte>>)
    ensures r.Ok? <==> TotalLength(paddedJson, bin) < U32Limit
    ensures r.Ok? ==> |r.value| == TotalLength(paddedJson, bin)
  {
    var total := TotalLength(paddedJson, bin);
    if total >= U32Limit then Err("RangeError: total length does not fit in a u32")
    else
      Ok(HeadBytes(total, |paddedJson|) + paddedJson + U32LE(|bin|) + U32LE(BinChunkType) + bin)
  }

  /** `createMinimalGLB` as written: JSON padded by repetition, binary chunk unpadded. */
  function CreateGlbAsWritten(json: seq<Byte>, bin: seq<Byte>): (r: Result<seq<Byte>>)
    ensures r.Ok? <==> HeaderLength + 2 * ChunkHeaderLength + PaddedLength(|json|) + |bin| < U32Limit
    ensures r.Ok? ==> |r.value| == HeaderLength + 2 * ChunkHeaderLength + PaddedLength(|json|) + |bin|
  {
    Assemble(PadJsonAsWritten(json), bin)
  }

  /** The container as the format requires it: JSON padded with spaces, the
      binary chunk with zeros. */
  function CreateGlb(json: seq<Byte>, bin: seq<Byte>): (r: Result<seq<Byte>>)
    ensures r.Ok? <==> HeaderLength + 2 * ChunkHeaderLength + PaddedLength(|json|) + PaddedLength(|bin|) < U32Limit
    ensures r.Ok? ==> |r.value| == HeaderLength + 2 * ChunkHeaderLength + PaddedLength(|json|) + PaddedLength(|bin|)
    ensures r.Ok? ==> |r.value| % 4 == 0
  {
    var p := PadJson(json);
    var b := PadBin(bin);
    AlignedSum(|p|, |b|);
    Assemble(p, b)
  }

  lemma AlignedSum(a: nat, b: nat)
    requires a % 4 == 0 && b % 4 == 0
    ensures (HeaderLength + 2 * ChunkHeaderLength + a + b) % 4 == 0
  {
    var q := a / 4;
    var k := b / 4;
    assert HeaderLength + 2 * ChunkHeaderLength + a + b == 4 * (7 + q + k);
  }

  /** The 20 bytes before the JSON payload: the file header and the JSON
      chunk header. */
  function HeadBytes(total: nat, n: nat): (h: seq<Byte>)
    requires total < U32Limit && n < U32Limit
    ensures |h| == 20
  {
    U32LE(Magic) + U32LE(Version) + U32LE(total) + U32LE(n) + U32LE(JsonChunkType)
  }

  /** The assembled bytes are the head, the JSON, the BIN chunk header and
      the payload, in that order. */
  lemma AssembleParts(p: seq<Byte>, bin: seq<Byte>)
    requires TotalLength(p, bin) < U32Limit
    ensures var b := Assemble(p, bin).value;
      && |b| == TotalLength(p, bin)
      && b[..20] == HeadBytes(TotalLength(p, bin), |p|)
      && b[20..20 + |p|] == p
      && b[20 + |p|..24 + |p|] == U32LE(|bin|)
      && b[24 + |p|..28 + |p|] == U32LE(BinChunkType)
      && b[28 + |p|..] == bin
  {
    var b := Assemble(p, bin).value;
    var h := HeadBytes(TotalLength(p, bin), |p|);
    var t1 := U32LE(|bin|);
    var t2 := U32LE(BinChunkType);
    assert b == h + p + t1 + t2 + bin;
  }

  /** The header fields: magic at 0, version at 4, total length at 8, then
      the JSON chunk's length at 12 and type at 16. */
  lemma HeadFields(b: seq<Byte>, total: nat, n: nat)
    requires total < U32Limit && n < U32Limit
    requires |b| >= 20 && b[..20] == HeadBytes(total, n)
    ensures ReadU32LE(b, 0) == Magic && ReadU32LE(b, 4) == Version && ReadU32LE(b, 8) == total
    ensures ReadU32LE(b, 12) == n && ReadU32LE(b, 16) == JsonChunkType
  {
    var h := HeadBytes(total, n);
    assert forall i :: 0 <= i < 20 ==> b[i] == h[i] by {
      forall i | 0 <= i < 20 ensures b[i] == h[i] {
        assert b[..20][i] == b[i];
      }
    }
    ReadWord(b, 0, Magic);
    ReadWord(b, 4, Version);
    ReadWord(b, 8, total);
    ReadWord(b, 12, n);
    ReadWord(b, 16, JsonChunkType);
  }

  /** A field read through a slice that holds its four bytes. */
  lemma WordAt(b: seq<Byte>, off: nat, v: nat)
    requires v < U32Limit && off + 4 <= |b| && b[off..off + 4] == U32LE(v)
    ensures ReadU32LE(b, off) == v
  {
    assert b[off..off + 4][0] == b[off] && b[off..off + 4][1] == b[off + 1];
    assert b[off..off + 4][2] == b[off + 2] && b[off..off + 4][3] == b[off + 3];
    ReadWord(b, off, v);
  }

  /** Where each field of the container sits: magic at 0, version at 4, total
      length at 8, the JSON chunk header at 12 (length, then type), the JSON
      bytes from 20, then the binary chunk header (length, type) and the
      binary bytes to the end. */
  lemma AssembleLayout(p: seq<Byte>, bin: seq<Byte>)
    requires TotalLength(p, bin) < U32Limit
    ensures var b := Assemble(p, bin).value;
      && ReadU32LE(b, 0) == Magic && ReadU32LE(b, 4) == Version
      && ReadU32LE(b, 8) == |b|
      && ReadU32LE(b, 12) == |p| && ReadU32LE(b, 16) == JsonChunkType
      && b[20..20 + |p|] == p
      && ReadU32LE(b, 20 + |p|) == |bin| && ReadU32LE(b, 24 + |p|) == BinChunkType
      && b[28 + |p|..] == bin
  {
    var b := Assemble(p, bin).value;
    AssembleParts(p, bin);
    HeadFields(b, TotalLength(p, bin), |p|);
    WordAt(b, 20 + |p|, |bin|);
    WordAt(b, 24 + |p|, BinChunkType);
  }

  /** The two chunks a container holds. */
  datatype Chunks = Chunks(json: seq<Byte>, bin: seq<Byte>)

  /** A reader for the container: checks the header, then the JSON chunk,
      then the binary chunk, which must end exactly at the declared length. */
  function ParseGlb(b: seq<Byte>): (r: Result<Chunks>)
    ensures r.Ok? ==> TotalLength(r.value.json, r.value.bin) == |b|
  {
    if |b| < HeaderLength + ChunkHeaderLength then Err("truncated header")
    else if ReadU32LE(b, 0) != Magic then Err("bad magic")
    else if ReadU32LE(b, 4) != Version then Err("unsupported version")
    else if ReadU32LE(b, 8) != |b| then Err("length mismatch")
    else if ReadU32LE(b, 16) != JsonChunkType then Err("first chunk is not JSON")
    else
      var jsonLength := ReadU32LE(b, 12);
      if 28 + jsonLength > |b| then Err("truncated JSON chunk")
      else if ReadU32LE(b, 24 + jsonLength) != BinChunkType then Err("second chunk is not BIN")
      else if ReadU32LE(b, 20 + jsonLength) != |b| - 28 - jsonLength then Err("BIN chunk length mismatch")
      else Ok(Chunks(b[20..20 + jsonLength], b[28 + jsonLength..]))
  }

  /** Reading back what was assembled gives the padded JSON and the binary
      payload; both the as-written and the corrected writer satisfy it. */
  lemma AssembleRoundTrip(p: seq<Byte>, bin: seq<Byte>)
    requires TotalLength(p, bin) < U32Limit
    ensures ParseGlb(Assemble(p, bin).value) == Ok(Chunks(p, bin))
  {
    AssembleLayout(p, bin);
  }

  /** Reading back the corrected container gives the JSON text padded with
      spaces and the payload padded with zeros, both chunk lengths multiples
      of four as the container format requires. */
  lemma CreateGlbChunks(json: seq<Byte>, bin: seq<Byte>)
    requires TotalLength(PadJson(json), PadBin(bin)) < U32Limit
    ensures CreateGlb(json, bin).Ok?
    ensures ParseGlb(CreateGlb(json, bin).value) == Ok(Chunks(PadJson(json), PadBin(bin)))
  {
    AssembleRoundTrip(PadJson(json), PadBin(bin));
  }

  // ---------------------------------------------------------------------
  // accessors and buffer views
  // ---------------------------------------------------------------------

  datatype BufferView = BufferView(byteOffset: nat, byteLength: nat)

  datatype ElementType = Vec3 | Scalar

  datatype Accessor = Accessor(bufferView: nat, componentType: nat, count: nat, elementType: ElementType)

  /** glTF component types: FLOAT, UNSIGNED_INT, UNSIGNED_SHORT. */
  const Float: nat := 5126
  const UnsignedInt: nat := 5125
  const UnsignedShort: nat := 5123

  /** Bytes per component of a component type (0 for types the script never uses). */
  function ComponentSize(componentType: nat): nat {
    if componentType == Float || componentType == UnsignedInt then 4
    else if componentType == UnsignedShort then 2
    else 0
  }

  function Components(t: ElementType): nat {
    match t
    case Vec3 => 3
    case Scalar => 1
  }

  /** The bytes an accessor reads from its buffer view. */
  function AccessorBytes(a: Accessor): nat {
    a.count * Components(a.elementType) * ComponentSize(a.componentType)
  }

  /** The three buffer views: vertices, normals and indices back to back. */
  function BufferViews(vertexBytes: nat, normalBytes: nat, indexBytes: nat): (r: seq<BufferView>)
    ensures |r| == 3 && r[0].byteOffset == 0
    ensures forall i :: 0 < i < |r| ==> r[i].byteOffset == r[i - 1].byteOffset + r[i - 1].byteLength
    ensures r[2].byteOffset + r[2].byteLength == vertexBytes + normalBytes + indexBytes
    ensures r[0].byteLength + r[1].byteLength + r[2].byteLength == vertexBytes + normalBytes + indexBytes
  {
    [BufferView(0, vertexBytes),
     BufferView(vertexBytes, normalBytes),
     BufferView(vertexBytes + normalBytes, indexBytes)]
  }

  /** Every accessor names a buffer view large enough for what it reads. */
  predicate AccessorsFit(accessors: seq<Accessor>, views: seq<BufferView>) {
    forall i :: 0 <= i < |accessors| ==>
      accessors[i].bufferView < |views| && AccessorBytes(accessors[i]) <= views[accessors[i].bufferView].byteLength
  }

  /** The cube: 8 vertices and 8 normals of 3 floats, 36 indices. */
  const CubeVertexFloats: nat := 24
  const CubeNormalFloats: nat := 24
  const CubeIndices: nat := 36

  /** The accessors the script declares; the index accessor says
      UNSIGNED_INT. */
  function CubeAccessorsAsWritten(): seq<Accessor> {
    [Accessor(0, Float, 8, Vec3), Accessor(1, Float, 8, Vec3), Accessor(2, UnsignedInt, CubeIndices, Scalar)]
  }

  /** The accessors matching the data: the indices are a `Uint16Array`. */
  function CubeAccessors(): seq<Accessor> {
    [Accessor(0, Float, 8, Vec3), Accessor(1, Float, 8, Vec3), Accessor(2, UnsignedShort, CubeIndices, Scalar)]
  }

  /** `Buffer.from(typedArray)` copies one byte per element, so the views the
      script declares are 24, 24 and 36 bytes long: 84 in all, far less than
      the accessors read. */
  function CubeViewsAsWritten(): seq<BufferView> {
    BufferViews(CubeVertexFloats, CubeNormalFloats, CubeIndices)
  }

  /** The views over the arrays' raw bytes: 4 bytes per float, 2 per index. */
  function CubeViews(): seq<BufferView> {
    BufferViews(4 * CubeVertexFloats, 4 * CubeNormalFloats, 2 * CubeIndices)
  }

  /** With the byte-per-element copies the views are 24, 24 and 36 bytes,
      84 in all: even with the right index type, the position accessor
      reads 96 bytes from a 24-byte view. */
  lemma CubeViewsAsWrittenTooShort()
    ensures AccessorBytes(CubeAccessors()[0]) == 96 && CubeViewsAsWritten()[0].byteLength == 24
    ensures CubeViewsAsWritten()[2].byteOffset + CubeViewsAsWritten()[2].byteLength == 84
    ensures !AccessorsFit(CubeAccessors(), CubeViewsAsWritten())
    ensures !AccessorsFit(CubeAccessorsAsWritten(), CubeViewsAsWritten())
  {
    assert !(AccessorBytes(CubeAccessors()[0]) <= CubeViewsAsWritten()[0].byteLength);
    assert !(AccessorBytes(CubeAccessorsAsWritten()[0]) <= CubeViewsAsWritten()[0].byteLength);
  }

  /** With UNSIGNED_INT declared over the 72 raw bytes of the `Uint16Array`,
      the index accessor would read 144 bytes, past its view. */
  lemma CubeIndexTypeAsWrittenMisreads()
    ensures AccessorBytes(CubeAccessorsAsWritten()[2]) == 144 && CubeViews()[2].byteLength == 72
    ensures !AccessorsFit(CubeAccessorsAsWritten(), CubeViews())
  {
    assert !(AccessorBytes(CubeAccessorsAsWritten()[2]) <= CubeViews()[2].byteLength);
  }

  /** With raw bytes and UNSIGNED_SHORT indices every accessor reads exactly
      its whole view, and the binary payload is 264 bytes, a multiple of four. */
  lemma CubeLayoutFits()
    ensures AccessorsFit(CubeAccessors(), CubeViews())
    ensures forall i :: 0 <= i < 3 ==> AccessorBytes(CubeAccessors()[i]) == CubeViews()[i].byteLength
    ensures CubeViews()[2].byteOffset + CubeViews()[2].byteLength == 264
    ensures PaddedLength(264) == 264
  {
    var a := CubeAccessors();
    var v := CubeViews();
    assert AccessorBytes(a[0]) == 96 == v[0].byteLength;
    assert AccessorBytes(a[1]) == 96 == v[1].byteLength;
    assert AccessorBytes(a[2]) == 72 == v[2].byteLength;
  }
}
