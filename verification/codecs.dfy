/**
 * The codecs that encode every `Ipld` value: `Total` in
 * inline_ipld/src/codec/total.rs and `SafeCodec` in inline_ipld/src/codec.rs
 * are the same two-variant enumeration, so both are this one datatype.
 * The codes are the multicodec table's entries for dag-cbor and dag-json.
 */
module Codecs {
  import opened Wrappers
  import opened Cids

  datatype Codec = DagCbor | DagJson

  const DagCborCode: u64 := 0x71
  const DagJsonCode: u64 := 0x0129

  /** libipld's `UnsupportedCodec(code)` error. */
  datatype UnsupportedCodec = UnsupportedCodec(code: u64)

  /** `From<Total> for u64` / `From<SafeCodec> for u64`. */
  function Code(c: Codec): (r: u64)
    ensures (c == DagCbor <==> r == DagCborCode) && (c == DagJson <==> r == DagJsonCode)
  {
    match c
    case DagCbor => DagCborCode
    case DagJson => DagJsonCode
  }

  /** `TryFrom<u64>`: the two supported codes, anything else is rejected with the same code. */
  function TryFromCode(code: u64): (r: Result<Codec, UnsupportedCodec>)
    ensures r.Ok? <==> code == DagCborCode || code == DagJsonCode
    ensures r.Err? ==> r.error == UnsupportedCodec(code)
    ensures code == DagCborCode ==> r == Ok(DagCbor)
    ensures code == DagJsonCode ==> r == Ok(DagJson)
  {
    if code == DagCborCode then Ok(DagCbor)
    else if code == DagJsonCode then Ok(DagJson)
    else Err(UnsupportedCodec(code))
  }

  /** Parsing a codec's own code gives the codec back. */
  lemma TryFromCodeOfCode(c: Codec)
    ensures TryFromCode(Code(c)) == Ok(c)
  {
  }

  /** Every accepted code is the code of the codec it parses to. */
  lemma CodeOfTryFromCode(code: u64)
    requires TryFromCode(code).Ok?
    ensures Code(TryFromCode(code).value) == code
  {
  }

  /** Different codecs have different codes. */
  lemma CodeInjective(a: Codec, b: Codec)
    requires Code(a) == Code(b)
    ensures a == b
  {
  }

  /** libipld's unit codec structs. */
  datatype DagCborCodec = DagCborCodec
  datatype DagJsonCodec = DagJsonCodec

  /** `From<DagCborCodec> for Total`. */
  function FromDagCbor(x: DagCborCodec): (r: Codec)
    ensures Code(r) == DagCborCode
  {
    DagCbor
  }

  /** `From<DagJsonCodec> for Total`. */
  function FromDagJson(x: DagJsonCodec): (r: Codec)
    ensures Code(r) == DagJsonCode
  {
    DagJson
  }

  /** `From<Total> for DagCborCodec`: the unit struct, whichever variant it came from. */
  function ToDagCbor(c: Codec): DagCborCodec
  {
    DagCborCodec
  }

  /** `From<Total> for DagJsonCodec`. */
  function ToDagJson(c: Codec): DagJsonCodec
  {
    DagJsonCodec
  }

  /** The unit-struct conversions round-trip through the enumeration. */
  lemma UnitConversionsRoundTrip(x: DagCborCodec, y: DagJsonCodec)
    ensures ToDagCbor(FromDagCbor(x)) == x
    ensures ToDagJson(FromDagJson(y)) == y
    ensures TryFromCode(Code(FromDagCbor(x))) == Ok(DagCbor)
    ensures TryFromCode(Code(FromDagJson(y))) == Ok(DagJson)
  {
  }
}
