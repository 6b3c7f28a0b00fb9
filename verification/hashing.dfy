/**
 * CID computation. The codec encoders, the multihash digesters and the cid
 * library's constructor are outside this model; they enter as the function
 * fields of `Lib`. `CidOf` is src/cid.rs `cid_of`, which reports each
 * failure; `New` is inline_ipld/src/cid.rs `cid::new`, whose encoding
 * cannot fail but whose `expect` panics when the cid library refuses the
 * CID, which for the two codecs it accepts is exactly at version 0.
 */
module Hashing {
  import opened Wrappers
  import opened Cids
  import opened Codecs
  import opened Values

  /**
   * `encode(code, x)`: the codec with multicodec `code` encoding `x`, `None`
   * for an encoding error. `digest(code, bytes)`: the multihash digester
   * with that code. `constructs(version, codec, mh)`: whether
   * `CidGeneric::new` accepts the triple.
   */
  datatype Lib = Lib(
    encode: (u64, Ipld) -> Option<seq<byte>>,
    digest: (u64, seq<byte>) -> Multihash,
    constructs: (Version, u64, Multihash) -> bool)

  /** The guarantee `EncodableAs` records: dag-cbor and dag-json encode every value. */
  ghost predicate TotalCodecsEncode(lib: Lib)
  {
    forall c: Codec, x: Ipld :: lib.encode(Code(c), x).Some?
  }

  /**
   * The rule `CidGeneric::new` follows: a version-1 CID is always built, and
   * a version-0 CID only for dag-pb (the library also demands a 32-byte
   * SHA2-256 digest there, which nothing here needs).
   */
  ghost predicate CidRules(lib: Lib)
  {
    (forall codec, mh :: lib.constructs(V1, codec, mh)) &&
    (forall codec, mh :: codec != DagPbCode ==> !lib.constructs(V0, codec, mh))
  }

  type SafeLib = lib: Lib | TotalCodecsEncode(lib) && CidRules(lib)
    witness Lib((code, x) => Some([]), (code, bytes) => Multihash(code, bytes), (v, codec, mh) => v == V1 || codec == DagPbCode)

  /** `Encode<Total>` / `Encode<SafeCodec>` for `Ipld`: delegate to the selected codec; `guaranteed_encode` cannot fail. */
  function EncodeTotal(lib: SafeLib, c: Codec, x: Ipld): (r: seq<byte>)
    ensures lib.encode(Code(c), x) == Some(r)
  {
    lib.encode(Code(c), x).value
  }

  /** src/cid.rs `CidError`. */
  datatype CidError = EncodingError | ConstructionError

  /** src/cid.rs `cid_of`: encode, digest the bytes, build the CID; either failure is reported. */
  function CidOf(lib: Lib, x: Ipld, codec: u64, digester: u64, version: Version): (r: Result<Cid, CidError>)
    ensures lib.encode(codec, x).None? ==> r == Err(EncodingError)
    ensures lib.encode(codec, x).Some? ==>
              var mh := lib.digest(digester, lib.encode(codec, x).value);
              (r.Ok? <==> lib.constructs(version, codec, mh)) &&
              (r.Ok? ==> r.value == Cid(version, codec, mh)) &&
              (r.Err? ==> r.error == ConstructionError)
  {
    match lib.encode(codec, x)
    case None => Err(EncodingError)
    case Some(bytes) =>
      var mh := lib.digest(digester, bytes);
      if lib.constructs(version, codec, mh) then Ok(Cid(version, codec, mh)) else Err(ConstructionError)
  }

  /**
   * inline_ipld/src/cid.rs `cid::new`: the CID carries the requested version
   * and the codec's code, over the digest of the encoding. Its `expect`
   * panics unless the cid library builds that CID.
   */
  function New(lib: SafeLib, x: Ipld, codec: Codec, digester: u64, version: Version): (r: Cid)
    requires lib.constructs(version, Code(codec), lib.digest(digester, EncodeTotal(lib, codec, x)))
    ensures r.codec == Code(codec) && r.version == version
    ensures r.hash == lib.digest(digester, EncodeTotal(lib, codec, x))
  {
    Cid(version, Code(codec), lib.digest(digester, EncodeTotal(lib, codec, x)))
  }

  /** For the codecs `cid::new` accepts, the cid library builds the CID exactly at version 1, so `cid::new` panics at version 0. */
  lemma NewPanicsExactlyAtV0(lib: SafeLib, codec: Codec, version: Version, mh: Multihash)
    ensures lib.constructs(version, Code(codec), mh) <==> version == V1
  {
    if version == V0 {
      assert Code(codec) != DagPbCode;
    }
  }

  /** With a total codec `cid_of` can only fail in construction, and when it succeeds it agrees with `cid::new`. */
  lemma CidOfAgreesWithNew(lib: SafeLib, x: Ipld, codec: Codec, digester: u64, version: Version)
    ensures CidOf(lib, x, Code(codec), digester, version) != Err(EncodingError)
    ensures CidOf(lib, x, Code(codec), digester, version).Ok? <==> version == V1
    ensures version == V1 ==>
              CidOf(lib, x, Code(codec), digester, version) == Ok(New(lib, x, codec, digester, version))
  {
    NewPanicsExactlyAtV0(lib, codec, version, lib.digest(digester, EncodeTotal(lib, codec, x)));
  }

  /** How an extractor turns a value into the CID it is filed under. */
  type Hasher = Ipld -> Result<Cid, CidError>

  /** `cid::new` with its panic as `ConstructionError`: it fails exactly at version 0 and otherwise agrees with `cid_of`. */
  function NewChecked(lib: SafeLib, x: Ipld, codec: Codec, digester: u64, version: Version): (r: Result<Cid, CidError>)
    ensures r.Ok? <==> version == V1
    ensures r == CidOf(lib, x, Code(codec), digester, version)
    ensures r.Ok? ==> r.value == Cid(V1, Code(codec), lib.digest(digester, EncodeTotal(lib, codec, x)))
  {
    var mh := lib.digest(digester, EncodeTotal(lib, codec, x));
    NewPanicsExactlyAtV0(lib, codec, version, mh);
    if lib.constructs(version, Code(codec), mh) then Ok(New(lib, x, codec, digester, version))
    else Err(ConstructionError)
  }

  /**
   * The inline_ipld extractor's hashing: `cid::new`, with its panic as
   * `ConstructionError`. It fails on every value at version 0, agrees with
   * `cid_of` everywhere, and at version 1 files each value under the digest
   * of its encoding.
   */
  function NewHasher(lib: SafeLib, codec: Codec, digester: u64, version: Version): (h: Hasher)
    ensures forall x :: h(x).Ok? <==> version == V1
    ensures forall x :: h(x) == CidOf(lib, x, Code(codec), digester, version)
    ensures forall x :: h(x).Ok? ==>
              h(x).value == Cid(V1, Code(codec), lib.digest(digester, EncodeTotal(lib, codec, x)))
  {
    x => NewChecked(lib, x, codec, digester, version)
  }

  /**
   * The src extractors' hashing: `cid_of`, whose failure the extractor
   * unwraps into a panic. It reports an encoding failure exactly when the
   * codec cannot encode the value, and otherwise files the value under a
   * CID of the requested version and codec over the digest of its encoding.
   */
  function CidOfHasher(lib: Lib, codec: u64, digester: u64, version: Version): (h: Hasher)
    ensures forall x :: h(x) == Err(EncodingError) <==> lib.encode(codec, x).None?
    ensures forall x :: h(x).Ok? ==>
              lib.encode(codec, x).Some? &&
              h(x).value == Cid(version, codec, lib.digest(digester, lib.encode(codec, x).value))
  {
    x => CidOf(lib, x, codec, digester, version)
  }
}
