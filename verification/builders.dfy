/**
 * inline_ipld/src/ipld/inline.rs: an inline-delimited value together with
 * the CID it was given, if any. Equality with a plain `Ipld` looks at the
 * value only; equality of two `InlineIpld`s (derived) looks at both.
 */
module InlineValue {
  import opened Wrappers
  import opened Cids
  import opened Values
  import opened Inline
  import opened Hashing
  import opened Extraction
  import ExtractionFacts

  datatype InlineIpld = InlineIpld(ipld: Ipld, cid: Option<Cid>)

  /** `InlineIpld::new`: `{"/": {"data": x, "link": Link(c)}}`, remembering `c`. */
  function New(c: Cid, x: Ipld): (r: InlineIpld)
    ensures r.cid == Some(c)
    ensures IsInline(r.ipld) && InlineData(r.ipld) == x && InlineLink(r.ipld) == Some(c)
  {
    InlineIpld(Wrap(c, x), Some(c))
  }

  /** `InlineIpld::new_inherit_link`: `{"/": {"data": x}}`, no CID. */
  function NewInheritLink(x: Ipld): (r: InlineIpld)
    ensures r.cid == None
    ensures IsInline(r.ipld) && InlineData(r.ipld) == x && InlineLink(r.ipld) == None
  {
    InlineIpld(WrapInherit(x), None)
  }

  /** `InlineIpld::attest`: take `x` as already delimited, without checking it. */
  function Attest(x: Ipld): (r: InlineIpld)
    ensures r.cid == None && r.ipld == x
  {
    InlineIpld(x, None)
  }

  /** `TryFrom<InlineIpld> for Cid`: the remembered CID, or `Err(())`. */
  function TryIntoCid(i: InlineIpld): (r: Result<Cid, ()>)
    ensures r.Ok? <==> i.cid.Some?
    ensures r.Ok? ==> Some(r.value) == i.cid
  {
    match i.cid
    case Some(c) => Ok(c)
    case None => Err(())
  }

  /** `From<InlineIpld> for Ipld`. */
  function IntoIpld(i: InlineIpld): Ipld
  {
    i.ipld
  }

  /** `PartialEq<Ipld> for InlineIpld`. */
  predicate EqIpld(i: InlineIpld, other: Ipld)
  {
    other == i.ipld
  }

  /**
   * The conversions recover what the constructors were given: `new` is the
   * only one with a CID, `attest` gives its value back, and comparing with
   * a plain value ignores the CID, so an attested copy of a `new` value is
   * equal to it as `Ipld` but not as `InlineIpld`.
   */
  lemma Conversions(c: Cid, x: Ipld)
    ensures TryIntoCid(New(c, x)) == Ok(c)
    ensures TryIntoCid(NewInheritLink(x)).Err? && TryIntoCid(Attest(x)).Err?
    ensures IntoIpld(Attest(x)) == x
    ensures forall y :: EqIpld(Attest(x), y) <==> y == x
    ensures EqIpld(New(c, x), IntoIpld(Attest(IntoIpld(New(c, x)))))
    ensures New(c, x) != Attest(IntoIpld(New(c, x)))
  {
  }

  /**
   * The extractor files the payload of a `new` value under the remembered
   * CID, and the payload of a `new_inherit_link` value under its computed
   * one.
   */
  lemma ExtractConstructed(hash: Hasher, c: Cid, x: Ipld)
    requires NoInline(x)
    ensures Extract(hash, IntoIpld(New(c, x))) == Ok(Extracted(Link(TryIntoCid(New(c, x)).value), [(c, x)]))
    ensures hash(x).Ok? ==>
              Extract(hash, IntoIpld(NewInheritLink(x))) == Ok(Extracted(Link(hash(x).value), [(hash(x).value, x)]))
  {
    ExtractionFacts.ExtractWrap(hash, c, x);
    ExtractionFacts.ExtractWrapInherit(hash, x);
  }
}

/**
 * The delimiter builders: `inline_ipld`, `inline_ipld_inherit` and
 * `inline_ipld_link` (ipld_inline/src/ipld.rs), the `InlineIpld` newtype of
 * inline_ipld/src/ipld/inlined.rs, whose `wrap`, `wrap_inherit_link` and
 * `wrap_with_link` build the same three shapes, and the three arities of
 * the `inline_ipld!` macro (src/ipld.rs).
 */
module Builders {
  import opened Wrappers
  import opened Cids
  import opened Codecs
  import opened Values
  import opened Inline
  import opened Hashing
  import opened Extraction
  import ExtractionFacts

  /** The multicodec code of SHA2-256. */
  const Sha2_256: u64 := 0x12

  /** `inline_ipld(c, x)`: `{"/": {"data": x, "link": Link(c)}}`; `c` is not checked against `x`. */
  function InlineIpld(c: Cid, x: Ipld): (r: Ipld)
    ensures IsInline(r) && InlineData(r) == x && InlineLink(r) == Some(c)
  {
    Wrap(c, x)
  }

  /** `inline_ipld_inherit(x)`: `{"/": {"data": x}}`, the link left to the extractor. */
  function InlineIpldInherit(x: Ipld): (r: Ipld)
    ensures IsInline(r) && InlineData(r) == x && InlineLink(r) == None
  {
    WrapInherit(x)
  }

  /** `inline_ipld_link`: the link is the CIDv1 of `x` under the given codec and digester. */
  function InlineIpldLink(lib: SafeLib, codec: Codec, digester: u64, x: Ipld): (r: Ipld)
    ensures IsInline(r) && InlineData(r) == x
    ensures InlineLink(r) == Some(New(lib, x, codec, digester, V1))
    ensures InlineLink(r).value.version == V1 && InlineLink(r).value.codec == Code(codec)
  {
    Wrap(New(lib, x, codec, digester, V1), x)
  }

  /**
   * A precomputed link is the one extraction would compute: with the same
   * codec and digester, extracting `inline_ipld_link(x)` and extracting
   * `inline_ipld_inherit(x)` give the same link and the same block.
   */
  lemma LinkedAgreesWithInherited(lib: SafeLib, codec: Codec, digester: u64, x: Ipld)
    requires NoInline(x)
    ensures var hash := NewHasher(lib, codec, digester, V1);
            var c := New(lib, x, codec, digester, V1);
            Extract(hash, InlineIpldLink(lib, codec, digester, x)) == Ok(Extracted(Link(c), [(c, x)])) &&
            Extract(hash, InlineIpldInherit(x)) == Ok(Extracted(Link(c), [(c, x)]))
  {
    var hash := NewHasher(lib, codec, digester, V1);
    ExtractionFacts.ExtractWrap(hash, New(lib, x, codec, digester, V1), x);
    ExtractionFacts.ExtractWrapInherit(hash, x);
  }

  // ---- inline_ipld/src/ipld/inlined.rs ----

  /** The `InlineIpld` newtype of inlined.rs: a value meant to be inline-delimited. */
  datatype Inlined = Inlined(ipld: Ipld)

  /** `wrap`: `inline_ipld` in the newtype. */
  function WrapInlined(c: Cid, x: Ipld): (r: Inlined)
    ensures IsInline(r.ipld) && InlineData(r.ipld) == x && InlineLink(r.ipld) == Some(c)
  {
    Inlined(InlineIpld(c, x))
  }

  /** `wrap_inherit_link`: `inline_ipld_inherit` in the newtype. */
  function WrapInheritInlined(x: Ipld): (r: Inlined)
    ensures IsInline(r.ipld) && InlineData(r.ipld) == x && InlineLink(r.ipld) == None
  {
    Inlined(InlineIpldInherit(x))
  }

  /** `wrap_with_link`: `inline_ipld_link` in the newtype. */
  function WrapWithLink(lib: SafeLib, codec: Codec, digester: u64, x: Ipld): (r: Inlined)
    ensures IsInline(r.ipld) && InlineData(r.ipld) == x
    ensures InlineLink(r.ipld) == Some(New(lib, x, codec, digester, V1))
  {
    Inlined(InlineIpldLink(lib, codec, digester, x))
  }

  /** `attest`: the value as given. */
  function AttestInlined(x: Ipld): (r: Inlined)
    ensures r.ipld == x
  {
    Inlined(x)
  }

  /** `From<InlineIpld> for Ipld` and `PartialEq<Ipld>`: both see only the value, so `attest` and `wrap` agree with the free functions. */
  lemma InlinedAgrees(lib: SafeLib, codec: Codec, digester: u64, c: Cid, x: Ipld)
    ensures WrapInlined(c, x) == AttestInlined(InlineIpld(c, x))
    ensures WrapInheritInlined(x) == AttestInlined(InlineIpldInherit(x))
    ensures WrapWithLink(lib, codec, digester, x) == WrapInlined(New(lib, x, codec, digester, V1), x)
  {
  }

  // ---- src/ipld.rs: the `inline_ipld!` macro ----

  /** The three ways to call `inline_ipld!`. */
  datatype MacroArgs =
    | Unary(x: Ipld)
    | Binary(cid: Cid, x: Ipld)
    | Ternary(codec: Codec, digester: u64, x: Ipld)

  /** `inline_ipld!`: unary omits the link, binary takes it as given, ternary computes the CIDv1. */
  function InlineMacro(lib: SafeLib, args: MacroArgs): (r: Ipld)
    ensures IsInline(r) && InlineData(r) == args.x
    ensures args.Unary? ==> InlineLink(r) == None
    ensures args.Binary? ==> InlineLink(r) == Some(args.cid)
    ensures args.Ternary? ==> InlineLink(r) == Some(New(lib, args.x, args.codec, args.digester, V1))
  {
    match args
    case Unary(x) => InlineIpldInherit(x)
    case Binary(c, x) => InlineIpld(c, x)
    case Ternary(codec, digester, x) => InlineIpldLink(lib, codec, digester, x)
  }

  // ---- The module example of ipld_inline/src/ipld.rs ----

  function Ints(a: int, b: int, c: int): Ipld
  {
    List([Integer(a), Integer(b), Integer(c)])
  }

  /**
   * The builders nest: the example tree built from all three equals the
   * literal tree with the delimiters written out.
   */
  lemma ModuleExample(lib: SafeLib)
    ensures var given := New(lib, Ints(1, 2, 3), DagCbor, Sha2_256, V1);
            var calculated := New(lib, Ints(4, 5, 6), DagCbor, Sha2_256, V1);
            var observed := Map(["a", "b", "e"], [
              String("foo"),
              InlineIpldInherit(Map(["c", "d"], [String("bar"), InlineIpld(given, Ints(1, 2, 3))])),
              InlineIpldLink(lib, DagCbor, Sha2_256, Ints(4, 5, 6))]);
            observed == Map(["a", "b", "e"], [
              String("foo"),
              Map(["/"], [Map(["data"], [
                Map(["c", "d"], [
                  String("bar"),
                  Map(["/"], [Map(["data", "link"], [Ints(1, 2, 3), Link(given)])])])])]),
              Map(["/"], [Map(["data", "link"], [Ints(4, 5, 6), Link(calculated)])])])
  {
  }

  /**
   * Extracting the example with the same codec and digester gives back the
   * plain tree, with both inlined lists and the inherited map filed as
   * blocks, innermost first.
   */
  lemma ModuleExampleExtracts(lib: SafeLib)
    ensures var hash := NewHasher(lib, DagCbor, Sha2_256, V1);
            var given := New(lib, Ints(1, 2, 3), DagCbor, Sha2_256, V1);
            var calculated := New(lib, Ints(4, 5, 6), DagCbor, Sha2_256, V1);
            var inner := Map(["c", "d"], [String("bar"), Link(given)]);
            var innerCid := New(lib, inner, DagCbor, Sha2_256, V1);
            var observed := Map(["a", "b", "e"], [
              String("foo"),
              InlineIpldInherit(Map(["c", "d"], [String("bar"), InlineIpld(given, Ints(1, 2, 3))])),
              InlineIpldLink(lib, DagCbor, Sha2_256, Ints(4, 5, 6))]);
            Extract(hash, observed) == Ok(Extracted(
              Map(["a", "b", "e"], [String("foo"), Link(innerCid), Link(calculated)]),
              [(given, Ints(1, 2, 3)), (innerCid, inner), (calculated, Ints(4, 5, 6))]))
  {
    var hash := NewHasher(lib, DagCbor, Sha2_256, V1);
    var given := New(lib, Ints(1, 2, 3), DagCbor, Sha2_256, V1);
    var calculated := New(lib, Ints(4, 5, 6), DagCbor, Sha2_256, V1);
    var inner := Map(["c", "d"], [String("bar"), Link(given)]);
    var innerCid := New(lib, inner, DagCbor, Sha2_256, V1);
    assert hash(inner) == Ok(innerCid);
    assert InlineIpldLink(lib, DagCbor, Sha2_256, Ints(4, 5, 6)) == InlineIpld(calculated, Ints(4, 5, 6));
    assert NoInline(Ints(1, 2, 3)) && NoInline(Ints(4, 5, 6)) by {
      assert forall i :: 0 <= i < 3 ==> Ints(1, 2, 3).items[i].Integer? && Ints(4, 5, 6).items[i].Integer?;
    }
    ExampleExtracts(hash, given, calculated, innerCid, Ints(1, 2, 3), Ints(4, 5, 6));
  }

  /** The example's extraction for any delimiter-free payloads and any hasher that files the inherited map under `innerCid`. */
  lemma ExampleExtracts(hash: Hasher, given: Cid, calculated: Cid, innerCid: Cid, p: Ipld, q: Ipld)
    requires NoInline(p) && NoInline(q)
    requires hash(Map(["c", "d"], [String("bar"), Link(given)])) == Ok(innerCid)
    ensures var inner := Map(["c", "d"], [String("bar"), Link(given)]);
            var observed := Map(["a", "b", "e"], [
              String("foo"),
              InlineIpldInherit(Map(["c", "d"], [String("bar"), InlineIpld(given, p)])),
              InlineIpld(calculated, q)]);
            Extract(hash, observed) == Ok(Extracted(
              Map(["a", "b", "e"], [String("foo"), Link(innerCid), Link(calculated)]),
              [(given, p), (innerCid, inner), (calculated, q)]))
  {
    var inner := Map(["c", "d"], [String("bar"), Link(given)]);
    var d := InlineIpld(given, p);
    var b := InlineIpldInherit(Map(["c", "d"], [String("bar"), d]));
    var e := InlineIpld(calculated, q);
    ExtractionFacts.ExtractWrap(hash, given, p);
    ExtractionFacts.ExtractWrap(hash, calculated, q);
    ExtractStrThen(hash, "c", "d", "bar", d, Link(given), [(given, p)]);
    UnlinkedWithBlocks(hash, Map(["c", "d"], [String("bar"), d]), inner, [(given, p)]);
    assert [(given, p)] + [(innerCid, inner)] == [(given, p), (innerCid, inner)];
    ExtractTopLevel(hash, b, e, Link(innerCid), Link(calculated), [(given, p), (innerCid, inner)], [(calculated, q)]);
    assert [(given, p), (innerCid, inner)] + [(calculated, q)] == [(given, p), (innerCid, inner), (calculated, q)];
  }

  /** A map that is not a `"/"` map extracts to its keys over its extracted values. */
  lemma ExtractPlainMap(hash: Hasher, ks: seq<string>, vs: seq<Ipld>, a: ExtractedAll)
    requires |ks| != 1 && ExtractAll(hash, vs) == Ok(a)
    ensures Extract(hash, Map(ks, vs)) == Ok(Extracted(Map(ks, a.nodes), a.blocks))
  {
    assert !IsInline(Map(ks, vs));
  }

  /** A two-entry map whose first value is a string. */
  lemma ExtractStrThen(hash: Hasher, k1: string, k2: string, s: string, y: Ipld, y': Ipld, bs: seq<Block>)
    requires Extract(hash, y) == Ok(Extracted(y', bs))
    ensures Extract(hash, Map([k1, k2], [String(s), y])) == Ok(Extracted(Map([k1, k2], [String(s), y']), bs))
  {
    ExtractAllSingle(hash, String(s));
    ExtractAllSnoc(hash, [String(s)], y, ExtractedAll([String(s)], []), Extracted(y', bs));
    assert [String(s)] + [y] == [String(s), y];
    assert [] + bs == bs;
    assert [String(s)] + [y'] == [String(s), y'];
    ExtractPlainMap(hash, [k1, k2], [String(s), y], ExtractedAll([String(s), y'], bs));
  }

  /** `{"/": {"data": x}}` whose payload extracts to `x'` with blocks `bs`, filed under `hash(x')`. */
  lemma UnlinkedWithBlocks(hash: Hasher, x: Ipld, x': Ipld, bs: seq<Block>)
    requires Extract(hash, x) == Ok(Extracted(x', bs)) && hash(x').Ok?
    ensures Extract(hash, InlineIpldInherit(x)) == Ok(Extracted(Link(hash(x').value), bs + [(hash(x').value, x')]))
  {
  }

  /** A string followed by a value with a known extraction. */
  lemma ExtractStrOne(hash: Hasher, str: string, b: Ipld, b': Ipld, bb: seq<Block>)
    requires Extract(hash, b) == Ok(Extracted(b', bb))
    ensures ExtractAll(hash, [String(str), b]) == Ok(ExtractedAll([String(str), b'], bb))
  {
    var one := [String(str)];
    ExtractAllSingle(hash, String(str));
    ExtractAllSnoc(hash, one, b, ExtractedAll(one, []), Extracted(b', bb));
    assert one + [b] == [String(str), b];
    assert one + [b'] == [String(str), b'];
    assert [] + bb == bb;
  }

  /** A string followed by two values with known extractions. */
  lemma ExtractStrPair(hash: Hasher, str: string, b: Ipld, e: Ipld, b': Ipld, e': Ipld, bb: seq<Block>, eb: seq<Block>)
    requires Extract(hash, b) == Ok(Extracted(b', bb)) && Extract(hash, e) == Ok(Extracted(e', eb))
    ensures ExtractAll(hash, [String(str), b, e]) == Ok(ExtractedAll([String(str), b', e'], bb + eb))
  {
    var two := [String(str), b];
    ExtractStrOne(hash, str, b, b', bb);
    ExtractAllSnoc(hash, two, e, ExtractedAll([String(str), b'], bb), Extracted(e', eb));
    assert two + [e] == [String(str), b, e];
    assert [String(str), b'] + [e'] == [String(str), b', e'];
  }

  /** The example's top-level map: a string, then two values with known extractions. */
  lemma ExtractTopLevel(hash: Hasher, b: Ipld, e: Ipld, b': Ipld, e': Ipld, bb: seq<Block>, eb: seq<Block>)
    requires Extract(hash, b) == Ok(Extracted(b', bb)) && Extract(hash, e) == Ok(Extracted(e', eb))
    ensures Extract(hash, Map(["a", "b", "e"], [String("foo"), b, e])) ==
            Ok(Extracted(Map(["a", "b", "e"], [String("foo"), b', e']), bb + eb))
  {
    ExtractStrPair(hash, "foo", b, e, b', e', bb, eb);
    ExtractPlainMap(hash, ["a", "b", "e"], [String("foo"), b, e], ExtractedAll([String("foo"), b', e'], bb + eb));
  }
}
