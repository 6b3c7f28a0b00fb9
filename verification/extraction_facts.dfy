/**
 * What the extractor promises: delimiter-free input comes back unchanged,
 * every inline node yields one block, blocks without an explicit link are
 * filed under their own CID, a hasher that cannot fail never panics (so
 * `cid::new` at version 1 never panics, while at version 0 it always
 * does), and the worked examples of inline_ipld/src/extractor.rs.
 */
module ExtractionFacts {
  import opened Wrappers
  import opened Cids
  import opened Codecs
  import opened Values
  import opened Inline
  import opened Traversal
  import opened Hashing
  import opened Extraction

  /** Number of inline nodes extraction visits: an inline node's link child is not searched. */
  function InlineCount(v: Ipld): nat
    decreases v
  {
    if IsInline(v) then 1 + InlineCount(v.vals[0].vals[0])
    else
      match v
      case List(xs) => InlineCountAll(xs)
      case Map(_, vs) => InlineCountAll(vs)
      case _ => 0
  }

  function InlineCountAll(xs: seq<Ipld>): nat
    decreases xs
  {
    if xs == [] then 0 else InlineCountAll(xs[..|xs| - 1]) + InlineCount(xs[|xs| - 1])
  }

  /** Every inline node extraction visits omits the `"link"` field. */
  predicate AllInherit(v: Ipld)
    decreases v
  {
    if IsInline(v) then InlineLink(v).None? && AllInherit(v.vals[0].vals[0])
    else
      match v
      case List(xs) => forall i :: 0 <= i < |xs| ==> AllInherit(xs[i])
      case Map(_, vs) => forall i :: 0 <= i < |vs| ==> AllInherit(vs[i])
      case _ => true
  }

  /** Every block is filed under the CID the hasher computes for it. */
  predicate FiledUnderOwnCid(hash: Hasher, blocks: seq<Block>)
  {
    forall i :: 0 <= i < |blocks| ==> hash(blocks[i].1) == Ok(blocks[i].0)
  }

  /** Extraction leaves a tree without inline nodes as it is and yields no blocks for it. */
  lemma {:induction false} ExtractIdentity(hash: Hasher, v: Ipld)
    requires NoInline(v)
    ensures Extract(hash, v) == Ok(Extracted(v, []))
    decreases v
  {
    match v
    case List(xs) => ExtractAllIdentity(hash, xs);
    case Map(_, vs) => ExtractAllIdentity(hash, vs);
    case _ =>
  }

  lemma {:induction false} ExtractAllIdentity(hash: Hasher, xs: seq<Ipld>)
    requires forall i :: 0 <= i < |xs| ==> NoInline(xs[i])
    ensures ExtractAll(hash, xs) == Ok(ExtractedAll(xs, []))
    decreases xs
  {
    if xs != [] {
      var init := xs[..|xs| - 1];
      ExtractAllIdentity(hash, init);
      ExtractIdentity(hash, xs[|xs| - 1]);
      assert init + [xs[|xs| - 1]] == xs;
      var none: seq<Block> := [];
      assert none + none == none;
    }
  }

  /**
   * The extractor run on a well-formed tree without inline nodes yields a
   * single item: the tree itself under its computed CID (the identity and
   * store-identity tests).
   */
  lemma ExtractorIdentity(hash: Hasher, v: Ipld)
    requires WF(v) && NoInline(v)
    ensures hash(v).Ok? ==> Trace(hash, Init(v)) == Some([(hash(v).value, v)])
    ensures hash(v).Err? ==> Trace(hash, Init(v)) == None
  {
    ExtractTrace(hash, v);
    ExtractIdentity(hash, v);
    if hash(v).Ok? {
      assert [] + [(hash(v).value, v)] == [(hash(v).value, v)];
    }
  }

  /** One block per inline node. */
  lemma {:induction false} ExtractCount(hash: Hasher, v: Ipld)
    requires Extract(hash, v).Ok?
    ensures |Extract(hash, v).value.blocks| == InlineCount(v)
    decreases v
  {
    if IsInline(v) {
      ExtractCount(hash, v.vals[0].vals[0]);
    } else {
      match v
      case List(xs) => ExtractAllCount(hash, xs);
      case Map(_, vs) => ExtractAllCount(hash, vs);
      case _ =>
    }
  }

  lemma {:induction false} ExtractAllCount(hash: Hasher, xs: seq<Ipld>)
    requires ExtractAll(hash, xs).Ok?
    ensures |ExtractAll(hash, xs).value.blocks| == InlineCountAll(xs)
    decreases xs
  {
    if xs != [] {
      ExtractAllCount(hash, xs[..|xs| - 1]);
      ExtractCount(hash, xs[|xs| - 1]);
    }
  }

  /** Without explicit links, every block is filed under its own computed CID (the correct-CID property test). */
  lemma {:induction false} ExtractCidsComputed(hash: Hasher, v: Ipld)
    requires AllInherit(v) && Extract(hash, v).Ok?
    ensures FiledUnderOwnCid(hash, Extract(hash, v).value.blocks)
    decreases v
  {
    if IsInline(v) {
      ExtractCidsComputed(hash, v.vals[0].vals[0]);
    } else {
      match v
      case List(xs) => ExtractAllCidsComputed(hash, xs);
      case Map(_, vs) => ExtractAllCidsComputed(hash, vs);
      case _ =>
    }
  }

  lemma {:induction false} ExtractAllCidsComputed(hash: Hasher, xs: seq<Ipld>)
    requires (forall i :: 0 <= i < |xs| ==> AllInherit(xs[i])) && ExtractAll(hash, xs).Ok?
    ensures FiledUnderOwnCid(hash, ExtractAll(hash, xs).value.blocks)
    decreases xs
  {
    if xs != [] {
      ExtractAllCidsComputed(hash, xs[..|xs| - 1]);
      ExtractCidsComputed(hash, xs[|xs| - 1]);
    }
  }

  /** The whole run, root included, files every block under its own CID when no inline node carries a link. */
  lemma ExtractorCidsComputed(hash: Hasher, v: Ipld)
    requires WF(v) && AllInherit(v) && Trace(hash, Init(v)).Some?
    ensures FiledUnderOwnCid(hash, Trace(hash, Init(v)).value)
  {
    ExtractTrace(hash, v);
    ExtractCidsComputed(hash, v);
  }

  /** A hasher that never fails makes extraction succeed. */
  lemma {:induction false} ExtractTotal(hash: Hasher, v: Ipld)
    requires forall x :: hash(x).Ok?
    ensures Extract(hash, v).Ok?
    decreases v
  {
    if IsInline(v) {
      ExtractTotal(hash, v.vals[0].vals[0]);
    } else {
      match v
      case List(xs) => ExtractAllTotal(hash, xs);
      case Map(_, vs) => ExtractAllTotal(hash, vs);
      case _ =>
    }
  }

  lemma {:induction false} ExtractAllTotal(hash: Hasher, xs: seq<Ipld>)
    requires forall x :: hash(x).Ok?
    ensures ExtractAll(hash, xs).Ok?
    decreases xs
  {
    if xs != [] {
      ExtractAllTotal(hash, xs[..|xs| - 1]);
      ExtractTotal(hash, xs[|xs| - 1]);
    }
  }

  /**
   * With a hasher that never fails, the extractor never panics on a
   * well-formed tree: it yields one block per inline node and then the
   * extracted root under its computed CID.
   */
  lemma ExtractorTotal(hash: Hasher, v: Ipld)
    requires WF(v) && forall x :: hash(x).Ok?
    ensures Extract(hash, v).Ok? && Trace(hash, Init(v)).Some?
    ensures |Trace(hash, Init(v)).value| == InlineCount(v) + 1
    ensures Trace(hash, Init(v)).value[InlineCount(v)] ==
              (hash(Extract(hash, v).value.node).value, Extract(hash, v).value.node)
  {
    ExtractTotal(hash, v);
    ExtractCount(hash, v);
    var e := Extract(hash, v).value;
    var c := hash(e.node).value;
    ExtractTrace(hash, v);
    assert Trace(hash, Init(v)) == Some(e.blocks + [(c, e.node)]);
  }

  /** inline_ipld's extractor with `cid::new` at version 0 panics on every well-formed tree: the root's CID cannot be built. */
  lemma NewExtractorPanicsAtV0(lib: SafeLib, codec: Codec, digester: u64, v: Ipld)
    requires WF(v)
    ensures Trace(NewHasher(lib, codec, digester, V0), Init(v)) == None
  {
    var hash := NewHasher(lib, codec, digester, V0);
    ExtractTrace(hash, v);
    if Extract(hash, v).Ok? {
      assert hash(Extract(hash, v).value.node).Err?;
    }
  }

  /** At version 1 it never panics, and yields one block per inline node and then the root. */
  lemma NewExtractorTotalAtV1(lib: SafeLib, codec: Codec, digester: u64, v: Ipld)
    requires WF(v)
    ensures Trace(NewHasher(lib, codec, digester, V1), Init(v)).Some?
    ensures |Trace(NewHasher(lib, codec, digester, V1), Init(v)).value| == InlineCount(v) + 1
  {
    var hash := NewHasher(lib, codec, digester, V1);
    assert forall x :: hash(x).Ok?;
    ExtractorTotal(hash, v);
  }

  /** Extracting `{"/": {"data": x, "link": c}}` with a delimiter-free `x` leaves `Link(c)` and yields `(c, x)`. */
  lemma ExtractWrap(hash: Hasher, c: Cid, x: Ipld)
    requires NoInline(x)
    ensures Extract(hash, Wrap(c, x)) == Ok(Extracted(Link(c), [(c, x)]))
  {
    ExtractIdentity(hash, x);
    assert [] + [(c, x)] == [(c, x)];
  }

  /** Extracting `{"/": {"data": x}}` with a delimiter-free `x` leaves a link to `x`'s CID and yields `x` under it. */
  lemma ExtractWrapInherit(hash: Hasher, x: Ipld)
    requires NoInline(x)
    ensures hash(x).Ok? ==> Extract(hash, WrapInherit(x)) == Ok(Extracted(Link(hash(x).value), [(hash(x).value, x)]))
    ensures hash(x).Err? ==> Extract(hash, WrapInherit(x)) == Err(hash(x).error)
  {
    ExtractIdentity(hash, x);
    if hash(x).Ok? {
      assert [] + [(hash(x).value, x)] == [(hash(x).value, x)];
    }
  }

  /** The run's output in terms of one extraction result, for worked examples. */
  lemma TraceOfExtracted(hash: Hasher, v: Ipld, e: Extracted, c: Cid)
    requires WF(v) && Extract(hash, v) == Ok(e) && hash(e.node) == Ok(c)
    ensures Trace(hash, Init(v)) == Some(e.blocks + [(c, e.node)])
  {
    ExtractTrace(hash, v);
  }

  /** Extraction of a two-element list, from its elements' extractions. */
  lemma ExtractPairList(hash: Hasher, x: Ipld, y: Ipld, ex: Extracted, ey: Extracted)
    requires Extract(hash, x) == Ok(ex) && Extract(hash, y) == Ok(ey)
    ensures Extract(hash, List([x, y])) == Ok(Extracted(List([ex.node, ey.node]), ex.blocks + ey.blocks))
  {
    var one := [x];
    ExtractAllSingle(hash, x);
    ExtractAllSnoc(hash, one, y, ExtractedAll([ex.node], ex.blocks), ey);
    assert one + [y] == [x, y];
    assert [ex.node] + [ey.node] == [ex.node, ey.node];
    ExtractListOf(hash, [x, y], ExtractedAll([ex.node, ey.node], ex.blocks + ey.blocks));
  }

  /** Extracting `{"/": {"data": x}}` from `x`'s extraction: the link to the extracted payload's CID, after the payload's blocks. */
  lemma ExtractInheritOf(hash: Hasher, x: Ipld, e: Extracted, c: Cid)
    requires Extract(hash, x) == Ok(e) && hash(e.node) == Ok(c)
    ensures Extract(hash, WrapInherit(x)) == Ok(Extracted(Link(c), e.blocks + [(c, e.node)]))
  {
    assert IsInline(WrapInherit(x)) && !LinkedShape(WrapInherit(x).vals[0]);
  }

  /** The nested test's tree is well formed. */
  lemma NestedWF(ab: Ipld, v: Ipld)
    requires ab == List([String("a"), String("b")])
    requires v == WrapInherit(List([Integer(1), WrapInherit(ab)]))
    ensures WF(v)
  {
    assert WF(ab) by {
      assert WFAll(ab.items);
    }
    var two := [Integer(1), WrapInherit(ab)];
    assert WFAll(two) by {
      assert forall i :: 0 <= i < |two| ==> WF(two[i]);
    }
  }

  /** The extraction of the nested test's tree, worked out. */
  lemma NestedExtract(hash: Hasher, h: Ipld -> Cid, ab: Ipld, v: Ipld)
    requires forall x :: hash(x) == Ok(h(x))
    requires ab == List([String("a"), String("b")])
    requires v == WrapInherit(List([Integer(1), WrapInherit(ab)]))
    ensures var mid := List([Integer(1), Link(h(ab))]);
            WF(v) && Extract(hash, v) == Ok(Extracted(Link(h(mid)), [(h(ab), ab), (h(mid), mid)]))
  {
    var mid := List([Integer(1), Link(h(ab))]);
    assert NoInline(ab) by {
      assert forall i :: 0 <= i < |ab.items| ==> ab.items[i].String?;
    }
    ExtractWrapInherit(hash, ab);
    ExtractIdentity(hash, Integer(1));
    var blocks := [(h(ab), ab)];
    ExtractPairList(hash, Integer(1), WrapInherit(ab), Extracted(Integer(1), []), Extracted(Link(h(ab)), blocks));
    assert [] + blocks == blocks;
    ExtractInheritOf(hash, List([Integer(1), WrapInherit(ab)]), Extracted(mid, blocks), h(mid));
    assert blocks + [(h(mid), mid)] == [(h(ab), ab), (h(mid), mid)];
    NestedWF(ab, v);
  }

  /**
   * The nested test: `{"/": {"data": [1, {"/": {"data": ["a", "b"]}}]}}`
   * yields `["a", "b"]`, then `[1, link]` holding the first CID, then the
   * root, which is just the link to the second.
   */
  lemma NestedExample(hash: Hasher, h: Ipld -> Cid, v: Ipld)
    requires forall x :: hash(x) == Ok(h(x))
    requires v == WrapInherit(List([Integer(1), WrapInherit(List([String("a"), String("b")]))]))
    ensures var ab := List([String("a"), String("b")]);
            var mid := List([Integer(1), Link(h(ab))]);
            Trace(hash, Init(v)) == Some([(h(ab), ab), (h(mid), mid), (h(Link(h(mid))), Link(h(mid)))])
  {
    var ab := List([String("a"), String("b")]);
    var mid := List([Integer(1), Link(h(ab))]);
    NestedExtract(hash, h, ab, v);
    TraceOfExtracted(hash, v, Extracted(Link(h(mid)), [(h(ab), ab), (h(mid), mid)]), h(Link(h(mid))));
    assert [(h(ab), ab), (h(mid), mid)] + [(h(Link(h(mid))), Link(h(mid)))] ==
           [(h(ab), ab), (h(mid), mid), (h(Link(h(mid))), Link(h(mid)))];
  }
}
