/**
 * Inlining and extraction undo each other. The inliner replaces every link
 * whose block is in the store by `{"/": {"data": block, "link": cid}}`;
 * the extractor turns each such node back into the link and yields the
 * block under that CID. So extracting an inlined tree gives back the
 * original tree together with the blocks the inliner read, in walk order.
 */
module RoundTrip {
  import opened Wrappers
  import opened Cids
  import opened Values
  import opened Inline
  import opened Hashing
  import opened Extraction
  import ExtractionFacts
  import Inlining

  /** No block in the store is itself inline-delimited anywhere. */
  ghost predicate PlainStore(store: map<Cid, Ipld>)
  {
    forall k :: k in store ==> NoInline(store[k])
  }

  /** The blocks the inliner embeds in `v`: one `(c, store[c])` per stored link, leftmost first. */
  function StoredLinks(store: map<Cid, Ipld>, v: Ipld): (r: seq<Block>)
    ensures forall i :: 0 <= i < |r| ==> r[i].0 in store && r[i].1 == store[r[i].0]
    decreases v
  {
    match v
    case Link(c) => if c in store then [(c, store[c])] else []
    case List(xs) => StoredLinksAll(store, xs)
    case Map(_, vs) => StoredLinksAll(store, vs)
    case _ => []
  }

  function StoredLinksAll(store: map<Cid, Ipld>, xs: seq<Ipld>): (r: seq<Block>)
    ensures forall i :: 0 <= i < |r| ==> r[i].0 in store && r[i].1 == store[r[i].0]
    decreases xs
  {
    if xs == [] then []
    else StoredLinksAll(store, xs[..|xs| - 1]) + StoredLinks(store, xs[|xs| - 1])
  }

  /** A successful `InlineLinksAll` is `InlineLinks` applied to each element. */
  lemma {:induction false} InlineAllPointwise(store: map<Cid, Ipld>, xs: seq<Ipld>)
    requires Inlining.InlineLinksAll(store, xs).Ok?
    ensures forall i :: 0 <= i < |xs| ==>
              Inlining.InlineLinks(store, xs[i]).Ok? &&
              Inlining.InlineLinksAll(store, xs).value[i] == Inlining.InlineLinks(store, xs[i]).value
    decreases xs
  {
    if xs != [] {
      var init := xs[..|xs| - 1];
      InlineAllPointwise(store, init);
      assert forall i :: 0 <= i < |init| ==> xs[i] == init[i];
    }
  }

  /**
   * Inlining keeps a node's kind, except that a link becomes a map: a map
   * keeps its keys and arity, and no inlined node is a link.
   */
  lemma InlinedKind(store: map<Cid, Ipld>, v: Ipld)
    requires Inlining.InlineLinks(store, v).Ok?
    ensures var w := Inlining.InlineLinks(store, v).value;
            !w.Link? &&
            (v.Map? ==> w.Map? && w.keys == v.keys && |w.vals| == |v.vals|) &&
            (!v.Map? && !v.Link? ==> !w.Map?)
  {
  }

  /** Inlining never turns a node that is not inline-delimited, and not a link, into one that is. */
  lemma InlinedNotInline(store: map<Cid, Ipld>, v: Ipld)
    requires Inlining.InlineLinks(store, v).Ok?
    requires !v.Link? && !IsInline(v)
    ensures !IsInline(Inlining.InlineLinks(store, v).value)
  {
    var w := Inlining.InlineLinks(store, v).value;
    InlinedKind(store, v);
    if IsDelimiter(w) && |w.vals| == 1 {
      InlineAllPointwise(store, v.vals);
      var d, d' := v.vals[0], w.vals[0];
      InlinedKind(store, d);
      if d.Link? {
        assert d'.keys == [DelimitInline];
      } else if d.Map? {
        InlineAllPointwise(store, d.vals);
        if |d.vals| == 2 {
          InlinedKind(store, d.vals[1]);
        }
        assert UnlinkedShape(d') <==> UnlinkedShape(d);
        assert !LinkedShape(d');
      }
    }
  }

  /**
   * Extracting an inlined tree returns the original tree and yields each
   * block the inliner embedded under its own CID, provided neither the tree
   * nor any stored block was inline-delimited to begin with.
   */
  lemma {:induction false} ExtractInlined(hash: Hasher, store: map<Cid, Ipld>, v: Ipld)
    requires NoInline(v) && PlainStore(store)
    requires Inlining.InlineLinks(store, v).Ok?
    ensures Extract(hash, Inlining.InlineLinks(store, v).value) == Ok(Extracted(v, StoredLinks(store, v)))
    decreases v
  {
    match v
    case Link(c) =>
      ExtractionFacts.ExtractWrap(hash, c, store[c]);
    case List(xs) =>
      var ys := Inlining.InlineLinksAll(store, xs).value;
      ExtractAllInlined(hash, store, xs);
      assert Extract(hash, List(ys)) == Ok(Extracted(List(xs), StoredLinksAll(store, xs)));
    case Map(ks, vs) =>
      var ys := Inlining.InlineLinksAll(store, vs).value;
      InlinedNotInline(store, v);
      ExtractAllInlined(hash, store, vs);
      assert !IsInline(Map(ks, ys));
      assert Extract(hash, Map(ks, ys)) == Ok(Extracted(Map(ks, vs), StoredLinksAll(store, vs)));
    case _ =>
  }

  lemma {:induction false} ExtractAllInlined(hash: Hasher, store: map<Cid, Ipld>, xs: seq<Ipld>)
    requires (forall i :: 0 <= i < |xs| ==> NoInline(xs[i])) && PlainStore(store)
    requires Inlining.InlineLinksAll(store, xs).Ok?
    ensures ExtractAll(hash, Inlining.InlineLinksAll(store, xs).value) ==
            Ok(ExtractedAll(xs, StoredLinksAll(store, xs)))
    decreases xs
  {
    if xs != [] {
      var init, x := xs[..|xs| - 1], xs[|xs| - 1];
      var a := Inlining.InlineLinksAll(store, init).value;
      var y := Inlining.InlineLinks(store, x).value;
      var ys := Inlining.InlineLinksAll(store, xs).value;
      assert ys == a + [y];
      ExtractAllInlined(hash, store, init);
      ExtractInlined(hash, store, x);
      ExtractAllSnoc(hash, a, y, ExtractedAll(init, StoredLinksAll(store, init)), Extracted(x, StoredLinks(store, x)));
      assert init + [x] == xs;
    }
  }

  /**
   * The same on the machines: the extractor, run on what the inliner
   * produced from a well-formed tree, yields the embedded blocks and then
   * the original tree under its CID.
   */
  lemma ExtractorUndoesInliner(hash: Hasher, store: map<Cid, Ipld>, v: Ipld)
    requires WF(v) && NoInline(v) && PlainStore(store)
    requires forall c :: c in store ==> WF(store[c])
    requires Inlining.InlineLinks(store, v).Ok?
    ensures hash(v).Err? ==> Trace(hash, Init(Inlining.InlineLinks(store, v).value)) == None
    ensures hash(v).Ok? ==>
              Trace(hash, Init(Inlining.InlineLinks(store, v).value)) ==
              Some(StoredLinks(store, v) + [(hash(v).value, v)])
  {
    var y := Inlining.InlineLinks(store, v).value;
    Inlining.InlineKeepsWF(store, v);
    ExtractInlined(hash, store, v);
    ExtractTrace(hash, y);
  }

  /** The inliner machine's one item for a well-formed tree, extracted, gives the tree back. */
  lemma InlinerThenExtract(hash: Hasher, store: map<Cid, Ipld>, v: Ipld)
    requires WF(v) && NoInline(v) && PlainStore(store)
    requires Inlining.FirstMissing(store, Traversal.PostOrder(v)).None?
    ensures var p := Inlining.Next(Inlining.New(v, store));
            p.Item? && p.item.Ok? &&
            Extract(hash, p.item.value) == Ok(Extracted(v, StoredLinks(store, v)))
  {
    Inlining.FirstNext(v, store);
    Inlining.InlineFailsAtFirstMissing(store, v);
    ExtractInlined(hash, store, v);
  }
}
