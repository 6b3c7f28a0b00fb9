/**
 * The `Extractor`: a stack machine over the post-order walk that turns
 * inline-delimited nodes into links and yields each inlined block with its
 * CID, the root last. inline_ipld/src/extractor.rs, src/extractor.rs and
 * src/iterator/extractor.rs hold the same loop; they differ only in how a
 * CID is computed, which is the `Hasher` parameter.
 *
 * `Extract` is the recursive reading of what the machine does, and
 * `ExtractTrace` proves that the machine yields exactly its blocks.
 */
module Extraction {
  import opened Wrappers
  import opened Cids
  import opened Values
  import opened Inline
  import opened Traversal
  import opened Hashing

  type Block = (Cid, Ipld)

  /** Machine state: what the peekable walk has yet to yield, and the stack of rebuilt nodes (top at the end). */
  datatype Extractor = Extractor(stream: seq<Ipld>, stack: seq<Ipld>)

  /** `Extractor::new`: the peekable walk of the root, which yields its post-order (see `InitIsPeekableWalk`), and an empty stack. */
  function Init(v: Ipld): (e: Extractor)
  {
    Extractor(PostOrder(v), [])
  }

  /** The initial stream is exactly what `PostOrderIpldIter::new(root).peekable()` yields. */
  lemma InitIsPeekableWalk(v: Ipld)
    ensures Init(v).stream == Remaining(MakePeekable(Traversal.New(v)))
    ensures Valid(MakePeekable(Traversal.New(v)))
  {
  }

  datatype StepOut =
    | Continue(next: Extractor)
    | Emit(block: Block, next: Extractor)
    | Halt
    | Panic

  /**
   * One turn of the loop in `Extractor::next`. A data map followed by a
   * `"/"` map is replaced by a link to its rebuilt payload, and the
   * delimiter is skipped; other maps and lists are rebuilt from the top of
   * the stack; leaves are pushed; at the end of the walk the stack is
   * popped. `Panic` is a failed `expect`/`unwrap`, `panic!`, or a
   * `split_off` past the bottom of the stack.
   */
  function Step(hash: Hasher, e: Extractor): (r: StepOut)
    ensures r.Continue? ==> |r.next.stream| < |e.stream|
    ensures r.Emit? ==> |r.next.stream| < |e.stream| ||
                        (e.stream == [] && r.next.stream == [] && |r.next.stack| < |e.stack|)
  {
    if e.stream == [] then
      if e.stack == [] then Halt
      else
        var x := e.stack[|e.stack| - 1];
        match hash(x)
        case Err(_) => Panic
        case Ok(c) => Emit((c, x), Extractor([], e.stack[..|e.stack| - 1]))
    else
      var node := e.stream[0];
      var rest := e.stream[1..];
      var n := |e.stack|;
      match node
      case List(xs) =>
        if |xs| > n then Panic
        else Continue(Extractor(rest, e.stack[..n - |xs|] + [List(e.stack[n - |xs|..])]))
      case Map(ks, vs) =>
        if Get(ks, vs, DataTag).Some? && |ks| == 1 && DelimiterNext(rest) then
          if n == 0 then Panic
          else
            var x := e.stack[n - 1];
            match hash(x)
            case Err(_) => Panic
            case Ok(c) => Emit((c, x), Extractor(rest[1..], e.stack[..n - 1] + [Link(c)]))
        else if Get(ks, vs, DataTag).Some? && |ks| == 2 && DelimiterNext(rest)
                && Get(ks, vs, LinkTag).Some? && Get(ks, vs, LinkTag).value.Link? then
          if n < 1 || !e.stack[n - 1].Link? then Panic
          else if n < 2 then Panic
          else
            var link := e.stack[n - 1];
            Emit((link.cid, e.stack[n - 2]), Extractor(rest[1..], e.stack[..n - 2] + [link]))
        else if |ks| > n then Panic
        else Continue(Extractor(rest, e.stack[..n - |ks|] + [Map(ks, e.stack[n - |ks|..])]))
      case _ => Continue(Extractor(rest, e.stack + [node]))
  }

  /** Prefix blocks to a run's output; a run that panicked stays panicked. */
  function Then(bs: seq<Block>, t: Option<seq<Block>>): (r: Option<seq<Block>>)
    ensures r.Some? <==> t.Some?
    ensures r.Some? ==> r.value == bs + t.value
  {
    match t
    case None => None
    case Some(u) => Some(bs + u)
  }

  lemma ThenEmpty(t: Option<seq<Block>>)
    ensures Then([], t) == t
  {
    if t.Some? {
      assert [] + t.value == t.value;
    }
  }

  lemma ThenThen(a: seq<Block>, b: seq<Block>, t: Option<seq<Block>>)
    ensures Then(a, Then(b, t)) == Then(a + b, t)
  {
    if t.Some? {
      assert a + (b + t.value) == (a + b) + t.value;
    }
  }

  /** Everything the machine yields from `e` until it returns `None`; `None` if it panics first. */
  function Trace(hash: Hasher, e: Extractor): Option<seq<Block>>
    decreases |e.stream|, |e.stack|
  {
    match Step(hash, e)
    case Continue(e') => Trace(hash, e')
    case Emit(b, e') => Then([b], Trace(hash, e'))
    case Halt => Some([])
    case Panic => None
  }

  datatype NextOut = Item(block: Block, rest: Extractor) | Done | Crash

  /** `Iterator::next`: turn the loop until it yields, finishes or panics. */
  function Next(hash: Hasher, e: Extractor): (r: NextOut)
    ensures r.Item? ==> Trace(hash, e) == Then([r.block], Trace(hash, r.rest))
    ensures r.Done? ==> Trace(hash, e) == Some([])
    ensures r.Crash? ==> Trace(hash, e) == None
    decreases |e.stream|
  {
    match Step(hash, e)
    case Continue(e') => Next(hash, e')
    case Emit(b, e') => Item(b, e')
    case Halt => Done
    case Panic => Crash
  }

  /** Drive an extractor over a whole tree, collecting what it yields; `None` where the Rust code would panic. */
  method Collect(hash: Hasher, v: Ipld) returns (r: Option<seq<Block>>)
    ensures r == Trace(hash, Init(v))
  {
    var e := Init(v);
    var out: seq<Block> := [];
    ThenEmpty(Trace(hash, e));
    while true
      invariant Trace(hash, Init(v)) == Then(out, Trace(hash, e))
      decreases |e.stream|, |e.stack|
    {
      var n := Next(hash, e);
      match n
      case Item(b, e') =>
        assert Step(hash, e).Continue? || Step(hash, e).Emit?;
        NextShrinks(hash, e);
        ThenThen(out, [b], Trace(hash, e'));
        out := out + [b];
        e := e';
      case Done =>
        assert out + [] == out;
        return Some(out);
      case Crash =>
        return None;
    }
  }

  /** A yielded item leaves a smaller machine behind. */
  lemma NextShrinks(hash: Hasher, e: Extractor)
    requires Next(hash, e).Item?
    ensures |Next(hash, e).rest.stream| < |e.stream| ||
            (|Next(hash, e).rest.stream| == |e.stream| && |Next(hash, e).rest.stack| < |e.stack|)
    decreases |e.stream|
  {
    match Step(hash, e)
    case Continue(e') => NextShrinks(hash, e');
    case Emit(_, _) =>
  }

  // ---- The recursive reading ----

  datatype Extracted = Extracted(node: Ipld, blocks: seq<Block>)
  datatype ExtractedAll = ExtractedAll(nodes: seq<Ipld>, blocks: seq<Block>)

  /**
   * What extraction makes of a subtree: the node left in its place and the
   * blocks yielded for the inline nodes inside it, innermost and leftmost
   * first. An inline node becomes a link to its extracted payload: the
   * given link if it has one, otherwise the payload's computed CID.
   */
  function Extract(hash: Hasher, v: Ipld): (r: Result<Extracted, CidError>)
    decreases v
  {
    if IsInline(v) then
      var inner := v.vals[0];
      match Extract(hash, inner.vals[0])
      case Err(err) => Err(err)
      case Ok(e) =>
        if LinkedShape(inner) then
          var c := inner.vals[1].cid;
          Ok(Extracted(Link(c), e.blocks + [(c, e.node)]))
        else
          match hash(e.node)
          case Err(err) => Err(err)
          case Ok(c) => Ok(Extracted(Link(c), e.blocks + [(c, e.node)]))
    else
      match v
      case List(xs) =>
        (match ExtractAll(hash, xs)
         case Err(err) => Err(err)
         case Ok(a) => Ok(Extracted(List(a.nodes), a.blocks)))
      case Map(ks, vs) =>
        (match ExtractAll(hash, vs)
         case Err(err) => Err(err)
         case Ok(a) => Ok(Extracted(Map(ks, a.nodes), a.blocks)))
      case _ => Ok(Extracted(v, []))
  }

  function ExtractAll(hash: Hasher, xs: seq<Ipld>): (r: Result<ExtractedAll, CidError>)
    ensures r.Ok? ==> |r.value.nodes| == |xs|
    decreases xs
  {
    if xs == [] then Ok(ExtractedAll([], []))
    else
      match ExtractAll(hash, xs[..|xs| - 1])
      case Err(err) => Err(err)
      case Ok(a) =>
        match Extract(hash, xs[|xs| - 1])
        case Err(err) => Err(err)
        case Ok(e) => Ok(ExtractedAll(a.nodes + [e.node], a.blocks + e.blocks))
  }

  lemma ExtractAllSingle(hash: Hasher, x: Ipld)
    ensures ExtractAll(hash, [x]) ==
            match Extract(hash, x)
            case Err(err) => Err(err)
            case Ok(e) => Ok(ExtractedAll([e.node], e.blocks))
  {
    assert [x][..0] == [];
    match Extract(hash, x)
    case Err(_) =>
    case Ok(e) =>
      assert [] + [e.node] == [e.node];
      assert [] + e.blocks == e.blocks;
  }

  /** Extracting a sequence one element longer. */
  lemma ExtractAllSnoc(hash: Hasher, xs: seq<Ipld>, x: Ipld, a: ExtractedAll, e: Extracted)
    requires ExtractAll(hash, xs) == Ok(a) && Extract(hash, x) == Ok(e)
    ensures ExtractAll(hash, xs + [x]) == Ok(ExtractedAll(a.nodes + [e.node], a.blocks + e.blocks))
  {
    assert (xs + [x])[..|xs|] == xs;
  }

  /** A list extracts to the list of its elements' extractions. */
  lemma ExtractListOf(hash: Hasher, xs: seq<Ipld>, a: ExtractedAll)
    requires ExtractAll(hash, xs) == Ok(a)
    ensures Extract(hash, List(xs)) == Ok(Extracted(List(a.nodes), a.blocks))
  {
    assert !IsInline(List(xs));
  }

  /** The data-map tests the machine makes before its delimiter check. */
  predicate DataShaped(v: Ipld)
  {
    UnlinkedShape(v) || LinkedShape(v)
  }

  /**
   * Running the machine over a subtree's walk followed by anything else
   * yields the subtree's blocks and leaves its extracted node on the stack.
   * The one context excluded is a data map directly under a `"/"` map,
   * which the parent's case handles.
   */
  lemma {:induction false} ExtractRun(hash: Hasher, v: Ipld, s: seq<Ipld>, rest: seq<Ipld>)
    requires WF(v)
    requires DelimiterNext(rest) ==> !DataShaped(v)
    ensures Trace(hash, Extractor(PostOrder(v) + rest, s)) ==
            match Extract(hash, v)
            case Err(_) => None
            case Ok(e) => Then(e.blocks, Trace(hash, Extractor(rest, s + [e.node])))
    decreases v
  {
    if IsInline(v) {
      ExtractRunInline(hash, v, s, rest);
    } else {
      match v
      case List(xs) =>
        ExtractRunList(hash, v, s, rest);
      case Map(ks, vs) =>
        ExtractRunMap(hash, v, s, rest);
      case _ =>
        LeafWalk(v, rest);
        assert Step(hash, Extractor([v] + rest, s)) == Continue(Extractor(rest, s + [v]));
        ThenEmpty(Trace(hash, Extractor(rest, s + [v])));
    }
  }

  /** `ExtractRun` for a list: it is rebuilt from its extracted elements. */
  lemma {:induction false} ExtractRunList(hash: Hasher, v: Ipld, s: seq<Ipld>, rest: seq<Ipld>)
    requires WF(v) && v.List?
    ensures Trace(hash, Extractor(PostOrder(v) + rest, s)) ==
            match Extract(hash, v)
            case Err(_) => None
            case Ok(e) => Then(e.blocks, Trace(hash, Extractor(rest, s + [e.node])))
    decreases v, 0
  {
    var xs := v.items;
    ExtractRunAll(hash, xs, s, [v] + rest);
    ContainerWalk(v, rest);
    if ExtractAll(hash, xs).Ok? {
      var a := ExtractAll(hash, xs).value;
      var e := Extractor([v] + rest, s + a.nodes);
      assert (s + a.nodes)[..|s + a.nodes| - |xs|] == s;
      assert (s + a.nodes)[|s + a.nodes| - |xs|..] == a.nodes;
      assert Step(hash, e) == Continue(Extractor(rest, s + [List(a.nodes)]));
    }
  }

  /** `ExtractRun` for a map that is not inline: it is rebuilt from its extracted values. */
  lemma {:induction false} ExtractRunMap(hash: Hasher, v: Ipld, s: seq<Ipld>, rest: seq<Ipld>)
    requires WF(v) && v.Map? && !IsInline(v)
    requires DelimiterNext(rest) ==> !DataShaped(v)
    ensures Trace(hash, Extractor(PostOrder(v) + rest, s)) ==
            match Extract(hash, v)
            case Err(_) => None
            case Ok(e) => Then(e.blocks, Trace(hash, Extractor(rest, s + [e.node])))
    decreases v, 0
  {
    var ks, vs := v.keys, v.vals;
    assert DelimiterNext([v] + rest) && vs != [] ==> !DataShaped(vs[|vs| - 1]);
    ExtractRunAll(hash, vs, s, [v] + rest);
    ContainerWalk(v, rest);
    if ExtractAll(hash, vs).Ok? {
      var a := ExtractAll(hash, vs).value;
      var e := Extractor([v] + rest, s + a.nodes);
      DataTestsMatchShapes(v);
      assert (s + a.nodes)[..|s + a.nodes| - |ks|] == s;
      assert (s + a.nodes)[|s + a.nodes| - |ks|..] == a.nodes;
      assert Step(hash, e) == Continue(Extractor(rest, s + [Map(ks, a.nodes)]));
    }
  }

  /** The children of `{"data": x, "link": Link(c)}` extract to `x`'s node and the link itself, with `x`'s blocks. */
  lemma LinkedPairExtract(hash: Hasher, x: Ipld, c: Cid)
    requires Extract(hash, x).Ok?
    ensures ExtractAll(hash, [x, Link(c)]) ==
            Ok(ExtractedAll([Extract(hash, x).value.node, Link(c)], Extract(hash, x).value.blocks))
  {
    var ex := Extract(hash, x).value;
    var one := [x];
    ExtractAllSingle(hash, x);
    assert Extract(hash, Link(c)) == Ok(Extracted(Link(c), []));
    ExtractAllSnoc(hash, one, Link(c), ExtractedAll([ex.node], ex.blocks), Extracted(Link(c), []));
    assert one + [Link(c)] == [x, Link(c)];
    assert [ex.node] + [Link(c)] == [ex.node, Link(c)];
    assert ex.blocks + [] == ex.blocks;
  }

  /** The machine's step on `{"data": x, "link": Link(c)}` just before a `"/"` map, with `x` and the link on the stack. */
  lemma StepLinkedData(hash: Hasher, d: Ipld, rest: seq<Ipld>, s: seq<Ipld>, x: Ipld, c: Cid)
    requires LinkedShape(d) && d.vals[1] == Link(c) && DelimiterNext(rest)
    ensures Step(hash, Extractor([d] + rest, s + [x, Link(c)])) == Emit((c, x), Extractor(rest[1..], s + [Link(c)]))
  {
    assert DataTag[0] != LinkTag[0];
    assert Get(d.keys, d.vals, DataTag).Some?;
    assert Get(d.keys, d.vals, LinkTag) == Some(Link(c));
    var st := s + [x, Link(c)];
    assert st[..|st| - 2] == s;
    assert ([d] + rest)[1..] == rest;
  }

  /** The machine's step on `{"data": x}` just before a `"/"` map, with `x` on the stack. */
  lemma StepUnlinkedData(hash: Hasher, d: Ipld, rest: seq<Ipld>, s: seq<Ipld>, x: Ipld)
    requires UnlinkedShape(d) && DelimiterNext(rest)
    ensures Step(hash, Extractor([d] + rest, s + [x])) ==
            match hash(x)
            case Err(_) => Panic
            case Ok(c) => Emit((c, x), Extractor(rest[1..], s + [Link(c)]))
  {
    assert Get(d.keys, d.vals, DataTag).Some?;
    var st := s + [x];
    assert st[..|st| - 1] == s && st[|st| - 1] == x;
    assert ([d] + rest)[1..] == rest;
  }

  /** The data map of a linked inline node, reached with its payload and link on the stack, yields the payload under the link. */
  lemma LinkedStep(hash: Hasher, v: Ipld, s: seq<Ipld>, rest: seq<Ipld>)
    requires IsInline(v) && LinkedShape(v.vals[0]) && Extract(hash, v.vals[0].vals[0]).Ok?
    ensures var d := v.vals[0];
            var ex := Extract(hash, d.vals[0]).value;
            var c := d.vals[1].cid;
            ExtractAll(hash, d.vals) == Ok(ExtractedAll([ex.node, Link(c)], ex.blocks)) &&
            Trace(hash, Extractor([d, v] + rest, s + [ex.node, Link(c)])) ==
              Then([(c, ex.node)], Trace(hash, Extractor(rest, s + [Link(c)])))
  {
    var d := v.vals[0];
    var x := d.vals[0];
    var c := d.vals[1].cid;
    var ex := Extract(hash, x).value;
    assert d.vals == [x, Link(c)];
    LinkedPairExtract(hash, x, c);
    assert [d, v] + rest == [d] + ([v] + rest);
    StepLinkedData(hash, d, [v] + rest, s, ex.node, c);
    assert ([v] + rest)[1..] == rest;
  }

  /** The data map of an unlinked inline node, reached with its payload on the stack, yields the payload under its computed CID. */
  lemma UnlinkedStep(hash: Hasher, v: Ipld, s: seq<Ipld>, rest: seq<Ipld>)
    requires IsInline(v) && UnlinkedShape(v.vals[0]) && Extract(hash, v.vals[0].vals[0]).Ok?
    ensures var d := v.vals[0];
            var ex := Extract(hash, d.vals[0]).value;
            ExtractAll(hash, d.vals) == Ok(ExtractedAll([ex.node], ex.blocks)) &&
            Trace(hash, Extractor([d, v] + rest, s + [ex.node])) ==
              match hash(ex.node)
              case Err(_) => None
              case Ok(c) => Then([(c, ex.node)], Trace(hash, Extractor(rest, s + [Link(c)])))
  {
    var d := v.vals[0];
    var x := d.vals[0];
    var ex := Extract(hash, x).value;
    assert d.vals == [x];
    ExtractAllSingle(hash, x);
    assert [d, v] + rest == [d] + ([v] + rest);
    StepUnlinkedData(hash, d, [v] + rest, s, ex.node);
    assert ([v] + rest)[1..] == rest;
  }

  /** `ExtractRun` for an inline node: its payload is extracted, then the data map's step yields the block and the delimiter is skipped. */
  lemma {:induction false} ExtractRunInline(hash: Hasher, v: Ipld, s: seq<Ipld>, rest: seq<Ipld>)
    requires WF(v) && IsInline(v)
    ensures Trace(hash, Extractor(PostOrder(v) + rest, s)) ==
            match Extract(hash, v)
            case Err(_) => None
            case Ok(e) => Then(e.blocks, Trace(hash, Extractor(rest, s + [e.node])))
    decreases v, 0
  {
    var d := v.vals[0];
    var x := d.vals[0];
    assert WFAll(v.vals);
    assert WF(d);
    assert WFAll(d.vals);
    PostOrderAllSingle(d);
    assert PostOrder(v) + rest == PostOrderAll(d.vals) + ([d, v] + rest);
    assert !DelimiterNext([d, v] + rest);
    ExtractRunAll(hash, d.vals, s, [d, v] + rest);
    if Extract(hash, x).Ok? {
      var ex := Extract(hash, x).value;
      if LinkedShape(d) {
        var c := d.vals[1].cid;
        LinkedStep(hash, v, s, rest);
        ThenThen(ex.blocks, [(c, ex.node)], Trace(hash, Extractor(rest, s + [Link(c)])));
      } else {
        UnlinkedStep(hash, v, s, rest);
        if hash(ex.node).Ok? {
          var c := hash(ex.node).value;
          ThenThen(ex.blocks, [(c, ex.node)], Trace(hash, Extractor(rest, s + [Link(c)])));
        }
      }
    } else if LinkedShape(d) {
      assert d.vals[..1] == [x];
      ExtractAllSingle(hash, x);
    } else {
      assert d.vals == [x];
      ExtractAllSingle(hash, x);
    }
  }

  /** `ExtractRun` over a sequence of siblings: their blocks in order, their nodes pushed in order. */
  /** The last sibling's run, appended to the run over the others. */
  lemma ExtractRunAllSnoc(hash: Hasher, xs: seq<Ipld>, s: seq<Ipld>, rest: seq<Ipld>)
    requires WFAll(xs) && xs != []
    requires DelimiterNext(rest) ==> !DataShaped(xs[|xs| - 1])
    ensures var init, y := xs[..|xs| - 1], xs[|xs| - 1];
            (match ExtractAll(hash, init)
             case Err(_) => None
             case Ok(a) => Then(a.blocks, Trace(hash, Extractor(PostOrder(y) + rest, s + a.nodes)))) ==
            (match ExtractAll(hash, xs)
             case Err(_) => None
             case Ok(a) => Then(a.blocks, Trace(hash, Extractor(rest, s + a.nodes))))
    decreases xs, 0
  {
    var init, y := xs[..|xs| - 1], xs[|xs| - 1];
    if ExtractAll(hash, init).Ok? {
      var a := ExtractAll(hash, init).value;
      ExtractRun(hash, y, s + a.nodes, rest);
      if Extract(hash, y).Ok? {
        var e := Extract(hash, y).value;
        assert s + a.nodes + [e.node] == s + (a.nodes + [e.node]);
        ThenThen(a.blocks, e.blocks, Trace(hash, Extractor(rest, s + (a.nodes + [e.node]))));
      }
    }
  }

  lemma {:induction false} ExtractRunAll(hash: Hasher, xs: seq<Ipld>, s: seq<Ipld>, rest: seq<Ipld>)
    requires WFAll(xs)
    requires DelimiterNext(rest) && xs != [] ==> !DataShaped(xs[|xs| - 1])
    ensures Trace(hash, Extractor(PostOrderAll(xs) + rest, s)) ==
            match ExtractAll(hash, xs)
            case Err(_) => None
            case Ok(a) => Then(a.blocks, Trace(hash, Extractor(rest, s + a.nodes)))
    decreases xs, 1
  {
    if xs == [] {
      assert PostOrderAll(xs) + rest == rest;
      assert s + [] == s;
      ThenEmpty(Trace(hash, Extractor(rest, s)));
    } else {
      var init, y := xs[..|xs| - 1], xs[|xs| - 1];
      WalkHeadNotDelimiter(y, rest);
      assert WFAll(init);
      ExtractRunAll(hash, init, s, PostOrder(y) + rest);
      SnocWalk(xs, rest);
      ExtractRunAllSnoc(hash, xs, s, rest);
    }
  }

  /**
   * The extractor run on a whole well-formed tree yields exactly the
   * blocks of `Extract`, innermost first, then the extracted root under its
   * computed CID; it panics only where a CID computation fails.
   */
  lemma ExtractTrace(hash: Hasher, v: Ipld)
    requires WF(v)
    ensures Trace(hash, Init(v)) ==
            match Extract(hash, v)
            case Err(_) => None
            case Ok(e) =>
              match hash(e.node)
              case Err(_) => None
              case Ok(c) => Some(e.blocks + [(c, e.node)])
  {
    assert PostOrder(v) + [] == PostOrder(v);
    assert Init(v) == Extractor(PostOrder(v) + [], []);
    ExtractRun(hash, v, [], []);
    if Extract(hash, v).Ok? {
      var e := Extract(hash, v).value;
      var fin := Extractor([], [e.node]);
      assert [] + [e.node] == [e.node];
      match hash(e.node)
      case Err(_) =>
        assert Step(hash, fin) == Panic;
      case Ok(c) =>
        assert Step(hash, fin) == Emit((c, e.node), Extractor([], []));
        assert Trace(hash, Extractor([], [])) == Some([]);
        assert [(c, e.node)] + [] == [(c, e.node)];
        assert Trace(hash, fin) == Some([(c, e.node)]);
    }
  }
}
