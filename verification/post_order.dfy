/**
 * `PostOrderIpldIter`: a two-stack post-order walk of an `Ipld` tree, and
 * the `Peekable` wrapper plus `is_delimiter_next` that the extractor drives
 * it through. The iterator is related to the recursive `PostOrder` by
 * `Pending`, the sequence of items it has yet to yield.
 */
module Traversal {
  import opened Wrappers
  import opened Values
  import opened Inline

  /** Every child subtree, left to right, then the node itself. */
  function PostOrder(v: Ipld): seq<Ipld>
    decreases v
  {
    match v
    case List(xs) => PostOrderAll(xs) + [v]
    case Map(_, vs) => PostOrderAll(vs) + [v]
    case _ => [v]
  }

  /** The post-orders of a sequence of trees, concatenated left to right. */
  function PostOrderAll(xs: seq<Ipld>): seq<Ipld>
    decreases xs
  {
    if xs == [] then [] else PostOrderAll(xs[..|xs| - 1]) + PostOrder(xs[|xs| - 1])
  }

  /** A container's walk followed by more: its children's walks, then the container, then the rest. */
  lemma ContainerWalk(v: Ipld, rest: seq<Ipld>)
    requires v.List? || v.Map?
    ensures PostOrder(v) + rest == PostOrderAll(Children(v)) + ([v] + rest)
  {
  }

  /** A leaf's walk followed by more: the leaf, then the rest. */
  lemma LeafWalk(v: Ipld, rest: seq<Ipld>)
    requires !v.List? && !v.Map?
    ensures PostOrder(v) + rest == [v] + rest
  {
  }

  /** The siblings' walk followed by more: all but the last sibling's walks, then the last's, then the rest. */
  lemma SnocWalk(xs: seq<Ipld>, rest: seq<Ipld>)
    requires xs != []
    ensures PostOrderAll(xs) + rest == PostOrderAll(xs[..|xs| - 1]) + (PostOrder(xs[|xs| - 1]) + rest)
  {
  }

  lemma {:induction false} PostOrderAllAppend(xs: seq<Ipld>, ys: seq<Ipld>)
    ensures PostOrderAll(xs + ys) == PostOrderAll(xs) + PostOrderAll(ys)
    decreases |ys|
  {
    if ys == [] {
      assert xs + ys == xs;
    } else {
      var init, y := ys[..|ys| - 1], ys[|ys| - 1];
      var zs := xs + ys;
      assert zs[..|zs| - 1] == xs + init && zs[|zs| - 1] == y;
      PostOrderAllAppend(xs, init);
      calc {
        PostOrderAll(zs);
        PostOrderAll(xs + init) + PostOrder(y);
        (PostOrderAll(xs) + PostOrderAll(init)) + PostOrder(y);
        PostOrderAll(xs) + (PostOrderAll(init) + PostOrder(y));
        PostOrderAll(xs) + PostOrderAll(ys);
      }
    }
  }

  lemma PostOrderAllSingle(x: Ipld)
    ensures PostOrderAll([x]) == PostOrder(x)
  {
    assert [x][..0] == [];
  }

  /** The walk visits every node exactly once: its length is the node count. */
  lemma {:induction false} PostOrderLength(v: Ipld)
    ensures |PostOrder(v)| == NodeCount(v)
    decreases v
  {
    match v
    case List(xs) => PostOrderAllLength(xs);
    case Map(_, vs) => PostOrderAllLength(vs);
    case _ =>
  }

  lemma {:induction false} PostOrderAllLength(xs: seq<Ipld>)
    ensures |PostOrderAll(xs)| == NodeCountAll(xs)
    decreases xs
  {
    if xs != [] {
      PostOrderAllLength(xs[..|xs| - 1]);
      PostOrderLength(xs[|xs| - 1]);
    }
  }

  /** The walk of a well-formed tree never starts with a `"/"` map: such a map has a child, which comes first. */
  lemma {:induction false} PostOrderHeadNotDelimiter(v: Ipld)
    requires WF(v)
    ensures PostOrder(v) != [] && !IsDelimiter(PostOrder(v)[0])
    decreases v
  {
    match v
    case List(xs) =>
      if xs != [] {
        PostOrderAllHeadNotDelimiter(xs);
      }
    case Map(ks, vs) =>
      if vs != [] {
        PostOrderAllHeadNotDelimiter(vs);
      }
    case _ =>
  }

  /** Whatever follows it, a well-formed subtree's walk does not start with a `"/"` map. */
  lemma WalkHeadNotDelimiter(v: Ipld, rest: seq<Ipld>)
    requires WF(v)
    ensures !DelimiterNext(PostOrder(v) + rest)
  {
    PostOrderHeadNotDelimiter(v);
    assert (PostOrder(v) + rest)[0] == PostOrder(v)[0];
  }

  lemma {:induction false} PostOrderAllHeadNotDelimiter(xs: seq<Ipld>)
    requires WFAll(xs) && xs != []
    ensures PostOrderAll(xs) != [] && !IsDelimiter(PostOrderAll(xs)[0])
    decreases xs
  {
    var n := |xs|;
    if n == 1 {
      PostOrderAllSingle(xs[0]);
      PostOrderHeadNotDelimiter(xs[0]);
    } else {
      PostOrderAllHeadNotDelimiter(xs[..n - 1]);
    }
  }

  function Reverse<T>(s: seq<T>): (r: seq<T>)
    ensures |r| == |s|
  {
    if s == [] then [] else [s[|s| - 1]] + Reverse(s[..|s| - 1])
  }

  /** The iterator: `inbound` holds subtrees still to expand, `outbound` expanded nodes still to yield; both are stacks whose top is the end. */
  datatype PostOrderIpldIter = PostOrderIpldIter(inbound: seq<Ipld>, outbound: seq<Ipld>)

  /** What the iterator will yield from here on: the pending subtrees bottom to top, then the expanded nodes top to bottom. */
  function Pending(it: PostOrderIpldIter): seq<Ipld>
  {
    PostOrderAll(it.inbound) + Reverse(it.outbound)
  }

  /** `PostOrderIpldIter::new` / `From<&Ipld>`. */
  function New(v: Ipld): (it: PostOrderIpldIter)
    ensures Pending(it) == PostOrder(v)
  {
    PostOrderAllSingle(v);
    PostOrderIpldIter([v], [])
  }

  datatype Yield = Yield(item: Option<Ipld>, iter: PostOrderIpldIter)

  /** One turn of the loop in `Iterator::next`: pop the top of `inbound`; a map or list goes to `outbound` and its children onto `inbound`, anything else straight to `outbound`. */
  function Expand(it: PostOrderIpldIter): PostOrderIpldIter
    requires it.inbound != []
  {
    var n := |it.inbound|;
    var x := it.inbound[n - 1];
    var rest := it.inbound[..n - 1];
    match x
    case Map(_, vs) => PostOrderIpldIter(rest + vs, it.outbound + [x])
    case List(xs) => PostOrderIpldIter(rest + xs, it.outbound + [x])
    case _ => PostOrderIpldIter(rest, it.outbound + [x])
  }

  /** Expanding changes nothing about what is yet to be yielded, and shrinks what is left to expand. */
  lemma ExpandPreservesPending(it: PostOrderIpldIter)
    requires it.inbound != []
    ensures Pending(Expand(it)) == Pending(it)
    ensures |PostOrderAll(Expand(it).inbound)| < |PostOrderAll(it.inbound)|
  {
    var n := |it.inbound|;
    var x := it.inbound[n - 1];
    var rest := it.inbound[..n - 1];
    var out := it.outbound + [x];
    assert out[..|out| - 1] == it.outbound;
    assert Reverse(out) == [x] + Reverse(it.outbound);
    assert PostOrderAll(it.inbound) == PostOrderAll(rest) + PostOrder(x);
    assert PostOrder(x) == PostOrderAll(Children(x)) + [x];
    PostOrderAllAppend(rest, Children(x));
    assert Expand(it) == PostOrderIpldIter(rest + Children(x), out);
  }

  /** `Iterator::next`: expand until `inbound` is empty, then pop `outbound`. */
  function Next(it: PostOrderIpldIter): (r: Yield)
    ensures r.item.None? <==> Pending(it) == []
    ensures r.item.None? ==> Pending(r.iter) == []
    ensures r.item.Some? ==> r.item.value == Pending(it)[0] && Pending(r.iter) == Pending(it)[1..]
    ensures r.iter.inbound == []
    decreases |PostOrderAll(it.inbound)|
  {
    if it.inbound == [] then
      if it.outbound == [] then Yield(None, it)
      else
        var out := it.outbound;
        var n := |out|;
        assert Pending(it) == [out[n - 1]] + Reverse(out[..n - 1]);
        Yield(Some(out[n - 1]), PostOrderIpldIter([], out[..n - 1]))
    else
      ExpandPreservesPending(it);
      Next(Expand(it))
  }

  /** Every item a fresh iterator yields, in order, is the post-order walk. */
  method Collect(v: Ipld) returns (items: seq<Ipld>)
    ensures items == PostOrder(v)
  {
    var it := New(v);
    items := [];
    while true
      invariant items + Pending(it) == PostOrder(v)
      decreases |Pending(it)|
    {
      var y := Next(it);
      if y.item.None? {
        break;
      }
      items := items + [y.item.value];
      it := y.iter;
    }
  }

  /** `core::iter::Peekable`: an iterator and the item a `peek` has already pulled from it. */
  datatype Peekable = Peekable(iter: PostOrderIpldIter, peeked: Option<Option<Ipld>>)

  /** A cached `None` is only ever taken from an exhausted iterator. */
  predicate Valid(p: Peekable)
  {
    p.peeked == Some(None) ==> Pending(p.iter) == []
  }

  /** What the peekable iterator will yield from here on. */
  function Remaining(p: Peekable): seq<Ipld>
  {
    match p.peeked
    case None => Pending(p.iter)
    case Some(None) => []
    case Some(Some(x)) => [x] + Pending(p.iter)
  }

  /** `Iterator::peekable`. */
  function MakePeekable(it: PostOrderIpldIter): (p: Peekable)
    ensures Valid(p) && Remaining(p) == Pending(it)
  {
    Peekable(it, None)
  }

  datatype PeekYield = PeekYield(item: Option<Ipld>, rest: Peekable)

  /** `Peekable::next`: the peeked item if there is one, otherwise the iterator's next. */
  function PeekableNext(p: Peekable): (r: PeekYield)
    requires Valid(p)
    ensures Valid(r.rest)
    ensures r.item.None? <==> Remaining(p) == []
    ensures r.item.None? ==> Remaining(r.rest) == []
    ensures r.item.Some? ==> r.item.value == Remaining(p)[0] && Remaining(r.rest) == Remaining(p)[1..]
  {
    match p.peeked
    case Some(x) =>
      assert x.Some? ==> Remaining(p)[1..] == Pending(p.iter);
      PeekYield(x, Peekable(p.iter, None))
    case None =>
      var y := Next(p.iter);
      PeekYield(y.item, Peekable(y.iter, None))
  }

  /** `Peekable::peek`: the next item, pulled into the cache without being consumed. */
  function Peek(p: Peekable): (r: PeekYield)
    requires Valid(p)
    ensures Valid(r.rest)
    ensures Remaining(r.rest) == Remaining(p)
    ensures r.item.None? <==> Remaining(p) == []
    ensures r.item.Some? ==> r.item.value == Remaining(p)[0]
  {
    match p.peeked
    case Some(x) => PeekYield(x, p)
    case None =>
      var y := Next(p.iter);
      PeekYield(y.item, Peekable(y.iter, Some(y.item)))
  }

  /** The stream-level reading of `is_delimiter_next`: the next item is a map whose keys are exactly `["/"]`. */
  predicate DelimiterNext(s: seq<Ipld>)
  {
    s != [] && IsDelimiter(s[0])
  }

  datatype PeekTest = PeekTest(answer: bool, rest: Peekable)

  /** `is_delimiter_next`: peek, and test whether the next item is a `"/"`-only map. */
  function IsDelimiterNext(p: Peekable): (r: PeekTest)
    requires Valid(p)
    ensures Valid(r.rest)
    ensures r.answer <==> DelimiterNext(Remaining(p))
    ensures Remaining(r.rest) == Remaining(p)
  {
    var pk := Peek(p);
    var answer :=
      match pk.item
      case Some(Map(ks, _)) => ks == [DelimitInline]
      case _ => false;
    PeekTest(answer, pk.rest)
  }

  /** The documented example: after the first item of `{"/": 123}`, a delimiter is next. */
  lemma DelimiterAfterFirstItem()
    ensures IsDelimiterNext(MakePeekable(Next(New(Map([DelimitInline], [Integer(123)]))).iter)).answer
  {
    var v := Map([DelimitInline], [Integer(123)]);
    assert PostOrderAll([Integer(123)]) == [Integer(123)] by {
      PostOrderAllSingle(Integer(123));
    }
    assert PostOrder(v) == [Integer(123), v];
    var y := Next(New(v));
    assert Pending(y.iter) == [v];
    var p := MakePeekable(y.iter);
    assert DelimiterNext(Remaining(p));
  }
}
