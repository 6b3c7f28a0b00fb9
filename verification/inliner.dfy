/**
 * The one-level inliner: `Quiet` in src/inliner/quiet.rs and `Naive` in
 * inline_ipld/src/inliner/naive.rs hold the same loop. It walks the tree in
 * post-order and rebuilds it on a stack; a link whose block is in the store
 * is replaced by `{"/": {"data": block, "link": Link(cid)}}`, and a link
 * whose block is missing makes `next` yield `Err(cid)` at once.
 *
 * A store here is the finite map of blocks the inliner can read; the
 * inliner never writes it. `InlineLinks` is the recursive reading of the loop,
 * and `InlineRun` proves that the machine computes it.
 */
module Inlining {
  import opened Wrappers
  import opened Cids
  import opened Values
  import opened Inline
  import opened Traversal

  /** The walk still to come, the stack of rebuilt nodes (top at the end), and the store. */
  datatype Quiet = Quiet(stream: seq<Ipld>, stack: seq<Ipld>, store: map<Cid, Ipld>)

  /** `Quiet::new` / `Naive::new`: the whole post-order walk of the root and an empty stack. */
  function New(v: Ipld, store: map<Cid, Ipld>): (q: Quiet)
    ensures q.stream == Pending(Traversal.New(v))
    ensures q.stack == [] && q.store == store
  {
    Quiet(PostOrder(v), [], store)
  }

  /** `push`: put a replacement value on top of the stack. */
  function Push(q: Quiet, x: Ipld): Quiet
  {
    Quiet(q.stream, q.stack + [x], q.store)
  }

  datatype StepOut =
    | Continue(next: Quiet)
    | Emit(item: Result<Ipld, Cid>, next: Quiet)
    | Halt
    | Panic

  /**
   * One turn of the loop in `next`, or its exit: a found link is pushed
   * wrapped with its block, a missing one is yielded as `Err`, lists and
   * maps are rebuilt from the top of the stack, other leaves are pushed,
   * and once the walk is over the top of the stack is yielded. `Panic` is
   * the `len() - n` underflow of a rebuild with too few values on the stack.
   */
  function Step(q: Quiet): (r: StepOut)
    ensures r.Continue? || r.Emit? ==> r.next.store == q.store
    ensures r.Continue? ==> |r.next.stream| < |q.stream| && r.next.stack != []
    ensures r.Emit? && r.item.Ok? ==> q.stream == [] && r.next.stream == [] && |r.next.stack| < |q.stack|
    ensures r.Emit? && r.item.Err? ==>
              q.stream != [] && q.stream[0] == Link(r.item.error) && r.item.error !in q.store &&
              r.next == Quiet(q.stream[1..], q.stack, q.store)
    ensures r.Halt? <==> q.stream == [] && q.stack == []
  {
    if q.stream == [] then
      if q.stack == [] then Halt
      else Emit(Ok(q.stack[|q.stack| - 1]), Quiet([], q.stack[..|q.stack| - 1], q.store))
    else
      var node := q.stream[0];
      var rest := q.stream[1..];
      var n := |q.stack|;
      match node
      case Link(c) =>
        if c in q.store then Continue(Quiet(rest, q.stack + [Wrap(c, q.store[c])], q.store))
        else Emit(Err(c), Quiet(rest, q.stack, q.store))
      case Map(ks, _) =>
        if |ks| > n then Panic
        else Continue(Quiet(rest, q.stack[..n - |ks|] + [Map(ks, q.stack[n - |ks|..])], q.store))
      case List(xs) =>
        if |xs| > n then Panic
        else Continue(Quiet(rest, q.stack[..n - |xs|] + [List(q.stack[n - |xs|..])], q.store))
      case _ => Continue(Quiet(rest, q.stack + [node], q.store))
  }

  datatype Polled = Item(item: Result<Ipld, Cid>, rest: Quiet) | Done | Crash

  /**
   * `Iterator::next`: turn the loop until it yields, finishes or panics.
   * The store is only read; `None` comes only once the walk and the stack
   * are both exhausted; a missing link is reported having consumed just
   * that link.
   */
  function Next(q: Quiet): (r: Polled)
    ensures r.Item? ==> r.rest.store == q.store
    ensures r.Item? ==> |r.rest.stream| < |q.stream| ||
                        (|r.rest.stream| == |q.stream| && |r.rest.stack| < |q.stack|)
    ensures r.Item? && r.item.Err? ==> r.item.error !in q.store && |r.rest.stream| < |q.stream|
    ensures r.Done? ==> q.stream == [] && q.stack == []
    decreases |q.stream|
  {
    match Step(q)
    case Continue(q') => Next(q')
    case Emit(x, q') => Item(x, q')
    case Halt => Done
    case Panic => Crash
  }

  // ---- The recursive reading ----

  /**
   * What the inliner makes of a subtree: every link whose block is in the
   * store becomes the inline node wrapping that block, exactly as stored;
   * the first missing link in post-order is the error.
   */
  function InlineLinks(store: map<Cid, Ipld>, v: Ipld): (r: Result<Ipld, Cid>)
    decreases v
  {
    match v
    case Link(c) => if c in store then Ok(Wrap(c, store[c])) else Err(c)
    case List(xs) =>
      (match InlineLinksAll(store, xs)
       case Err(c) => Err(c)
       case Ok(ys) => Ok(List(ys)))
    case Map(ks, vs) =>
      (match InlineLinksAll(store, vs)
       case Err(c) => Err(c)
       case Ok(ys) => Ok(Map(ks, ys)))
    case _ => Ok(v)
  }

  function InlineLinksAll(store: map<Cid, Ipld>, xs: seq<Ipld>): (r: Result<seq<Ipld>, Cid>)
    ensures r.Ok? ==> |r.value| == |xs|
    decreases xs
  {
    if xs == [] then Ok([])
    else
      match InlineLinksAll(store, xs[..|xs| - 1])
      case Err(c) => Err(c)
      case Ok(ys) =>
        match InlineLinks(store, xs[|xs| - 1])
        case Err(c) => Err(c)
        case Ok(y) => Ok(ys + [y])
  }

  lemma InlineLinksAllSingle(store: map<Cid, Ipld>, x: Ipld)
    ensures InlineLinksAll(store, [x]) ==
            match InlineLinks(store, x)
            case Err(c) => Err(c)
            case Ok(y) => Ok([y])
  {
    assert [x][..0] == [];
    if InlineLinks(store, x).Ok? {
      assert [] + [InlineLinks(store, x).value] == [InlineLinks(store, x).value];
    }
  }

  /** The first link in a walk whose block is not in the store. */
  function FirstMissing(store: map<Cid, Ipld>, s: seq<Ipld>): (r: Option<Cid>)
    ensures r.Some? ==> Link(r.value) in s && r.value !in store
    ensures r.Some? ==> exists i :: 0 <= i < |s| && s[i] == Link(r.value) &&
                          forall j :: 0 <= j < i && s[j].Link? ==> s[j].cid in store
    ensures r.None? ==> forall i :: 0 <= i < |s| && s[i].Link? ==> s[i].cid in store
  {
    if s == [] then None
    else if s[0].Link? && s[0].cid !in store then Some(s[0].cid)
    else FirstMissing(store, s[1..])
  }

  lemma {:induction false} FirstMissingAppend(store: map<Cid, Ipld>, a: seq<Ipld>, b: seq<Ipld>)
    ensures FirstMissing(store, a + b) ==
            if FirstMissing(store, a).Some? then FirstMissing(store, a) else FirstMissing(store, b)
    decreases |a|
  {
    if a == [] {
      assert a + b == b;
    } else {
      assert (a + b)[0] == a[0];
      assert (a + b)[1..] == a[1..] + b;
      FirstMissingAppend(store, a[1..], b);
    }
  }

  /**
   * Inlining fails exactly when some link's block is missing, and then
   * with the first such link the post-order walk meets.
   */
  lemma {:induction false} InlineFailsAtFirstMissing(store: map<Cid, Ipld>, v: Ipld)
    ensures match InlineLinks(store, v)
            case Ok(_) => FirstMissing(store, PostOrder(v)) == None
            case Err(c) => FirstMissing(store, PostOrder(v)) == Some(c)
    decreases v
  {
    match v
    case List(xs) =>
      InlineAllFailsAtFirstMissing(store, xs);
      FirstMissingAppend(store, PostOrderAll(xs), [v]);
    case Map(_, vs) =>
      InlineAllFailsAtFirstMissing(store, vs);
      FirstMissingAppend(store, PostOrderAll(vs), [v]);
    case _ =>
  }

  lemma {:induction false} InlineAllFailsAtFirstMissing(store: map<Cid, Ipld>, xs: seq<Ipld>)
    ensures match InlineLinksAll(store, xs)
            case Ok(_) => FirstMissing(store, PostOrderAll(xs)) == None
            case Err(c) => FirstMissing(store, PostOrderAll(xs)) == Some(c)
    decreases xs
  {
    if xs != [] {
      var init, y := xs[..|xs| - 1], xs[|xs| - 1];
      InlineAllFailsAtFirstMissing(store, init);
      InlineFailsAtFirstMissing(store, y);
      FirstMissingAppend(store, PostOrderAll(init), PostOrder(y));
    }
  }

  /** No node of the tree is a link. */
  predicate NoLinks(v: Ipld)
  {
    !v.Link? &&
    match v
    case List(xs) => forall i :: 0 <= i < |xs| ==> NoLinks(xs[i])
    case Map(_, vs) => forall i :: 0 <= i < |vs| ==> NoLinks(vs[i])
    case _ => true
  }

  /** A tree without links comes back unchanged, whatever the store holds. */
  lemma {:induction false} InlineIdentity(store: map<Cid, Ipld>, v: Ipld)
    requires NoLinks(v)
    ensures InlineLinks(store, v) == Ok(v)
    decreases v
  {
    match v
    case List(xs) => InlineAllIdentity(store, xs);
    case Map(_, vs) => InlineAllIdentity(store, vs);
    case _ =>
  }

  lemma {:induction false} InlineAllIdentity(store: map<Cid, Ipld>, xs: seq<Ipld>)
    requires forall i :: 0 <= i < |xs| ==> NoLinks(xs[i])
    ensures InlineLinksAll(store, xs) == Ok(xs)
    decreases xs
  {
    if xs != [] {
      var init := xs[..|xs| - 1];
      InlineAllIdentity(store, init);
      InlineIdentity(store, xs[|xs| - 1]);
      assert init + [xs[|xs| - 1]] == xs;
    }
  }

  /** Inlining keeps a tree well formed: maps keep their keys, and each inline node is well formed when the stored block is. */
  lemma {:induction false} InlineKeepsWF(store: map<Cid, Ipld>, v: Ipld)
    requires WF(v)
    requires forall c :: c in store ==> WF(store[c])
    ensures InlineLinks(store, v).Ok? ==> WF(InlineLinks(store, v).value)
    decreases v
  {
    match v
    case List(xs) => InlineAllKeepsWF(store, xs);
    case Map(_, vs) => InlineAllKeepsWF(store, vs);
    case _ =>
  }

  lemma {:induction false} InlineAllKeepsWF(store: map<Cid, Ipld>, xs: seq<Ipld>)
    requires WFAll(xs)
    requires forall c :: c in store ==> WF(store[c])
    ensures InlineLinksAll(store, xs).Ok? ==> WFAll(InlineLinksAll(store, xs).value)
    decreases xs
  {
    if xs != [] && InlineLinksAll(store, xs).Ok? {
      var init := xs[..|xs| - 1];
      InlineAllKeepsWF(store, init);
      InlineKeepsWF(store, xs[|xs| - 1]);
      var ys := InlineLinksAll(store, init).value;
      var y := InlineLinks(store, xs[|xs| - 1]).value;
      assert InlineLinksAll(store, xs).value == ys + [y];
      assert forall i :: 0 <= i < |ys| ==> (ys + [y])[i] == ys[i];
    }
  }

  // ---- The machine computes the recursive reading ----

  /**
   * Running the loop over a subtree's walk followed by anything else either
   * leaves the subtree's inlined form on the stack and carries on, or stops
   * at the subtree's first missing link.
   */
  lemma {:induction false} InlineRun(v: Ipld, s: seq<Ipld>, rest: seq<Ipld>, store: map<Cid, Ipld>)
    requires WF(v)
    ensures match InlineLinks(store, v)
            case Ok(y) => Next(Quiet(PostOrder(v) + rest, s, store)) == Next(Quiet(rest, s + [y], store))
            case Err(c) => Next(Quiet(PostOrder(v) + rest, s, store)).Item? &&
                           Next(Quiet(PostOrder(v) + rest, s, store)).item == Err(c)
    decreases v
  {
    var q := Quiet(PostOrder(v) + rest, s, store);
    match v
    case List(xs) =>
      InlineRunAll(xs, s, [v] + rest, store);
      assert PostOrder(v) + rest == PostOrderAll(xs) + ([v] + rest);
      if InlineLinksAll(store, xs).Ok? {
        var ys := InlineLinksAll(store, xs).value;
        assert (s + ys)[..|s + ys| - |xs|] == s;
        assert (s + ys)[|s + ys| - |xs|..] == ys;
        assert Step(Quiet([v] + rest, s + ys, store)) == Continue(Quiet(rest, s + [List(ys)], store));
      }
    case Map(ks, vs) =>
      InlineRunAll(vs, s, [v] + rest, store);
      assert PostOrder(v) + rest == PostOrderAll(vs) + ([v] + rest);
      if InlineLinksAll(store, vs).Ok? {
        var ys := InlineLinksAll(store, vs).value;
        assert (s + ys)[..|s + ys| - |ks|] == s;
        assert (s + ys)[|s + ys| - |ks|..] == ys;
        assert Step(Quiet([v] + rest, s + ys, store)) == Continue(Quiet(rest, s + [Map(ks, ys)], store));
      }
    case Link(c) =>
      if c in store {
        assert Step(q) == Continue(Quiet(rest, s + [Wrap(c, store[c])], store));
      } else {
        assert Step(q) == Emit(Err(c), Quiet(rest, s, store));
      }
    case _ =>
      assert Step(q) == Continue(Quiet(rest, s + [v], store));
  }

  lemma {:induction false} InlineRunAll(xs: seq<Ipld>, s: seq<Ipld>, rest: seq<Ipld>, store: map<Cid, Ipld>)
    requires WFAll(xs)
    ensures match InlineLinksAll(store, xs)
            case Ok(ys) => Next(Quiet(PostOrderAll(xs) + rest, s, store)) == Next(Quiet(rest, s + ys, store))
            case Err(c) => Next(Quiet(PostOrderAll(xs) + rest, s, store)).Item? &&
                           Next(Quiet(PostOrderAll(xs) + rest, s, store)).item == Err(c)
    decreases xs
  {
    if xs == [] {
      assert PostOrderAll(xs) + rest == rest;
      assert s + [] == s;
    } else {
      var init, y := xs[..|xs| - 1], xs[|xs| - 1];
      assert WFAll(init);
      InlineRunAll(init, s, PostOrder(y) + rest, store);
      assert PostOrderAll(xs) + rest == PostOrderAll(init) + (PostOrder(y) + rest);
      if InlineLinksAll(store, init).Ok? {
        var ys := InlineLinksAll(store, init).value;
        InlineRun(y, s + ys, rest, store);
        if InlineLinks(store, y).Ok? {
          assert s + ys + [InlineLinks(store, y).value] == s + (ys + [InlineLinks(store, y).value]);
        }
      }
    }
  }

  /**
   * On a well-formed tree the first `next` yields `Ok` of the inlined tree,
   * after which `next` returns `None`, or it yields `Err` of the first
   * missing link. The machine never panics on its own.
   */
  lemma FirstNext(v: Ipld, store: map<Cid, Ipld>)
    requires WF(v)
    ensures Next(New(v, store)).Item?
    ensures Next(New(v, store)).item == InlineLinks(store, v)
    ensures InlineLinks(store, v).Ok? ==> Next(Next(New(v, store)).rest) == Done
  {
    assert PostOrder(v) + [] == PostOrder(v);
    assert New(v, store) == Quiet(PostOrder(v) + [], [], store);
    InlineRun(v, [], [], store);
    if InlineLinks(store, v).Ok? {
      var y := InlineLinks(store, v).value;
      assert [] + [y] == [y];
      assert Step(Quiet([], [y], store)) == Emit(Ok(y), Quiet([], [], store));
      assert Step(Quiet([], [], store)) == Halt;
    }
  }

  /** Input without links is returned as it is, once. */
  lemma NoLinksUnchanged(v: Ipld, store: map<Cid, Ipld>)
    requires WF(v) && NoLinks(v)
    ensures Next(New(v, store)).Item? && Next(New(v, store)).item == Ok(v)
    ensures Next(Next(New(v, store)).rest) == Done
  {
    InlineIdentity(store, v);
    FirstNext(v, store);
  }
}
