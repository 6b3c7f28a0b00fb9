/**
 * The store's inlining entry points (src/store/traits.rs): `try_inline`
 * runs the exactly-once inliner over the store and keeps its last item;
 * `inline_at_most_once` does the same with the quiet inliner and insists
 * the last item is a value. A failed `expect` is `None` here.
 */
module StoreOps {
  import opened Wrappers
  import opened Cids
  import opened Values
  import Traversal
  import Inlining
  import Resumable
  import Stores

  /** `try_inline`: the last item of the exactly-once inliner; `None` where `try_inline`'s `expect` panics. */
  function TryInline(m: Stores.Blocks, v: Ipld): (r: Option<Result<Ipld, Cid>>)
    ensures r.Some? <==> Resumable.Drain(Resumable.New(v, m)).Last? && Resumable.Next(Resumable.New(v, m)).Item?
  {
    match Resumable.Drain(Resumable.New(v, m))
    case LastCrash => None
    case Last(None, _) => None
    case Last(Some(x), _) => Some(x)
  }

  /**
   * On a well-formed tree `try_inline` never panics: it returns the tree
   * with every link replaced by its inlined block, or the first link in
   * post-order whose block the store lacks.
   */
  lemma TryInlineInlines(m: Stores.Blocks, v: Ipld)
    requires WF(v)
    ensures TryInline(m, v) == Some(Inlining.InlineLinks(m, v))
    ensures TryInline(m, v).value.Err? <==> Inlining.FirstMissing(m, Traversal.PostOrder(v)).Some?
  {
    Resumable.DrainOutcome(v, m);
    Inlining.InlineFailsAtFirstMissing(m, v);
  }

  /** `Iterator::last` on the quiet inliner, which keeps going past missing links. */
  function QuietLast(q: Inlining.Quiet): (r: Option<Option<Result<Ipld, Cid>>>)
    ensures r.Some? && r.value.None? <==> Inlining.Next(q).Done?
    decreases |q.stream|, |q.stack|
  {
    match Inlining.Next(q)
    case Crash => None
    case Done => Some(None)
    case Item(x, q') =>
      match QuietLast(q')
      case None => None
      case Some(None) => Some(Some(x))
      case Some(Some(y)) => Some(Some(y))
  }

  /** `inline_at_most_once`: the quiet inliner's last item, which must be a value. */
  function InlineAtMostOnce(m: Stores.Blocks, v: Ipld): (r: Option<Ipld>)
    ensures var l := QuietLast(Inlining.New(v, m));
            r.Some? <==> l.Some? && l.value.Some? && l.value.value.Ok?
    ensures r.Some? ==> QuietLast(Inlining.New(v, m)) == Some(Some(Ok(r.value)))
  {
    match QuietLast(Inlining.New(v, m))
    case Some(Some(Ok(y))) => Some(y)
    case _ => None
  }

  /** When every link of a well-formed tree is in the store, `inline_at_most_once` returns the inlined tree. */
  lemma InlineAtMostOnceInlines(m: Stores.Blocks, v: Ipld)
    requires WF(v)
    requires Inlining.FirstMissing(m, Traversal.PostOrder(v)).None?
    ensures Inlining.InlineLinks(m, v).Ok?
    ensures InlineAtMostOnce(m, v) == Some(Inlining.InlineLinks(m, v).value)
  {
    Inlining.FirstNext(v, m);
    Inlining.InlineFailsAtFirstMissing(m, v);
    var q := Inlining.New(v, m);
    var p := Inlining.Next(q);
    assert QuietLast(p.rest) == Some(None);
    assert QuietLast(q) == Some(Some(p.item));
  }
}
