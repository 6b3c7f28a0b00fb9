/**
 * Inliners that stop at a missing block and can be resumed: `ExactlyOnce`
 * in src/inliner/exactly_once.rs, and `ExactlyOnce` / `AtLeastOnce` in
 * ipld_inline/src/inliner/exactly_once.rs and
 * inline_ipld/src/inliner/at_least_once.rs. All three wrap the one-level
 * inliner and remember the link they are stuck on; while stuck, `next`
 * returns `None`. A `Stuck` handle then feeds a replacement for the missing
 * link back in: `resolve` stores the block and inlines it, `stub` inlines
 * it without storing, `ignore` keeps the bare link.
 *
 * `Session` is the whole conversation with a caller who answers every
 * missing link by a fixed policy; `SessionResult` proves that it ends with
 * the tree in which every link is replaced as the policy says.
 */
module Resumable {
  import opened Wrappers
  import opened Cids
  import opened Values
  import opened Inline
  import opened Traversal
  import Inlining

  /** The wrapped inliner and the link it is stuck on (`stuck_at` / `needs`). */
  datatype Inliner = Inliner(quiet: Inlining.Quiet, needs: Option<Cid>)

  /** `new`: a fresh one-level inliner over the tree, not stuck. */
  function New(v: Ipld, store: map<Cid, Ipld>): (i: Inliner)
    ensures i.needs == None
    ensures i.quiet.stream == Pending(Traversal.New(v)) && i.quiet.stack == [] && i.quiet.store == store
  {
    Inliner(Inlining.New(v, store), None)
  }

  /** `From<Quiet>` / `From<Naive>`: wrap an inliner, not stuck. */
  function FromQuiet(q: Inlining.Quiet): Inliner
  {
    Inliner(q, None)
  }

  /** `From<ExactlyOnce> for Quiet` and its siblings: unwrap. */
  function IntoQuiet(i: Inliner): Inlining.Quiet
  {
    i.quiet
  }

  /** Wrapping and unwrapping round-trip, and a wrapped inliner is never stuck. */
  lemma QuietConversions(q: Inlining.Quiet, i: Inliner)
    ensures IntoQuiet(FromQuiet(q)) == q
    ensures FromQuiet(q).needs.None?
    ensures i.needs.None? ==> FromQuiet(IntoQuiet(i)) == i
  {
  }

  datatype Polled = Item(item: Result<Ipld, Cid>, rest: Inliner) | Done | Crash

  /**
   * `Iterator::next`: `None` while stuck; otherwise the wrapped inliner's
   * item, passed through, and an `Err(cid)` makes it stuck on `cid`.
   */
  function Next(i: Inliner): (r: Polled)
    ensures i.needs.Some? ==> r.Done?
    ensures i.needs.None? ==>
              (r.Done? <==> Inlining.Next(i.quiet).Done?) &&
              (r.Crash? <==> Inlining.Next(i.quiet).Crash?)
    ensures r.Item? ==> Inlining.Next(i.quiet) == Inlining.Item(r.item, r.rest.quiet)
    ensures r.Item? ==> r.rest.needs == (if r.item.Err? then Some(r.item.error) else None)
  {
    if i.needs.Some? then Done
    else
      match Inlining.Next(i.quiet)
      case Done => Done
      case Crash => Crash
      case Item(Err(c), q) => Item(Err(c), Inliner(q, Some(c)))
      case Item(Ok(x), q) => Item(Ok(x), Inliner(q, None))
  }

  /** `Inliner::store`: `put_keyed` into the wrapped inliner's store. */
  function Store(i: Inliner, c: Cid, x: Ipld): (r: Inliner)
    ensures r.quiet.store == i.quiet.store[c := x]
    ensures r.quiet.stream == i.quiet.stream && r.quiet.stack == i.quiet.stack && r.needs == i.needs
  {
    Inliner(Inlining.Quiet(i.quiet.stream, i.quiet.stack, i.quiet.store[c := x]), i.needs)
  }

  /** `Inliner::interject`: no longer stuck, and the value takes the place of the missing link. */
  function Interject(i: Inliner, x: Ipld): (r: Inliner)
    ensures r.needs == None
    ensures r.quiet == Inlining.Push(i.quiet, x)
  {
    Inliner(Inlining.Push(i.quiet, x), None)
  }

  // ---- The stuck handle ----

  /** A stuck inliner and the link it needs. */
  datatype Stuck = Stuck(needs: Cid, inliner: Inliner)

  /** `TryFrom<&mut ExactlyOnce> for Stuck`: only a stuck inliner converts, and it needs what it is stuck on. */
  function TryStuck(i: Inliner): (r: Option<Stuck>)
    ensures r.Some? <==> i.needs.Some?
    ensures r.Some? ==> r.value.needs == i.needs.value && r.value.inliner == i
  {
    match i.needs
    case None => None
    case Some(c) => Some(Stuck(c, i))
  }

  /** `Inliner::stuck_at`. */
  function StuckAt(i: Inliner, c: Cid): (s: Stuck)
    ensures s.needs == c && s.inliner == i
  {
    Stuck(c, i)
  }

  /** `Stuck::stub`: inline the given block under the needed link, leaving the store alone. */
  function Stub(s: Stuck, b: Ipld): (r: Inliner)
    ensures r.needs == None && r.quiet.store == s.inliner.quiet.store
    ensures r.quiet.stack == s.inliner.quiet.stack + [Wrap(s.needs, b)]
    ensures r.quiet.stream == s.inliner.quiet.stream
  {
    Interject(s.inliner, Wrap(s.needs, b))
  }

  /** `Stuck::resolve`: put the block in the store under the needed link, then stub it. */
  function Resolve(s: Stuck, b: Ipld): (r: Inliner)
    ensures r.needs == None && r.quiet.store == s.inliner.quiet.store[s.needs := b]
    ensures r.quiet.stack == s.inliner.quiet.stack + [Wrap(s.needs, b)]
    ensures r.quiet.stream == s.inliner.quiet.stream
  {
    Stub(Stuck(s.needs, Store(s.inliner, s.needs, b)), b)
  }

  /** `Stuck::ignore`: keep the bare link where it was. */
  function Ignore(s: Stuck): (r: Inliner)
    ensures r.needs == None && r.quiet.store == s.inliner.quiet.store
    ensures r.quiet.stack == s.inliner.quiet.stack + [Link(s.needs)]
    ensures r.quiet.stream == s.inliner.quiet.stream
  {
    Interject(s.inliner, Link(s.needs))
  }

  /** Stubbing leaves the inliner where resolving does, only without the store write. */
  lemma StubIsResolveWithoutStore(s: Stuck, b: Ipld)
    ensures Stub(s, b).quiet.stream == Resolve(s, b).quiet.stream
    ensures Stub(s, b).quiet.stack == Resolve(s, b).quiet.stack
    ensures Stub(s, b).needs == Resolve(s, b).needs
    ensures Resolve(s, b).quiet.store == Stub(s, b).quiet.store[s.needs := b]
  {
  }

  /**
   * Resolving a missing link and resuming goes on exactly as the inliner
   * would have, had the block been in the store from the start.
   */
  lemma ResolveResumes(i: Inliner, b: Ipld)
    requires i.needs == None
    requires Next(i).Item? && Next(i).item.Err?
    ensures var c := Next(i).item.error;
            Next(Resolve(Stuck(c, Next(i).rest), b)) ==
            Next(Inliner(Inlining.Quiet(i.quiet.stream, i.quiet.stack, i.quiet.store[c := b]), None))
  {
    var c := Next(i).item.error;
    QuietResolveResumes(i.quiet, c, b);
  }

  lemma {:induction false} QuietResolveResumes(q: Inlining.Quiet, c: Cid, b: Ipld)
    requires Inlining.Next(q).Item? && Inlining.Next(q).item == Err(c)
    ensures var q' := Inlining.Next(q).rest;
            Inlining.Next(Inlining.Quiet(q'.stream, q'.stack + [Wrap(c, b)], q.store[c := b])) ==
            Inlining.Next(Inlining.Quiet(q.stream, q.stack, q.store[c := b]))
    decreases |q.stream|
  {
    var st := q.store[c := b];
    var q2 := Inlining.Quiet(q.stream, q.stack, st);
    match Inlining.Step(q)
    case Continue(q1) =>
      assert c !in q.store;
      assert Inlining.Step(q2) == Inlining.Continue(Inlining.Quiet(q1.stream, q1.stack, st)) by {
        var node := q.stream[0];
        if node.Link? {
          assert node.cid in q.store;
          assert node.cid != c;
        }
      }
      QuietResolveResumes(q1, c, b);
    case Emit(_, q1) =>
      assert Inlining.Step(q2) == Inlining.Continue(Inlining.Quiet(q1.stream, q1.stack + [Wrap(c, b)], st));
  }

  // ---- Running to the end ----

  datatype Last = Last(item: Option<Result<Ipld, Cid>>, rest: Inliner) | LastCrash

  /** `Iterator::last`: call `next` until it returns `None`, keeping the last item. */
  function Drain(i: Inliner): (r: Last)
    ensures r.Last? ==> (r.item.None? <==> !Next(i).Item?)
    ensures r.Last? && r.item.None? ==> r.rest == i
    ensures r.Last? && r.item.Some? && r.item.value.Err? ==>
              r.rest.needs == Some(r.item.value.error) && |r.rest.quiet.stream| < |i.quiet.stream|
    decreases |i.quiet.stream|, |i.quiet.stack|
  {
    match Next(i)
    case Crash => LastCrash
    case Done => Last(None, i)
    case Item(x, i') =>
      match Drain(i')
      case LastCrash => LastCrash
      case Last(None, f) => Last(Some(x), f)
      case Last(Some(y), f) => Last(Some(y), f)
  }

  datatype RunOut = Finished(value: Ipld) | GotStuck(stuck: Stuck) | Exhausted | RunCrash

  /**
   * `ExactlyOnce::run`: the last item, with an `Err` turned into the
   * handle for the link the inliner is now stuck on.
   */
  function Run(i: Inliner): (r: RunOut)
    ensures r.GotStuck? ==> TryStuck(r.stuck.inliner) == Some(r.stuck)
    ensures r.GotStuck? ==> |r.stuck.inliner.quiet.stream| < |i.quiet.stream|
    ensures r.Exhausted? <==> Drain(i).Last? && !Next(i).Item?
  {
    match Drain(i)
    case LastCrash => RunCrash
    case Last(None, _) => Exhausted
    case Last(Some(Ok(x)), _) => Finished(x)
    case Last(Some(Err(c)), f) => GotStuck(Stuck(c, f))
  }

  /** On a well-formed tree, `Iterator::last` returns the inliner's one item: the inlined tree or the first missing link. */
  lemma DrainOutcome(v: Ipld, store: map<Cid, Ipld>)
    requires WF(v)
    ensures Drain(New(v, store)).Last? && Drain(New(v, store)).item == Some(Inlining.InlineLinks(store, v))
    ensures Next(New(v, store)).Item?
  {
    var i := New(v, store);
    Inlining.FirstNext(v, store);
    var p := Inlining.Next(i.quiet);
    var x := Inlining.InlineLinks(store, v);
    var f := Inliner(p.rest, if x.Err? then Some(x.error) else None);
    assert Next(i) == Item(x, f);
    assert Next(f) == Done;
    assert Drain(f) == Last(None, f);
  }

  /**
   * On a well-formed tree, `run` returns `Ok` of the inlined tree when every
   * link is in the store, and otherwise gets stuck on the first missing
   * link in post-order.
   */
  lemma RunOutcome(v: Ipld, store: map<Cid, Ipld>)
    requires WF(v)
    ensures match Inlining.InlineLinks(store, v)
            case Ok(y) => Run(New(v, store)) == Finished(y)
            case Err(c) => Run(New(v, store)).GotStuck? && Run(New(v, store)).stuck.needs == c &&
                           Inlining.FirstMissing(store, PostOrder(v)) == Some(c)
  {
    DrainOutcome(v, store);
    Inlining.InlineFailsAtFirstMissing(store, v);
  }

  // ---- A whole session ----

  /** How a caller answers a missing link. */
  datatype Answer = ResolveWith(block: Ipld) | StubWith(block: Ipld) | IgnoreIt

  function Apply(s: Stuck, a: Answer): (r: Inliner)
    ensures r.quiet.stream == s.inliner.quiet.stream
  {
    match a
    case ResolveWith(b) => Resolve(s, b)
    case StubWith(b) => Stub(s, b)
    case IgnoreIt => Ignore(s)
  }

  /**
   * Call `run`; while it gets stuck, answer the needed link by the policy
   * and call `run` again. The final value, or `None` if a run ends any
   * other way.
   */
  function Session(policy: Cid -> Answer, i: Inliner): Option<Ipld>
    decreases |i.quiet.stream|
  {
    match Run(i)
    case Finished(x) => Some(x)
    case GotStuck(s) => Session(policy, Apply(s, policy(s.needs)))
    case Exhausted => None
    case RunCrash => None
  }

  /** What replaces a link: its stored block if there is one, otherwise what the policy's answer puts there. */
  function Replacement(store: map<Cid, Ipld>, policy: Cid -> Answer, c: Cid): Ipld
  {
    if c in store then Wrap(c, store[c])
    else match policy(c)
      case ResolveWith(b) => Wrap(c, b)
      case StubWith(b) => Wrap(c, b)
      case IgnoreIt => Link(c)
  }

  /** The tree with every link replaced as `Replacement` says. */
  function Substitute(store: map<Cid, Ipld>, policy: Cid -> Answer, v: Ipld): Ipld
    decreases v
  {
    match v
    case Link(c) => Replacement(store, policy, c)
    case List(xs) => List(SubstituteAll(store, policy, xs))
    case Map(ks, vs) => Map(ks, SubstituteAll(store, policy, vs))
    case _ => v
  }

  function SubstituteAll(store: map<Cid, Ipld>, policy: Cid -> Answer, xs: seq<Ipld>): (r: seq<Ipld>)
    ensures |r| == |xs|
    decreases xs
  {
    if xs == [] then []
    else SubstituteAll(store, policy, xs[..|xs| - 1]) + [Substitute(store, policy, xs[|xs| - 1])]
  }

  /** Two stores that lead every link to the same replacement. */
  ghost predicate SameReplacements(st1: map<Cid, Ipld>, st2: map<Cid, Ipld>, policy: Cid -> Answer)
  {
    forall c :: Replacement(st1, policy, c) == Replacement(st2, policy, c)
  }

  /** One turn of the loop, seen from the session. */
  lemma SessionStep(policy: Cid -> Answer, q: Inlining.Quiet)
    ensures Session(policy, Inliner(q, None)) ==
            match Inlining.Step(q)
            case Continue(q') => Session(policy, Inliner(q', None))
            case Emit(Err(c), q') => Session(policy, Apply(Stuck(c, Inliner(q', Some(c))), policy(c)))
            case Emit(Ok(x), q') => if q'.stack == [] then Some(x) else Session(policy, Inliner(q', None))
            case Halt => None
            case Panic => None
  {
    var i := Inliner(q, None);
    match Inlining.Step(q)
    case Continue(q') =>
      assert Next(i) == Next(Inliner(q', None));
      assert Drain(i) == Drain(Inliner(q', None));
    case Emit(Err(c), q') =>
      assert Next(i) == Item(Err(c), Inliner(q', Some(c)));
      assert Drain(Inliner(q', Some(c))) == Last(None, Inliner(q', Some(c)));
    case Emit(Ok(x), q') =>
      var i' := Inliner(q', None);
      assert Next(i) == Item(Ok(x), i');
      if q'.stack == [] {
        assert Inlining.Step(q') == Inlining.Halt;
        assert Drain(i') == Last(None, i');
      } else {
        assert Inlining.Step(q').Emit?;
        assert Drain(i').Last? ==> Drain(i').item.Some?;
      }
    case Halt =>
    case Panic =>
  }

  /** A session depends on the store only through the replacements it leads to. */
  lemma {:induction false} SessionStoreIrrelevant(policy: Cid -> Answer, stream: seq<Ipld>, stack: seq<Ipld>,
                                                  st1: map<Cid, Ipld>, st2: map<Cid, Ipld>)
    requires SameReplacements(st1, st2, policy)
    ensures Session(policy, Inliner(Inlining.Quiet(stream, stack, st1), None)) ==
            Session(policy, Inliner(Inlining.Quiet(stream, stack, st2), None))
    decreases |stream|, |stack|
  {
    var q1 := Inlining.Quiet(stream, stack, st1);
    var q2 := Inlining.Quiet(stream, stack, st2);
    if stream == [] || !stream[0].Link? {
      StepIgnoresStore(stream, stack, st1, st2);
      SessionStep(policy, q1);
      SessionStep(policy, q2);
      var r1 := Inlining.Step(q1);
      if r1.Continue? || (r1.Emit? && r1.next.stack != []) {
        SessionStoreIrrelevant(policy, r1.next.stream, r1.next.stack, st1, st2);
      }
    } else {
      var c := stream[0].cid;
      var x := Replacement(st1, policy, c);
      assert x == Replacement(st2, policy, c);
      SessionAtLink(policy, stream, stack, st1);
      SessionAtLink(policy, stream, stack, st2);
      var s1 := if c !in st1 && policy(c).ResolveWith? then st1[c := policy(c).block] else st1;
      var s2 := if c !in st2 && policy(c).ResolveWith? then st2[c := policy(c).block] else st2;
      ResolvingKeepsReplacements(policy, c, st1);
      ResolvingKeepsReplacements(policy, c, st2);
      SessionStoreIrrelevant(policy, stream[1..], stack + [x], s1, s2);
    }
  }

  /** Away from a link, a turn of the loop does not look at the store. */
  lemma StepIgnoresStore(stream: seq<Ipld>, stack: seq<Ipld>, st1: map<Cid, Ipld>, st2: map<Cid, Ipld>)
    requires stream == [] || !stream[0].Link?
    ensures var r1 := Inlining.Step(Inlining.Quiet(stream, stack, st1));
            var r2 := Inlining.Step(Inlining.Quiet(stream, stack, st2));
            (r1.Continue? ==> r2 == Inlining.Continue(Inlining.Quiet(r1.next.stream, r1.next.stack, st2))) &&
            (r1.Emit? ==> r2 == Inlining.Emit(r1.item, Inlining.Quiet(r1.next.stream, r1.next.stack, st2))) &&
            (r1.Halt? ==> r2.Halt?) && (r1.Panic? ==> r2.Panic?)
  {
  }

  /** Storing the block the policy resolves a missing link with changes no replacement. */
  lemma ResolvingKeepsReplacements(policy: Cid -> Answer, c: Cid, st: map<Cid, Ipld>)
    ensures var st' := if c !in st && policy(c).ResolveWith? then st[c := policy(c).block] else st;
            SameReplacements(st, st', policy)
  {
    var st' := if c !in st && policy(c).ResolveWith? then st[c := policy(c).block] else st;
    forall d ensures Replacement(st, policy, d) == Replacement(st', policy, d) {
    }
  }

  /**
   * At a link, the session carries on with the link's replacement pushed;
   * if the block had to be resolved, the store now holds it.
   */
  lemma SessionAtLink(policy: Cid -> Answer, stream: seq<Ipld>, stack: seq<Ipld>, st: map<Cid, Ipld>)
    requires stream != [] && stream[0].Link?
    ensures var c := stream[0].cid;
            var st' := if c !in st && policy(c).ResolveWith? then st[c := policy(c).block] else st;
            Session(policy, Inliner(Inlining.Quiet(stream, stack, st), None)) ==
            Session(policy, Inliner(Inlining.Quiet(stream[1..], stack + [Replacement(st, policy, c)], st'), None))
  {
    SessionStep(policy, Inlining.Quiet(stream, stack, st));
  }

  /**
   * A session over a subtree's walk followed by anything else continues
   * with the subtree's substituted form on the stack.
   */
  lemma {:induction false} SessionRun(policy: Cid -> Answer, v: Ipld, s: seq<Ipld>, rest: seq<Ipld>, st: map<Cid, Ipld>)
    requires WF(v)
    ensures Session(policy, Inliner(Inlining.Quiet(PostOrder(v) + rest, s, st), None)) ==
            Session(policy, Inliner(Inlining.Quiet(rest, s + [Substitute(st, policy, v)], st), None))
    decreases v
  {
    if v.List? || v.Map? {
      assert WFAll(Children(v));
      SessionRunAll(policy, Children(v), s, [v] + rest, st);
      ContainerWalk(v, rest);
      SessionRebuild(policy, v, s, rest, st);
    } else if v.Link? {
      SessionRunLink(policy, v.cid, s, rest, st);
    } else {
      LeafWalk(v, rest);
      SessionLeaf(policy, v, s, rest, st);
    }
  }

  /** A leaf's turn pushes it unchanged. */
  lemma SessionLeaf(policy: Cid -> Answer, v: Ipld, s: seq<Ipld>, rest: seq<Ipld>, st: map<Cid, Ipld>)
    requires !v.List? && !v.Map? && !v.Link?
    ensures Session(policy, Inliner(Inlining.Quiet([v] + rest, s, st), None)) ==
            Session(policy, Inliner(Inlining.Quiet(rest, s + [Substitute(st, policy, v)], st), None))
  {
    var q := Inlining.Quiet([v] + rest, s, st);
    assert ([v] + rest)[1..] == rest;
    assert Inlining.Step(q) == Inlining.Continue(Inlining.Quiet(rest, s + [v], st));
    SessionStep(policy, q);
  }

  /** A list or map, reached with its substituted children on the stack, is rebuilt from them. */
  lemma SessionRebuild(policy: Cid -> Answer, v: Ipld, s: seq<Ipld>, rest: seq<Ipld>, st: map<Cid, Ipld>)
    requires WF(v) && (v.List? || v.Map?)
    ensures Session(policy, Inliner(Inlining.Quiet([v] + rest, s + SubstituteAll(st, policy, Children(v)), st), None)) ==
            Session(policy, Inliner(Inlining.Quiet(rest, s + [Substitute(st, policy, v)], st), None))
  {
    var ys := SubstituteAll(st, policy, Children(v));
    var n := |Children(v)|;
    var q' := Inlining.Quiet([v] + rest, s + ys, st);
    assert (s + ys)[..|s + ys| - n] == s;
    assert (s + ys)[|s + ys| - n..] == ys;
    assert Inlining.Step(q') == Inlining.Continue(Inlining.Quiet(rest, s + [Substitute(st, policy, v)], st));
    SessionStep(policy, q');
  }

  /** A link's turn pushes its replacement; a store grown by resolving leads to the same replacements. */
  lemma SessionRunLink(policy: Cid -> Answer, c: Cid, s: seq<Ipld>, rest: seq<Ipld>, st: map<Cid, Ipld>)
    ensures Session(policy, Inliner(Inlining.Quiet(PostOrder(Link(c)) + rest, s, st), None)) ==
            Session(policy, Inliner(Inlining.Quiet(rest, s + [Replacement(st, policy, c)], st), None))
  {
    assert (PostOrder(Link(c)) + rest)[1..] == rest;
    SessionAtLink(policy, PostOrder(Link(c)) + rest, s, st);
    var st' := if c !in st && policy(c).ResolveWith? then st[c := policy(c).block] else st;
    ResolvingKeepsReplacements(policy, c, st);
    SessionStoreIrrelevant(policy, rest, s + [Replacement(st, policy, c)], st', st);
  }

  lemma {:induction false} SessionRunAll(policy: Cid -> Answer, xs: seq<Ipld>, s: seq<Ipld>, rest: seq<Ipld>, st: map<Cid, Ipld>)
    requires WFAll(xs)
    ensures Session(policy, Inliner(Inlining.Quiet(PostOrderAll(xs) + rest, s, st), None)) ==
            Session(policy, Inliner(Inlining.Quiet(rest, s + SubstituteAll(st, policy, xs), st), None))
    decreases xs
  {
    if xs == [] {
      assert PostOrderAll(xs) + rest == rest;
      assert s + [] == s;
    } else {
      var init, y := xs[..|xs| - 1], xs[|xs| - 1];
      assert WFAll(init);
      SessionRunAll(policy, init, s, PostOrder(y) + rest, st);
      assert PostOrderAll(xs) + rest == PostOrderAll(init) + (PostOrder(y) + rest);
      var ys := SubstituteAll(st, policy, init);
      SessionRun(policy, y, s + ys, rest, st);
      assert s + ys + [Substitute(st, policy, y)] == s + SubstituteAll(st, policy, xs);
    }
  }

  /**
   * A session over a well-formed tree, answering every missing link by the
   * policy, ends with the tree in which each link is replaced by its
   * stored block, by the block the policy resolves or stubs it with, or is
   * kept as it is when the policy ignores it.
   */
  lemma SessionResult(policy: Cid -> Answer, v: Ipld, store: map<Cid, Ipld>)
    requires WF(v)
    ensures Session(policy, New(v, store)) == Some(Substitute(store, policy, v))
  {
    assert PostOrder(v) + [] == PostOrder(v);
    SessionRun(policy, v, [], [], store);
    var y := Substitute(store, policy, v);
    assert [] + [y] == [y];
    SessionStep(policy, Inlining.Quiet([], [y], store));
  }

  /** With every link in the store, the session's answer is what the plain inliner computes. */
  lemma {:induction false} SubstituteAgrees(store: map<Cid, Ipld>, policy: Cid -> Answer, v: Ipld)
    requires Inlining.InlineLinks(store, v).Ok?
    ensures Substitute(store, policy, v) == Inlining.InlineLinks(store, v).value
    decreases v
  {
    match v
    case List(xs) => SubstituteAllAgrees(store, policy, xs);
    case Map(_, vs) => SubstituteAllAgrees(store, policy, vs);
    case _ =>
  }

  lemma {:induction false} SubstituteAllAgrees(store: map<Cid, Ipld>, policy: Cid -> Answer, xs: seq<Ipld>)
    requires Inlining.InlineLinksAll(store, xs).Ok?
    ensures SubstituteAll(store, policy, xs) == Inlining.InlineLinksAll(store, xs).value
    decreases xs
  {
    if xs != [] {
      SubstituteAllAgrees(store, policy, xs[..|xs| - 1]);
      SubstituteAgrees(store, policy, xs[|xs| - 1]);
    }
  }

  /** Ignoring every missing link over an empty store gives back the tree unchanged: every link is kept. */
  lemma {:induction false} IgnoringKeepsLinks(v: Ipld)
    ensures Substitute(map[], _ => IgnoreIt, v) == v
    decreases v
  {
    match v
    case List(xs) => IgnoringKeepsLinksAll(xs);
    case Map(_, vs) => IgnoringKeepsLinksAll(vs);
    case _ =>
  }

  lemma {:induction false} IgnoringKeepsLinksAll(xs: seq<Ipld>)
    ensures SubstituteAll(map[], _ => IgnoreIt, xs) == xs
    decreases xs
  {
    if xs != [] {
      IgnoringKeepsLinksAll(xs[..|xs| - 1]);
      IgnoringKeepsLinks(xs[|xs| - 1]);
      assert xs[..|xs| - 1] + [xs[|xs| - 1]] == xs;
    }
  }
}
