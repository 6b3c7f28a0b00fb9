/**
 * `AtMostOnceStore` (src/store/at_most_once.rs): a store wrapper that
 * tombstones every CID it hands a block out for, so that each block is
 * read at most once; writes go to the wrapped store and never clear a
 * tombstone.
 */
module AtMostOnce {
  import opened Wrappers
  import opened Cids
  import opened Values
  import Stores

  datatype AtMostOnceStore = AtMostOnceStore(store: Stores.Blocks, tombstones: set<Cid>)

  /** `From<S>`: wrap a store, nothing tombstoned yet. */
  function FromStore(m: Stores.Blocks): (s: AtMostOnceStore)
    ensures s.tombstones == {} && s.store == m
  {
    AtMostOnceStore(m, {})
  }

  datatype Got = Got(result: Result<Ipld, Stores.BlockNotFound>, next: AtMostOnceStore)

  /**
   * `get`: a tombstoned CID is not found; otherwise the wrapped store is
   * asked, and a block it returns gets its CID tombstoned. A failed `get`
   * changes nothing.
   */
  function Get(s: AtMostOnceStore, c: Cid): (r: Got)
    ensures r.result.Ok? <==> c !in s.tombstones && c in s.store
    ensures r.result.Ok? ==> r.result.value == s.store[c] && r.next == AtMostOnceStore(s.store, s.tombstones + {c})
    ensures r.result.Err? ==> r.result.error == Stores.BlockNotFound(c) && r.next == s
  {
    if c in s.tombstones then Got(Err(Stores.BlockNotFound(c)), s)
    else
      match Stores.Get(s.store, c)
      case Err(e) => Got(Err(e), s)
      case Ok(x) => Got(Ok(x), AtMostOnceStore(s.store, s.tombstones + {c}))
  }

  /** `put_keyed`: write through to the wrapped store; tombstones stay. */
  function PutKeyed(s: AtMostOnceStore, c: Cid, x: Ipld): (r: AtMostOnceStore)
    ensures r.tombstones == s.tombstones
    ensures Stores.Get(r.store, c) == Ok(x)
    ensures forall d :: d != c ==> Stores.Get(r.store, d) == Stores.Get(s.store, d)
  {
    AtMostOnceStore(Stores.PutKeyed(s.store, c, x), s.tombstones)
  }

  /** A second `get` of a block just handed out fails. */
  lemma SecondGetFails(s: AtMostOnceStore, c: Cid)
    requires Get(s, c).result.Ok?
    ensures Get(Get(s, c).next, c).result == Err(Stores.BlockNotFound(c))
  {
  }

  /** Putting a block back under a tombstoned CID does not make it readable again. */
  lemma PutDoesNotRevive(s: AtMostOnceStore, c: Cid, x: Ipld)
    requires c in s.tombstones
    ensures Get(PutKeyed(s, c, x), c).result == Err(Stores.BlockNotFound(c))
  {
  }

  /** The CIDs in a sequence. */
  function Elems(cs: seq<Cid>): (r: set<Cid>)
    ensures forall x :: x in r <==> x in cs
  {
    if cs == [] then {} else {cs[0]} + Elems(cs[1..])
  }

  datatype Op = GetOp(cid: Cid) | PutOp(cid: Cid, block: Ipld)

  datatype Session = Session(final: AtMostOnceStore, handed: seq<Cid>)

  /** Apply the operations in order; `handed` lists the CIDs whose `get` returned a block. */
  function RunOps(s: AtMostOnceStore, ops: seq<Op>): Session
    decreases |ops|
  {
    if ops == [] then Session(s, [])
    else
      match ops[0]
      case GetOp(c) =>
        var g := Get(s, c);
        var rest := RunOps(g.next, ops[1..]);
        Session(rest.final, (if g.result.Ok? then [c] else []) + rest.handed)
      case PutOp(c, x) => RunOps(PutKeyed(s, c, x), ops[1..])
  }

  /** A CID handed out ahead of a list that avoids it and the earlier tombstones keeps the list free of repeats. */
  lemma HandOutFirst(t: set<Cid>, c: Cid, r: seq<Cid>)
    requires c !in t
    requires forall i, j :: 0 <= i < j < |r| ==> r[i] != r[j]
    requires forall i :: 0 <= i < |r| ==> r[i] !in t + {c}
    ensures var h := [c] + r;
            (forall i, j :: 0 <= i < j < |h| ==> h[i] != h[j]) &&
            (forall i :: 0 <= i < |h| ==> h[i] !in t) &&
            Elems(h) == {c} + Elems(r)
  {
    var h := [c] + r;
    assert h[1..] == r;
    assert forall i :: 0 < i < |h| ==> h[i] == r[i - 1];
  }

  /**
   * Over any sequence of reads and writes, no CID's block is handed out
   * twice, none that was tombstoned to begin with is handed out, and the
   * tombstones at the end are exactly those plus the CIDs handed out.
   */
  lemma {:induction false} HandedOutAtMostOnce(s: AtMostOnceStore, ops: seq<Op>)
    ensures var r := RunOps(s, ops);
            (forall i, j :: 0 <= i < j < |r.handed| ==> r.handed[i] != r.handed[j]) &&
            (forall i :: 0 <= i < |r.handed| ==> r.handed[i] !in s.tombstones) &&
            r.final.tombstones == s.tombstones + Elems(r.handed)
    decreases |ops|
  {
    if ops != [] {
      match ops[0]
      case GetOp(c) =>
        var g := Get(s, c);
        HandedOutAtMostOnce(g.next, ops[1..]);
        var rest := RunOps(g.next, ops[1..]);
        if g.result.Ok? {
          HandOutFirst(s.tombstones, c, rest.handed);
        }
      case PutOp(c, x) =>
        HandedOutAtMostOnce(PutKeyed(s, c, x), ops[1..]);
    }
  }

  /** Starting from `From<S>`, every block is handed out at most once. */
  lemma FromStoreHandsOutOnce(m: Stores.Blocks, ops: seq<Op>)
    ensures var h := RunOps(FromStore(m), ops).handed;
            forall i, j :: 0 <= i < j < |h| ==> h[i] != h[j]
  {
    HandedOutAtMostOnce(FromStore(m), ops);
  }
}
