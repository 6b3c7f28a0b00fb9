/**
 * Content-addressed block stores. A store is a finite map from CIDs to
 * blocks; `Store for BTreeMap<Cid, Ipld>` (inline_ipld/src/store/traits.rs,
 * src/store/traits.rs) and `MemoryStore` (src/store.rs,
 * inline_ipld/src/store/memory.rs) are that map. `put`, `get_raw` and
 * `extract` are the trait's provided methods; `AtMostOnceStore`
 * (src/store/at_most_once.rs) hands each block out at most once.
 */
module Stores {
  import opened Wrappers
  import opened Cids
  import opened Codecs
  import opened Values
  import opened Hashing
  import Extraction

  type Blocks = map<Cid, Ipld>

  /** libipld's `BlockNotFound`. */
  datatype BlockNotFound = BlockNotFound(cid: Cid)

  /** `get` on a `BTreeMap`: the stored block, or `BlockNotFound` naming the CID. */
  function Get(m: Blocks, c: Cid): (r: Result<Ipld, BlockNotFound>)
    ensures r.Ok? <==> c in m
    ensures r.Ok? ==> r.value == m[c]
    ensures r.Err? ==> r.error == BlockNotFound(c)
  {
    if c in m then Ok(m[c]) else Err(BlockNotFound(c))
  }

  /** `put_keyed` on a `BTreeMap`: insert, replacing what was under the CID. */
  function PutKeyed(m: Blocks, c: Cid, x: Ipld): (r: Blocks)
    ensures r.Keys == m.Keys + {c}
  {
    m[c := x]
  }

  /** After `put_keyed(c, x)`, `get(c)` returns `x` and every other CID reads as before. */
  lemma GetAfterPutKeyed(m: Blocks, c: Cid, x: Ipld, d: Cid)
    ensures Get(PutKeyed(m, c, x), c) == Ok(x)
    ensures d != c ==> Get(PutKeyed(m, c, x), d) == Get(m, d)
  {
  }

  datatype PutOut = PutOut(blocks: Blocks, result: Result<Cid, CidError>)

  /**
   * `put`: compute the block's CID and store the block under it. A CID
   * error is returned with nothing stored.
   */
  function Put(m: Blocks, hash: Hasher, x: Ipld): (r: PutOut)
    ensures r.result == hash(x)
    ensures r.result.Ok? ==> r.blocks == PutKeyed(m, r.result.value, x)
    ensures r.result.Err? ==> r.blocks == m
  {
    match hash(x)
    case Err(e) => PutOut(m, Err(e))
    case Ok(c) => PutOut(PutKeyed(m, c, x), Ok(c))
  }

  /** What `put` returns can be read back: the stored block. */
  lemma GetAfterPut(m: Blocks, hash: Hasher, x: Ipld)
    requires Put(m, hash, x).result.Ok?
    ensures Get(Put(m, hash, x).blocks, Put(m, hash, x).result.value) == Ok(x)
  {
  }

  /**
   * With inline_ipld's `cid::new`, `put` at version 1 succeeds under the CID
   * `cid::new` computes and stores the block there; at version 0 `cid::new`
   * panics, shown as `ConstructionError` with nothing stored.
   */
  lemma PutWithNew(m: Blocks, lib: SafeLib, codec: Codec, digester: u64, version: Version, x: Ipld)
    ensures version == V1 ==>
              var c := Hashing.New(lib, x, codec, digester, V1);
              Put(m, NewHasher(lib, codec, digester, version), x) == PutOut(m[c := x], Ok(c))
    ensures version == V0 ==> Put(m, NewHasher(lib, codec, digester, version), x) == PutOut(m, Err(ConstructionError))
  {
    if version == V0 {
      NewPanicsExactlyAtV0(lib, codec, V0, lib.digest(digester, EncodeTotal(lib, codec, x)));
    }
  }

  // ---- get_raw ----

  /** `GetRawError`; the library error inside `EncodeFailed` is opaque and left out. */
  datatype GetRawError = NotFound(notFound: BlockNotFound) | UnknownCodec(unknown: UnsupportedCodec) | EncodeFailed

  /**
   * `get_raw`: look the block up, resolve the CID's codec, encode. The
   * lookup is checked first, then the codec, then the encoding; the bytes
   * themselves are whatever `encode` produces.
   */
  function GetRaw<C>(m: Blocks, c: Cid, lookup: u64 -> Result<C, UnsupportedCodec>,
                     encode: (C, Ipld) -> Option<seq<byte>>): (r: Result<seq<byte>, GetRawError>)
    ensures r == Err(NotFound(BlockNotFound(c))) <==> c !in m
    ensures r.Err? && r.error.UnknownCodec? <==> c in m && lookup(c.codec).Err?
    ensures r.Err? && r.error.UnknownCodec? ==> r.error.unknown == lookup(c.codec).error
    ensures r == Err(EncodeFailed) <==> c in m && lookup(c.codec).Ok? && encode(lookup(c.codec).value, m[c]).None?
    ensures r.Ok? ==> c in m && lookup(c.codec).Ok? && encode(lookup(c.codec).value, m[c]) == Some(r.value)
  {
    match Get(m, c)
    case Err(nf) => Err(NotFound(nf))
    case Ok(x) =>
      match lookup(c.codec)
      case Err(u) => Err(UnknownCodec(u))
      case Ok(codec) =>
        match encode(codec, x)
        case None => Err(EncodeFailed)
        case Some(bytes) => Ok(bytes)
  }

  /** `PartialEq for GetRawError`: not-found errors compare by CID, codec errors by code, and nothing else is equal. */
  function RawErrorEq(a: GetRawError, b: GetRawError): bool
  {
    match (a, b)
    case (NotFound(BlockNotFound(x)), NotFound(BlockNotFound(y))) => x == y
    case (UnknownCodec(UnsupportedCodec(x)), UnknownCodec(UnsupportedCodec(y))) => x == y
    case _ => false
  }

  /** The hand-written equality is structural equality except that `EncodeFailed` is unequal even to itself. */
  lemma RawErrorEqIsEqualityButEncodeFailed(a: GetRawError, b: GetRawError)
    ensures RawErrorEq(a, b) <==> a == b && !a.EncodeFailed?
    ensures RawErrorEq(a, b) == RawErrorEq(b, a)
  {
  }

  // ---- extract ----

  /** Put every pair, in order. */
  function PutAll(m: Blocks, bs: seq<Extraction.Block>): (r: Blocks)
    decreases |bs|
  {
    if bs == [] then m else PutAll(PutKeyed(m, bs[0].0, bs[0].1), bs[1..])
  }

  /** The blocks `PutAll` leaves: everything stored before plus every pair's CID, the last pair for a CID winning. */
  lemma {:induction false} PutAllContents(m: Blocks, bs: seq<Extraction.Block>, c: Cid)
    ensures c in PutAll(m, bs) <==> c in m || exists i :: 0 <= i < |bs| && bs[i].0 == c
    ensures bs != [] && bs[|bs| - 1].0 == c ==> PutAll(m, bs)[c] == bs[|bs| - 1].1
    ensures (forall i :: 0 <= i < |bs| ==> bs[i].0 != c) && c in m ==> PutAll(m, bs)[c] == m[c]
    decreases |bs|
  {
    if bs != [] {
      PutAllContents(PutKeyed(m, bs[0].0, bs[0].1), bs[1..], c);
      if c in PutAll(m, bs) && c !in m && bs[0].0 != c {
        var i :| 0 <= i < |bs[1..]| && bs[1..][i].0 == c;
        assert bs[i + 1].0 == c;
      }
      if exists i :: 0 <= i < |bs| && bs[i].0 == c {
        var i :| 0 <= i < |bs| && bs[i].0 == c;
        if i > 0 {
          assert bs[1..][i - 1].0 == c;
        }
      }
      if (forall i :: 0 <= i < |bs| ==> bs[i].0 != c) {
        assert forall i :: 0 <= i < |bs[1..]| ==> bs[1..][i].0 != c;
      }
    }
  }

  lemma {:induction false} PutAllAppend(m: Blocks, a: seq<Extraction.Block>, b: seq<Extraction.Block>)
    ensures PutAll(m, a + b) == PutAll(PutAll(m, a), b)
    decreases |a|
  {
    if a == [] {
      assert a + b == b;
    } else {
      assert (a + b)[0] == a[0];
      assert (a + b)[1..] == a[1..] + b;
      PutAllAppend(PutKeyed(m, a[0].0, a[0].1), a[1..], b);
    }
  }

  /**
   * `extract`: run the extractor over the tree and `put_keyed` every pair
   * it yields, in order. `None` where the extractor would panic.
   */
  method Extract(m: Blocks, hash: Hasher, v: Ipld) returns (r: Option<Blocks>)
    ensures r.Some? <==> Extraction.Trace(hash, Extraction.Init(v)).Some?
    ensures r.Some? ==> r.value == PutAll(m, Extraction.Trace(hash, Extraction.Init(v)).value)
  {
    var e := Extraction.Init(v);
    var cur := m;
    ghost var done: seq<Extraction.Block> := [];
    Extraction.ThenEmpty(Extraction.Trace(hash, e));
    while true
      invariant Extraction.Trace(hash, Extraction.Init(v)) == Extraction.Then(done, Extraction.Trace(hash, e))
      invariant cur == PutAll(m, done)
      decreases |e.stream|, |e.stack|
    {
      var n := Extraction.Next(hash, e);
      match n
      case Item(b, e') =>
        Extraction.NextShrinks(hash, e);
        Extraction.ThenThen(done, [b], Extraction.Trace(hash, e'));
        PutAllAppend(m, done, [b]);
        assert PutAll(cur, [b]) == PutKeyed(cur, b.0, b.1) by {
          assert [b][1..] == [];
        }
        cur := PutKeyed(cur, b.0, b.1);
        done := done + [b];
        e := e';
      case Done =>
        assert done + [] == done;
        return Some(cur);
      case Crash =>
        return None;
    }
  }

  /** Every CID that holds a block hashes to it. */
  ghost predicate ContentAddressed(hash: Hasher, m: Blocks)
  {
    forall c :: c in m ==> hash(m[c]) == Ok(c)
  }

  /** Putting pairs that are each filed under their own CID keeps a store content-addressed. */
  lemma {:induction false} PutAllKeepsContentAddressed(hash: Hasher, m: Blocks, bs: seq<Extraction.Block>)
    requires ContentAddressed(hash, m)
    requires forall i :: 0 <= i < |bs| ==> hash(bs[i].1) == Ok(bs[i].0)
    ensures ContentAddressed(hash, PutAll(m, bs))
    decreases |bs|
  {
    if bs != [] {
      var m' := PutKeyed(m, bs[0].0, bs[0].1);
      assert ContentAddressed(hash, m');
      assert forall i :: 0 <= i < |bs[1..]| ==> hash(bs[1..][i].1) == Ok(bs[1..][i].0) by {
        forall i | 0 <= i < |bs[1..]| ensures hash(bs[1..][i].1) == Ok(bs[1..][i].0) {
          assert bs[1..][i] == bs[i + 1];
        }
      }
      PutAllKeepsContentAddressed(hash, m', bs[1..]);
    }
  }

  // ---- MemoryStore ----

  /** `MemoryStore`: a `BTreeMap` behind a struct. */
  datatype MemoryStore = MemoryStore(store: Blocks)

  /** `MemoryStore::new`: no blocks. */
  function NewMemoryStore(): (s: MemoryStore)
    ensures forall c :: Get(s.store, c) == Err(BlockNotFound(c))
  {
    MemoryStore(map[])
  }

  function FromBlocks(m: Blocks): MemoryStore
  {
    MemoryStore(m)
  }

  function IntoBlocks(s: MemoryStore): Blocks
  {
    s.store
  }

  /** `From<BTreeMap>` and `Into<BTreeMap>` are mutually inverse. */
  lemma MemoryStoreConversions(m: Blocks, s: MemoryStore)
    ensures IntoBlocks(FromBlocks(m)) == m
    ensures FromBlocks(IntoBlocks(s)) == s
  {
  }

  /** `MemoryStore::get`: delegates to the inner map. */
  function MemoryGet(s: MemoryStore, c: Cid): (r: Result<Ipld, BlockNotFound>)
    ensures r == Get(IntoBlocks(s), c)
  {
    Get(s.store, c)
  }

  /** `MemoryStore::put_keyed`: inserts into the inner map, one entry added or overwritten. */
  function MemoryPutKeyed(s: MemoryStore, c: Cid, x: Ipld): (r: MemoryStore)
    ensures IntoBlocks(r) == PutKeyed(IntoBlocks(s), c, x)
    ensures MemoryGet(r, c) == Ok(x)
    ensures forall d :: d != c ==> MemoryGet(r, d) == MemoryGet(s, d)
  {
    MemoryStore(s.store[c := x])
  }
}
