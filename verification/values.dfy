/**
 * libipld's `Ipld` value tree. Maps are `BTreeMap<String, Ipld>`: the model
 * keeps a map's keys and values in two parallel sequences in key order, and
 * `WF` says that they have equal length and that the keys strictly ascend,
 * which is what a `BTreeMap` guarantees by construction.
 */
module Values {
  import opened Wrappers
  import opened Cids

  datatype Ipld =
    | Null
    | Bool(b: bool)
    | Integer(n: int)
    | Float(bits: bv64)
    | String(s: string)
    | Bytes(bytes: seq<byte>)
    | List(items: seq<Ipld>)
    | Map(keys: seq<string>, vals: seq<Ipld>)
    | Link(cid: Cid)

  /** The direct children in the order a traversal visits them: list order, or map value order (which is key order). */
  function Children(v: Ipld): seq<Ipld>
  {
    match v
    case List(xs) => xs
    case Map(_, vs) => vs
    case _ => []
  }

  /** Lexicographic order by code point; on UTF-8 this is the byte order `String`'s `Ord` uses. */
  predicate StrLess(a: string, b: string)
  {
    if a == [] then b != []
    else if b == [] then false
    else if a[0] == b[0] then StrLess(a[1..], b[1..])
    else a[0] < b[0]
  }

  predicate StrictlySorted(ks: seq<string>)
  {
    forall i :: 0 < i < |ks| ==> StrLess(ks[i - 1], ks[i])
  }

  /** A value a `BTreeMap`-backed `Ipld` can be. */
  predicate WF(v: Ipld)
  {
    match v
    case List(xs) => WFAll(xs)
    case Map(ks, vs) => |ks| == |vs| && StrictlySorted(ks) && WFAll(vs)
    case _ => true
  }

  predicate WFAll(xs: seq<Ipld>)
  {
    forall i :: 0 <= i < |xs| ==> WF(xs[i])
  }

  /** `BTreeMap::get` on the parallel key and value sequences. */
  function Get(ks: seq<string>, vs: seq<Ipld>, k: string): (r: Option<Ipld>)
    ensures r.Some? <==> exists i :: 0 <= i < |ks| && i < |vs| && ks[i] == k
    ensures r.Some? ==> r.value in vs
  {
    if |ks| == 0 || |vs| == 0 then None
    else if ks[0] == k then Some(vs[0])
    else
      var r := Get(ks[1..], vs[1..], k);
      assert r.Some? ==> exists i :: 0 <= i < |ks| && i < |vs| && ks[i] == k by {
        if r.Some? {
          var j :| 0 <= j < |ks[1..]| && j < |vs[1..]| && ks[1..][j] == k;
          assert ks[j + 1] == k;
        }
      }
      r
  }

  /** Number of nodes in the tree. */
  function NodeCount(v: Ipld): nat
  {
    match v
    case List(xs) => 1 + NodeCountAll(xs)
    case Map(_, vs) => 1 + NodeCountAll(vs)
    case _ => 1
  }

  function NodeCountAll(xs: seq<Ipld>): nat
  {
    if xs == [] then 0 else NodeCountAll(xs[..|xs| - 1]) + NodeCount(xs[|xs| - 1])
  }

  /** The constants of src/ipld.rs. */
  const DelimitInline: string := "/"
  const DataTag: string := "data"
  const LinkTag: string := "link"
}
