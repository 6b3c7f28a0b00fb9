/**
 * The inline-link delimiter format: `{"/": {"data": x}}` inlines `x` and lets
 * its link be computed, `{"/": {"data": x, "link": Link(c)}}` inlines `x`
 * under the given link `c`. This module names the shapes and builds them.
 */
module Inline {
  import opened Wrappers
  import opened Cids
  import opened Values

  /** A map whose only key is `"/"`: what `is_delimiter_next` looks for. */
  predicate IsDelimiter(v: Ipld)
  {
    v.Map? && v.keys == [DelimitInline]
  }

  /** `{"data": x}`. */
  predicate UnlinkedShape(m: Ipld)
  {
    m.Map? && m.keys == [DataTag] && |m.vals| == 1
  }

  /** `{"data": x, "link": Link(c)}`, keys in `BTreeMap` order. */
  predicate LinkedShape(m: Ipld)
  {
    m.Map? && m.keys == [DataTag, LinkTag] && |m.vals| == 2 && m.vals[1].Link?
  }

  /** An inline-delimited node. */
  predicate IsInline(v: Ipld)
  {
    IsDelimiter(v) && |v.vals| == 1 && (UnlinkedShape(v.vals[0]) || LinkedShape(v.vals[0]))
  }

  /** The inlined payload. */
  function InlineData(v: Ipld): Ipld
    requires IsInline(v)
  {
    v.vals[0].vals[0]
  }

  /** The explicit link, if the node carries one. */
  function InlineLink(v: Ipld): Option<Cid>
    requires IsInline(v)
  {
    if LinkedShape(v.vals[0]) then Some(v.vals[0].vals[1].cid) else None
  }

  /** `{"/": {"data": x, "link": Link(c)}}`. */
  function Wrap(c: Cid, x: Ipld): (r: Ipld)
    ensures IsInline(r) && InlineData(r) == x && InlineLink(r) == Some(c)
    ensures WF(r) <==> WF(x)
  {
    assert StrLess(DataTag, LinkTag);
    var inner := Map([DataTag, LinkTag], [x, Link(c)]);
    assert WF(inner) <==> WF(x) by {
      assert WFAll([x, Link(c)]) <==> WF(x) by {
        assert [x, Link(c)][0] == x;
      }
    }
    assert WFAll([inner]) <==> WF(inner) by {
      assert [inner][0] == inner;
    }
    Map([DelimitInline], [inner])
  }

  /** `{"/": {"data": x}}`. */
  function WrapInherit(x: Ipld): (r: Ipld)
    ensures IsInline(r) && InlineData(r) == x && InlineLink(r) == None
    ensures WF(r) <==> WF(x)
  {
    var inner := Map([DataTag], [x]);
    assert WF(inner) <==> WF(x) by {
      assert WFAll([x]) <==> WF(x) by {
        assert [x][0] == x;
      }
    }
    assert WFAll([inner]) <==> WF(inner) by {
      assert [inner][0] == inner;
    }
    Map([DelimitInline], [inner])
  }

  /** The two builders produce every inline node, and each is determined by its payload and link. */
  lemma InlineIsBuilt(v: Ipld)
    requires IsInline(v)
    ensures InlineLink(v).Some? ==> v == Wrap(InlineLink(v).value, InlineData(v))
    ensures InlineLink(v).None? ==> v == WrapInherit(InlineData(v))
  {
    var inner := v.vals[0];
    if LinkedShape(inner) {
      assert inner == Map([DataTag, LinkTag], [inner.vals[0], Link(inner.vals[1].cid)]);
    } else {
      assert inner == Map([DataTag], [inner.vals[0]]);
    }
  }

  /** No node of the tree is inline-delimited. */
  predicate NoInline(v: Ipld)
  {
    !IsInline(v) &&
    match v
    case List(xs) => forall i :: 0 <= i < |xs| ==> NoInline(xs[i])
    case Map(_, vs) => forall i :: 0 <= i < |vs| ==> NoInline(vs[i])
    case _ => true
  }

  lemma StrLessIrreflexive(a: string)
    ensures !StrLess(a, a)
  {
  }

  /**
   * On a well-formed map, the extractor's tests for a data node
   * (`get("data")` plus a key count, plus `get("link")` holding a link) hold
   * exactly for the two data shapes.
   */
  lemma DataTestsMatchShapes(m: Ipld)
    requires WF(m) && m.Map?
    ensures (Get(m.keys, m.vals, DataTag).Some? && |m.keys| == 1) <==> UnlinkedShape(m)
    ensures (Get(m.keys, m.vals, DataTag).Some? && |m.keys| == 2 && Get(m.keys, m.vals, LinkTag).Some?
             && Get(m.keys, m.vals, LinkTag).value.Link?) <==> LinkedShape(m)
  {
    var ks, vs := m.keys, m.vals;
    if Get(ks, vs, DataTag).Some? && |ks| == 2 && Get(ks, vs, LinkTag).Some? && Get(ks, vs, LinkTag).value.Link? {
      var i :| 0 <= i < |ks| && i < |vs| && ks[i] == DataTag;
      var j :| 0 <= j < |ks| && j < |vs| && ks[j] == LinkTag;
      assert StrLess(ks[0], ks[1]);
      StrLessIrreflexive(ks[0]);
      assert i != j;
      assert ks == [DataTag, LinkTag];
      assert Get(ks, vs, LinkTag) == Some(vs[1]);
    }
  }
}
