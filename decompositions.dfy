/** Tree decompositions as the gluing step sees them: bags are identified by
    their position (the creation order, which is also the order bags compare
    in), and the tree is an edge list between bag positions. */
module Decompositions {

  datatype Decomposition<V> = Decomposition(bags: seq<set<V>>, edges: seq<(nat, nat)>)

  function Max(a: int, b: int): int
  {
    if a >= b then a else b
  }

  /** The largest bag size minus one; -1 for a decomposition without bags. */
  function Width<V>(bags: seq<set<V>>): (w: int)
    ensures w >= -1
  {
    if bags == [] then -1 else Max(|bags[0]| - 1, Width(bags[1..]))
  }

  lemma {:induction false} WidthConcat<V>(a: seq<set<V>>, b: seq<set<V>>)
    ensures Width(a + b) == Max(Width(a), Width(b))
  {
    if a == [] {
      assert a + b == b;
    } else {
      assert (a + b)[0] == a[0];
      assert (a + b)[1..] == a[1..] + b;
      WidthConcat(a[1..], b);
    }
  }

  // ---------------------------------------------------------------------------
  // Edges

  /** The lower and the higher endpoint of an edge. */
  function Lo(e: (nat, nat)): nat
  {
    if e.0 <= e.1 then e.0 else e.1
  }

  function Hi(e: (nat, nat)): nat
  {
    if e.0 <= e.1 then e.1 else e.0
  }

  /** The copy of edge e with both endpoints shifted by off, from the lower
      endpoint to the higher one, and the same copy the other way round. */
  function Shifted(e: (nat, nat), off: nat): (nat, nat)
  {
    (off + Lo(e), off + Hi(e))
  }

  function Reversed(e: (nat, nat), off: nat): (nat, nat)
  {
    (off + Hi(e), off + Lo(e))
  }

  /** The two pairs name the same undirected edge. */
  predicate SameEdge(e: (nat, nat), f: (nat, nat))
  {
    (e.0 == f.0 && e.1 == f.1) || (e.0 == f.1 && e.1 == f.0)
  }

  predicate EndpointsBelow(edges: seq<(nat, nat)>, n: nat)
  {
    forall k :: 0 <= k < |edges| ==> edges[k].0 < n && edges[k].1 < n
  }

  predicate Loopless(edges: seq<(nat, nat)>)
  {
    forall k :: 0 <= k < |edges| ==> edges[k].0 != edges[k].1
  }

  predicate NoParallelEdges(edges: seq<(nat, nat)>)
  {
    forall i, j :: 0 <= i < j < |edges| ==> !SameEdge(edges[i], edges[j])
  }

  /** What a tree decomposition's edge list guarantees: every edge joins two
      distinct existing bags, and no two entries join the same pair. */
  predicate WellFormed<V>(d: Decomposition<V>)
  {
    EndpointsBelow(d.edges, |d.bags|) && Loopless(d.edges) && NoParallelEdges(d.edges)
  }

  /** Bags a and b are joined by a tree edge, in either direction. */
  predicate Linked(edges: seq<(nat, nat)>, a: nat, b: nat)
  {
    (a, b) in edges || (b, a) in edges
  }

  /** p is a walk along tree edges. */
  ghost predicate IsPath(edges: seq<(nat, nat)>, p: seq<nat>)
  {
    |p| > 0 && forall t :: 0 <= t < |p| - 1 ==> Linked(edges, p[t], p[t + 1])
  }

  /** Some walk leads from bag a to bag b. */
  ghost predicate Connects(edges: seq<(nat, nat)>, a: nat, b: nat)
  {
    exists p :: IsPath(edges, p) && p[0] == a && p[|p| - 1] == b
  }

  /** Every bag can be reached from bag 0: the tree is connected. */
  ghost predicate Connected<V>(d: Decomposition<V>)
  {
    forall b :: 0 <= b < |d.bags| ==> Connects(d.edges, 0, b)
  }

  predicate Distinct<T(==)>(s: seq<T>)
  {
    forall i, j :: 0 <= i < j < |s| ==> s[i] != s[j]
  }

  /** The neighbourhood of bag s, in edge-list order. */
  function Neighbors(edges: seq<(nat, nat)>, s: nat): seq<nat>
  {
    if edges == [] then []
    else
      (if edges[0].0 == s then [edges[0].1] else if edges[0].1 == s then [edges[0].0] else [])
      + Neighbors(edges[1..], s)
  }

  lemma {:induction false} NeighborsMember(edges: seq<(nat, nat)>, s: nat, t: nat)
    ensures t in Neighbors(edges, s) <==> exists k :: 0 <= k < |edges| && SameEdge(edges[k], (s, t))
  {
    if edges != [] {
      NeighborsMember(edges[1..], s, t);
      if exists k :: 0 <= k < |edges| && SameEdge(edges[k], (s, t)) {
        var k :| 0 <= k < |edges| && SameEdge(edges[k], (s, t));
        if k > 0 {
          assert edges[1..][k - 1] == edges[k];
        }
      }
      if exists k :: 0 <= k < |edges| - 1 && SameEdge(edges[1..][k], (s, t)) {
        var k :| 0 <= k < |edges| - 1 && SameEdge(edges[1..][k], (s, t));
        assert edges[k + 1] == edges[1..][k];
      }
    }
  }

  lemma FirstNotRepeated(edges: seq<(nat, nat)>, s: nat, t: nat)
    requires NoParallelEdges(edges) && |edges| > 0 && SameEdge(edges[0], (s, t))
    ensures t !in Neighbors(edges[1..], s)
  {
    var rest := edges[1..];
    NeighborsMember(rest, s, t);
    forall k | 0 <= k < |rest| ensures !SameEdge(rest[k], (s, t)) {
      assert rest[k] == edges[k + 1];
      assert !SameEdge(edges[0], edges[k + 1]);
    }
  }

  lemma {:induction false} NeighborsDistinct(edges: seq<(nat, nat)>, s: nat)
    requires NoParallelEdges(edges)
    ensures Distinct(Neighbors(edges, s))
  {
    if edges != [] {
      var rest := edges[1..];
      assert NoParallelEdges(rest) by {
        forall i, j | 0 <= i < j < |rest| ensures !SameEdge(rest[i], rest[j]) {
          assert rest[i] == edges[i + 1] && rest[j] == edges[j + 1];
        }
      }
      NeighborsDistinct(rest, s);
      var h := if edges[0].0 == s then [edges[0].1] else if edges[0].1 == s then [edges[0].0] else [];
      if h != [] {
        FirstNotRepeated(edges, s, h[0]);
      }
      assert Neighbors(edges, s) == h + Neighbors(rest, s);
    }
  }

  // ---------------------------------------------------------------------------
  // Copying the edges of one decomposition, as the gluing loops do

  /** The images of the edges from bag s to its higher-numbered neighbours ns,
      with every bag position shifted by off. */
  function Upward(s: nat, ns: seq<nat>, off: nat): seq<(nat, nat)>
  {
    if ns == [] then []
    else
      Upward(s, ns[..|ns| - 1], off)
      + (if s < ns[|ns| - 1] then [(off + s, off + ns[|ns| - 1])] else [])
  }

  /** The images of the edges the gluing loops visit for bags 0 .. count-1. */
  function CopyEdges(edges: seq<(nat, nat)>, off: nat, count: nat): seq<(nat, nat)>
  {
    if count == 0 then []
    else CopyEdges(edges, off, count - 1) + Upward(count - 1, Neighbors(edges, count - 1), off)
  }

  lemma {:induction false} UpwardConcat(s: nat, a: seq<nat>, b: seq<nat>, off: nat)
    ensures Upward(s, a + b, off) == Upward(s, a, off) + Upward(s, b, off)
    decreases |b|
  {
    if b == [] {
      assert a + b == a;
    } else {
      var b' := b[..|b| - 1];
      assert (a + b)[..|a + b| - 1] == a + b';
      UpwardConcat(s, a, b', off);
    }
  }

  lemma {:induction false} UpwardMember(s: nat, ns: seq<nat>, off: nat, x: (nat, nat))
    ensures x in Upward(s, ns, off) <==> exists t :: t in ns && s < t && x == (off + s, off + t)
    decreases |ns|
  {
    if ns != [] {
      var ns', last := ns[..|ns| - 1], ns[|ns| - 1];
      UpwardMember(s, ns', off, x);
      assert ns == ns' + [last];
      assert Upward(s, ns, off) == Upward(s, ns', off) + (if s < last then [(off + s, off + last)] else []);
      if x in Upward(s, ns, off) {
        if x in Upward(s, ns', off) {
          var t :| t in ns' && s < t && x == (off + s, off + t);
          assert t in ns;
        } else {
          assert last in ns && s < last && x == (off + s, off + last);
        }
      }
      if exists t :: t in ns && s < t && x == (off + s, off + t) {
        var t :| t in ns && s < t && x == (off + s, off + t);
        if t in ns' {
          assert x in Upward(s, ns', off);
        } else {
          assert t == last;
        }
      }
    }
  }

  lemma NeighborsBelow(edges: seq<(nat, nat)>, s: nat, t: nat, n: nat)
    requires EndpointsBelow(edges, n) && t in Neighbors(edges, s)
    ensures t < n
  {
    NeighborsMember(edges, s, t);
  }

  lemma NeighborsHas(edges: seq<(nat, nat)>, s: nat, t: nat, k: nat)
    requires k < |edges| && SameEdge(edges[k], (s, t))
    ensures t in Neighbors(edges, s)
  {
    NeighborsMember(edges, s, t);
  }

  lemma UpwardHas(s: nat, ns: seq<nat>, off: nat, t: nat)
    requires t in ns && s < t
    ensures (off + s, off + t) in Upward(s, ns, off)
  {
    UpwardMember(s, ns, off, (off + s, off + t));
  }

  lemma {:induction false} UpwardShape(s: nat, ns: seq<nat>, off: nat)
    ensures forall k :: 0 <= k < |Upward(s, ns, off)| ==>
      Upward(s, ns, off)[k].0 == off + s < Upward(s, ns, off)[k].1
    decreases |ns|
  {
    if ns != [] {
      UpwardShape(s, ns[..|ns| - 1], off);
    }
  }

  lemma {:induction false} UpwardDistinct(s: nat, ns: seq<nat>, off: nat)
    requires Distinct(ns)
    ensures Distinct(Upward(s, ns, off))
    decreases |ns|
  {
    if ns != [] {
      var ns' := ns[..|ns| - 1];
      var t := ns[|ns| - 1];
      assert Distinct(ns');
      UpwardDistinct(s, ns', off);
      if s < t && (off + s, off + t) in Upward(s, ns', off) {
        UpwardMember(s, ns', off, (off + s, off + t));
        assert false;
      }
    }
  }

  /** The number of proper edges whose lower endpoint is s. */
  function CountLow(edges: seq<(nat, nat)>, s: nat): nat
  {
    if edges == [] then 0
    else (if edges[0].0 != edges[0].1 && Lo(edges[0]) == s then 1 else 0) + CountLow(edges[1..], s)
  }

  /** CountLow summed over the bags 0 .. count-1. */
  function SumLow(edges: seq<(nat, nat)>, count: nat): nat
  {
    if count == 0 then 0 else SumLow(edges, count - 1) + CountLow(edges, count - 1)
  }

  lemma {:induction false} UpwardCount(edges: seq<(nat, nat)>, s: nat, off: nat)
    ensures |Upward(s, Neighbors(edges, s), off)| == CountLow(edges, s)
  {
    if edges != [] {
      var h := if edges[0].0 == s then [edges[0].1] else if edges[0].1 == s then [edges[0].0] else [];
      UpwardConcat(s, h, Neighbors(edges[1..], s), off);
      UpwardCount(edges[1..], s, off);
      if h != [] {
        assert Upward(s, h, off) == (if s < h[0] then [(off + s, off + h[0])] else []);
      }
    }
  }

  lemma {:induction false} SumLowCons(edges: seq<(nat, nat)>, count: nat)
    requires edges != []
    ensures SumLow(edges, count) ==
      (if edges[0].0 != edges[0].1 && Lo(edges[0]) < count then 1 else 0) + SumLow(edges[1..], count)
  {
    if count > 0 {
      SumLowCons(edges, count - 1);
    }
  }

  lemma {:induction false} SumLowNoEdges(count: nat)
    ensures SumLow([], count) == 0
  {
    if count > 0 { SumLowNoEdges(count - 1); }
  }

  lemma {:induction false} SumLowAll(edges: seq<(nat, nat)>, count: nat)
    requires EndpointsBelow(edges, count) && Loopless(edges)
    ensures SumLow(edges, count) == |edges|
  {
    if edges == [] {
      SumLowNoEdges(count);
    } else {
      SumLowCons(edges, count);
      assert edges[0].0 != edges[0].1 && Lo(edges[0]) < count;
      var rest := edges[1..];
      assert EndpointsBelow(rest, count) && Loopless(rest) by {
        forall k | 0 <= k < |rest| ensures rest[k].0 < count && rest[k].1 < count && rest[k].0 != rest[k].1 {
          assert rest[k] == edges[k + 1];
        }
      }
      SumLowAll(rest, count);
      assert SumLow(edges, count) == 1 + SumLow(rest, count);
      assert |edges| == 1 + |rest|;
    }
  }

  lemma {:induction false} CopyEdgesLength(edges: seq<(nat, nat)>, off: nat, count: nat)
    ensures |CopyEdges(edges, off, count)| == SumLow(edges, count)
  {
    if count > 0 {
      CopyEdgesLength(edges, off, count - 1);
      UpwardCount(edges, count - 1, off);
    }
  }

  /** Every proper edge of a decomposition with `count` bags is copied once: the
      copy loops add exactly as many edges as the input has. */
  lemma CopyEdgesCount(edges: seq<(nat, nat)>, off: nat, count: nat)
    requires EndpointsBelow(edges, count) && Loopless(edges)
    ensures |CopyEdges(edges, off, count)| == |edges|
  {
    CopyEdgesLength(edges, off, count);
    SumLowAll(edges, count);
  }

  /** Pair x is the copy of the k-th edge: a proper edge whose lower endpoint is
      among the bags 0 .. count-1, shifted by off and oriented upwards. */
  predicate IsCopyOf(edges: seq<(nat, nat)>, off: nat, count: nat, x: (nat, nat), k: nat)
  {
    k < |edges| && edges[k].0 != edges[k].1 && Lo(edges[k]) < count &&
    x == Shifted(edges[k], off)
  }

  lemma {:induction false} CopyEdgesSound(edges: seq<(nat, nat)>, off: nat, count: nat, x: (nat, nat))
    requires x in CopyEdges(edges, off, count)
    ensures exists k :: IsCopyOf(edges, off, count, x, k)
  {
    var s := count - 1;
    var ns := Neighbors(edges, s);
    assert CopyEdges(edges, off, count) == CopyEdges(edges, off, s) + Upward(s, ns, off);
    if x in CopyEdges(edges, off, s) {
      CopyEdgesSound(edges, off, s, x);
      var k :| IsCopyOf(edges, off, s, x, k);
      assert IsCopyOf(edges, off, count, x, k);
    } else {
      UpwardMember(s, ns, off, x);
      var t :| t in ns && s < t && x == (off + s, off + t);
      NeighborsMember(edges, s, t);
      var k :| 0 <= k < |edges| && SameEdge(edges[k], (s, t));
      CopyOfEdge(edges, off, count, k, s, t);
    }
  }

  lemma CopyOfEdge(edges: seq<(nat, nat)>, off: nat, count: nat, k: nat, s: nat, t: nat)
    requires k < |edges| && SameEdge(edges[k], (s, t)) && s < t && s < count
    ensures IsCopyOf(edges, off, count, (off + s, off + t), k)
  {
  }

  lemma {:induction false} CopyEdgesComplete(edges: seq<(nat, nat)>, off: nat, count: nat, x: (nat, nat), k: nat)
    requires IsCopyOf(edges, off, count, x, k)
    ensures x in CopyEdges(edges, off, count)
  {
    var s: nat := count - 1;
    var ns := Neighbors(edges, s);
    var a, b := CopyEdges(edges, off, s), Upward(s, ns, off);
    assert CopyEdges(edges, off, count) == a + b;
    if Lo(edges[k]) < s {
      assert IsCopyOf(edges, off, s, x, k);
      CopyEdgesComplete(edges, off, s, x, k);
      assert x in a;
    } else {
      CopyOfTop(edges, off, s, x, k);
    }
  }

  /** The copy of an edge whose lower endpoint is bag s is among the edges from s upwards. */
  lemma CopyOfTop(edges: seq<(nat, nat)>, off: nat, s: nat, x: (nat, nat), k: nat)
    requires IsCopyOf(edges, off, s + 1, x, k) && Lo(edges[k]) == s
    ensures x in Upward(s, Neighbors(edges, s), off)
  {
    var hi := Hi(edges[k]);
    EdgeSpan(edges[k]);
    NeighborsHas(edges, s, hi, k);
    UpwardHas(s, Neighbors(edges, s), off, hi);
  }

  lemma EdgeSpan(e: (nat, nat))
    requires e.0 != e.1
    ensures SameEdge(e, (Lo(e), Hi(e))) && Lo(e) < Hi(e)
  {
  }

  /** The copies are exactly the shifted edges whose lower endpoint is one of
      the bags visited, each oriented from its lower to its higher endpoint. */
  lemma CopyEdgesMember(edges: seq<(nat, nat)>, off: nat, count: nat, x: (nat, nat))
    ensures x in CopyEdges(edges, off, count) <==> exists k :: IsCopyOf(edges, off, count, x, k)
  {
    if x in CopyEdges(edges, off, count) {
      CopyEdgesSound(edges, off, count, x);
    }
    if exists k :: IsCopyOf(edges, off, count, x, k) {
      var k :| IsCopyOf(edges, off, count, x, k);
      CopyEdgesComplete(edges, off, count, x, k);
    }
  }

  /** Every copy joins two shifted bags among the first `bound` ones, from the
      lower to the higher. */
  lemma {:induction false} CopyEdgesShape(edges: seq<(nat, nat)>, off: nat, count: nat, bound: nat)
    requires EndpointsBelow(edges, bound)
    ensures forall k :: 0 <= k < |CopyEdges(edges, off, count)| ==>
      var x := CopyEdges(edges, off, count)[k];
      off <= x.0 < x.1 < off + bound && x.0 < off + count
  {
    forall k | 0 <= k < |CopyEdges(edges, off, count)|
      ensures var x := CopyEdges(edges, off, count)[k];
        off <= x.0 < x.1 < off + bound && x.0 < off + count
    {
      var x := CopyEdges(edges, off, count)[k];
      CopyEdgesSound(edges, off, count, x);
    }
  }

  /** No pair is copied twice, given no parallel edges. */
  lemma {:induction false} CopyEdgesDistinct(edges: seq<(nat, nat)>, off: nat, count: nat)
    requires NoParallelEdges(edges)
    ensures Distinct(CopyEdges(edges, off, count))
  {
    if count > 0 {
      var s := count - 1;
      var a, b := CopyEdges(edges, off, s), Upward(s, Neighbors(edges, s), off);
      CopyEdgesDistinct(edges, off, s);
      NeighborsDistinct(edges, s);
      UpwardDistinct(s, Neighbors(edges, s), off);
      UpwardShape(s, Neighbors(edges, s), off);
      forall i | 0 <= i < |a| ensures a[i].0 < off + s {
        CopyEdgesSound(edges, off, s, a[i]);
      }
      DistinctConcat(a, b);
    }
  }

  lemma DistinctConcat<T>(a: seq<T>, b: seq<T>)
    requires Distinct(a) && Distinct(b)
    requires forall i, j :: 0 <= i < |a| && 0 <= j < |b| ==> a[i] != b[j]
    ensures Distinct(a + b)
  {
  }

  lemma {:induction false} DistinctOccursOnce<T>(s: seq<T>, x: T)
    requires Distinct(s) && x in s
    ensures multiset(s)[x] == 1
  {
    if s[0] == x {
      assert x !in s[1..];
    } else {
      DistinctOccursOnce(s[1..], x);
    }
    assert s == [s[0]] + s[1..];
  }

  /** Each proper edge of a well-formed decomposition appears exactly once among
      the copies, between the images of its endpoints, and its reverse never does. */
  lemma CopyEdgesExactlyOnce<V>(d: Decomposition<V>, off: nat, k: nat)
    requires WellFormed(d) && k < |d.edges|
    ensures var c := CopyEdges(d.edges, off, |d.bags|);
      var e := d.edges[k];
      multiset(c)[Shifted(e, off)] == 1 && Reversed(e, off) !in c
  {
    var c := CopyEdges(d.edges, off, |d.bags|);
    var e := d.edges[k];
    assert IsCopyOf(d.edges, off, |d.bags|, Shifted(e, off), k);
    CopyEdgesComplete(d.edges, off, |d.bags|, Shifted(e, off), k);
    CopyEdgesDistinct(d.edges, off, |d.bags|);
    DistinctOccursOnce(c, Shifted(e, off));
    if Reversed(e, off) in c {
      CopyEdgesSound(d.edges, off, |d.bags|, Reversed(e, off));
    }
  }

  // ---------------------------------------------------------------------------
  // The mutable tree decomposition the gluing builds

  /** A decomposition under construction: bags are appended, tree edges added. */
  class TreeDecomposition<V(==)> {
    var bags: seq<set<V>>
    var edges: seq<(nat, nat)>

    function View(): Decomposition<V>
      reads this
    {
      Decomposition(bags, edges)
    }

    constructor ()
      ensures bags == [] && edges == []
    {
      bags := [];
      edges := [];
    }

    /** Adds an isolated bag and returns its identity. */
    method CreateBag(vertices: set<V>) returns (id: nat)
      modifies this
      ensures bags == old(bags) + [vertices] && edges == old(edges)
      ensures id == |old(bags)|
    {
      id := |bags|;
      bags := bags + [vertices];
    }

    /** Links two existing bags. */
    method AddTreeEdge(a: nat, b: nat)
      requires a < |bags| && b < |bags|
      modifies this
      ensures edges == old(edges) + [(a, b)] && bags == old(bags)
    {
      edges := edges + [(a, b)];
    }
  }
}
