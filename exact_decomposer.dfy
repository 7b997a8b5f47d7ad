/** The exact decomposer: every connected component is solved on its own by a
    cascade of strategies, and the per-component decompositions are glued into
    one tree through a fresh empty hub bag. */
module ExactDecomposer {
  import opened Decompositions
  import Combinatorics

  // ---------------------------------------------------------------------------
  // Gluing, as a function of the inputs

  /** The position of the empty hub bag in the glued decomposition. */
  const Hub: nat := 0

  /** The edge that links the first copied bag (at off) to the hub, present only
      when the input decomposition has a bag at all. */
  function HubLink(off: nat, count: nat): seq<(nat, nat)>
  {
    if count > 0 then [(off, Hub)] else []
  }

  /** One round of the gluing loop: the bags of d are appended, its edges copied
      upwards, and its first copied bag linked to the hub. */
  function GlueOne<V>(acc: Decomposition<V>, d: Decomposition<V>): Decomposition<V>
  {
    var off := |acc.bags|;
    Decomposition(acc.bags + d.bags,
                  acc.edges + CopyEdges(d.edges, off, |d.bags|) + HubLink(off, |d.bags|))
  }

  function GlueFrom<V>(acc: Decomposition<V>, ds: seq<Decomposition<V>>): Decomposition<V>
    decreases |ds|
  {
    if ds == [] then acc else GlueFrom(GlueOne(acc, ds[0]), ds[1..])
  }

  /** The decomposition the gluing builds: the hub bag, then every input in turn. */
  function Glued<V>(ds: seq<Decomposition<V>>): Decomposition<V>
  {
    GlueFrom(Decomposition([{}], []), ds)
  }

  // ---------------------------------------------------------------------------
  // Reference quantities over the inputs

  function AllBags<V>(ds: seq<Decomposition<V>>): seq<set<V>>
  {
    if ds == [] then [] else ds[0].bags + AllBags(ds[1..])
  }

  function TotalBags<V>(ds: seq<Decomposition<V>>): nat
  {
    if ds == [] then 0 else |ds[0].bags| + TotalBags(ds[1..])
  }

  function TotalEdges<V>(ds: seq<Decomposition<V>>): nat
  {
    if ds == [] then 0 else |ds[0].edges| + TotalEdges(ds[1..])
  }

  /** The number of inputs with at least one bag. */
  function NonEmpty<V>(ds: seq<Decomposition<V>>): nat
  {
    if ds == [] then 0 else (if ds[0].bags != [] then 1 else 0) + NonEmpty(ds[1..])
  }

  function MaxWidth<V>(ds: seq<Decomposition<V>>): int
  {
    if ds == [] then -1 else Max(Width(ds[0].bags), MaxWidth(ds[1..]))
  }

  /** Where the copies of the bags of input i start in the glued decomposition. */
  function Offset<V>(ds: seq<Decomposition<V>>, i: nat): nat
    requires i <= |ds|
  {
    1 + TotalBags(ds[..i])
  }

  /** The number of edges with an endpoint at the hub. */
  function HubDegree(edges: seq<(nat, nat)>): nat
  {
    if edges == [] then 0
    else (if edges[0].0 == Hub || edges[0].1 == Hub then 1 else 0) + HubDegree(edges[1..])
  }

  predicate AllBelow<V>(ds: seq<Decomposition<V>>)
  {
    forall i :: 0 <= i < |ds| ==> EndpointsBelow(ds[i].edges, |ds[i].bags|)
  }

  predicate AllWellFormed<V>(ds: seq<Decomposition<V>>)
  {
    forall i :: 0 <= i < |ds| ==> WellFormed(ds[i])
  }

  lemma AllBelowTail<V>(ds: seq<Decomposition<V>>)
    requires ds != [] && AllBelow(ds)
    ensures AllBelow(ds[1..]) && EndpointsBelow(ds[0].edges, |ds[0].bags|)
  {
    forall i | 0 <= i < |ds| - 1 ensures EndpointsBelow(ds[1..][i].edges, |ds[1..][i].bags|) {
      assert ds[1..][i] == ds[i + 1];
    }
  }

  lemma AllWellFormedTail<V>(ds: seq<Decomposition<V>>)
    requires ds != [] && AllWellFormed(ds)
    ensures AllWellFormed(ds[1..]) && WellFormed(ds[0])
  {
    forall i | 0 <= i < |ds| - 1 ensures WellFormed(ds[1..][i]) {
      assert ds[1..][i] == ds[i + 1];
    }
  }

  // ---------------------------------------------------------------------------
  // Bags

  lemma {:induction false} GlueFromBags<V>(acc: Decomposition<V>, ds: seq<Decomposition<V>>)
    ensures GlueFrom(acc, ds).bags == acc.bags + AllBags(ds)
    decreases |ds|
  {
    if ds == [] {
      assert acc.bags + [] == acc.bags;
    } else {
      GlueFromBags(GlueOne(acc, ds[0]), ds[1..]);
      assert acc.bags + ds[0].bags + AllBags(ds[1..]) == acc.bags + (ds[0].bags + AllBags(ds[1..]));
    }
  }

  lemma {:induction false} AllBagsLength<V>(ds: seq<Decomposition<V>>)
    ensures |AllBags(ds)| == TotalBags(ds)
  {
    if ds != [] {
      AllBagsLength(ds[1..]);
    }
  }

  /** The glued bags are the empty hub followed by the bags of every input, in order. */
  lemma GluedBags<V>(ds: seq<Decomposition<V>>)
    ensures Glued(ds).bags == [{}] + AllBags(ds)
    ensures |Glued(ds).bags| == 1 + TotalBags(ds)
  {
    GlueFromBags(Decomposition([{}], []), ds);
    AllBagsLength(ds);
  }

  lemma {:induction false} AllBagsAt<V>(ds: seq<Decomposition<V>>, i: nat, j: nat)
    requires i < |ds| && j < |ds[i].bags|
    ensures TotalBags(ds[..i]) + j < |AllBags(ds)|
    ensures AllBags(ds)[TotalBags(ds[..i]) + j] == ds[i].bags[j]
  {
    AllBagsLength(ds);
    AllBagsLength(ds[1..]);
    if i == 0 {
      assert ds[..0] == [];
    } else {
      assert ds[..i][1..] == ds[1..][..i - 1];
      AllBagsAt(ds[1..], i - 1, j);
    }
  }

  /** Bag j of input i is copied, vertex set unchanged, to the glued position
      Offset(ds, i) + j; the hub bag is empty. */
  lemma GluedCopiesBag<V>(ds: seq<Decomposition<V>>, i: nat, j: nat)
    requires i < |ds| && j < |ds[i].bags|
    ensures Offset(ds, i) + j < |Glued(ds).bags|
    ensures Glued(ds).bags[Offset(ds, i) + j] == ds[i].bags[j]
    ensures Glued(ds).bags[Hub] == {}
  {
    GluedBags(ds);
    AllBagsAt(ds, i, j);
  }

  lemma {:induction false} AllBagsWidth<V>(ds: seq<Decomposition<V>>)
    ensures Width(AllBags(ds)) == MaxWidth(ds)
  {
    if ds != [] {
      AllBagsWidth(ds[1..]);
      WidthConcat(ds[0].bags, AllBags(ds[1..]));
    }
  }

  /** The empty hub does not widen anything: the glued width is the largest
      input width (-1 when there is no input). */
  lemma GluedWidth<V>(ds: seq<Decomposition<V>>)
    ensures Width(Glued(ds).bags) == MaxWidth(ds)
  {
    GluedBags(ds);
    WidthConcat([{}], AllBags(ds));
    AllBagsWidth(ds);
    assert Width<V>([{}]) == -1;
  }

  // ---------------------------------------------------------------------------
  // Edges

  lemma {:induction false} GlueFromEdgeCount<V>(acc: Decomposition<V>, ds: seq<Decomposition<V>>)
    requires AllWellFormed(ds)
    ensures |GlueFrom(acc, ds).edges| == |acc.edges| + TotalEdges(ds) + NonEmpty(ds)
    decreases |ds|
  {
    if ds != [] {
      AllWellFormedTail(ds);
      CopyEdgesCount(ds[0].edges, |acc.bags|, |ds[0].bags|);
      GlueFromEdgeCount(GlueOne(acc, ds[0]), ds[1..]);
    }
  }

  /** Every input edge is copied once and every non-empty input gets one hub link. */
  lemma GluedEdgeCount<V>(ds: seq<Decomposition<V>>)
    requires AllWellFormed(ds)
    ensures |Glued(ds).edges| == TotalEdges(ds) + NonEmpty(ds)
  {
    GlueFromEdgeCount(Decomposition([{}], []), ds);
  }

  /** A decomposition with no bags has no edges, and otherwise one edge fewer than bags. */
  predicate TreeSized<V>(d: Decomposition<V>)
  {
    |d.edges| + (if d.bags == [] then 0 else 1) == |d.bags|
  }

  lemma {:induction false} TotalsOfTrees<V>(ds: seq<Decomposition<V>>)
    requires forall i :: 0 <= i < |ds| ==> TreeSized(ds[i])
    ensures TotalEdges(ds) + NonEmpty(ds) == TotalBags(ds)
  {
    if ds != [] {
      assert TreeSized(ds[0]);
      assert forall i :: 0 <= i < |ds| - 1 ==> TreeSized(ds[1..][i]) by {
        forall i | 0 <= i < |ds| - 1 ensures TreeSized(ds[1..][i]) {
          assert ds[1..][i] == ds[i + 1];
        }
      }
      TotalsOfTrees(ds[1..]);
    }
  }

  /** Gluing trees gives a graph with one edge fewer than bags, as a tree has. */
  lemma GluedTreeSized<V>(ds: seq<Decomposition<V>>)
    requires AllWellFormed(ds)
    requires forall i :: 0 <= i < |ds| ==> TreeSized(ds[i])
    ensures |Glued(ds).edges| + 1 == |Glued(ds).bags|
  {
    GluedEdgeCount(ds);
    GluedBags(ds);
    TotalsOfTrees(ds);
  }

  /** The edges a round adds start at a bag of that round or later. */
  lemma GlueOneEdges<V>(acc: Decomposition<V>, d: Decomposition<V>)
    requires EndpointsBelow(d.edges, |d.bags|)
    ensures var r := GlueOne(acc, d);
      |r.bags| == |acc.bags| + |d.bags| && r.edges[..|acc.edges|] == acc.edges &&
      forall j :: |acc.edges| <= j < |r.edges| ==> |acc.bags| <= r.edges[j].0 < |r.bags|
  {
    var r := GlueOne(acc, d);
    var off := |acc.bags|;
    var c := CopyEdges(d.edges, off, |d.bags|);
    CopyEdgesShape(d.edges, off, |d.bags|, |d.bags|);
    assert r.edges == acc.edges + (c + HubLink(off, |d.bags|));
    forall j | |acc.edges| <= j < |r.edges| ensures off <= r.edges[j].0 < |r.bags| {
      var j' := j - |acc.edges|;
      if j' < |c| {
        assert r.edges[j] == c[j'];
      }
    }
  }

  /** Later rounds keep the edges already there and add only edges that start
      at a bag created after them. */
  lemma {:induction false} GlueFromExtends<V>(acc: Decomposition<V>, ds: seq<Decomposition<V>>)
    requires AllBelow(ds)
    ensures var r := GlueFrom(acc, ds);
      |acc.edges| <= |r.edges| && r.edges[..|acc.edges|] == acc.edges &&
      forall j :: |acc.edges| <= j < |r.edges| ==> r.edges[j].0 >= |acc.bags|
    decreases |ds|
  {
    if ds == [] {
    } else {
      AllBelowTail(ds);
      var a1 := GlueOne(acc, ds[0]);
      GlueOneEdges(acc, ds[0]);
      GlueFromExtends(a1, ds[1..]);
      var r := GlueFrom(acc, ds);
      assert r == GlueFrom(a1, ds[1..]);
      assert r.edges[..|acc.edges|] == r.edges[..|a1.edges|][..|acc.edges|];
      forall j | |acc.edges| <= j < |r.edges| ensures r.edges[j].0 >= |acc.bags| {
        if j < |a1.edges| {
          assert r.edges[j] == r.edges[..|a1.edges|][j] == a1.edges[j];
        }
      }
    }
  }

  /** Gluing keeps every edge between existing bags and never adds a loop. */
  lemma {:induction false} GlueFromProper<V>(acc: Decomposition<V>, ds: seq<Decomposition<V>>)
    requires |acc.bags| >= 1 && EndpointsBelow(acc.edges, |acc.bags|) && Loopless(acc.edges)
    requires AllBelow(ds)
    ensures var r := GlueFrom(acc, ds);
      EndpointsBelow(r.edges, |r.bags|) && Loopless(r.edges)
    decreases |ds|
  {
    if ds != [] {
      AllBelowTail(ds);
      var d := ds[0];
      var off := |acc.bags|;
      var a1 := GlueOne(acc, d);
      var c := CopyEdges(d.edges, off, |d.bags|);
      CopyEdgesShape(d.edges, off, |d.bags|, |d.bags|);
      assert EndpointsBelow(a1.edges, |a1.bags|) && Loopless(a1.edges) by {
        forall j | 0 <= j < |a1.edges|
          ensures a1.edges[j].0 < |a1.bags| && a1.edges[j].1 < |a1.bags| && a1.edges[j].0 != a1.edges[j].1
        {
          if j < |acc.edges| {
            assert a1.edges[j] == acc.edges[j];
          } else if j < |acc.edges| + |c| {
            assert a1.edges[j] == c[j - |acc.edges|];
          }
        }
      }
      GlueFromProper(a1, ds[1..]);
    }
  }

  /** Every glued edge joins two distinct existing bags. */
  lemma GluedProper<V>(ds: seq<Decomposition<V>>)
    requires AllBelow(ds)
    ensures EndpointsBelow(Glued(ds).edges, |Glued(ds).bags|) && Loopless(Glued(ds).edges)
  {
    GlueFromProper(Decomposition([{}], []), ds);
  }

  lemma {:induction false} GlueFromSplit<V>(acc: Decomposition<V>, ds: seq<Decomposition<V>>, i: nat)
    requires i < |ds|
    ensures GlueFrom(acc, ds) == GlueFrom(GlueOne(GlueFrom(acc, ds[..i]), ds[i]), ds[i + 1..])
    decreases i
  {
    if i == 0 {
      assert ds[..0] == [];
    } else {
      GlueFromSplit(GlueOne(acc, ds[0]), ds[1..], i - 1);
      assert ds[..i][1..] == ds[1..][..i - 1];
      assert ds[1..][i - 1] == ds[i];
      assert ds[1..][i..] == ds[i + 1..];
    }
  }

  lemma {:induction false} AllBelowPrefix<V>(ds: seq<Decomposition<V>>, i: nat)
    requires AllBelow(ds) && i <= |ds|
    ensures AllBelow(ds[..i]) && AllBelow(ds[i..])
  {
    forall j | 0 <= j < i ensures ds[..i][j] == ds[j] { }
    forall j | 0 <= j < |ds| - i ensures ds[i..][j] == ds[i + j] { }
  }

  /** The glued edge list around input i: the edges glued before it (all
      between earlier bags), the round of input i, and the edges glued after it
      (all starting at later bags). */
  lemma Segments<V>(ds: seq<Decomposition<V>>, i: nat) returns (before: seq<(nat, nat)>, after: seq<(nat, nat)>)
    requires AllBelow(ds) && i < |ds|
    ensures var off, n := Offset(ds, i), |ds[i].bags|;
      Glued(ds).edges == before + CopyEdges(ds[i].edges, off, n) + HubLink(off, n) + after &&
      EndpointsBelow(before, off) &&
      forall j :: 0 <= j < |after| ==> after[j].0 >= off + n
  {
    var init: Decomposition<V> := Decomposition([{}], []);
    var pre := GlueFrom(init, ds[..i]);
    var mid := GlueOne(pre, ds[i]);
    GlueFromSplit(init, ds, i);
    PrefixBelow(ds, i);
    AllBelowPrefix(ds, i + 1);
    before := pre.edges;
    after := SuffixAbove(mid, ds[i + 1..]);
  }

  /** The edges glued before input i join bags below its offset. */
  lemma PrefixBelow<V>(ds: seq<Decomposition<V>>, i: nat)
    requires AllBelow(ds) && i <= |ds|
    ensures var pre := GlueFrom(Decomposition([{}], []), ds[..i]);
      |pre.bags| == Offset(ds, i) && EndpointsBelow(pre.edges, Offset(ds, i))
  {
    var init: Decomposition<V> := Decomposition([{}], []);
    AllBelowPrefix(ds, i);
    GlueFromBags(init, ds[..i]);
    AllBagsLength(ds[..i]);
    GlueFromProper(init, ds[..i]);
  }

  /** The edges glued after mid all start at bags past those of mid. */
  lemma SuffixAbove<V>(mid: Decomposition<V>, rest: seq<Decomposition<V>>) returns (after: seq<(nat, nat)>)
    requires AllBelow(rest)
    ensures GlueFrom(mid, rest).edges == mid.edges + after
    ensures forall j :: 0 <= j < |after| ==> after[j].0 >= |mid.bags|
  {
    GlueFromExtends(mid, rest);
    var f := GlueFrom(mid, rest).edges;
    after := f[|mid.edges|..];
    assert f == f[..|mid.edges|] + after;
    forall j | 0 <= j < |after| ensures after[j].0 >= |mid.bags| {
      assert after[j] == f[|mid.edges| + j];
    }
  }

  lemma AvoidsBelow(s: seq<(nat, nat)>, x: (nat, nat), b: nat)
    requires EndpointsBelow(s, b) && x.0 >= b
    ensures multiset(s)[x] == 0
  {
  }

  lemma AvoidsAbove(s: seq<(nat, nat)>, x: (nat, nat), b: nat)
    requires forall j :: 0 <= j < |s| ==> s[j].0 >= b
    requires x.0 < b
    ensures multiset(s)[x] == 0
  {
  }

  /** Each edge of a well-formed input appears exactly once in the glued tree,
      oriented from the image of its lower endpoint to that of its higher one,
      and its reverse does not appear. */
  lemma GluedEdgeOnce<V>(ds: seq<Decomposition<V>>, i: nat, k: nat)
    requires AllBelow(ds) && i < |ds| && WellFormed(ds[i]) && k < |ds[i].edges|
    ensures var off, e := Offset(ds, i), ds[i].edges[k];
      multiset(Glued(ds).edges)[Shifted(e, off)] == 1 && Reversed(e, off) !in Glued(ds).edges
  {
    var before, after := Segments(ds, i);
    var d, off := ds[i], Offset(ds, i);
    var e := d.edges[k];
    assert Lo(e) < Hi(e) < |d.bags|;
    CopyEdgesExactlyOnce(d, off, k);
    RoundEdgeOnce(Glued(ds).edges, CopyEdges(d.edges, off, |d.bags|), |d.bags|, off, before, after, e);
  }

  /** The round of one input, between what was glued before and after it,
      holds each of its copied edges once. */
  lemma RoundEdgeOnce(f: seq<(nat, nat)>, c: seq<(nat, nat)>, n: nat, off: nat,
                      before: seq<(nat, nat)>, after: seq<(nat, nat)>, e: (nat, nat))
    requires Lo(e) < Hi(e) < n
    requires f == before + c + HubLink(off, n) + after
    requires multiset(c)[Shifted(e, off)] == 1 && Reversed(e, off) !in c
    requires EndpointsBelow(before, off)
    requires forall j :: 0 <= j < |after| ==> after[j].0 >= off + n
    ensures multiset(f)[Shifted(e, off)] == 1 && Reversed(e, off) !in f
  {
    var p, q := Shifted(e, off), Reversed(e, off);
    var link := HubLink(off, n);
    AvoidsBelow(before, p, off);
    AvoidsBelow(before, q, off);
    AvoidsAbove(after, p, off + n);
    AvoidsAbove(after, q, off + n);
    assert multiset(link)[p] == 0 && multiset(link)[q] == 0;
    OnceInFour(f, before, c, link, after, p, q);
  }

  lemma CountInFour<T>(a: seq<T>, b: seq<T>, c: seq<T>, d: seq<T>, x: T)
    ensures multiset(a + b + c + d)[x] == multiset(a)[x] + multiset(b)[x] + multiset(c)[x] + multiset(d)[x]
  {
  }

  lemma OnceInFour<T>(f: seq<T>, a: seq<T>, b: seq<T>, c: seq<T>, d: seq<T>, p: T, q: T)
    requires f == a + b + c + d
    requires multiset(a)[p] == 0 && multiset(b)[p] == 1 && multiset(c)[p] == 0 && multiset(d)[p] == 0
    requires multiset(a)[q] == 0 && q !in b && multiset(c)[q] == 0 && multiset(d)[q] == 0
    ensures multiset(f)[p] == 1 && q !in f
  {
    CountInFour(a, b, c, d, p);
    CountInFour(a, b, c, d, q);
  }

  /** A non-empty input is linked to the hub by exactly one edge, from its first
      copied bag. */
  lemma GluedLinkOnce<V>(ds: seq<Decomposition<V>>, i: nat)
    requires AllBelow(ds) && i < |ds| && ds[i].bags != []
    ensures multiset(Glued(ds).edges)[(Offset(ds, i), Hub)] == 1
  {
    var d, off := ds[i], Offset(ds, i);
    var n := |d.bags|;
    var before, after := Segments(ds, i);
    assert EndpointsBelow(d.edges, n);
    var c := CopyEdges(d.edges, off, n);
    var p := (off, Hub);
    CopyEdgesShape(d.edges, off, n, n);
    assert p !in c;
    AvoidsBelow(before, p, off);
    AvoidsAbove(after, p, off + n);
    CountInFour(before, c, [p], after, p);
  }

  lemma {:induction false} HubDegreeConcat(a: seq<(nat, nat)>, b: seq<(nat, nat)>)
    ensures HubDegree(a + b) == HubDegree(a) + HubDegree(b)
  {
    if a == [] {
      assert a + b == b;
    } else {
      assert (a + b)[1..] == a[1..] + b;
      HubDegreeConcat(a[1..], b);
    }
  }

  lemma {:induction false} HubDegreeAway(edges: seq<(nat, nat)>)
    requires forall j :: 0 <= j < |edges| ==> edges[j].0 > Hub && edges[j].1 > Hub
    ensures HubDegree(edges) == 0
  {
    if edges != [] {
      HubDegreeAway(edges[1..]);
    }
  }

  lemma {:induction false} GlueFromHubDegree<V>(acc: Decomposition<V>, ds: seq<Decomposition<V>>)
    requires |acc.bags| >= 1 && AllBelow(ds)
    ensures HubDegree(GlueFrom(acc, ds).edges) == HubDegree(acc.edges) + NonEmpty(ds)
    decreases |ds|
  {
    if ds != [] {
      AllBelowTail(ds);
      var d, off := ds[0], |acc.bags|;
      var c := CopyEdges(d.edges, off, |d.bags|);
      CopyEdgesShape(d.edges, off, |d.bags|, |d.bags|);
      HubDegreeAway(c);
      HubDegreeConcat(acc.edges, c);
      HubDegreeConcat(acc.edges + c, HubLink(off, |d.bags|));
      GlueFromHubDegree(GlueOne(acc, d), ds[1..]);
    }
  }

  /** The hub is linked to exactly as many bags as there are non-empty inputs;
      an input without bags adds no link. */
  lemma GluedHubDegree<V>(ds: seq<Decomposition<V>>)
    requires AllBelow(ds)
    ensures HubDegree(Glued(ds).edges) == NonEmpty(ds)
  {
    GlueFromHubDegree(Decomposition([{}], []), ds);
  }

  // ---------------------------------------------------------------------------
  // Connectivity

  lemma AllWellFormedBelow<V>(ds: seq<Decomposition<V>>)
    requires AllWellFormed(ds)
    ensures AllBelow(ds)
  {
    forall i | 0 <= i < |ds| ensures EndpointsBelow(ds[i].edges, |ds[i].bags|) {
      assert WellFormed(ds[i]);
    }
  }

  /** Every bag past the hub is a copy of some bag j of some input i. */
  lemma {:induction false} Locate<V>(ds: seq<Decomposition<V>>, b: nat) returns (i: nat, j: nat)
    requires b < TotalBags(ds)
    ensures i < |ds| && j < |ds[i].bags| && b == TotalBags(ds[..i]) + j
  {
    if b < |ds[0].bags| {
      i, j := 0, b;
      assert ds[..0] == [];
    } else {
      var i', j' := Locate(ds[1..], b - |ds[0].bags|);
      i, j := i' + 1, j';
      assert ds[..i][0] == ds[0];
      assert ds[..i][1..] == ds[1..][..i'];
      assert ds[1..][i'] == ds[i];
    }
  }

  /** A walk in an input becomes, shifted by off, a walk in any edge list that
      holds the shifted copy of every input edge. */
  lemma ShiftedWalk<V>(d: Decomposition<V>, off: nat, edges: seq<(nat, nat)>, p: seq<nat>)
    returns (q: seq<nat>)
    requires WellFormed(d) && IsPath(d.edges, p)
    requires forall k :: 0 <= k < |d.edges| ==> Shifted(d.edges[k], off) in edges
    ensures IsPath(edges, q) && |q| == |p| && q[0] == off + p[0] && q[|q| - 1] == off + p[|p| - 1]
  {
    q := seq(|p|, t requires 0 <= t < |p| => off + p[t]);
    forall t | 0 <= t < |q| - 1 ensures Linked(edges, q[t], q[t + 1]) {
      var x, y := p[t], p[t + 1];
      assert Linked(d.edges, x, y);
      var k :| 0 <= k < |d.edges| && (d.edges[k] == (x, y) || d.edges[k] == (y, x));
      assert d.edges[k].0 != d.edges[k].1;
      assert Shifted(d.edges[k], off) in edges;
    }
  }

  /** Gluing connected inputs gives a connected result: every glued bag can be
      reached from the hub. Together with GluedTreeSized (one edge fewer than
      bags) the result is a single tree. */
  lemma GluedConnected<V>(ds: seq<Decomposition<V>>)
    requires AllWellFormed(ds)
    requires forall i :: 0 <= i < |ds| ==> Connected(ds[i])
    ensures forall b :: 0 <= b < |Glued(ds).bags| ==> Connects(Glued(ds).edges, Hub, b)
  {
    var g := Glued(ds);
    GluedBags(ds);
    AllWellFormedBelow(ds);
    forall b | 0 <= b < |g.bags| ensures Connects(g.edges, Hub, b) {
      if b == Hub {
        assert IsPath(g.edges, [Hub]);
      } else {
        var i, j := Locate(ds, b - 1);
        ReachInGlued(ds, i, j);
      }
    }
  }

  /** Copy j of input i is reached from the hub through the link of input i. */
  lemma ReachInGlued<V>(ds: seq<Decomposition<V>>, i: nat, j: nat)
    requires AllWellFormed(ds) && AllBelow(ds)
    requires forall i :: 0 <= i < |ds| ==> Connected(ds[i])
    requires i < |ds| && j < |ds[i].bags|
    ensures Connects(Glued(ds).edges, Hub, Offset(ds, i) + j)
  {
    var g, d, off := Glued(ds), ds[i], Offset(ds, i);
    assert WellFormed(d) && Connected(d);
    assert Connects(d.edges, 0, j);
    var p :| IsPath(d.edges, p) && p[0] == 0 && p[|p| - 1] == j;
    forall k | 0 <= k < |d.edges| ensures Shifted(d.edges[k], off) in g.edges {
      GluedEdgeOnce(ds, i, k);
    }
    var q := ShiftedWalk(d, off, g.edges, p);
    GluedLinkOnce(ds, i);
    assert (off, Hub) in g.edges;
    var w := [Hub] + q;
    assert IsPath(g.edges, w) by {
      forall t | 0 <= t < |w| - 1 ensures Linked(g.edges, w[t], w[t + 1]) {
        if t > 0 {
          assert w[t] == q[t - 1] && w[t + 1] == q[t];
        }
      }
    }
    assert w[|w| - 1] == q[|q| - 1];
  }

  /** An input without bags changes nothing. */
  lemma GlueOneEmpty<V>(acc: Decomposition<V>, d: Decomposition<V>)
    requires d.bags == []
    ensures GlueOne(acc, d) == acc
  {
    assert acc.bags + [] == acc.bags;
    assert acc.edges + [] + [] == acc.edges;
  }

  // ---------------------------------------------------------------------------
  // The gluing loops

  /** Builds the glued decomposition in a fresh tree decomposition, as the
      nested copying loops do: one new bag per old bag, recorded in oldToNew,
      one new edge per neighbour pair s < t, then one link to the hub. */
  method GlueDecompositions<V>(ds: seq<Decomposition<V>>) returns (final: TreeDecomposition<V>)
    requires AllBelow(ds)
    ensures fresh(final) && final.View() == Glued(ds)
  {
    final := new TreeDecomposition();
    var empty := final.CreateBag({});
    assert final.View() == Decomposition([{}], []) && ds[0..] == ds;
    for i := 0 to |ds|
      invariant |final.bags| >= 1 && empty == Hub
      invariant GlueFrom(final.View(), ds[i..]) == Glued(ds)
    {
      var decomposition := ds[i];
      assert EndpointsBelow(decomposition.edges, |decomposition.bags|);
      ghost var acc := final.View();
      var oldToNew := CopyBags(final, decomposition.bags);
      MapEdges(final, decomposition, oldToNew, |acc.bags|);
      KeysBelow(oldToNew, |decomposition.bags|);
      if |oldToNew| > 0 {
        var someBag := oldToNew[0];
        final.AddTreeEdge(someBag, empty);
      }
      assert final.View() == GlueOne(acc, decomposition);
      assert ds[i..][1..] == ds[i + 1..];
    }
    assert ds[|ds|..] == [];
  }

  /** A map whose keys are 0 .. n-1 is non-empty exactly when n is positive. */
  lemma KeysBelow(m: map<nat, nat>, n: nat)
    requires forall b: nat :: b in m <==> b < n
    ensures |m| > 0 <==> n > 0
  {
    if n > 0 {
      assert 0 in m.Keys;
    } else {
      assert m.Keys == {};
    }
  }

  /** The first loop of a gluing round: a new bag for every old one, and the
      map from old bag positions to the new bags. */
  method CopyBags<V>(final: TreeDecomposition<V>, bags: seq<set<V>>) returns (oldToNew: map<nat, nat>)
    modifies final
    ensures final.bags == old(final.bags) + bags && final.edges == old(final.edges)
    ensures forall b: nat :: b in oldToNew <==> b < |bags|
    ensures forall b :: 0 <= b < |bags| ==> oldToNew[b] == |old(final.bags)| + b
  {
    var off := |final.bags|;
    oldToNew := map[];
    assert oldToNew.Keys == {};
    for j := 0 to |bags|
      invariant final.bags == old(final.bags) + bags[..j] && final.edges == old(final.edges)
      invariant forall b: nat :: b in oldToNew <==> b < j
      invariant forall b :: 0 <= b < j ==> oldToNew[b] == off + b
    {
      var newBag := final.CreateBag(bags[j]);
      assert bags[..j + 1] == bags[..j] + [bags[j]];
      oldToNew := oldToNew[j := newBag];
    }
    assert bags[..|bags|] == bags;
  }

  /** The second loop of a gluing round: every neighbour pair s < t of the old
      tree becomes an edge between the new bags of s and t. */
  method MapEdges<V>(final: TreeDecomposition<V>, d: Decomposition<V>, oldToNew: map<nat, nat>, ghost off: nat)
    requires EndpointsBelow(d.edges, |d.bags|)
    requires off + |d.bags| <= |final.bags|
    requires forall b :: 0 <= b < |d.bags| ==> b in oldToNew && oldToNew[b] == off + b
    modifies final
    ensures final.bags == old(final.bags)
    ensures final.edges == old(final.edges) + CopyEdges(d.edges, off, |d.bags|)
  {
    ghost var start := final.edges;
    for s := 0 to |d.bags|
      invariant final.bags == old(final.bags)
      invariant final.edges == start + CopyEdges(d.edges, off, s)
    {
      ghost var before := final.edges;
      MapNeighborhood(final, d, oldToNew, off, s);
      CopyEdgesStep(start, before, final.edges, d.edges, off, s);
    }
  }

  lemma CopyEdgesStep(start: seq<(nat, nat)>, before: seq<(nat, nat)>, after: seq<(nat, nat)>,
                      edges: seq<(nat, nat)>, off: nat, s: nat)
    requires before == start + CopyEdges(edges, off, s)
    requires after == before + Upward(s, Neighbors(edges, s), off)
    ensures after == start + CopyEdges(edges, off, s + 1)
  {
    ConcatAssoc(start, CopyEdges(edges, off, s), Upward(s, Neighbors(edges, s), off));
  }

  lemma UpwardStep(start: seq<(nat, nat)>, before: seq<(nat, nat)>, after: seq<(nat, nat)>,
                   s: nat, ns: seq<nat>, ti: nat, off: nat)
    requires ti < |ns| && before == start + Upward(s, ns[..ti], off)
    requires after == before + (if s < ns[ti] then [(off + s, off + ns[ti])] else [])
    ensures after == start + Upward(s, ns[..ti + 1], off)
  {
    assert ns[..ti + 1][..ti] == ns[..ti];
    ConcatAssoc(start, Upward(s, ns[..ti], off), if s < ns[ti] then [(off + s, off + ns[ti])] else []);
  }

  lemma ConcatAssoc<T>(a: seq<T>, b: seq<T>, c: seq<T>)
    ensures a + b + c == a + (b + c)
  {
  }

  /** The edges from old bag s to its higher-numbered neighbours. */
  method MapNeighborhood<V>(final: TreeDecomposition<V>, d: Decomposition<V>, oldToNew: map<nat, nat>,
                            ghost off: nat, s: nat)
    requires EndpointsBelow(d.edges, |d.bags|) && s < |d.bags|
    requires off + |d.bags| <= |final.bags|
    requires forall b :: 0 <= b < |d.bags| ==> b in oldToNew && oldToNew[b] == off + b
    modifies final
    ensures final.bags == old(final.bags)
    ensures final.edges == old(final.edges) + Upward(s, Neighbors(d.edges, s), off)
  {
    var ns := Neighbors(d.edges, s);
    ghost var start := final.edges;
    for ti := 0 to |ns|
      invariant final.bags == old(final.bags)
      invariant final.edges == start + Upward(s, ns[..ti], off)
    {
      var t := ns[ti];
      ghost var before := final.edges;
      NeighborsBelow(d.edges, s, t, |d.bags|);
      if s < t {
        final.AddTreeEdge(oldToNew[s], oldToNew[t]);
      }
      UpwardStep(start, before, final.edges, s, ns, ti, off);
    }
    assert ns[..|ns|] == ns;
  }

  // ---------------------------------------------------------------------------
  // Solving one component

  /** Which solver produces the decomposition of a component. */
  datatype Strategy = FullyReduced | BoundsMatch | CopsAndRobber | Sat(lb: int, ub: int)

  /** Components at most this large may go to the cops-and-robber game. */
  const CopsVerticesThreshold: int := 25
  /** Components of at most this upper bound may go to the cops-and-robber game. */
  const CopsTwThreshold: int := 8

  /** The memory the cops-and-robber game is expected to need: C(n, ub) states
      of (n + 32) / 8 bytes each. */
  function ExpectedMemory(n: nat, ub: int): (m: int)
    ensures m >= 0
    ensures ub > n ==> m == 0
    ensures ub == 0 ==> m == (n + 32) / 8
  {
    Combinatorics.Binomial(n, ub) * ((n + 32) / 8)
  }

  /** The decision cascade of the component solver, over the reduction outcome,
      the reduced size n, the bounds and the free memory. */
  function Route(fullyReduced: bool, n: nat, lb: int, ub: int, freeMemory: int): (r: Strategy)
    ensures r == FullyReduced <==> fullyReduced
    ensures r == BoundsMatch <==> !fullyReduced && lb == ub
    ensures r == CopsAndRobber ==> n <= 25 && ub <= 8 && ExpectedMemory(n, ub) < freeMemory
    ensures r.Sat? ==> r.lb == lb && r.ub == ub && lb != ub
  {
    if fullyReduced then FullyReduced
    else if lb == ub then BoundsMatch
    else if n <= CopsVerticesThreshold && ub <= CopsTwThreshold && ExpectedMemory(n, ub) < freeMemory
    then CopsAndRobber
    else Sat(lb, ub)
  }

  /** Inside the triangle the expected memory is n! / (ub! (n - ub)!) times the
      state size; above it, it is zero. */
  lemma ExpectedMemoryValue(n: nat, ub: int)
    ensures 0 <= ub <= n ==>
      ExpectedMemory(n, ub) * (Combinatorics.Fact(ub) * Combinatorics.Fact(n - ub)) ==
      Combinatorics.Fact(n) * ((n + 32) / 8)
    ensures ub > n ==> ExpectedMemory(n, ub) == 0
  {
    if 0 <= ub <= n {
      var b, s := Combinatorics.Binomial(n, ub), (n + 32) / 8;
      var f := Combinatorics.Fact(ub) * Combinatorics.Fact(n - ub);
      Combinatorics.BinomialFactorial(n, ub);
      assert b * f == Combinatorics.Fact(n);
      Combinatorics.Exchange(b, s, f);
      Combinatorics.Associate(b, s, f);
      Combinatorics.Associate(b, f, s);
    }
  }

  /** The cops-and-robber game is chosen exactly when the component is neither
      fully reduced nor settled by its bounds, is small, has a small upper bound,
      and the expected memory is below the free memory. */
  lemma RouteCops(fullyReduced: bool, n: nat, lb: int, ub: int, freeMemory: int)
    ensures Route(fullyReduced, n, lb, ub, freeMemory) == CopsAndRobber <==>
      !fullyReduced && lb != ub && n <= 25 && ub <= 8 &&
      Combinatorics.Binomial(n, ub) * ((n + 32) / 8) < freeMemory
  {
  }

  /** The SAT solver is chosen, with window [lb, ub], exactly in the remaining case. */
  lemma RouteSat(fullyReduced: bool, n: nat, lb: int, ub: int, freeMemory: int)
    ensures Route(fullyReduced, n, lb, ub, freeMemory).Sat? <==>
      !fullyReduced && lb != ub && !(n <= 25 && ub <= 8 && ExpectedMemory(n, ub) < freeMemory)
    ensures Route(fullyReduced, n, lb, ub, freeMemory).Sat? ==>
      Route(fullyReduced, n, lb, ub, freeMemory) == Sat(lb, ub)
  {
  }

  /** More free memory never moves a component from the game to SAT. */
  lemma RouteMemoryMonotone(fullyReduced: bool, n: nat, lb: int, ub: int, m1: int, m2: int)
    requires m1 <= m2
    ensures Route(fullyReduced, n, lb, ub, m1) == CopsAndRobber ==>
      Route(fullyReduced, n, lb, ub, m2) == CopsAndRobber
    ensures Route(fullyReduced, n, lb, ub, m2).Sat? ==> Route(fullyReduced, n, lb, ub, m1).Sat?
  {
  }

  /** The free memory, the bounds and the size matter only once reduction has
      not finished the component, and the memory only once the bounds differ. */
  lemma RouteConsults(fullyReduced: bool, n: nat, lb: int, ub: int, freeMemory: int,
                      n': nat, lb': int, ub': int, freeMemory': int)
    ensures fullyReduced ==>
      Route(fullyReduced, n, lb, ub, freeMemory) == Route(fullyReduced, n', lb', ub', freeMemory') == FullyReduced
    ensures !fullyReduced && lb == ub && lb' == ub' ==>
      Route(fullyReduced, n, lb, ub, freeMemory) == Route(fullyReduced, n', lb', ub', freeMemory') == BoundsMatch
  {
  }

  /** A component too large or too wide for the game never goes to it. */
  lemma RouteLarge(fullyReduced: bool, n: nat, lb: int, ub: int, freeMemory: int)
    requires n > CopsVerticesThreshold || ub > CopsTwThreshold
    ensures Route(fullyReduced, n, lb, ub, freeMemory) != CopsAndRobber
  {
  }

  /** What the solvers of one component deliver; the reducer, the bounds, the
      exact solvers and the free-memory query are not modelled, only their
      results. */
  datatype Component<!V> = Component(
    fullyReduced: bool,                       // the reducer emptied the component
    reducedDecomposition: Decomposition<V>,   // the reducer's decomposition when it did
    size: nat,                                // vertices of the reduced graph
    lowerBound: int,                          // minor-min-width
    upperBound: Decomposition<V>,             // stochastic min-fill
    copsAndRobber: Decomposition<V>,          // the game on the reduced graph
    sat: (int, int) -> Decomposition<V>,      // the SAT decomposer for a window [lb, ub]
    glue: Decomposition<V> -> Decomposition<V>, // the reducer re-inserting its vertices
    freeMemory: int)                          // free memory when the component is reached

  function StrategyOf<V>(c: Component<V>): Strategy
  {
    Route(c.fullyReduced, c.size, c.lowerBound, Width(c.upperBound.bags), c.freeMemory)
  }

  /** The decomposition of one component, from the strategy the cascade picks. */
  function SolveComponent<V>(c: Component<V>): (r: Decomposition<V>)
    ensures c.fullyReduced ==> r == c.reducedDecomposition
    ensures !c.fullyReduced ==>
      r == c.glue(c.upperBound) || r == c.glue(c.copsAndRobber) ||
      r == c.glue(c.sat(c.lowerBound, Width(c.upperBound.bags)))
  {
    match StrategyOf(c)
    case FullyReduced => c.reducedDecomposition
    case BoundsMatch => c.glue(c.upperBound)
    case CopsAndRobber => c.glue(c.copsAndRobber)
    case Sat(lb, ub) => c.glue(c.sat(lb, ub))
  }

  /** A fully reduced component yields the reducer's decomposition, whatever the
      bounds, the solvers and the memory would have said. */
  lemma SolveReduced<V>(c: Component<V>, n: nat, lb: int, ub: Decomposition<V>, freeMemory: int)
    requires c.fullyReduced
    ensures SolveComponent(c) == c.reducedDecomposition
    ensures SolveComponent(c.(size := n, lowerBound := lb, upperBound := ub, freeMemory := freeMemory))
      == c.reducedDecomposition
  {
  }

  /** When the bounds match, the upper-bound decomposition is glued back and no
      exact solver nor the memory is consulted. */
  lemma SolveBoundsMatch<V>(c: Component<V>, cops: Decomposition<V>, sat: (int, int) -> Decomposition<V>, freeMemory: int)
    requires !c.fullyReduced && c.lowerBound == Width(c.upperBound.bags)
    ensures SolveComponent(c) == c.glue(c.upperBound)
    ensures SolveComponent(c.(copsAndRobber := cops, sat := sat, freeMemory := freeMemory)) == c.glue(c.upperBound)
  {
  }

  /** Otherwise the game's or the SAT solver's decomposition is glued back, the
      latter computed for the window between the two bounds. */
  lemma SolveExact<V>(c: Component<V>)
    requires !c.fullyReduced && c.lowerBound != Width(c.upperBound.bags)
    ensures var ub := Width(c.upperBound.bags);
      SolveComponent(c) == if c.size <= 25 && ub <= 8 && ExpectedMemory(c.size, ub) < c.freeMemory
      then c.glue(c.copsAndRobber) else c.glue(c.sat(c.lowerBound, ub))
  {
  }

  // ---------------------------------------------------------------------------
  // The whole graph

  /** The decompositions of the components, in order. */
  function Solved<V>(cs: seq<Component<V>>): seq<Decomposition<V>>
  {
    if cs == [] then [] else Solved(cs[..|cs| - 1]) + [SolveComponent(cs[|cs| - 1])]
  }

  /** Every component is solved, once, in its own position. */
  lemma {:induction false} SolvedEach<V>(cs: seq<Component<V>>)
    ensures |Solved(cs)| == |cs|
    ensures forall i :: 0 <= i < |cs| ==> Solved(cs)[i] == SolveComponent(cs[i])
  {
    if cs != [] {
      SolvedEach(cs[..|cs| - 1]);
    }
  }

  /** Solves every component and glues the results. */
  method Call<V>(components: seq<Component<V>>) returns (decomposition: TreeDecomposition<V>)
    requires forall i :: 0 <= i < |components| ==>
      EndpointsBelow(SolveComponent(components[i]).edges, |SolveComponent(components[i]).bags|)
    ensures fresh(decomposition) && decomposition.View() == Glued(Solved(components))
  {
    var decompositions: seq<Decomposition<V>> := [];
    for i := 0 to |components|
      invariant decompositions == Solved(components[..i])
    {
      var t := SolveComponent(components[i]);
      assert components[..i + 1][..i] == components[..i];
      decompositions := decompositions + [t];
    }
    assert components[..|components|] == components;
    SolvedEach(components);
    decomposition := GlueDecompositions(decompositions);
  }
}
