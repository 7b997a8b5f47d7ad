/** Local search over elimination orders: r restarts from a Fisher-Yates
    shuffle of the vertices, each followed by s random swaps that are kept only
    when they lower the width; the best order over all restarts wins. The
    decomposition of an order is represented by the order itself, and its width
    by an abstract function. */
module LocalSearch {

  import opened Results

  /** Integer.MAX_VALUE, the initial best width. */
  const IntMax: int := 0x7fff_ffff

  datatype Outcome<V> = EmptyGraph | Found(order: seq<V>) | Interrupted

  // ---------------------------------------------------------------------------
  // Reference definitions

  /** The k-th number drawn below bound, for a sequence of raw draws roll.
      Any sequence of results of Random.nextInt arises this way: take roll(k)
      to be the k-th result itself. */
  function Draw(roll: nat -> nat, k: nat, bound: nat): (z: nat)
    requires bound > 0
    ensures z < bound
    ensures roll(k) < bound ==> z == roll(k)
  {
    roll(k) % bound
  }

  /** The two in-place writes of a swap: position a gets the element at b, then
      b gets the element that was at a. */
  function Swap<V>(p: seq<V>, a: nat, b: nat): (q: seq<V>)
    requires a < |p| && b < |p|
    ensures |q| == |p|
  {
    p[a := p[b]][b := p[a]]
  }

  /** Fisher-Yates on the first i positions: position i - 1 is swapped with a
      position drawn from [0, i), then the first i - 1 positions are shuffled. */
  function Shuffle<V>(p: seq<V>, i: nat, roll: nat -> nat, k: nat): (q: seq<V>)
    requires i <= |p|
    ensures |q| == |p|
    decreases i
  {
    if i == 0 then p
    else Shuffle(Swap(p, i - 1, Draw(roll, k, i)), i - 1, roll, k + 1)
  }

  /** One round of Fisher-Yates, as the loop of RandomPerm takes it. */
  lemma ShuffleRound<V>(p: seq<V>, q: seq<V>, i: int, z: nat, roll: nat -> nat, k: nat, target: seq<V>)
    requires 0 <= i < |p| && z == Draw(roll, k, i + 1) && q == Swap(p, i, z)
    requires Shuffle(p, i + 1, roll, k) == target
    ensures Shuffle(q, (i - 1) + 1, roll, k + 1) == target
  {
  }

  /** The random permutation drawn from k on. */
  function Shuffled<V>(vertices: seq<V>, roll: nat -> nat, k: nat): (q: seq<V>)
    ensures |q| == |vertices|
  {
    Shuffle(vertices, |vertices|, roll, k)
  }

  /** One step of the climb: swap a and b, keep the swap if it lowers the width,
      and swap back otherwise. */
  function Step<V>(p: seq<V>, a: nat, b: nat, width: seq<V> -> int): (q: seq<V>)
    requires a < |p| && b < |p|
    ensures q == p || (q == Swap(p, a, b) && width(q) < width(p))
    ensures width(Swap(p, a, b)) < width(p) ==> q == Swap(p, a, b)
    ensures width(q) <= width(p)
  {
    var q := Swap(p, a, b);
    SwapTwice(p, a, b);
    if width(q) < width(p) then q else Swap(q, a, b)
  }

  /** Steps j .. s-1 of restart ri, drawing two positions per step from k on;
      None when an interrupt is seen before a step. Yields the final order and
      the next unused draw. */
  function Climb<V>(p: seq<V>, ri: nat, j: nat, s: int, width: seq<V> -> int,
                    roll: nat -> nat, k: nat, interrupted: (nat, nat) -> bool): Option<(seq<V>, nat)>
    requires |p| > 0
    decreases s - j
  {
    if j >= s then Some((p, k))
    else if interrupted(ri, j) then None
    else
      var a, b := Draw(roll, k, |p|), Draw(roll, k + 1, |p|);
      Climb(Step(p, a, b, width), ri, j + 1, s, width, roll, k + 2, interrupted)
  }

  /** The number of steps restart ri takes from step j on: every remaining step
      up to the first one that sees an interrupt. */
  function StepsTaken(ri: nat, j: nat, s: int, interrupted: (nat, nat) -> bool): (t: nat)
    ensures j < s ==> t <= s - j
    ensures j >= s ==> t == 0
    decreases s - j
  {
    if j >= s || interrupted(ri, j) then 0 else 1 + StepsTaken(ri, j + 1, s, interrupted)
  }

  /** The numbers that restarts i .. r-1 draw on n vertices: n for the shuffle
      and two per step taken; a restart that sees an interrupt is the last. */
  function SearchDraws(i: nat, r: int, s: int, n: nat, interrupted: (nat, nat) -> bool): nat
    decreases r - i
  {
    if i >= r then 0
    else if StepsTaken(i, 0, s, interrupted) < s then n + 2 * StepsTaken(i, 0, s, interrupted)
    else n + 2 * StepsTaken(i, 0, s, interrupted) + SearchDraws(i + 1, r, s, n, interrupted)
  }

  /** One restart of the count, as the loop of the search takes it. */
  lemma SearchDrawsUnfolds(i: nat, r: int, s: int, n: nat, interrupted: (nat, nat) -> bool)
    requires i < r
    ensures var t := StepsTaken(i, 0, s, interrupted);
      SearchDraws(i, r, s, n, interrupted) ==
      n + 2 * t + (if t < s then 0 else SearchDraws(i + 1, r, s, n, interrupted))
  {
  }

  /** Restart ri from draw k: a fresh random permutation, then the climb. */
  function Restart<V>(vertices: seq<V>, ri: nat, s: int, width: seq<V> -> int,
                      roll: nat -> nat, k: nat, interrupted: (nat, nat) -> bool): Option<(seq<V>, nat)>
    requires |vertices| > 0
  {
    Climb(Shuffled(vertices, roll, k), ri, 0, s, width, roll, k + |vertices|, interrupted)
  }

  /** Restarts i .. r-1 with the best order and width so far. */
  function SearchFrom<V>(i: nat, r: int, s: int, best: seq<V>, bestWidth: int, vertices: seq<V>,
                         width: seq<V> -> int, roll: nat -> nat, k: nat,
                         interrupted: (nat, nat) -> bool): Option<seq<V>>
    requires |vertices| > 0
    decreases r - i
  {
    if i >= r then Some(best)
    else match Restart(vertices, i, s, width, roll, k, interrupted)
      case None => None
      case Some((dec, k')) =>
        if width(dec) < bestWidth then SearchFrom(i + 1, r, s, dec, width(dec), vertices, width, roll, k', interrupted)
        else SearchFrom(i + 1, r, s, best, bestWidth, vertices, width, roll, k', interrupted)
  }

  /** One restart of the search, as the loop of the search takes it. */
  lemma SearchUnfolds<V>(i: nat, r: int, s: int, best: seq<V>, bestWidth: int, vertices: seq<V>,
                         width: seq<V> -> int, roll: nat -> nat, k: nat,
                         interrupted: (nat, nat) -> bool, c: Option<(seq<V>, nat)>)
    requires |vertices| > 0 && i < r && c == Restart(vertices, i, s, width, roll, k, interrupted)
    ensures c.None? ==> SearchFrom(i, r, s, best, bestWidth, vertices, width, roll, k, interrupted).None?
    ensures c.Some? && width(c.value.0) < bestWidth ==>
      SearchFrom(i, r, s, best, bestWidth, vertices, width, roll, k, interrupted) ==
      SearchFrom(i + 1, r, s, c.value.0, width(c.value.0), vertices, width, roll, c.value.1, interrupted)
    ensures c.Some? && width(c.value.0) >= bestWidth ==>
      SearchFrom(i, r, s, best, bestWidth, vertices, width, roll, k, interrupted) ==
      SearchFrom(i + 1, r, s, best, bestWidth, vertices, width, roll, c.value.1, interrupted)
  {
  }

  /** The whole search, drawing from k on. */
  function Search<V>(vertices: seq<V>, r: int, s: int, width: seq<V> -> int,
                     roll: nat -> nat, k: nat, interrupted: (nat, nat) -> bool): Outcome<V>
  {
    if |vertices| == 0 then EmptyGraph
    else match SearchFrom(0, r, s, Shuffled(vertices, roll, k), IntMax, vertices, width, roll,
                          k + |vertices|, interrupted)
      case None => Interrupted
      case Some(best) => Found(best)
  }

  /** The final orders of restarts i .. r-1, in order; None when interrupted. */
  function Finals<V>(i: nat, r: int, s: int, vertices: seq<V>, width: seq<V> -> int,
                     roll: nat -> nat, k: nat, interrupted: (nat, nat) -> bool): Option<seq<seq<V>>>
    requires |vertices| > 0
    decreases r - i
  {
    if i >= r then Some([])
    else match Restart(vertices, i, s, width, roll, k, interrupted)
      case None => None
      case Some((dec, k')) =>
        match Finals(i + 1, r, s, vertices, width, roll, k', interrupted)
        case None => None
        case Some(rest) => Some([dec] + rest)
  }

  /** The first order of fs that beats the running best, and then beats every
      later improvement: the selection rule "strictly smaller replaces". */
  function Best<V>(fs: seq<seq<V>>, best: seq<V>, bestWidth: int, width: seq<V> -> int): seq<V>
  {
    if fs == [] then best
    else if width(fs[0]) < bestWidth then Best(fs[1..], fs[0], width(fs[0]), width)
    else Best(fs[1..], best, bestWidth, width)
  }

  // ---------------------------------------------------------------------------
  // Permutations

  lemma SwapPermutes<V>(p: seq<V>, a: nat, b: nat)
    requires a < |p| && b < |p|
    ensures multiset(Swap(p, a, b)) == multiset(p)
  {
    var q := p[a := p[b]];
    assert multiset(q) == multiset(p) - multiset{p[a]} + multiset{p[b]};
    assert multiset(q[b := p[a]]) == multiset(q) - multiset{q[b]} + multiset{p[a]};
  }

  /** A rejected swap restores the order exactly. */
  lemma SwapTwice<V>(p: seq<V>, a: nat, b: nat)
    requires a < |p| && b < |p|
    ensures Swap(Swap(p, a, b), a, b) == p
  {
    var q := Swap(Swap(p, a, b), a, b);
    assert forall c :: 0 <= c < |p| ==> q[c] == p[c];
  }

  lemma {:induction false} ShufflePermutes<V>(p: seq<V>, i: nat, roll: nat -> nat, k: nat)
    requires i <= |p|
    ensures multiset(Shuffle(p, i, roll, k)) == multiset(p)
    decreases i
  {
    if i > 0 {
      SwapPermutes(p, i - 1, Draw(roll, k, i));
      ShufflePermutes(Swap(p, i - 1, Draw(roll, k, i)), i - 1, roll, k + 1);
    }
  }

  /** The random permutation is a permutation of the vertices. */
  lemma ShuffledPermutes<V>(vertices: seq<V>, roll: nat -> nat, k: nat)
    ensures |Shuffled(vertices, roll, k)| == |vertices|
    ensures multiset(Shuffled(vertices, roll, k)) == multiset(vertices)
  {
    ShufflePermutes(vertices, |vertices|, roll, k);
  }

  /** A step either keeps the order or replaces it by the swapped order whose
      width is strictly smaller; either way the elements are the same. */
  lemma StepOutcome<V>(p: seq<V>, a: nat, b: nat, width: seq<V> -> int)
    requires a < |p| && b < |p|
    ensures var q := Step(p, a, b, width);
      (q == p || (q == Swap(p, a, b) && width(q) < width(p))) &&
      (width(Swap(p, a, b)) < width(p) ==> q == Swap(p, a, b)) &&
      multiset(q) == multiset(p) && |q| == |p| && width(q) <= width(p)
  {
    SwapTwice(p, a, b);
    SwapPermutes(p, a, b);
  }

  /** One step of the climb, as the loop of the search takes it. */
  lemma ClimbUnfolds<V>(p: seq<V>, ri: nat, j: nat, s: int, width: seq<V> -> int,
                        roll: nat -> nat, k: nat, interrupted: (nat, nat) -> bool)
    requires |p| > 0 && j < s && !interrupted(ri, j)
    ensures Climb(p, ri, j, s, width, roll, k, interrupted) ==
      Climb(Step(p, Draw(roll, k, |p|), Draw(roll, k + 1, |p|), width), ri, j + 1, s, width, roll, k + 2, interrupted)
  {
  }

  /** The climb keeps a permutation and never raises the width. */
  lemma {:induction false} ClimbPermutes<V>(p: seq<V>, ri: nat, j: nat, s: int, width: seq<V> -> int,
                                            roll: nat -> nat, k: nat, interrupted: (nat, nat) -> bool)
    requires |p| > 0
    ensures var c := Climb(p, ri, j, s, width, roll, k, interrupted);
      c.Some? ==>
        multiset(c.value.0) == multiset(p) && |c.value.0| == |p| && width(c.value.0) <= width(p)
    decreases s - j
  {
    if j < s && !interrupted(ri, j) {
      var a, b := Draw(roll, k, |p|), Draw(roll, k + 1, |p|);
      var q := Step(p, a, b, width);
      assert Climb(p, ri, j, s, width, roll, k, interrupted) == Climb(q, ri, j + 1, s, width, roll, k + 2, interrupted);
      StepOutcome(p, a, b, width);
      ClimbPermutes(q, ri, j + 1, s, width, roll, k + 2, interrupted);
    }
  }

  /** A climb that runs to the end draws two numbers per step. */
  lemma {:induction false} ClimbDraws<V>(p: seq<V>, ri: nat, j: nat, s: int, width: seq<V> -> int,
                                         roll: nat -> nat, k: nat, interrupted: (nat, nat) -> bool)
    requires |p| > 0 && j <= s
    ensures var c := Climb(p, ri, j, s, width, roll, k, interrupted);
      c.Some? ==> c.value.1 == k + 2 * (s - j)
    decreases s - j
  {
    if j < s && !interrupted(ri, j) {
      var a, b := Draw(roll, k, |p|), Draw(roll, k + 1, |p|);
      StepOutcome(p, a, b, width);
      ClimbDraws(Step(p, a, b, width), ri, j + 1, s, width, roll, k + 2, interrupted);
    }
  }

  /** Without interrupts a restart takes all its remaining steps. */
  lemma {:induction false} StepsTakenUninterrupted(ri: nat, j: nat, s: int, interrupted: (nat, nat) -> bool)
    requires forall j': nat :: !interrupted(ri, j')
    ensures StepsTaken(ri, j, s, interrupted) == (if j < s then s - j else 0)
    decreases s - j
  {
    if j < s {
      StepsTakenUninterrupted(ri, j + 1, s, interrupted);
    }
  }

  /** Without interrupts each of the restarts i .. r-1 draws n + 2s numbers. */
  lemma {:induction false} SearchDrawsUninterrupted(i: nat, r: int, s: int, n: nat, interrupted: (nat, nat) -> bool)
    requires forall ri: nat, j: nat :: !interrupted(ri, j)
    ensures SearchDraws(i, r, s, n, interrupted) ==
      (if i < r then (r - i) * (n + 2 * (if s > 0 then s else 0)) else 0)
    decreases r - i
  {
    if i < r {
      var x := n + 2 * (if s > 0 then s else 0);
      StepsTakenUninterrupted(i, 0, s, interrupted);
      SearchDrawsUninterrupted(i + 1, r, s, n, interrupted);
      assert SearchDraws(i, r, s, n, interrupted) == x + SearchDraws(i + 1, r, s, n, interrupted);
      assert (r - i) * x == x + (r - i - 1) * x;
    }
  }

  /** An uninterrupted search on n > 0 vertices draws n numbers for the initial
      permutation and n + 2s for each of its r restarts (counting negative r and
      s as zero): n(1 + r) + 2rs in all. */
  lemma UninterruptedDraws(n: nat, r: int, s: int, interrupted: (nat, nat) -> bool)
    requires forall ri: nat, j: nat :: !interrupted(ri, j)
    ensures var r', s' := (if r > 0 then r else 0), (if s > 0 then s else 0);
      n + SearchDraws(0, r, s, n, interrupted) == n * (1 + r') + 2 * r' * s'
  {
    SearchDrawsUninterrupted(0, r, s, n, interrupted);
    var r', s' := (if r > 0 then r else 0), (if s > 0 then s else 0);
    assert r' * (n + 2 * s') == r' * n + 2 * r' * s';
  }

  /** The climb is interrupted exactly when an interrupt is flagged before one of
      its remaining steps. */
  lemma {:induction false} ClimbInterrupted<V>(p: seq<V>, ri: nat, j: nat, s: int, width: seq<V> -> int,
                                               roll: nat -> nat, k: nat, interrupted: (nat, nat) -> bool)
    requires |p| > 0
    ensures Climb(p, ri, j, s, width, roll, k, interrupted).None? <==>
      exists j' :: j <= j' < s && interrupted(ri, j')
    decreases s - j
  {
    if j < s && !interrupted(ri, j) {
      var a, b := Draw(roll, k, |p|), Draw(roll, k + 1, |p|);
      StepOutcome(p, a, b, width);
      ClimbInterrupted(Step(p, a, b, width), ri, j + 1, s, width, roll, k + 2, interrupted);
      if exists j' :: j <= j' < s && interrupted(ri, j') {
        var j' :| j <= j' < s && interrupted(ri, j');
        assert j' != j;
      }
    }
  }

  // ---------------------------------------------------------------------------
  // The best-so-far selection

  /** The search selects, among the final orders of the restarts, by Best. */
  lemma {:induction false} SearchIsBest<V>(i: nat, r: int, s: int, best: seq<V>, bestWidth: int,
                                           vertices: seq<V>, width: seq<V> -> int, roll: nat -> nat,
                                           k: nat, interrupted: (nat, nat) -> bool)
    requires |vertices| > 0
    ensures SearchFrom(i, r, s, best, bestWidth, vertices, width, roll, k, interrupted) ==
      match Finals(i, r, s, vertices, width, roll, k, interrupted)
      case None => None
      case Some(fs) => Some(Best(fs, best, bestWidth, width))
    decreases r - i
  {
    if i < r {
      match Restart(vertices, i, s, width, roll, k, interrupted)
      case None =>
      case Some((dec, k')) =>
        SearchIsBest(i + 1, r, s, dec, width(dec), vertices, width, roll, k', interrupted);
        SearchIsBest(i + 1, r, s, best, bestWidth, vertices, width, roll, k', interrupted);
        match Finals(i + 1, r, s, vertices, width, roll, k', interrupted)
        case None =>
        case Some(rest) =>
          assert ([dec] + rest)[1..] == rest;
    }
  }

  /** fs[j] has the least width in fs, and every earlier order is wider. */
  predicate EarliestLeast<V>(fs: seq<seq<V>>, j: int, width: seq<V> -> int)
  {
    0 <= j < |fs| &&
    (forall j' :: 0 <= j' < |fs| ==> width(fs[j]) <= width(fs[j'])) &&
    (forall j' :: 0 <= j' < j ==> width(fs[j']) > width(fs[j]))
  }

  /** If no order beats the running best it stays (j == -1); otherwise the
      result is fs[j], the earliest order of least width. */
  lemma {:induction false} BestIsMinimum<V>(fs: seq<seq<V>>, best: seq<V>, bestWidth: int, width: seq<V> -> int)
    returns (j: int)
    ensures -1 <= j < |fs|
    ensures j == -1 <==> forall j' :: 0 <= j' < |fs| ==> width(fs[j']) >= bestWidth
    ensures j == -1 ==> Best(fs, best, bestWidth, width) == best
    ensures j >= 0 ==> Best(fs, best, bestWidth, width) == fs[j] && EarliestLeast(fs, j, width)
  {
    if fs == [] {
      j := -1;
    } else {
      var rest := fs[1..];
      assert forall j' :: 1 <= j' < |fs| ==> fs[j'] == rest[j' - 1];
      if width(fs[0]) < bestWidth {
        var i := BestIsMinimum(rest, fs[0], width(fs[0]), width);
        if i == -1 {
          j := 0;
        } else {
          j := i + 1;
          LeastShifts(fs, i, width);
        }
      } else {
        var i := BestIsMinimum(rest, best, bestWidth, width);
        if i == -1 {
          j := -1;
        } else {
          j := i + 1;
          LeastShifts(fs, i, width);
        }
      }
    }
  }

  lemma LeastShifts<V>(fs: seq<seq<V>>, i: int, width: seq<V> -> int)
    requires |fs| > 0 && EarliestLeast(fs[1..], i, width) && width(fs[0]) > width(fs[i + 1])
    ensures EarliestLeast(fs, i + 1, width)
  {
    assert forall j' :: 1 <= j' < |fs| ==> fs[j'] == fs[1..][j' - 1];
  }

  /** Every order of fs is a permutation of the vertices. */
  ghost predicate PermutationsOf<V>(fs: seq<seq<V>>, vertices: seq<V>)
  {
    forall j :: 0 <= j < |fs| ==> multiset(fs[j]) == multiset(vertices)
  }

  /** Every final order of a restart is a permutation of the vertices. */
  lemma {:induction false} FinalsPermute<V>(i: nat, r: int, s: int, vertices: seq<V>, width: seq<V> -> int,
                                            roll: nat -> nat, k: nat, interrupted: (nat, nat) -> bool)
    requires |vertices| > 0
    ensures var f := Finals(i, r, s, vertices, width, roll, k, interrupted);
      f.Some? ==> PermutationsOf(f.value, vertices)
    decreases r - i
  {
    if i < r {
      var c := Restart(vertices, i, s, width, roll, k, interrupted);
      RestartPermutes(vertices, i, s, width, roll, k, interrupted);
      if c.Some? {
        var dec, k' := c.value.0, c.value.1;
        FinalsPermute(i + 1, r, s, vertices, width, roll, k', interrupted);
        var f := Finals(i + 1, r, s, vertices, width, roll, k', interrupted);
        if f.Some? {
          ConsPermutations(dec, f.value, vertices);
        }
      }
    }
  }

  lemma RestartPermutes<V>(vertices: seq<V>, ri: nat, s: int, width: seq<V> -> int,
                           roll: nat -> nat, k: nat, interrupted: (nat, nat) -> bool)
    requires |vertices| > 0
    ensures var c := Restart(vertices, ri, s, width, roll, k, interrupted);
      c.Some? ==> multiset(c.value.0) == multiset(vertices)
  {
    ShuffledPermutes(vertices, roll, k);
    ClimbPermutes(Shuffled(vertices, roll, k), ri, 0, s, width, roll, k + |vertices|, interrupted);
  }

  lemma ConsPermutations<V>(dec: seq<V>, rest: seq<seq<V>>, vertices: seq<V>)
    requires multiset(dec) == multiset(vertices) && PermutationsOf(rest, vertices)
    ensures PermutationsOf([dec] + rest, vertices)
  {
    assert forall j :: 1 <= j < |rest| + 1 ==> ([dec] + rest)[j] == rest[j - 1];
  }

  /** Some restart is interrupted exactly when an interrupt is flagged before
      some step of some restart. */
  lemma {:induction false} FinalsInterrupted<V>(i: nat, r: int, s: int, vertices: seq<V>, width: seq<V> -> int,
                                                roll: nat -> nat, k: nat, interrupted: (nat, nat) -> bool)
    requires |vertices| > 0
    ensures Finals(i, r, s, vertices, width, roll, k, interrupted).None? <==>
      exists i', j' :: i <= i' < r && 0 <= j' < s && interrupted(i', j')
    decreases r - i
  {
    if i < r {
      var c := Restart(vertices, i, s, width, roll, k, interrupted);
      RestartInterrupted(vertices, i, s, width, roll, k, interrupted);
      InterruptSplit(i, r, s, interrupted);
      if c.Some? {
        FinalsInterrupted(i + 1, r, s, vertices, width, roll, c.value.1, interrupted);
      }
    }
  }

  lemma RestartInterrupted<V>(vertices: seq<V>, ri: nat, s: int, width: seq<V> -> int,
                              roll: nat -> nat, k: nat, interrupted: (nat, nat) -> bool)
    requires |vertices| > 0
    ensures Restart(vertices, ri, s, width, roll, k, interrupted).None? <==>
      exists j' :: 0 <= j' < s && interrupted(ri, j')
  {
    ClimbInterrupted(Shuffled(vertices, roll, k), ri, 0, s, width, roll, k + |vertices|, interrupted);
  }

  lemma InterruptSplit(i: nat, r: int, s: int, interrupted: (nat, nat) -> bool)
    requires i < r
    ensures (exists i', j' :: i <= i' < r && 0 <= j' < s && interrupted(i', j')) <==>
      (exists j' :: 0 <= j' < s && interrupted(i, j')) ||
      (exists i', j' :: i + 1 <= i' < r && 0 <= j' < s && interrupted(i', j'))
  {
  }

  lemma {:induction false} BestPermutes<V>(fs: seq<seq<V>>, best: seq<V>, bestWidth: int, width: seq<V> -> int, vertices: seq<V>)
    requires multiset(best) == multiset(vertices)
    requires PermutationsOf(fs, vertices)
    ensures multiset(Best(fs, best, bestWidth, width)) == multiset(vertices)
  {
    if fs != [] {
      assert forall j :: 0 <= j < |fs| - 1 ==> fs[1..][j] == fs[j + 1];
      BestPermutes(fs[1..], fs[0], width(fs[0]), width, vertices);
      BestPermutes(fs[1..], best, bestWidth, width, vertices);
    }
  }

  // ---------------------------------------------------------------------------
  // What the search promises

  /** An empty graph yields the empty decomposition; otherwise the result is
      interrupted exactly when an interrupt is flagged before some step, and a
      found order is a permutation of the vertices. */
  lemma SearchOutcome<V>(vertices: seq<V>, r: int, s: int, width: seq<V> -> int,
                         roll: nat -> nat, k: nat, interrupted: (nat, nat) -> bool)
    ensures |vertices| == 0 <==> Search(vertices, r, s, width, roll, k, interrupted) == EmptyGraph
    ensures Search(vertices, r, s, width, roll, k, interrupted) == Interrupted <==>
      |vertices| > 0 && exists i, j :: 0 <= i < r && 0 <= j < s && interrupted(i, j)
    ensures Search(vertices, r, s, width, roll, k, interrupted).Found? ==>
      multiset(Search(vertices, r, s, width, roll, k, interrupted).order) == multiset(vertices)
  {
    if |vertices| > 0 {
      var p0, k1 := Shuffled(vertices, roll, k), k + |vertices|;
      SearchIsBest(0, r, s, p0, IntMax, vertices, width, roll, k1, interrupted);
      FinalsInterrupted(0, r, s, vertices, width, roll, k1, interrupted);
      FinalsPermute(0, r, s, vertices, width, roll, k1, interrupted);
      ShuffledPermutes(vertices, roll, k);
      match Finals(0, r, s, vertices, width, roll, k1, interrupted)
      case None =>
      case Some(fs) =>
        BestPermutes(fs, p0, IntMax, width, vertices);
    }
  }

  /** Without restarts the decomposition of the initial random permutation is
      returned. */
  lemma SearchWithoutRestarts<V>(vertices: seq<V>, r: int, s: int, width: seq<V> -> int,
                                 roll: nat -> nat, k: nat, interrupted: (nat, nat) -> bool)
    requires |vertices| > 0 && r <= 0
    ensures Search(vertices, r, s, width, roll, k, interrupted) == Found(Shuffled(vertices, roll, k))
  {
  }

  /** With restarts whose widths fit below Integer.MAX_VALUE, the result is the
      final order of some restart, of least width among all final orders, and the
      earliest such. */
  lemma SearchFindsBest<V>(vertices: seq<V>, r: int, s: int, width: seq<V> -> int,
                           roll: nat -> nat, k: nat, interrupted: (nat, nat) -> bool)
    requires |vertices| > 0 && 0 < r
    ensures var k1 := k + |vertices|;
      match Finals(0, r, s, vertices, width, roll, k1, interrupted)
      case None => Search(vertices, r, s, width, roll, k, interrupted) == Interrupted
      case Some(fs) =>
        |fs| == r &&
        ((forall j :: 0 <= j < |fs| ==> width(fs[j]) < IntMax) ==>
          exists j :: EarliestLeast(fs, j, width) &&
            Search(vertices, r, s, width, roll, k, interrupted) == Found(fs[j]))
  {
    var p0, k1 := Shuffled(vertices, roll, k), k + |vertices|;
    SearchIsBest(0, r, s, p0, IntMax, vertices, width, roll, k1, interrupted);
    FinalsLength(0, r, s, vertices, width, roll, k1, interrupted);
    match Finals(0, r, s, vertices, width, roll, k1, interrupted)
    case None =>
    case Some(fs) =>
      var j := BestIsMinimum(fs, p0, IntMax, width);
      if forall j' :: 0 <= j' < |fs| ==> width(fs[j']) < IntMax {
        assert width(fs[0]) < IntMax;
        assert EarliestLeast(fs, j, width);
      }
  }

  lemma {:induction false} FinalsLength<V>(i: nat, r: int, s: int, vertices: seq<V>, width: seq<V> -> int,
                                           roll: nat -> nat, k: nat, interrupted: (nat, nat) -> bool)
    requires |vertices| > 0 && i <= r
    ensures var f := Finals(i, r, s, vertices, width, roll, k, interrupted);
      f.Some? ==> |f.value| == r - i
    decreases r - i
  {
    if i < r {
      match Restart(vertices, i, s, width, roll, k, interrupted)
      case None =>
      case Some((dec, k')) =>
        FinalsLength(i + 1, r, s, vertices, width, roll, k', interrupted);
    }
  }

  // ---------------------------------------------------------------------------
  // The imperative search

  /** The source of randomness: the k-th number drawn below a bound. */
  class Dice {
    const roll: nat -> nat
    var drawn: nat

    constructor (roll: nat -> nat)
      ensures this.roll == roll && drawn == 0
    {
      this.roll := roll;
      drawn := 0;
    }

    /** A number in [0, bound). */
    method NextInt(bound: nat) returns (z: nat)
      requires bound > 0
      modifies this
      ensures z == Draw(roll, old(drawn), bound)
      ensures drawn == old(drawn) + 1
    {
      z := Draw(roll, drawn, bound);
      drawn := drawn + 1;
    }
  }

  class SimpleLocalSearchDecomposer<V> {
    const vertices: seq<V>
    const restarts: int
    const steps: int
    const dice: Dice
    const width: seq<V> -> int
    const interrupted: (nat, nat) -> bool

    constructor (vertices: seq<V>, r: int, s: int, dice: Dice, width: seq<V> -> int,
                 interrupted: (nat, nat) -> bool)
      ensures this.vertices == vertices && restarts == r && steps == s && this.dice == dice
      ensures this.width == width && this.interrupted == interrupted
    {
      this.vertices := vertices;
      restarts := r;
      steps := s;
      this.dice := dice;
      this.width := width;
      this.interrupted := interrupted;
    }

    /** Fisher-Yates in place on a fresh copy of the vertex list. */
    method RandomPerm() returns (p: array<V>)
      modifies dice
      ensures fresh(p) && p[..] == Shuffled(vertices, dice.roll, old(dice.drawn))
      ensures dice.drawn == old(dice.drawn) + |vertices|
    {
      p := ArrayOf(vertices);
      ghost var shuffled := Shuffled(vertices, dice.roll, dice.drawn);
      ghost var current := vertices;
      var i := p.Length - 1;
      while i >= 0
        invariant -1 <= i < p.Length && p[..] == current
        invariant Shuffle(current, i + 1, dice.roll, dice.drawn) == shuffled
        invariant dice.drawn + i + 1 == old(dice.drawn) + |vertices|
      {
        ghost var k := dice.drawn;
        var z := dice.NextInt(i + 1);
        SwapAt(p, i, z);
        ShuffleRound(current, p[..], i, z, dice.roll, k, shuffled);
        current := p[..];
        i := i - 1;
      }
    }

    /** The search: an empty graph gives the empty decomposition, and otherwise
        restarts follow the decomposition of one random permutation. */
    method Call() returns (result: Outcome<V>)
      modifies dice
      ensures result == Search(vertices, restarts, steps, width, dice.roll, old(dice.drawn), interrupted)
      ensures dice.drawn == old(dice.drawn) +
        (if |vertices| == 0 then 0 else |vertices| + SearchDraws(0, restarts, steps, |vertices|, interrupted))
    {
      if |vertices| == 0 {
        return EmptyGraph;
      }
      var initial := RandomPerm();
      var found := Restarts(initial[..]);
      if found.None? {
        return Interrupted;
      }
      return Found(found.value);
    }

    /** The restarts, starting from the best order found so far with width
        Integer.MAX_VALUE: an interrupt before a step abandons the whole
        search (None). */
    method Restarts(initial: seq<V>) returns (found: Option<seq<V>>)
      requires |vertices| > 0
      modifies dice
      ensures found == SearchFrom(0, restarts, steps, initial, IntMax, vertices, width,
                                  dice.roll, old(dice.drawn), interrupted)
      ensures dice.drawn == old(dice.drawn) + SearchDraws(0, restarts, steps, |vertices|, interrupted)
    {
      var bestDecomposition := initial;
      var bestWidth := IntMax;
      var i: nat := 0;
      while i < restarts
        invariant SearchFrom(i, restarts, steps, bestDecomposition, bestWidth, vertices, width,
                             dice.roll, dice.drawn, interrupted) ==
                  SearchFrom(0, restarts, steps, initial, IntMax, vertices, width,
                             dice.roll, old(dice.drawn), interrupted)
        invariant dice.drawn + SearchDraws(i, restarts, steps, |vertices|, interrupted) ==
                  old(dice.drawn) + SearchDraws(0, restarts, steps, |vertices|, interrupted)
        decreases restarts - i
      {
        ghost var kStart := dice.drawn;
        var dec, stopped := RunRestart(i);
        SearchDrawsUnfolds(i, restarts, steps, |vertices|, interrupted);
        SearchUnfolds(i, restarts, steps, bestDecomposition, bestWidth, vertices, width,
                      dice.roll, kStart, interrupted, if stopped then None else Some((dec, dice.drawn)));
        if stopped {
          return None;
        }
        if width(dec) < bestWidth {
          bestDecomposition := dec;
          bestWidth := width(dec);
        }
        i := i + 1;
      }
      return Some(bestDecomposition);
    }

    /** Restart i: a fresh random permutation, then its steps. */
    method RunRestart(i: nat) returns (dec: seq<V>, stopped: bool)
      requires |vertices| > 0
      modifies dice
      ensures Restart(vertices, i, steps, width, dice.roll, old(dice.drawn), interrupted) ==
        if stopped then None else Some((dec, dice.drawn))
      ensures stopped <==> StepsTaken(i, 0, steps, interrupted) < steps
      ensures dice.drawn == old(dice.drawn) + |vertices| + 2 * StepsTaken(i, 0, steps, interrupted)
    {
      var p := RandomPerm();
      dec, stopped := ClimbRestart(p, i);
    }

    /** The steps of restart i on the order p: swap two random positions, keep
        the swap if the width drops and swap back otherwise; stopped when an
        interrupt is seen before a step. */
    method ClimbRestart(p: array<V>, i: nat) returns (dec: seq<V>, stopped: bool)
      requires p.Length == |vertices| > 0
      modifies p, dice
      ensures dec == p[..]
      ensures Climb(old(p[..]), i, 0, steps, width, dice.roll, old(dice.drawn), interrupted) ==
        if stopped then None else Some((dec, dice.drawn))
      ensures stopped <==> StepsTaken(i, 0, steps, interrupted) < steps
      ensures dice.drawn == old(dice.drawn) + 2 * StepsTaken(i, 0, steps, interrupted)
    {
      dec := p[..];
      ghost var climb := Climb(dec, i, 0, steps, width, dice.roll, dice.drawn, interrupted);
      var j := 0;
      while j < steps
        invariant dec == p[..] && p.Length == |vertices|
        invariant Climb(dec, i, j, steps, width, dice.roll, dice.drawn, interrupted) == climb
        invariant j == 0 || j <= steps
        invariant j + StepsTaken(i, j, steps, interrupted) == StepsTaken(i, 0, steps, interrupted)
        invariant dice.drawn == old(dice.drawn) + 2 * j
        decreases steps - j
      {
        dec, stopped := Round(p, i, j);
        if stopped {
          return;
        }
        j := j + 1;
      }
      stopped := false;
    }

    /** Step j of restart i: stopped when an interrupt is flagged before it. */
    method Round(p: array<V>, i: nat, j: nat) returns (dec: seq<V>, stopped: bool)
      requires p.Length == |vertices| > 0 && j < steps
      modifies p, dice
      ensures dec == p[..]
      ensures stopped == interrupted(i, j)
      ensures dice.drawn == old(dice.drawn) + (if stopped then 0 else 2)
      ensures stopped ==> dec == old(p[..])
      ensures !stopped ==> dec == Step(old(p[..]), Draw(dice.roll, old(dice.drawn), p.Length),
                                       Draw(dice.roll, old(dice.drawn) + 1, p.Length), width)
      ensures Climb(old(p[..]), i, j, steps, width, dice.roll, old(dice.drawn), interrupted) ==
        if stopped then None else Climb(dec, i, j + 1, steps, width, dice.roll, dice.drawn, interrupted)
    {
      dec := p[..];
      if interrupted(i, j) {
        return dec, true;
      }
      ClimbUnfolds(dec, i, j, steps, width, dice.roll, dice.drawn, interrupted);
      var a := dice.NextInt(p.Length);
      var b := dice.NextInt(p.Length);
      dec := TryStep(p, a, b);
      stopped := false;
    }

    /** Swap a and b in p; keep the swap if it lowers the width of the
        decomposition, and swap back otherwise. */
    method TryStep(p: array<V>, a: nat, b: nat) returns (dec: seq<V>)
      requires a < p.Length && b < p.Length
      modifies p
      ensures dec == p[..] == Step(old(p[..]), a, b, width)
    {
      dec := p[..];
      SwapAt(p, a, b);
      var decIntern := p[..];
      if width(decIntern) < width(dec) {
        dec := decIntern;
      } else {
        SwapAt(p, a, b);
        dec := p[..];
      }
    }
  }

  /** A fresh array holding s, as the copy of the vertex list. */
  method ArrayOf<V>(s: seq<V>) returns (p: array<V>)
    ensures fresh(p) && p[..] == s
  {
    p := new V[|s|](j requires 0 <= j < |s| => s[j]);
  }

  /** The three writes that exchange two entries of an array. */
  method SwapAt<V>(p: array<V>, a: nat, b: nat)
    requires a < p.Length && b < p.Length
    modifies p
    ensures p[..] == Swap(old(p[..]), a, b)
  {
    var tmp := p[a];
    p[a] := p[b];
    p[b] := tmp;
  }
}
