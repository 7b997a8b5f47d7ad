# Jdrasil exact decomposer, modelled in Dafny

This project models three sequential parts of Jdrasil, a solver that computes
tree decompositions of minimum width.

- **Gluing and strategy routing** (`ExactDecomposer.java`). Each connected
  component is solved on its own, by the first strategy that applies in this
  order:
  1. the reduction rules empty the component;
  2. the lower and upper bounds match;
  3. the cops-and-robber game, when n ≤ 25, ub ≤ 8 and
     binom(n, ub)·((n+32)/8) is below the free memory;
  4. otherwise a SAT encoding over the window `[lb, ub]`.

  The per-component decompositions are then glued into one tree, provided
  each of them is a connected tree. A fresh empty hub bag comes first. Every bag is copied with its vertex set unchanged. Every
  tree edge is copied once, from its lower-numbered bag to its higher-numbered
  one. Each non-empty copy is linked to the hub by one edge.
- **Front-end helpers** (`App.java`):
  - `binom`, the arbitrary-precision binomial coefficient behind the memory
    estimate;
  - the argument tokenizer that fills the parameter map;
  - the first-writer-wins output flag;
  - the choice of cardinality encoding.
- **Local search over elimination orders** (`SimpleLocalSearchDecomposer.java`).
  It starts with a Fisher-Yates shuffle. Each restart then runs first-improvement
  hill climbing with swap-and-revert. The best order across restarts is kept.

Files:

- `results.dfy`: `Option` and `Result`.
- `combinatorics.dfy`: factorials, Pascal's `Choose`, the value `Binomial` that
  `binom` returns for every pair of integers, and the identities the loop of
  `binom` needs (symmetry, absorption, the factorial formula).
- `app.dfy`: `Binom` as a loop with invariants plus the symmetry recursion. It
  also has the encoding names, a specification function for argument parsing
  with lemmas about it, and an `AppState` class. That class holds the static
  fields (`parameters`, `resultWritten`, the encoding) and their imperative
  methods.
- `decompositions.dfy`: a decomposition as a value. Its bags are a
  `seq<set<V>>`; a bag's identity is its position, which is also the order in
  which bags compare. Its tree is an edge list. The file also has width, the
  neighbourhood of a bag, the function `CopyEdges` that says which edges the
  copy loops produce and their lemmas, and the mutable `TreeDecomposition`
  class the gluing writes into.
- `exact_decomposer.dfy`: the reference function `Glued` and its lemmas, the
  imperative gluing (`GlueDecompositions` with its per-round loops), the routing
  function `Route`, `SolveComponent` and `Call`.
- `local_search.dfy`: specification functions (`Shuffle`, `Step`, `Climb`,
  `SearchFrom`, `Search`) with their lemmas, a `Dice` class for the random
  source, and the `SimpleLocalSearchDecomposer` class. That class does the
  shuffle and the swaps in place on an `array`.

Modelling choices:

- The collaborators that are not modelled are given as values or functions:
  - the reducer, the lower bound, the upper-bound heuristic, the
    cops-and-robber solver, the SAT decomposer and the reducer's re-expansion
    are fields of `ExactDecomposer.Component`;
  - `Runtime.freeMemory()` is its `freeMemory` field;
  - the width of the decomposition of an elimination order is a function
    `width: seq<V> -> int`;
  - `java.util.Random` is an oracle `roll: nat -> nat` whose k-th draw below a
    bound is `roll(k) % bound`;
  - `Thread.isInterrupted()` is an oracle `interrupted(restart, step)`.
- The elimination-order decomposition of an order is represented by the order
  itself.
- The memory estimate uses `C(n, ub)`, as the code does. It does not use
  `C(n, ub + 1)`, the number of cop positions of size ub + 1.
- When the local search sees an interrupt, it throws out of the whole call.
  The model follows this: the outcome is `Interrupted`, and the whole search
  is abandoned, not only the current restart.
- `parseArguments` reads the first character of every argument, so an empty
  argument fails. The model reports it as `EmptyArgument`. A malformed option,
  where the source prints an error and exits, becomes `MalformedOption`. The
  value after a one-letter option is not skipped, so a value that starts with
  `-` is also parsed as an option. The model keeps this.

## Model

| member | source | states |
|---|---|---|
| `ExactDecomposer.GluedBags` | jdrasil/src/de/uniluebeck/tcs/algorithms/ExactDecomposer.java:148-159 | the glued bags are the empty hub followed by every input's bags in order, so there are 1 + Σ(input bags) of them |
| `ExactDecomposer.GluedCopiesBag` | jdrasil/src/de/uniluebeck/tcs/algorithms/ExactDecomposer.java:149-158 | bag j of input i is copied with its vertex set unchanged to position Offset(i)+j, and the hub bag is empty |
| `ExactDecomposer.GluedWidth` | jdrasil/src/de/uniluebeck/tcs/algorithms/ExactDecomposer.java:147-179 | the glued width equals the largest input width (-1 with no inputs), because the hub is empty |
| `ExactDecomposer.GluedEdgeCount` | jdrasil/src/de/uniluebeck/tcs/algorithms/ExactDecomposer.java:161-174 | for well-formed inputs, the glued edge count is Σ(input edges) plus the number of non-empty inputs |
| `ExactDecomposer.GluedEdgeOnce` | jdrasil/src/de/uniluebeck/tcs/algorithms/ExactDecomposer.java:162-167 | each input edge appears exactly once, from the image of its lower endpoint to the image of its higher one, and its reverse never appears |
| `ExactDecomposer.GluedLinkOnce` | jdrasil/src/de/uniluebeck/tcs/algorithms/ExactDecomposer.java:171-174 | a non-empty input is linked to the hub by exactly one edge, from its first copied bag |
| `ExactDecomposer.GluedHubDegree` | jdrasil/src/de/uniluebeck/tcs/algorithms/ExactDecomposer.java:171-174 | the hub has exactly one edge per non-empty input, and an input without bags adds no link |
| `ExactDecomposer.GlueOneEmpty` | jdrasil/src/de/uniluebeck/tcs/algorithms/ExactDecomposer.java:155-174 | gluing an input without bags adds neither bags nor edges |
| `ExactDecomposer.GluedTreeSized` | jdrasil/src/de/uniluebeck/tcs/algorithms/ExactDecomposer.java:147-179 | gluing inputs that are each sized like a tree gives one edge fewer than bags |
| `ExactDecomposer.GluedProper` | jdrasil/src/de/uniluebeck/tcs/algorithms/ExactDecomposer.java:162-174 | every glued edge joins two distinct existing bags |
| `ExactDecomposer.GlueDecompositions` | jdrasil/src/de/uniluebeck/tcs/algorithms/ExactDecomposer.java:147-179 | the nested loops build, in a fresh tree decomposition, exactly the decomposition `Glued` describes |
| `ExactDecomposer.CopyBags` | jdrasil/src/de/uniluebeck/tcs/algorithms/ExactDecomposer.java:155-159 | appends one new bag per old bag with the same vertex set, and oldToNew maps old bag b to the new position off+b and has no other keys |
| `ExactDecomposer.MapEdges` | jdrasil/src/de/uniluebeck/tcs/algorithms/ExactDecomposer.java:162-168 | appends exactly the copied edges `CopyEdges` of the old tree and leaves the bags alone |
| `ExactDecomposer.MapNeighborhood` | jdrasil/src/de/uniluebeck/tcs/algorithms/ExactDecomposer.java:163-167 | for bag s, appends an edge to the image of each neighbour t with s < t, in neighbourhood order |
| `Decompositions.CopyEdgesExactlyOnce` | jdrasil/src/de/uniluebeck/tcs/algorithms/ExactDecomposer.java:162-167 | among one input's copied edges, each proper edge occurs once in the s < t orientation and never reversed |
| `Decompositions.CopyEdgesCount` | jdrasil/src/de/uniluebeck/tcs/algorithms/ExactDecomposer.java:162-167 | the copy loops produce as many edges as the input tree has |
| `Decompositions.CopyEdgesMember` | jdrasil/src/de/uniluebeck/tcs/algorithms/ExactDecomposer.java:162-167 | a pair is copied iff it is the shifted, upward-oriented form of an input edge whose lower endpoint was visited |
| `Decompositions.TreeDecomposition.CreateBag` | jdrasil/src/de/uniluebeck/tcs/algorithms/ExactDecomposer.java:149 | appends a bag with the given vertex set, returns its position and leaves the edges alone |
| `Decompositions.TreeDecomposition.AddTreeEdge` | jdrasil/src/de/uniluebeck/tcs/algorithms/ExactDecomposer.java:165 | appends one edge between two existing bags and leaves the bags alone |
| `ExactDecomposer.ExpectedMemoryValue` | jdrasil/src/de/uniluebeck/tcs/algorithms/ExactDecomposer.java:113 | the estimate is n!/(ub!(n-ub)!) times (n+32)/8 with integer division, and 0 when ub > n |
| `ExactDecomposer.RouteCops` | jdrasil/src/de/uniluebeck/tcs/algorithms/ExactDecomposer.java:112-124 | cops-and-robber is chosen iff the component is not fully reduced, lb ≠ ub, n ≤ 25, ub ≤ 8 and C(n, ub)·((n+32)/8) < free memory |
| `ExactDecomposer.RouteSat` | jdrasil/src/de/uniluebeck/tcs/algorithms/ExactDecomposer.java:126-137 | SAT is chosen, with window [lb, ub], exactly in every remaining case |
| `ExactDecomposer.RouteMemoryMonotone` | jdrasil/src/de/uniluebeck/tcs/algorithms/ExactDecomposer.java:119 | more free memory never moves a component from the game to SAT |
| `ExactDecomposer.RouteLarge` | jdrasil/src/de/uniluebeck/tcs/algorithms/ExactDecomposer.java:119 | a component with more than 25 vertices or an upper bound above 8 never goes to the game |
| `ExactDecomposer.RouteConsults` | jdrasil/src/de/uniluebeck/tcs/algorithms/ExactDecomposer.java:88-110 | once fully reduced, nothing else matters; when the bounds match, neither the size nor the memory matters |
| `ExactDecomposer.SolveReduced` | jdrasil/src/de/uniluebeck/tcs/algorithms/ExactDecomposer.java:88-91 | a fully reduced component yields the reducer's decomposition, whatever the bounds and the memory |
| `ExactDecomposer.SolveBoundsMatch` | jdrasil/src/de/uniluebeck/tcs/algorithms/ExactDecomposer.java:106-110 | when lb equals the upper-bound width, the upper-bound decomposition is re-expanded, and neither exact solver nor the memory is consulted |
| `ExactDecomposer.SolveExact` | jdrasil/src/de/uniluebeck/tcs/algorithms/ExactDecomposer.java:112-137 | otherwise the game's result is re-expanded when it fits, and the SAT result for [lb, ub] when it does not |
| `ExactDecomposer.SolvedEach` | jdrasil/src/de/uniluebeck/tcs/algorithms/ExactDecomposer.java:193-197 | every component is solved once, and its result sits in its own position |
| `ExactDecomposer.Call` | jdrasil/src/de/uniluebeck/tcs/algorithms/ExactDecomposer.java:182-205 | solves every component and returns a fresh decomposition equal to the gluing of their results |
| `App.Binom` | jdrasil/src/de/uniluebeck/tcs/App.java:266-280 | returns 0 when k > n, 1 when 0 = k ≤ n, C(n, k) inside the triangle with r·k!·(n-k)! = n!, and n-k+1 for negative k |
| `App.RoundExact` | jdrasil/src/de/uniluebeck/tcs/App.java:275-278 | each multiply-then-divide round is an exact division that turns C(n-k+i-1, i-1) into C(n-k+i, i) |
| `Combinatorics.ChooseSymmetric` | jdrasil/src/de/uniluebeck/tcs/App.java:270-271 | C(n, k) = C(n, n-k), the identity behind the shortcut for 2k > n |
| `Combinatorics.ChooseAbsorption` | jdrasil/src/de/uniluebeck/tcs/App.java:276-277 | k·C(n, k) = n·C(n-1, k-1), which makes every division in the loop exact |
| `Combinatorics.ChooseFactorial` | jdrasil/src/de/uniluebeck/tcs/App.java:266-280 | C(n, k)·k!·(n-k)! = n! for 0 ≤ k ≤ n |
| `App.EncodingNamed` | jdrasil/src/de/uniluebeck/tcs/App.java:237-257 | exactly the six known names select an encoding, each selecting the encoding it names |
| `App.AppState.SetSATEncoding` | jdrasil/src/de/uniluebeck/tcs/App.java:237-257 | a known name sets its encoding, and any other string leaves the encoding unchanged |
| `App.AppState.ParseArguments` | jdrasil/src/de/uniluebeck/tcs/App.java:113-137 | the loop leaves the parameter map that `ParseFrom` describes, or stops with the error it describes |
| `App.ParseFailsAtFirstMalformed` | jdrasil/src/de/uniluebeck/tcs/App.java:116-128 | parsing fails iff some argument is empty, a lone "-" or a trailing one-letter option, and the error names the first such argument and its kind |
| `App.ParseLastWriteWins` | jdrasil/src/de/uniluebeck/tcs/App.java:130-134 | the last argument that stores a key decides its value: the next token for "-x", "" for a longer flag |
| `App.ParseKeepsUntouchedKey` | jdrasil/src/de/uniluebeck/tcs/App.java:114-136 | a key that no argument stores keeps its old entry or its absence, so arguments without a leading "-" store nothing |
| `App.ParseNeverStoresHelp` | jdrasil/src/de/uniluebeck/tcs/App.java:119-122 | "-h" never stores the key "h" |
| `App.AppState.ShouldIWrite` | jdrasil/src/de/uniluebeck/tcs/App.java:139-146 | answers true iff the flag was unset, and leaves the flag set |
| `App.OnlyFirstCallWrites` | jdrasil/src/de/uniluebeck/tcs/App.java:139-146 | over any run of calls from an unset flag, only the first call answers true |
| `LocalSearch.ShuffledPermutes` | jdrasil/src/de/uniluebeck/tcs/algorithms/upperbounds/SimpleLocalSearchDecomposer.java:64-73 | the Fisher-Yates result is a permutation of the vertex list |
| `LocalSearch.SimpleLocalSearchDecomposer.RandomPerm` | jdrasil/src/de/uniluebeck/tcs/algorithms/upperbounds/SimpleLocalSearchDecomposer.java:64-73 | the in-place loop yields a fresh array holding `Shuffled` of the vertices, and it consumes one draw per vertex |
| `LocalSearch.SwapTwice` | jdrasil/src/de/uniluebeck/tcs/algorithms/upperbounds/SimpleLocalSearchDecomposer.java:109-111 | repeating a swap restores the order exactly |
| `LocalSearch.StepOutcome` | jdrasil/src/de/uniluebeck/tcs/algorithms/upperbounds/SimpleLocalSearchDecomposer.java:97-112 | a step keeps the swap if and only if it lowers the width, and otherwise keeps the order; either way it stays a permutation and the width does not rise |
| `LocalSearch.ClimbPermutes` | jdrasil/src/de/uniluebeck/tcs/algorithms/upperbounds/SimpleLocalSearchDecomposer.java:94-113 | a restart's steps keep a permutation of the same length and never raise the width |
| `LocalSearch.ClimbDraws` | jdrasil/src/de/uniluebeck/tcs/algorithms/upperbounds/SimpleLocalSearchDecomposer.java:98-99 | an uninterrupted climb takes two draws per step |
| `LocalSearch.ClimbInterrupted` | jdrasil/src/de/uniluebeck/tcs/algorithms/upperbounds/SimpleLocalSearchDecomposer.java:95 | a climb aborts iff an interrupt is flagged before one of its remaining steps |
| `LocalSearch.BestIsMinimum` | jdrasil/src/de/uniluebeck/tcs/algorithms/upperbounds/SimpleLocalSearchDecomposer.java:115-119 | the strictly-smaller-replaces selection keeps the running best iff nothing beats it, and otherwise picks the earliest order of least width |
| `LocalSearch.SearchOutcome` | jdrasil/src/de/uniluebeck/tcs/algorithms/upperbounds/SimpleLocalSearchDecomposer.java:76-124 | an empty graph gives the empty result, the search is interrupted iff some step sees an interrupt, and a found order is a permutation of the vertices |
| `LocalSearch.SearchWithoutRestarts` | jdrasil/src/de/uniluebeck/tcs/algorithms/upperbounds/SimpleLocalSearchDecomposer.java:82-89 | with r ≤ 0, the initial random permutation is returned |
| `LocalSearch.SearchFindsBest` | jdrasil/src/de/uniluebeck/tcs/algorithms/upperbounds/SimpleLocalSearchDecomposer.java:85-119 | with r ≥ 1 and no interrupt, the result is the earliest restart's final order of least width, provided the widths are below Integer.MAX_VALUE |
| `LocalSearch.SimpleLocalSearchDecomposer.Call` | jdrasil/src/de/uniluebeck/tcs/algorithms/upperbounds/SimpleLocalSearchDecomposer.java:76-124 | the imperative search returns exactly the outcome `Search` describes for the draws it consumes, and it advances the shared random source by n plus `SearchDraws` (nothing for an empty graph) |
| `LocalSearch.SimpleLocalSearchDecomposer.Restarts` | jdrasil/src/de/uniluebeck/tcs/algorithms/upperbounds/SimpleLocalSearchDecomposer.java:85-123 | the restart loop with its best-so-far update computes `SearchFrom` from Integer.MAX_VALUE and consumes exactly `SearchDraws` draws |
| `LocalSearch.SimpleLocalSearchDecomposer.ClimbRestart` | jdrasil/src/de/uniluebeck/tcs/algorithms/upperbounds/SimpleLocalSearchDecomposer.java:94-113 | the step loop computes `Climb` on the array in place, returns the array's final contents, stops iff an interrupt comes before step s, and draws two numbers per step taken |
| `LocalSearch.SimpleLocalSearchDecomposer.TryStep` | jdrasil/src/de/uniluebeck/tcs/algorithms/upperbounds/SimpleLocalSearchDecomposer.java:100-112 | swaps in place, keeps the swap iff the width drops, and swaps back otherwise |
| `LocalSearch.Dice.NextInt` | jdrasil/src/de/uniluebeck/tcs/algorithms/upperbounds/SimpleLocalSearchDecomposer.java:67 | returns the next draw, below its bound, and advances the draw count by one |
| `ExactDecomposer.GluedConnected` | jdrasil/src/de/uniluebeck/tcs/algorithms/ExactDecomposer.java:140-179 | when every input reaches all its bags from bag 0, every glued bag is reached from the hub, through the input's hub link and the copied edges |
| `ExactDecomposer.ExpectedMemory` | jdrasil/src/de/uniluebeck/tcs/algorithms/ExactDecomposer.java:113 | the estimate is never negative, is 0 when ub > n, and is one state size (n+32)/8 when ub = 0 |
| `ExactDecomposer.Route` | jdrasil/src/de/uniluebeck/tcs/algorithms/ExactDecomposer.java:88-137 | the cascade ends early iff fully reduced, takes the bounds iff they match, picks the game only within the thresholds and the memory, and gives SAT the window [lb, ub] |
| `ExactDecomposer.SolveComponent` | jdrasil/src/de/uniluebeck/tcs/algorithms/ExactDecomposer.java:84-138 | a fully reduced component yields the reducer's decomposition; any other one yields the re-expansion of the upper-bound, game or SAT [lb, ub] decomposition |
| `LocalSearch.Step` | jdrasil/src/de/uniluebeck/tcs/algorithms/upperbounds/SimpleLocalSearchDecomposer.java:100-112 | a step takes the swapped order if and only if its width is strictly smaller, and otherwise leaves the order unchanged, so the width never rises |
| `LocalSearch.SimpleLocalSearchDecomposer.Round` | jdrasil/src/de/uniluebeck/tcs/algorithms/upperbounds/SimpleLocalSearchDecomposer.java:95-112 | stops iff the interrupt is flagged before the step, drawing nothing and leaving the array unchanged then; otherwise it draws two positions a and b and leaves the array equal to `Step` of its old contents at a and b |
| `LocalSearch.SimpleLocalSearchDecomposer.RunRestart` | jdrasil/src/de/uniluebeck/tcs/algorithms/upperbounds/SimpleLocalSearchDecomposer.java:90-113 | one restart computes `Restart` and draws n numbers for the shuffle plus two per step taken |
| `LocalSearch.SwapAt` | jdrasil/src/de/uniluebeck/tcs/algorithms/upperbounds/SimpleLocalSearchDecomposer.java:100-102 | the three writes exchange the entries at a and b |
| `LocalSearch.StepsTakenUninterrupted` | jdrasil/src/de/uniluebeck/tcs/algorithms/upperbounds/SimpleLocalSearchDecomposer.java:94-95 | without interrupts a restart takes all its s steps |
| `LocalSearch.UninterruptedDraws` | jdrasil/src/de/uniluebeck/tcs/algorithms/upperbounds/SimpleLocalSearchDecomposer.java:64-113 | an uninterrupted search on n > 0 vertices draws n(1 + r) + 2rs numbers from the shared random source |

## Left out

- Process I/O is not modelled: `App.main`, `printHelp`, `log`, `reportNewSolution`, `getSeed` and `getTimeout` deal with standard streams, the wall clock and process exit. The help text printed for `-h` is not modelled either.
- `Runtime.freeMemory()` is an input value (`Component.freeMemory`), not a query of the live heap.
- The random source is an oracle of draws; the internals of `java.util.Random`, and how a seed determines it, are not modelled.
- The collaborators are results or functions in `Component`, with no contract of their own: the reduction preprocessor, minor-min-width, stochastic min-fill, cops-and-robber, the SAT decomposer and the reducer's re-insertion (`glue`). The elimination-order decomposer used by the local search is the `width` parameter of `LocalSearch`. So no lemma states that the result is a valid or optimal decomposition of the graph.
- The choice between the parallel and the serial Glucose solver (ExactDecomposer.java lines 127-134) is left out. Only the window `[lb, ub]` passed to the SAT decomposer is modelled.
- `Call`, `SolveComponent`: collaborator failures are not modelled. In the source, the reducer, the bound computations, cops-and-robber and the SAT decomposer may throw (ExactDecomposer.java lines 84, 121, 135 and 182). An exception leaves `call()` before anything is glued. In the model these collaborators are total, so `Call` always returns the gluing of every component's solution.
- The synchronized result set and parallel component solving are not modelled. Components are solved one after another, in order.
- The set of per-component decompositions is a `HashSet` in the source, and `oldToNew` is a `HashMap`. Their iteration order is arbitrary. The model glues in component order and links each input's first copied bag to the hub.
- `GluedConnected`: connectivity and edge count are proved, and acyclicity follows from them by the standard fact that a connected graph with one edge fewer than vertices is a tree. That fact is not proved, because the model has no notion of a cycle. The glued result is connected when every input is (`GluedConnected`), and it has one edge fewer than bags when every input does (`GluedTreeSized`).
- `ParseArguments`, `ParseFrom`: an argument is a Dafny `string`, a sequence of Unicode code points. Java's `length()`, `charAt` and `substring` count UTF-16 code units instead. So an option with a character outside the Basic Multilingual Plane is classified differently: for `-𝑥` as the last argument, the model counts two characters and rejects it as a one-letter option without a value, while Java counts three and stores it as a flag. The UTF-16 encoding of arguments is not modelled.
- `GlueDecompositions`: requires that every input edge joins existing bags. A `TreeDecomposition`'s neighbourhoods only ever name its own bags, so this is the source's invariant.
- The source's `int` width and `Integer.MAX_VALUE` are modelled as unbounded integers. The initial best width is the constant 2^31 - 1.
- TikZ rendering and the native SAT solver's JNI wrapper are not modelled.
