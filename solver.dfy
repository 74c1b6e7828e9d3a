/** The `Solver`: one search strategy run over a `GameState`.

    `GameState.move` changes its receiver and returns it, and the closed sets
    hold `hash(state)`, which for a class without `__hash__` is the object's
    identity. So every successor a search computes is the very object it is
    expanding, and that object was put in the closed set just before. The
    contracts below state what the searches therefore do: breadth-first, A*
    and uniform-cost expand the initial state once and push nothing, and
    iterative deepening can only ever return `["U"]`. */
module Solvers {
  import opened Grids
  import opened GameRules
  import opened GameStates

  /** How `solve` ends: normally, by raising for an unknown strategy name, or
      by failing in the `greedy` branch, whose method does not exist. */
  datatype Outcome = Completed | InvalidStrategy | MissingMethod

  /** An entry of the heap of `astar` and `ucs`: priority, state, path. */
  datatype HeapEntry = HeapEntry(priority: int, state: GameState, path: seq<string>)

  /** The moves `ucs` makes while expanding along `ds`: a neutral move before
      each direction. */
  function NeutralBefore(ds: seq<string>): (r: seq<string>)
    ensures |r| == 2 * |ds|
    decreases |ds|
  {
    if ds == [] then [] else NeutralBefore(ds[..|ds| - 1]) + [""] + [ds[|ds| - 1]]
  }

  /** `NeutralBefore(ds)` alternates: the neutral move at each even index,
      and the directions of `ds`, in order, at the odd ones. */
  lemma {:induction false} NeutralBeforeInterleaves(ds: seq<string>)
    ensures forall k :: 0 <= k < |ds| ==> NeutralBefore(ds)[2 * k] == "" && NeutralBefore(ds)[2 * k + 1] == ds[k]
    decreases |ds|
  {
    if ds != [] {
      var init := ds[..|ds| - 1];
      NeutralBeforeInterleaves(init);
      forall k | 0 <= k < |ds|
        ensures NeutralBefore(ds)[2 * k] == "" && NeutralBefore(ds)[2 * k + 1] == ds[k]
      {
        if k < |init| {
          assert NeutralBefore(ds)[2 * k] == NeutralBefore(init)[2 * k];
          assert NeutralBefore(ds)[2 * k + 1] == NeutralBefore(init)[2 * k + 1];
        }
      }
    }
  }

  /** Python truthiness of a search result: None and the empty list are
      false. */
  predicate Truthy(result: Option<seq<string>>)
  {
    result.Some? && |result.value| > 0
  }

  /** `heapq.heappop`, abstracted to a priority queue on the integer key: it
      takes out an entry of least priority and keeps all the others. */
  method PopMin(heap: seq<HeapEntry>) returns (top: HeapEntry, rest: seq<HeapEntry>)
    requires heap != []
    ensures top in heap
    ensures forall e :: e in heap ==> top.priority <= e.priority
    ensures multiset(rest) + multiset{top} == multiset(heap)
  {
    var m := 0;
    for k := 1 to |heap|
      invariant 0 <= m < |heap|
      invariant forall j :: 0 <= j < k ==> heap[m].priority <= heap[j].priority
    {
      if heap[k].priority < heap[m].priority {
        m := k;
      }
    }
    top := heap[m];
    rest := heap[..m] + heap[m + 1..];
    assert heap == heap[..m] + [top] + heap[m + 1..];
    assert multiset(heap) == multiset(heap[..m]) + multiset{top} + multiset(heap[m + 1..]);
    forall e | e in heap
      ensures top.priority <= e.priority
    {
      var j :| 0 <= j < |heap| && heap[j] == e;
    }
  }

  /** The queue entries breadth-first search pushes for the first `n`
      directions when nothing is closed: the state with the path extended by
      that direction. */
  ghost function FifoEntries(s: GameState, path: seq<string>, n: nat): seq<(GameState, seq<string>)>
    requires n <= |Directions|
  {
    if n == 0 then [] else FifoEntries(s, path, n - 1) + [(s, path + [Directions[n - 1]])]
  }

  /** The key A* gives the state reached after the first `j` directions:
      its heuristic. */
  ghost function AstarKey(start: Config, j: nat): int
    requires WellFormed(start) && HeuristicDefined(start.boxes, start.targets) && j <= |Directions|
  {
    var after := Steps(start, Directions[..j]);
    StepsWellFormed(start, Directions[..j]);
    Heuristic(after.boxes, after.targets)
  }

  /** The heap entries A* pushes for the first `n` directions when nothing is
      closed; each is keyed by the heuristic of the state just after its move. */
  ghost function AstarEntries(start: Config, s: GameState, path: seq<string>, n: nat): seq<HeapEntry>
    requires WellFormed(start) && HeuristicDefined(start.boxes, start.targets) && n <= |Directions|
  {
    if n == 0 then []
    else AstarEntries(start, s, path, n - 1) + [HeapEntry(AstarKey(start, n), s, path + [Directions[n - 1]])]
  }

  /** The heap entries uniform-cost search pushes for the first `n`
      directions when nothing is closed; each is keyed by the cost of the
      state just after its move. */
  ghost function UcsEntries(start: Config, s: GameState, path: seq<string>, n: nat): seq<HeapEntry>
    requires n <= |Directions|
  {
    if n == 0 then []
    else UcsEntries(start, s, path, n - 1) + [HeapEntry(Steps(start, NeutralBefore(Directions[..n])).cost, s, path + [Directions[n - 1]])]
  }

  /** Entry `i` of an expansion carries direction `i` of U, D, L, R: its path
      is the parent's path plus that one direction. */
  lemma {:induction false} FifoEntriesInOrder(s: GameState, path: seq<string>, n: nat)
    requires n <= |Directions|
    ensures |FifoEntries(s, path, n)| == n
    ensures forall i :: 0 <= i < n ==> FifoEntries(s, path, n)[i] == (s, path + [Directions[i]])
  {
    if n > 0 {
      FifoEntriesInOrder(s, path, n - 1);
    }
  }

  /** Entry `i` pushed by an `astar` expansion is keyed by the heuristic of
      the state after directions 0 to `i`, and its path is the parent's path
      plus direction `i`. */
  lemma {:induction false} AstarEntriesInOrder(start: Config, s: GameState, path: seq<string>, n: nat)
    requires WellFormed(start) && HeuristicDefined(start.boxes, start.targets) && n <= |Directions|
    ensures |AstarEntries(start, s, path, n)| == n
    ensures forall i :: 0 <= i < n ==>
      AstarEntries(start, s, path, n)[i] == HeapEntry(AstarKey(start, i + 1), s, path + [Directions[i]])
  {
    if n > 0 {
      AstarEntriesInOrder(start, s, path, n - 1);
    }
  }

  /** Entry `i` pushed by a `ucs` expansion is keyed by the cost so far of
      the state after rounds 0 to `i`, and its path is the parent's path plus
      direction `i`. */
  lemma {:induction false} UcsEntriesInOrder(start: Config, s: GameState, path: seq<string>, n: nat)
    requires n <= |Directions|
    ensures |UcsEntries(start, s, path, n)| == n
    ensures forall i :: 0 <= i < n ==>
      UcsEntries(start, s, path, n)[i] ==
        HeapEntry(Steps(start, NeutralBefore(Directions[..i + 1])).cost, s, path + [Directions[i]])
  {
    if n > 0 {
      UcsEntriesInOrder(start, s, path, n - 1);
    }
  }

  /** One pass of the direction loop of `bfs`: move, then queue the
      successor with the path extended by `direction` unless it is closed. */
  method VisitBfs(current: GameState, direction: string, path: seq<string>, closed: set<GameState>,
                  queue: seq<(GameState, seq<string>)>)
    returns (queued: seq<(GameState, seq<string>)>)
    requires MovePre(current.View(), direction)
    modifies current
    ensures current.View() == Step(old(current.View()), direction)
    ensures queued == queue + if current in closed then [] else [(current, path + [direction])]
  {
    var next := current.Move(direction);
    queued := queue;
    if next !in closed {
      queued := queued + [(next, path + [direction])];
    }
  }

  /** The expansion step of `bfs`: move in each direction in turn and queue
      the successor unless it is closed. */
  method ExpandBfs(current: GameState, path: seq<string>, closed: set<GameState>,
                   queue: seq<(GameState, seq<string>)>)
    returns (queued: seq<(GameState, seq<string>)>)
    requires WellFormed(current.View())
    modifies current
    ensures current.View() == Steps(old(current.View()), Directions)
    ensures queued == queue + if current in closed then [] else FifoEntries(current, path, |Directions|)
  {
    ghost var start := current.View();
    queued := queue;
    for k := 0 to |Directions|
      invariant current.View() == Steps(start, Directions[..k])
      invariant queued == queue + if current in closed then [] else FifoEntries(current, path, k)
    {
      StepsPrefix(start, Directions, k);
      queued := VisitBfs(current, Directions[k], path, closed, queued);
    }
    assert Directions[..|Directions|] == Directions;
  }

  /** One pass of the direction loop of `astar`: move, then push the
      successor keyed by its heuristic unless it is closed. */
  method VisitAstar(current: GameState, direction: string, path: seq<string>, closed: set<GameState>,
                    heap: seq<HeapEntry>)
    returns (pushed: seq<HeapEntry>)
    requires MovePre(current.View(), direction)
    requires HeuristicDefined(Step(current.View(), direction).boxes, current.targets)
    modifies current
    ensures current.View() == Step(old(current.View()), direction)
    ensures pushed == heap + if current in closed then []
                             else [HeapEntry(Heuristic(current.View().boxes, current.View().targets), current, path + [direction])]
  {
    var next := current.Move(direction);
    pushed := heap;
    if next !in closed {
      var newCost := next.GetHeuristic();
      pushed := pushed + [HeapEntry(newCost, next, path + [direction])];
    }
  }

  /** Round `k` of the `astar` expansion: direction `k` is defined on the
      state the earlier rounds reached, the heuristic is defined after it,
      and it leads to the state those rounds and this one reach together. */
  lemma AstarRound(start: Config, k: nat)
    requires WellFormed(start) && HeuristicDefined(start.boxes, start.targets) && k < |Directions|
    ensures var before := Steps(start, Directions[..k]);
      MovePre(before, Directions[k]) && before.targets == start.targets &&
      HeuristicDefined(Step(before, Directions[k]).boxes, start.targets) &&
      Steps(start, Directions[..k + 1]) == Step(before, Directions[k]) &&
      AstarKey(start, k + 1) == Heuristic(Step(before, Directions[k]).boxes, Step(before, Directions[k]).targets)
  {
    StepsPrefix(start, Directions, k);
    StepsWellFormed(start, Directions[..k]);
    StepsWellFormed(start, Directions[..k + 1]);
  }

  /** The expansion step of `astar`: move in each direction in turn and push
      the successor, keyed by its heuristic alone, unless it is closed. */
  method ExpandAstar(current: GameState, path: seq<string>, closed: set<GameState>, heap: seq<HeapEntry>)
    returns (pushed: seq<HeapEntry>)
    requires WellFormed(current.View()) && HeuristicDefined(current.boxes, current.targets)
    modifies current
    ensures current.View() == Steps(old(current.View()), Directions)
    ensures pushed == heap + if current in closed then [] else AstarEntries(old(current.View()), current, path, |Directions|)
  {
    ghost var start := current.View();
    pushed := heap;
    for k := 0 to |Directions|
      invariant current.View() == Steps(start, Directions[..k])
      invariant pushed == heap + if current in closed then [] else AstarEntries(start, current, path, k)
    {
      AstarRound(start, k);
      pushed := VisitAstar(current, Directions[k], path, closed, pushed);
    }
    assert Directions[..|Directions|] == Directions;
  }

  /** One pass of the direction loop of `ucs`: the neutral move, the move in
      `direction`, then push the successor keyed by its cost so far unless it
      is closed. */
  method VisitUcs(current: GameState, direction: string, path: seq<string>, closed: set<GameState>,
                  heap: seq<HeapEntry>)
    returns (pushed: seq<HeapEntry>)
    requires MovePre(current.View(), "") && MovePre(Step(current.View(), ""), direction)
    modifies current
    ensures current.View() == Step(Step(old(current.View()), ""), direction)
    ensures pushed == heap + if current in closed then [] else [HeapEntry(current.currentCost, current, path + [direction])]
  {
    var temp := current.Move("");
    var next := temp.Move(direction);
    pushed := heap;
    if next !in closed {
      var newCost := next.GetCurrentCost();
      pushed := pushed + [HeapEntry(newCost, next, path + [direction])];
    }
  }

  /** Round `k` of the `ucs` expansion: the neutral move and then direction
      `k` are both defined on the state the earlier rounds reached, and lead
      to the state those rounds and this one reach together. */
  lemma NeutralThenStep(start: Config, k: nat)
    requires WellFormed(start) && k < |Directions|
    ensures var before := Steps(start, NeutralBefore(Directions[..k]));
      MovePre(before, "") && MovePre(Step(before, ""), Directions[k]) &&
      Steps(start, NeutralBefore(Directions[..k + 1])) == Step(Step(before, ""), Directions[k])
  {
    var done := NeutralBefore(Directions[..k]);
    assert Directions[..k + 1][..k] == Directions[..k];
    assert NeutralBefore(Directions[..k + 1]) == done + [""] + [Directions[k]];
    StepsSnoc(start, done, "");
    StepsSnoc(start, done + [""], Directions[k]);
  }

  /** The expansion step of `ucs`: before each direction make the neutral
      move, then move and push the successor, keyed by its cost so far,
      unless it is closed. */
  method ExpandUcs(current: GameState, path: seq<string>, closed: set<GameState>, heap: seq<HeapEntry>)
    returns (pushed: seq<HeapEntry>)
    requires WellFormed(current.View())
    modifies current
    ensures current.View() == Steps(old(current.View()), NeutralBefore(Directions))
    ensures pushed == heap + if current in closed then [] else UcsEntries(old(current.View()), current, path, |Directions|)
  {
    ghost var start := current.View();
    pushed := heap;
    for k := 0 to |Directions|
      invariant current.View() == Steps(start, NeutralBefore(Directions[..k]))
      invariant pushed == heap + if current in closed then [] else UcsEntries(start, current, path, k)
    {
      NeutralThenStep(start, k);
      pushed := VisitUcs(current, Directions[k], path, closed, pushed);
    }
    assert Directions[..|Directions|] == Directions;
  }

  /** The deepest limit `dfs` tries. */
  const MaxDepth: nat := 100

  /** What `dfs_recursive` answers, and the state it leaves the object in,
      for an object in state `c` that the closed set holds (`isClosed`) or
      not. The successor of every move is the object itself: a closed object
      makes its four moves without recursing, and an unclosed one recurses
      once, after U, on itself now closed, then makes the other three moves
      unless that call answered. */
  ghost function DfsOutcome(c: Config, isClosed: bool, depthLimit: nat, path: seq<string>): (Option<seq<string>>, Config)
    decreases depthLimit
  {
    if c.solved then (Some(path), c)
    else if depthLimit == 0 then (None, c)
    else if isClosed then (None, Steps(c, Directions))
    else
      var (found, after) := DfsOutcome(Steps(c, ["U"]), true, depthLimit - 1, path + ["U"]);
      if Truthy(found) then (found, after) else (None, Steps(after, Directions[1..]))
  }

  /** An answer of `dfs_recursive` is given only on a solved state, extends
      the given path by at most the depth limit, and is the path itself or,
      for an object not yet closed, the path plus U, which it is exactly when
      the object is unsolved and U solves it. */
  lemma DfsOutcomeAnswers(c: Config, isClosed: bool, depthLimit: nat, path: seq<string>)
    ensures var (result, after) := DfsOutcome(c, isClosed, depthLimit, path);
      result.Some? ==>
        after.solved && path <= result.value && |result.value| <= |path| + depthLimit &&
        (result.value == path || (!isClosed && result.value == path + ["U"]))
    ensures !isClosed && !c.solved && depthLimit > 0 ==>
      (DfsOutcome(c, isClosed, depthLimit, path).0 == Some(path + ["U"]) <==> Steps(c, ["U"]).solved)
  {
  }

  /** The state of an unsolved object after the first `k` passes of the
      direction loop of `dfs_recursive`, when no pass has answered: the first
      `k` moves if the object was closed on entry; otherwise the state the
      recursive call after U left, then the directions after U up to `k`. */
  ghost function DfsPass(c: Config, isClosed: bool, depthLimit: nat, path: seq<string>, k: nat): Config
    requires 0 < depthLimit && k <= |Directions|
  {
    if k == 0 then c
    else if isClosed then Steps(c, Directions[..k])
    else Steps(DfsOutcome(Steps(c, ["U"]), true, depthLimit - 1, path + ["U"]).1, Directions[1..k])
  }

  /** Direction `k` after directions 1 to `k - 1`: one more `Step`. */
  lemma StepsAfterFirst(c: Config, k: nat)
    requires WellFormed(c) && 1 <= k < |Directions|
    ensures MovePre(Steps(c, Directions[1..k]), Directions[k])
    ensures Steps(c, Directions[1..k + 1]) == Step(Steps(c, Directions[1..k]), Directions[k])
  {
    assert Directions[1..k + 1] == Directions[1..k] + [Directions[k]];
    StepsSnoc(c, Directions[1..k], Directions[k]);
  }

  /** Pass `k` makes one move on the state the earlier passes reached; on an
      object not closed on entry, the first pass is U followed by the
      recursive call, and the state it leaves is the state after one pass. */
  lemma DfsPassStep(c: Config, isClosed: bool, depthLimit: nat, path: seq<string>, k: nat)
    requires WellFormed(c) && depthLimit > 0 && k < |Directions|
    ensures MovePre(DfsPass(c, isClosed, depthLimit, path, k), Directions[k])
    ensures isClosed || k > 0 ==>
      DfsPass(c, isClosed, depthLimit, path, k + 1) == Step(DfsPass(c, isClosed, depthLimit, path, k), Directions[k])
    ensures !isClosed && k == 0 ==>
      Step(c, "U") == Steps(c, ["U"]) &&
      DfsPass(c, false, depthLimit, path, 1) == DfsOutcome(Steps(c, ["U"]), true, depthLimit - 1, path + ["U"]).1
  {
    if isClosed {
      StepsPrefix(c, Directions, k);
    } else if k == 0 {
      assert Directions[..1] == ["U"];
      assert Directions[1..1] == [];
      StepsPrefix(c, Directions, 0);
    } else {
      StepsWellFormed(c, ["U"]);
      DfsOutcomeWellFormed(Steps(c, ["U"]), true, depthLimit - 1, path + ["U"]);
      StepsAfterFirst(DfsOutcome(Steps(c, ["U"]), true, depthLimit - 1, path + ["U"]).1, k);
    }
  }

  /** Every state the direction loop passes through is well formed. */
  lemma DfsPassWellFormed(c: Config, isClosed: bool, depthLimit: nat, path: seq<string>, k: nat)
    requires WellFormed(c) && depthLimit > 0 && k <= |Directions|
    ensures WellFormed(DfsPass(c, isClosed, depthLimit, path, k))
  {
    if k > 0 {
      if isClosed {
        StepsWellFormed(c, Directions[..k]);
      } else {
        StepsWellFormed(c, ["U"]);
        DfsOutcomeWellFormed(Steps(c, ["U"]), true, depthLimit - 1, path + ["U"]);
        StepsWellFormed(DfsOutcome(Steps(c, ["U"]), true, depthLimit - 1, path + ["U"]).1, Directions[1..k]);
      }
    }
  }

  /** After all four passes without an answer, the object is in the state
      `DfsOutcome` gives. */
  lemma DfsPassComplete(c: Config, isClosed: bool, depthLimit: nat, path: seq<string>)
    requires !c.solved && depthLimit > 0
    requires !isClosed ==> !Truthy(DfsOutcome(Steps(c, ["U"]), true, depthLimit - 1, path + ["U"]).0)
    ensures DfsOutcome(c, isClosed, depthLimit, path) == (None, DfsPass(c, isClosed, depthLimit, path, |Directions|))
  {
    assert Directions[..|Directions|] == Directions;
    assert Directions[1..|Directions|] == Directions[1..];
  }

  /** Iterative deepening from limit `depthLimit` on, on an object no closed
      set holds yet: the first truthy answer and the state the object is left
      in. */
  ghost function Deepen(c: Config, depthLimit: nat): (Option<seq<string>>, Config)
    decreases MaxDepth + 1 - depthLimit
  {
    if depthLimit > MaxDepth then (None, c)
    else
      var (found, after) := DfsOutcome(c, false, depthLimit, []);
      if Truthy(found) then (found, after) else Deepen(after, depthLimit + 1)
  }

  /** One limit of iterative deepening: a truthy answer ends it with `["U"]`,
      anything else moves on to the next limit from the state left behind. */
  lemma DeepenStep(c: Config, depthLimit: nat, found: Option<seq<string>>, after: Config)
    requires depthLimit <= MaxDepth
    requires (found, after) == DfsOutcome(c, false, depthLimit, [])
    ensures Truthy(found) ==> found == Some(["U"]) && Deepen(c, depthLimit) == (found, after)
    ensures !Truthy(found) ==> Deepen(c, depthLimit) == Deepen(after, depthLimit + 1)
  {
    DfsOutcomeAnswers(c, false, depthLimit, []);
    assert [] + ["U"] == ["U"];
  }

  /** `dfs_recursive` leaves a well-formed state well formed. */
  lemma {:induction false} DfsOutcomeWellFormed(c: Config, isClosed: bool, depthLimit: nat, path: seq<string>)
    requires WellFormed(c)
    ensures WellFormed(DfsOutcome(c, isClosed, depthLimit, path).1)
    decreases depthLimit
  {
    if !c.solved && depthLimit > 0 {
      if isClosed {
        StepsWellFormed(c, Directions);
      } else {
        StepsWellFormed(c, ["U"]);
        DfsOutcomeWellFormed(Steps(c, ["U"]), true, depthLimit - 1, path + ["U"]);
        StepsWellFormed(DfsOutcome(Steps(c, ["U"]), true, depthLimit - 1, path + ["U"]).1, Directions[1..]);
      }
    }
  }

  /** The state iterative deepening from `start` reaches when limit
      `depthLimit` begins, provided the limits before it did not answer. */
  ghost function LimitStart(start: Config, depthLimit: nat): Config
    decreases depthLimit
  {
    if depthLimit <= 1 then start
    else DfsOutcome(LimitStart(start, depthLimit - 1), false, depthLimit - 1, []).1
  }

  /** No limit before `depthLimit` gave a truthy answer. */
  ghost predicate NoAnswerBelow(start: Config, depthLimit: nat)
  {
    forall l :: 1 <= l < depthLimit ==> !Truthy(DfsOutcome(LimitStart(start, l), false, l, []).0)
  }

  /** Every limit starts from a well-formed state. */
  lemma {:induction false} LimitStartWellFormed(start: Config, depthLimit: nat)
    requires WellFormed(start)
    ensures WellFormed(LimitStart(start, depthLimit))
    decreases depthLimit
  {
    if depthLimit > 1 {
      LimitStartWellFormed(start, depthLimit - 1);
      DfsOutcomeWellFormed(LimitStart(start, depthLimit - 1), false, depthLimit - 1, []);
    }
  }

  /** When no earlier limit answered, iterative deepening from `start` ends
      as it does when resumed at limit `depthLimit`. */
  lemma {:induction false} ResumeDeepen(start: Config, depthLimit: nat)
    requires 1 <= depthLimit <= MaxDepth + 1 && NoAnswerBelow(start, depthLimit)
    ensures Deepen(start, 1) == Deepen(LimitStart(start, depthLimit), depthLimit)
    decreases depthLimit
  {
    if depthLimit > 1 {
      var l := depthLimit - 1;
      var (found, after) := DfsOutcome(LimitStart(start, l), false, l, []);
      assert !Truthy(found);
      DeepenStep(LimitStart(start, l), l, found, after);
      ResumeDeepen(start, l);
    }
  }

  /** When no limit up to the last one answered, iterative deepening answers
      nothing and leaves the state the last limit left, which is well
      formed. */
  lemma DeepenExhausted(start: Config)
    requires NoAnswerBelow(start, MaxDepth + 1)
    ensures Deepen(start, 1) == (None, LimitStart(start, MaxDepth + 1))
  {
    ResumeDeepen(start, MaxDepth + 1);
  }

  /** Iterative deepening leaves a well-formed state well formed. */
  lemma {:induction false} DeepenWellFormed(c: Config, depthLimit: nat)
    requires WellFormed(c)
    ensures WellFormed(Deepen(c, depthLimit).1)
    decreases MaxDepth + 1 - depthLimit
  {
    if depthLimit <= MaxDepth {
      DfsOutcomeWellFormed(c, false, depthLimit, []);
      DeepenWellFormed(DfsOutcome(c, false, depthLimit, []).1, depthLimit + 1);
    }
  }

  /** What one limit's answer means for iterative deepening from `start`: a
      truthy answer is `["U"]` and is its answer, anything else hands on to
      the next limit. */
  lemma LimitAnswered(start: Config, depthLimit: nat, found: Option<seq<string>>, after: Config)
    requires 1 <= depthLimit <= MaxDepth && NoAnswerBelow(start, depthLimit)
    requires (found, after) == DfsOutcome(LimitStart(start, depthLimit), false, depthLimit, [])
    ensures Truthy(found) ==> found == Some(["U"]) && (found, after) == Deepen(start, 1)
    ensures !Truthy(found) ==> after == LimitStart(start, depthLimit + 1) && NoAnswerBelow(start, depthLimit + 1)
  {
    ResumeDeepen(start, depthLimit);
    DeepenStep(LimitStart(start, depthLimit), depthLimit, found, after);
  }

  /** Iterative deepening answers nothing or `["U"]`, and `["U"]` only on a
      solved state; a solved state gives nothing and is left as it is; an
      unsolved state that U solves gives `["U"]` at the first limit tried. */
  lemma {:induction false} DeepenAnswers(c: Config, depthLimit: nat)
    ensures Deepen(c, depthLimit).0 == None || Deepen(c, depthLimit).0 == Some(["U"])
    ensures Deepen(c, depthLimit).0.Some? ==> Deepen(c, depthLimit).1.solved
    ensures c.solved ==> Deepen(c, depthLimit) == (None, c)
    ensures 1 <= depthLimit <= MaxDepth && !c.solved && Steps(c, ["U"]).solved ==>
      Deepen(c, depthLimit) == (Some(["U"]), Steps(c, ["U"]))
    decreases MaxDepth + 1 - depthLimit
  {
    if depthLimit <= MaxDepth {
      var (found, after) := DfsOutcome(c, false, depthLimit, []);
      DeepenStep(c, depthLimit, found, after);
      DfsOutcomeAnswers(c, false, depthLimit, []);
      if !Truthy(found) {
        DeepenAnswers(after, depthLimit + 1);
      }
    }
  }

  class Solver {
    const initialState: GameState
    const strategy: string
    var solution: Option<seq<string>>
    var expandedStates: int
    var generatedStates: int
    var movesToGoal: int

    constructor (initialState: GameState, strategy: string)
      ensures this.initialState == initialState && this.strategy == strategy
      ensures solution == None && expandedStates == 0 && generatedStates == 0 && movesToGoal == 0
    {
      this.initialState := initialState;
      this.strategy := strategy;
      solution := None;
      expandedStates := 0;
      generatedStates := 0;
      movesToGoal := 0;
    }

    /** `solve`: run the search the strategy names and record its result. */
    method Solve() returns (outcome: Outcome)
      requires strategy in {"bfs", "dfs", "astar", "ucs"} ==> WellFormed(initialState.View())
      requires strategy == "astar" ==> HeuristicDefined(initialState.boxes, initialState.targets)
      modifies this`solution, this`movesToGoal, initialState
      ensures strategy in {"bfs", "astar", "ucs"} ==>
        outcome == Completed &&
        solution == if old(initialState.View()).solved then Some([]) else None
      ensures strategy in {"bfs", "astar"} ==>
        if old(initialState.View()).solved then
          movesToGoal == 0 && initialState.View() == old(initialState.View())
        else
          movesToGoal == old(movesToGoal) &&
          initialState.View() == Steps(old(initialState.View()), Directions)
      ensures strategy == "ucs" ==>
        movesToGoal == old(movesToGoal) &&
        initialState.View() ==
          if old(initialState.View()).solved then old(initialState.View())
          else Steps(old(initialState.View()), NeutralBefore(Directions))
      ensures strategy == "dfs" ==>
        outcome == Completed &&
        (solution, initialState.View()) == Deepen(old(initialState.View()), 1) &&
        movesToGoal == (if solution.Some? then 1 else old(movesToGoal))
      ensures strategy == "dfs" ==>
        (solution == None || solution == Some(["U"])) &&
        (old(initialState.View()).solved ==>
          solution == None && initialState.View() == old(initialState.View())) &&
        (!old(initialState.View()).solved && Steps(old(initialState.View()), ["U"]).solved ==>
          solution == Some(["U"]))
      ensures strategy == "custom" ==>
        outcome == Completed && solution == Some(["L", "L"]) &&
        movesToGoal == old(movesToGoal) && initialState.View() == old(initialState.View())
      ensures strategy == "greedy" ==> outcome == MissingMethod
      ensures strategy !in {"bfs", "dfs", "astar", "ucs", "custom"} ==>
        outcome != Completed && solution == old(solution) && movesToGoal == old(movesToGoal) &&
        initialState.View() == old(initialState.View())
      ensures strategy !in {"bfs", "dfs", "astar", "ucs", "custom", "greedy"} ==> outcome == InvalidStrategy
    {
      if strategy == "bfs" {
        solution := Bfs();
      } else if strategy == "dfs" {
        DeepenAnswers(initialState.View(), 1);
        solution := Dfs();
      } else if strategy == "astar" {
        solution := Astar();
      } else if strategy == "ucs" {
        solution := Ucs();
      } else if strategy == "greedy" {
        return MissingMethod;
      } else if strategy == "custom" {
        solution := Some(Custom());
      } else {
        return InvalidStrategy;
      }
      return Completed;
    }

    /** `bfs`: a FIFO queue of (state, path) pairs and a closed set of
        states. The initial state is tested and, if unsolved, closed and
        expanded; its successors are itself, already closed, so the queue runs
        dry and the search gives up after four moves of that one object. */
    method Bfs() returns (result: Option<seq<string>>)
      requires WellFormed(initialState.View())
      modifies this`movesToGoal, initialState
      ensures result == if old(initialState.View()).solved then Some([]) else None
      ensures result.Some? ==>
        initialState.View() == old(initialState.View()) && initialState.View().solved &&
        movesToGoal == |result.value|
      ensures result.None? ==>
        initialState.View() == Steps(old(initialState.View()), Directions) &&
        movesToGoal == old(movesToGoal)
    {
      var openQueue: seq<(GameState, seq<string>)> := [(initialState, [])];
      var closedSet: set<GameState> := {};
      ghost var start := initialState.View();
      while openQueue != []
        invariant forall k :: 0 <= k < |openQueue| ==> openQueue[k].0 == initialState
        invariant closedSet <= {initialState}
        invariant initialState !in closedSet ==>
          openQueue == [(initialState, [])] && initialState.View() == start
        invariant initialState in closedSet ==>
          openQueue == [] && !start.solved && initialState.View() == Steps(start, Directions)
        invariant movesToGoal == old(movesToGoal)
        decreases |openQueue|
      {
        var current, path := openQueue[0].0, openQueue[0].1;
        openQueue := openQueue[1..];
        if Solved(current.grid, current.targets) {
          movesToGoal := |path|;
          return Some(path);
        }
        if current !in closedSet {
          closedSet := closedSet + {current};
          openQueue := ExpandBfs(current, path, closedSet, openQueue);
        }
      }
      return None;
    }

    /** `dfs`: iterative deepening with limits 1 to 100, each with a fresh
        closed set, returning the first truthy result. An empty path is not
        truthy, so an initial state that is already solved gives None. */
    method Dfs() returns (result: Option<seq<string>>)
      requires WellFormed(initialState.View())
      modifies this`movesToGoal, initialState
      ensures (result, initialState.View()) == Deepen(old(initialState.View()), 1)
      ensures result.Some? ==> movesToGoal == 1
      ensures result.None? ==> movesToGoal == old(movesToGoal)
    {
      ghost var start := initialState.View();
      var maxDepth := MaxDepth;
      for depthLimit := 1 to maxDepth + 1
        invariant initialState.View() == LimitStart(start, depthLimit)
        invariant NoAnswerBelow(start, depthLimit)
        invariant movesToGoal == old(movesToGoal)
      {
        var found := SearchToLimit(depthLimit, start);
        if Truthy(found) {
          movesToGoal := |found.value|;
          return found;
        }
      }
      DeepenExhausted(start);
      return None;
    }

    /** One limit of `dfs`: a fresh closed set and a depth-limited search from
        the initial state. A truthy answer is `["U"]` and is the answer of
        iterative deepening; otherwise the next limit begins. */
    method SearchToLimit(depthLimit: nat, ghost start: Config) returns (found: Option<seq<string>>)
      requires 1 <= depthLimit <= MaxDepth && WellFormed(start)
      requires initialState.View() == LimitStart(start, depthLimit)
      requires NoAnswerBelow(start, depthLimit)
      modifies initialState
      ensures Truthy(found) ==> found == Some(["U"]) && (found, initialState.View()) == Deepen(start, 1)
      ensures !Truthy(found) ==>
        initialState.View() == LimitStart(start, depthLimit + 1) && NoAnswerBelow(start, depthLimit + 1)
    {
      LimitStartWellFormed(start, depthLimit);
      var closedSet: set<GameState> := {};
      var closedAfter;
      found, closedAfter := DfsRecursive(initialState, [], depthLimit, closedSet);
      LimitAnswered(start, depthLimit, found, initialState.View());
    }

    /** `dfs_recursive`: return the path if the state is solved, give up at
        depth 0, and otherwise try each direction whose successor is not yet
        closed, closing it before recursing. The successor is the state
        itself, so only the first direction gets past the closed set, and
        only when the state was not closed on entry. */
    method DfsRecursive(state: GameState, path: seq<string>, depthLimit: nat, closed: set<GameState>)
      returns (result: Option<seq<string>>, closedAfter: set<GameState>)
      requires WellFormed(state.View())
      modifies state
      ensures (result, state.View()) == DfsOutcome(old(state.View()), state in closed, depthLimit, path)
      ensures closedAfter == if !old(state.View()).solved && depthLimit > 0 then closed + {state} else closed
      decreases depthLimit, 1
    {
      if Solved(state.grid, state.targets) {
        return Some(path), closed;
      }
      if depthLimit == 0 {
        return None, closed;
      }
      ghost var start := state.View();
      ghost var isClosed := state in closed;
      ghost var first := DfsOutcome(Steps(start, ["U"]), true, depthLimit - 1, path + ["U"]);
      closedAfter := closed;
      for k := 0 to |Directions|
        invariant closedAfter == closed + if k == 0 then {} else {state}
        invariant state.View() == DfsPass(start, isClosed, depthLimit, path, k)
        invariant !isClosed && k > 0 ==> !Truthy(first.0)
      {
        var found;
        found, closedAfter := VisitDfs(state, path, depthLimit, k, closedAfter, start, isClosed);
        if Truthy(found) {
          return found, closedAfter;
        }
      }
      DfsPassComplete(start, isClosed, depthLimit, path);
      return None, closedAfter;
    }

    /** Pass `k` of the direction loop of `dfs_recursive`: move, and if the
        successor is not closed, close it and recurse one level deeper. Since
        the successor is the object itself, only the first pass on an object
        not closed on entry recurses; every other pass is one move. */
    method VisitDfs(state: GameState, path: seq<string>, depthLimit: nat, k: nat,
                    closedBefore: set<GameState>, ghost start: Config, ghost isClosed: bool)
      returns (found: Option<seq<string>>, closedAfter: set<GameState>)
      requires WellFormed(start) && depthLimit > 0 && k < |Directions|
      requires state.View() == DfsPass(start, isClosed, depthLimit, path, k)
      requires (state in closedBefore) == (isClosed || k > 0)
      modifies state
      ensures closedAfter == closedBefore + {state}
      ensures isClosed || k > 0 ==>
        found == None && state.View() == DfsPass(start, isClosed, depthLimit, path, k + 1)
      ensures !isClosed && k == 0 ==>
        (found, state.View()) == DfsOutcome(Steps(start, ["U"]), true, depthLimit - 1, path + ["U"]) &&
        state.View() == DfsPass(start, isClosed, depthLimit, path, 1)
      decreases depthLimit, 0
    {
      var direction := Directions[k];
      DfsPassWellFormed(start, isClosed, depthLimit, path, k);
      StepPreservesWellFormed(state.View(), direction);
      DfsPassStep(start, isClosed, depthLimit, path, k);
      var next := state.Move(direction);
      closedAfter := closedBefore;
      found := None;
      if next !in closedAfter {
        closedAfter := closedAfter + {next};
        found, closedAfter := DfsRecursive(next, path + [direction], depthLimit - 1, closedAfter);
      }
    }

    /** `astar`: a heap keyed by the heuristic alone, not by the total cost.
        As with `bfs`, the only state ever expanded is the initial one. */
    method Astar() returns (result: Option<seq<string>>)
      requires WellFormed(initialState.View())
      requires HeuristicDefined(initialState.boxes, initialState.targets)
      modifies this`movesToGoal, initialState
      ensures result == if old(initialState.View()).solved then Some([]) else None
      ensures result.Some? ==>
        initialState.View() == old(initialState.View()) && initialState.View().solved &&
        movesToGoal == |result.value|
      ensures result.None? ==>
        initialState.View() == Steps(old(initialState.View()), Directions) &&
        movesToGoal == old(movesToGoal)
    {
      var heuristic := initialState.GetHeuristic();
      var openList := [HeapEntry(heuristic, initialState, [])];
      var closedSet: set<GameState> := {};
      ghost var start := initialState.View();
      while openList != []
        invariant forall e :: e in openList ==> e.state == initialState
        invariant closedSet <= {initialState}
        invariant initialState !in closedSet ==>
          openList == [HeapEntry(heuristic, initialState, [])] && initialState.View() == start
        invariant initialState in closedSet ==>
          openList == [] && !start.solved && initialState.View() == Steps(start, Directions)
        invariant movesToGoal == old(movesToGoal)
        decreases |openList|
      {
        var top;
        top, openList := PopMin(openList);
        var current, path := top.state, top.path;
        if Solved(current.grid, current.targets) {
          movesToGoal := |path|;
          return Some(path);
        }
        if current !in closedSet {
          closedSet := closedSet + {current};
          openList := ExpandAstar(current, path, closedSet, openList);
        }
      }
      return None;
    }

    /** `ucs`: a heap keyed by the cost so far. Each successor is made with a
        neutral move followed by the direction, on the same object, which is
        already closed; `moves_to_goal` is never set. */
    method Ucs() returns (result: Option<seq<string>>)
      requires WellFormed(initialState.View())
      modifies initialState
      ensures result == if old(initialState.View()).solved then Some([]) else None
      ensures result.Some? ==> initialState.View() == old(initialState.View())
      ensures result.None? ==> initialState.View() == Steps(old(initialState.View()), NeutralBefore(Directions))
    {
      var openList := [HeapEntry(initialState.GetCurrentCost(), initialState, [])];
      var closedSet: set<GameState> := {};
      ghost var start := initialState.View();
      while openList != []
        invariant forall e :: e in openList ==> e.state == initialState
        invariant closedSet <= {initialState}
        invariant initialState !in closedSet ==>
          openList == [HeapEntry(start.cost, initialState, [])] && initialState.View() == start
        invariant initialState in closedSet ==>
          openList == [] && !start.solved && initialState.View() == Steps(start, NeutralBefore(Directions))
        decreases |openList|
      {
        var top;
        top, openList := PopMin(openList);
        var current, path := top.state, top.path;
        if Solved(current.grid, current.targets) {
          return Some(path);
        }
        if current !in closedSet {
          closedSet := closedSet + {current};
          openList := ExpandUcs(current, path, closedSet, openList);
        }
      }
      return None;
    }

    /** `custom`: a fixed answer of two moves to the left, not a search. */
    function Custom(): (path: seq<string>)
      ensures |path| == 2 && forall d | d in path :: d in Directions && d == "L"
    {
      ["L", "L"]
    }

    /** `get_solution`: the answer the last `solve` recorded, if any. */
    function GetSolution(): (recorded: Option<seq<string>>)
      reads this
      ensures recorded == solution
    {
      solution
    }
  }
}
