/** What a finished search leaves in the cache for the values that were not queried: when those entries
    are complete, a condition under which they are, and an input on which they are not. */
module SearchEntries {
  import opened TwoPhaseSearch

  // ------------------------------------------------------------------ runs

  /** One iteration; an ended search stays where it is. */
  function Advance(g: Graph, s: Search): Search
    requires ValidGraph(g)
  {
    if s.stack == [] || s.stack[|s.stack| - 1].0 >= |g.succ| then s else Step(g, s)
  }

  /** The state after n iterations. */
  function After(g: Graph, c0: Cache, root: nat, n: nat): Search
    requires ValidGraph(g)
  {
    if n == 0 then Start(root, c0) else Advance(g, After(g, c0, root, n - 1))
  }

  ghost predicate Queried(g: Graph, c0: Cache, root: nat) {
    ValidGraph(g) && root < |g.succ| && root !in c0
  }

  lemma AdvanceInv(g: Graph, c0: Cache, root: nat, s: Search, t: Tree) returns (t': Tree)
    requires ValidGraph(g) && Inv(g, c0, root, s, t)
    ensures Inv(g, c0, root, Advance(g, s), t')
  {
    t' := t;
    if s.stack != [] {
      t' := Iteration(g, c0, root, s, t);
    }
  }

  lemma AfterInv(g: Graph, c0: Cache, root: nat, n: nat) returns (t: Tree)
    requires Queried(g, c0, root)
    ensures Inv(g, c0, root, After(g, c0, root, n), t)
  {
    t := Tree(map[], map[], 0);
    StartInv(g, c0, root);
    for k := 0 to n
      invariant Inv(g, c0, root, After(g, c0, root, k), t)
    {
      t := AdvanceInv(g, c0, root, After(g, c0, root, k), t);
    }
  }

  /** One more iteration of a search that has not ended. */
  lemma AfterStep(g: Graph, c0: Cache, root: nat, n: nat)
    requires Queried(g, c0, root) && After(g, c0, root, n).stack != []
    ensures var s := After(g, c0, root, n);
            var x := s.stack[|s.stack| - 1];
            && x in Universe(g) && x.0 !in c0 && (x !in s.visited && x.1 ==> x.0 !in s.cache)
            && After(g, c0, root, n + 1) == Step(g, s)
            && (if x in s.visited then Step(g, s).visited == s.visited && |Step(g, s).stack| < |s.stack|
                else Step(g, s).visited == s.visited + {x})
  {
    var t := AfterInv(g, c0, root, n);
    var t' := Iteration(g, c0, root, After(g, c0, root, n), t);
  }

  /** Every search ends. */
  lemma {:induction false} RunEnds(g: Graph, c0: Cache, root: nat, n: nat) returns (m: nat)
    requires Queried(g, c0, root)
    ensures After(g, c0, root, m).stack == []
    decreases Universe(g) - After(g, c0, root, n).visited, |After(g, c0, root, n).stack|
  {
    if After(g, c0, root, n).stack == [] {
      m := n;
    } else {
      AfterStep(g, c0, root, n);
      m := RunEnds(g, c0, root, n + 1);
    }
  }

  lemma EndStays(g: Graph, c0: Cache, root: nat, n: nat, m: nat)
    requires ValidGraph(g) && n <= m && After(g, c0, root, n).stack == []
    ensures After(g, c0, root, m) == After(g, c0, root, n)
  {
    for k := n to m
      invariant After(g, c0, root, k) == After(g, c0, root, n)
    {
    }
  }

  ghost predicate Holds(s: Search, u: nat, answer: set<nat>) { u in s.cache && s.cache[u] == answer }

  lemma EntryKept(g: Graph, c0: Cache, root: nat, n: nat, u: nat, answer: set<nat>)
    requires Queried(g, c0, root) && Holds(After(g, c0, root, n), u, answer)
    ensures Holds(After(g, c0, root, n + 1), u, answer)
  {
    if After(g, c0, root, n).stack != [] {
      AfterStep(g, c0, root, n);
    }
  }

  /** Entries are made once. */
  lemma EntryStays(g: Graph, c0: Cache, root: nat, n: nat, m: nat, u: nat, answer: set<nat>)
    requires Queried(g, c0, root) && n <= m && Holds(After(g, c0, root, n), u, answer)
    ensures Holds(After(g, c0, root, m), u, answer)
  {
    for k := n to m
      invariant Holds(After(g, c0, root, k), u, answer)
    {
      EntryKept(g, c0, root, k, u, answer);
    }
  }

  /** The cache after a query, answered from the cache or by a search. */
  ghost predicate Answered(g: Graph, c0: Cache, v: nat, cache: Cache)
    requires ValidGraph(g)
  {
    if v in c0 then cache == c0
    else exists n :: After(g, c0, v, n).stack == [] && cache == After(g, c0, v, n).cache
  }

  /** A query has one outcome. */
  lemma AnsweredIsUnique(g: Graph, c0: Cache, v: nat, n: nat, cache: Cache)
    requires ValidGraph(g) && v !in c0 && After(g, c0, v, n).stack == [] && Answered(g, c0, v, cache)
    ensures cache == After(g, c0, v, n).cache
  {
    var n' :| After(g, c0, v, n').stack == [] && cache == After(g, c0, v, n').cache;
    if n <= n' {
      EndStays(g, c0, v, n, n');
    } else {
      EndStays(g, c0, v, n', n);
    }
  }

  /** `After` as a relation, for the loops. */
  ghost predicate IsAfter(g: Graph, c0: Cache, root: nat, n: nat, s: Search)
    requires ValidGraph(g)
  {
    s == After(g, c0, root, n)
  }

  lemma IsAfterNext(g: Graph, c0: Cache, root: nat, n: nat, s: Search)
    requires ValidGraph(g) && IsAfter(g, c0, root, n, s) && s.stack != [] && s.stack[|s.stack| - 1].0 < |g.succ|
    ensures IsAfter(g, c0, root, n + 1, Step(g, s))
  {
  }

  lemma EndAnswers(g: Graph, c0: Cache, root: nat, n: nat, s: Search)
    requires ValidGraph(g) && IsAfter(g, c0, root, n, s) && s.stack == [] && root !in c0
    ensures Answered(g, c0, root, s.cache)
  {
  }

  // ------------------------------------------------------------------ when all entries are exact

  /** All entries made since c0 hold the complete answers relative to it. */
  ghost predicate NewEntriesExact(g: Graph, c0: Cache, cache: Cache)
    requires ValidGraph(g)
  {
    forall u: nat, x | u in cache && u !in c0 :: x in cache[u] <==> InAnswer(g, c0, u, x)
  }

  ghost predicate SuccessorsClosed(g: Graph, c0: Cache, s: Search) {
    forall u, w | 0 <= u < |g.succ| && Closed(s, u) && w in g.succ[u] && w !in c0 && w != u :: Closed(s, w)
  }

  /** In every state of the run the searched successors of a finished value are finished. */
  ghost predicate PostOrder(g: Graph, c0: Cache, root: nat)
    requires ValidGraph(g)
  {
    forall n: nat :: SuccessorsClosed(g, c0, After(g, c0, root, n))
  }

  ghost predicate Flowed(g: Graph, c0: Cache, s: Search) {
    forall u, w | 0 <= u < |g.succ| && Closed(s, u) && u in s.cache && w in g.succ[u] && w !in c0 && w in s.cache ::
      s.cache[w] <= s.cache[u]
  }

  lemma FlowKept(g: Graph, c0: Cache, s: Search)
    requires ValidGraph(g) && SuccessorsClosed(g, c0, s) && Flowed(g, c0, s)
    ensures Flowed(g, c0, Advance(g, s))
  {
    if s.stack != [] && s.stack[|s.stack| - 1] !in s.visited && s.stack[|s.stack| - 1].1 {
      var s', x := Advance(g, s), s.stack[|s.stack| - 1];
      assert x == (x.0, true);
      forall u, w | 0 <= u < |g.succ| && Closed(s', u) && u in s'.cache && w in g.succ[u] && w !in c0 && w in s'.cache
        ensures s'.cache[w] <= s'.cache[u]
      {
        if u != x.0 {
          assert Closed(s, u) && w != x.0;
        }
      }
    }
  }

  lemma RunFlows(g: Graph, c0: Cache, root: nat, n: nat)
    requires Queried(g, c0, root) && PostOrder(g, c0, root)
    ensures Flowed(g, c0, After(g, c0, root, n))
  {
    for k := 0 to n
      invariant Flowed(g, c0, After(g, c0, root, k))
    {
      FlowKept(g, c0, After(g, c0, root, k));
    }
  }

  lemma {:induction false} FactsFlow(g: Graph, c0: Cache, root: nat, s: Search, t: Tree, p: seq<nat>, v: nat,
                                     u: nat, x: nat)
    requires ValidGraph(g) && Inv(g, c0, root, s, t) && s.stack == [] && Flowed(g, c0, s)
    requires Path(g, c0, p, v, u) && Seen(s, v) && x in Collect(g.own[u], g.succ[u], c0)
    ensures v in s.cache && x in s.cache[v]
    decreases p
  {
    FlowsToRoot(g, c0, root, s, t, v);
    assert Node(g, c0, root, s, t, v);
    if |p| > 1 {
      assert p[1] in g.succ[p[0]] && p[1] !in c0;
      FactsFlow(g, c0, root, s, t, p[1..], p[1], u, x);
    }
  }

  /** Values finished in post-order have exact entries, whatever the facts are. */
  lemma PostOrderSuffices(g: Graph, c0: Cache, root: nat, n: nat)
    requires Queried(g, c0, root) && PostOrder(g, c0, root) && After(g, c0, root, n).stack == []
    ensures NewEntriesExact(g, c0, After(g, c0, root, n).cache)
  {
    var s := After(g, c0, root, n);
    var t := AfterInv(g, c0, root, n);
    RunFlows(g, c0, root, n);
    SearchIsExact(g, c0, root, s, t);
    forall v: nat, x | v in s.cache && v !in c0 && InAnswer(g, c0, v, x) ensures x in s.cache[v] {
      assert v < |g.succ| && Node(g, c0, root, s, t, v);
      var u: nat :| Reaches(g, c0, v, u) && u < |g.succ| && x in Collect(g.own[u], g.succ[u], c0);
      var p :| Path(g, c0, p, v, u);
      FactsFlow(g, c0, root, s, t, p, v, u, x);
    }
  }

  // ------------------------------------------------------------------ the facts do not steer the search

  lemma {:induction false} PushAllByKeys(stack: seq<Item>, succ: seq<nat>, cache: Cache, cache': Cache)
    requires cache.Keys == cache'.Keys
    ensures PushAll(stack, succ, cache) == PushAll(stack, succ, cache')
  {
    if succ != [] {
      PushAllByKeys(stack, succ[..|succ| - 1], cache, cache');
      assert forall u :: u in cache <==> u in cache.Keys;
      assert forall u :: u in cache' <==> u in cache'.Keys;
    }
  }

  /** Equal up to the facts found. */
  ghost predicate SameShape(s: Search, s': Search) {
    s.stack == s'.stack && s.visited == s'.visited && s.cache.Keys == s'.cache.Keys
  }

  lemma SameAdvance(g: Graph, g': Graph, s: Search, s': Search)
    requires ValidGraph(g) && ValidGraph(g') && g.succ == g'.succ
    requires SameShape(s, s')
    ensures SameShape(Advance(g, s), Advance(g', s'))
  {
    if s.stack != [] && s.stack[|s.stack| - 1].0 < |g.succ| {
      var x, rest := s.stack[|s.stack| - 1], s.stack[..|s.stack| - 1];
      assert x.0 in s.cache <==> x.0 in s.cache.Keys;
      assert x.0 in s'.cache <==> x.0 in s'.cache.Keys;
      PushAllByKeys(if x.0 in s.cache then rest else Push(rest, (x.0, true)), g.succ[x.0], s.cache, s'.cache);
    }
  }

  lemma SameSearch(g: Graph, g': Graph, c0: Cache, root: nat, n: nat)
    requires ValidGraph(g) && ValidGraph(g') && g.succ == g'.succ
    ensures SameShape(After(g, c0, root, n), After(g', c0, root, n))
  {
    for k := 0 to n
      invariant SameShape(After(g, c0, root, k), After(g', c0, root, k))
    {
      SameAdvance(g, g', After(g, c0, root, k), After(g', c0, root, k));
    }
  }

  /** No set of facts is used up. */
  lemma {:induction false} FreshFact(facts: set<nat>) returns (x: nat)
    ensures forall y | y in facts :: y < x
  {
    if facts == {} {
      x := 0;
    } else {
      var z :| z in facts;
      x := FreshFact(facts - {z});
      x := if x <= z then z + 1 else x;
      assert forall y | y in facts :: y == z || y in facts - {z};
    }
  }

  ghost predicate Nowhere(cache: Cache, x: nat) {
    forall v: nat | v in cache :: x !in cache[v]
  }

  lemma AdvanceFindsNothing(g: Graph, s: Search, w: nat, x: nat)
    requires ValidGraph(g) && !Closed(Advance(g, s), w)
    requires forall v | 0 <= v < |g.own| && v != w :: x !in g.own[v]
    requires !Closed(s, w) ==> Nowhere(s.cache, x)
    ensures Nowhere(Advance(g, s).cache, x)
  {
    if s.stack != [] {
      var y := s.stack[|s.stack| - 1];
      assert y == (y.0, y.1);
    }
  }

  /** A fact found at w alone is in no entry before w is finished. */
  lemma {:induction false} NotYetFound(g: Graph, c0: Cache, root: nat, n: nat, w: nat, x: nat)
    requires Queried(g, c0, root) && Nowhere(c0, x)
    requires forall v | 0 <= v < |g.own| && v != w :: x !in g.own[v]
    requires !Closed(After(g, c0, root, n), w)
    ensures Nowhere(After(g, c0, root, n).cache, x)
    decreases n
  {
    if n > 0 {
      var s := After(g, c0, root, n - 1);
      if !Closed(s, w) {
        NotYetFound(g, c0, root, n - 1, w, x);
      }
      AdvanceFindsNothing(g, s, w, x);
    }
  }

  function OnlyAt(count: nat, w: nat, x: nat): seq<set<nat>> {
    seq(count, v requires 0 <= v => if v == w then {x} else {})
  }

  ghost predicate ExactWith(g: Graph, own: seq<set<nat>>, c0: Cache, root: nat, n: nat)
    requires ValidGraph(g) && |own| == |g.own|
  {
    var g' := Graph(g.succ, own);
    NewEntriesExact(g', c0, After(g', c0, root, n).cache)
  }

  lemma ClosedByShape(g: Graph, g': Graph, c0: Cache, s: Search, s': Search)
    requires g.succ == g'.succ && s.visited == s'.visited && SuccessorsClosed(g, c0, s)
    ensures SuccessorsClosed(g', c0, s')
  {
    assert forall v :: Closed(s', v) <==> Closed(s, v);
  }

  lemma PostOrderByShape(g: Graph, g': Graph, c0: Cache, root: nat)
    requires ValidGraph(g) && ValidGraph(g') && g.succ == g'.succ && PostOrder(g, c0, root)
    ensures PostOrder(g', c0, root)
  {
    forall n: nat ensures SuccessorsClosed(g', c0, After(g', c0, root, n)) {
      SameSearch(g, g', c0, root, n);
      ClosedByShape(g, g', c0, After(g, c0, root, n), After(g', c0, root, n));
    }
  }

  /** A late edge u -> w loses a fact that is found at w only. */
  lemma LateEdgeLosesFact(g: Graph, c0: Cache, root: nat, n: nat, k: nat, u: nat, w: nat) returns (own: seq<set<nat>>)
    requires Queried(g, c0, root) && After(g, c0, root, n).stack == []
    requires u < |g.succ| && w in g.succ[u] && w !in c0 && w != u
    requires Closed(After(g, c0, root, k), u) && !Closed(After(g, c0, root, k), w)
    ensures |own| == |g.own| && !ExactWith(g, own, c0, root, n)
  {
    var facts := set v, y | v in c0 && y in c0[v] :: y;
    var x := FreshFact(facts);
    own := OnlyAt(|g.own|, w, x);
    var g' := Graph(g.succ, own);
    SameSearch(g, g', c0, root, n);
    SameSearch(g, g', c0, root, k);
    var s := After(g', c0, root, k);
    var t := AfterInv(g', c0, root, k);
    assert Node(g', c0, root, s, t, u);
    forall v: nat | v in c0 ensures x !in c0[v] {
      assert forall y | y in c0[v] :: y in facts;
    }
    NotYetFound(g', c0, root, k, w, x);
    if k <= n {
      EntryStays(g', c0, root, k, n, u, s.cache[u]);
    } else {
      EndStays(g', c0, root, n, k);
    }
    OwnAnswer(g', c0, w, x);
    AnswerOfSuccessor(g', c0, u, w, x);
    assert u in After(g', c0, root, n).cache && x !in After(g', c0, root, n).cache[u];
  }

  /** MAIN RESULT on the other entries: a search leaves exact entries for all the values it went through,
      wherever the facts are, if and only if it finishes them in post-order: no edge u -> w between
      different uncached values has w finished after u. */
  lemma EntriesExactExactlyWhen(g: Graph, c0: Cache, root: nat, n: nat)
    requires Queried(g, c0, root) && After(g, c0, root, n).stack == []
    ensures (forall own: seq<set<nat>> | |own| == |g.own| :: ExactWith(g, own, c0, root, n)) <==> PostOrder(g, c0, root)
  {
    if PostOrder(g, c0, root) {
      forall own: seq<set<nat>> | |own| == |g.own| ensures ExactWith(g, own, c0, root, n) {
        var g' := Graph(g.succ, own);
        SameSearch(g, g', c0, root, n);
        PostOrderByShape(g, g', c0, root);
        PostOrderSuffices(g', c0, root, n);
      }
    } else {
      var k: nat :| !SuccessorsClosed(g, c0, After(g, c0, root, k));
      var s := After(g, c0, root, k);
      var u, w :| 0 <= u < |g.succ| && Closed(s, u) && w in g.succ[u] && w !in c0 && w != u && !Closed(s, w);
      var own := LateEdgeLosesFact(g, c0, root, n, k, u, w);
      assert !ExactWith(g, own, c0, root, n);
    }
  }

  // ------------------------------------------------------------------ a condition on the graph

  /** Below the queried value no cycle is longer than a self-loop, and no successor can be reached from
      one listed after it. Values with an answer cut all paths. */
  ghost predicate Orderly(g: Graph, c0: Cache, root: nat)
    requires ValidGraph(g)
  {
    forall u: nat | u < |g.succ| && Reaches(g, c0, root, u) :: OrderlyAt(g, c0, u)
  }

  ghost predicate OrderlyAt(g: Graph, c0: Cache, u: nat)
    requires ValidGraph(g) && u < |g.succ|
  {
    && (forall w | w in g.succ[u] && w != u && w !in c0 :: !Reaches(g, c0, w, u))
    && (forall a, b | Before(g.succ[u], a, b) && a != b && a !in c0 && b !in c0 :: !Reaches(g, c0, b, a))
  }

  /** Why an item waits below the value v on the stack: v is reachable from it once it is open, and from
      a later successor of the same value otherwise. */
  ghost predicate Under(g: Graph, c0: Cache, root: nat, low: Item, v: nat)
    requires ValidGraph(g)
  {
    if low.1 then Reaches(g, c0, low.0, v) else LaterReaches(g, c0, root, low.0, v)
  }

  ghost predicate LaterReaches(g: Graph, c0: Cache, root: nat, w: nat, v: nat)
    requires ValidGraph(g)
  {
    exists p: nat, b: nat ::
      && p < |g.succ| && Reaches(g, c0, root, p) && Before(g.succ[p], w, b)
      && b != w && w !in c0 && b !in c0 && Reaches(g, c0, b, v)
  }

  ghost predicate Stacked(g: Graph, c0: Cache, root: nat, stack: seq<Item>)
    requires ValidGraph(g)
  {
    && (forall i | 0 <= i < |stack| :: Reaches(g, c0, root, stack[i].0))
    && (forall i, j | 0 <= i < j < |stack| :: Under(g, c0, root, stack[i], stack[j].0))
  }

  lemma ReachesItself(g: Graph, c0: Cache, v: nat)
    requires ValidGraph(g) && v < |g.succ| && v !in c0
    ensures Reaches(g, c0, v, v)
  {
    assert Path(g, c0, [v], v, v);
  }

  lemma ReachesSuccessor(g: Graph, c0: Cache, a: nat, v: nat, w: nat)
    requires ValidGraph(g) && Reaches(g, c0, a, v) && v < |g.succ| && w in g.succ[v] && w !in c0
    ensures Reaches(g, c0, a, w)
  {
    var p :| Path(g, c0, p, a, v);
    assert Path(g, c0, p + [w], a, w);
  }

  lemma UnderSuccessor(g: Graph, c0: Cache, root: nat, low: Item, v: nat, w: nat)
    requires ValidGraph(g) && Under(g, c0, root, low, v) && v < |g.succ| && w in g.succ[v] && w !in c0
    ensures Under(g, c0, root, low, w)
  {
    if low.1 {
      ReachesSuccessor(g, c0, low.0, v, w);
    } else {
      var p: nat, b: nat :|
        && p < |g.succ| && Reaches(g, c0, root, p) && Before(g.succ[p], low.0, b)
        && b != low.0 && low.0 !in c0 && b !in c0 && Reaches(g, c0, b, v);
      ReachesSuccessor(g, c0, b, v, w);
    }
  }

  /** The first phase of v replaces the top of the stack. */
  ghost predicate Replaced(stack: seq<Item>, stack': seq<Item>, v: nat, pushed: seq<Item>) {
    && stack != [] && stack[|stack| - 1] == (v, false) && |stack'| == |stack| + |pushed|
    && stack'[|stack| - 1] == (v, true)
    && (forall k | 0 <= k < |stack| - 1 :: stack'[k] == stack[k])
    && (forall k | |stack| <= k < |stack'| :: stack'[k] == pushed[k - |stack|])
  }

  ghost predicate PushedBy(g: Graph, c0: Cache, v: nat, pushed: seq<Item>)
    requires v < |g.succ|
  {
    && InOrder(g.succ[v], pushed) && NoDuplicates(pushed)
    && forall k | 0 <= k < |pushed| :: !pushed[k].1 && pushed[k].0 in g.succ[v] && pushed[k].0 !in c0
  }

  lemma OpenReplaces(stack: seq<Item>, stack': seq<Item>, v: nat, pushed: seq<Item>)
    requires stack != [] && stack[|stack| - 1] == (v, false)
    requires stack' == stack[..|stack| - 1] + ([(v, true)] + pushed)
    ensures Replaced(stack, stack', v, pushed)
  {
  }

  lemma NoDuplicatesPushed(front: seq<Item>, pushed: seq<Item>)
    requires NoDuplicates(front + pushed)
    ensures NoDuplicates(pushed)
  {
    forall i, j | 0 <= i < j < |pushed| ensures pushed[i] != pushed[j] {
      assert (front + pushed)[|front| + i] == pushed[i] && (front + pushed)[|front| + j] == pushed[j];
    }
  }

  lemma OpenedReplaces(g: Graph, c0: Cache, s: Search, s': Search, v: nat, pushed: seq<Item>)
    requires s.stack != [] && v < |g.succ| && Opened(g, s, s', v, pushed) && InOrder(g.succ[v], pushed)
    requires forall w | w in c0 :: w in s.cache
    ensures Replaced(s.stack, s'.stack, v, pushed) && PushedBy(g, c0, v, pushed)
  {
    var front := s.stack[..|s.stack| - 1] + [(v, true)];
    assert s'.stack == front + pushed;
    NoDuplicatesPushed(front, pushed);
    OpenReplaces(s.stack, s'.stack, v, pushed);
  }

  lemma OldUnder(g: Graph, c0: Cache, root: nat, stack: seq<Item>, v: nat, pushed: seq<Item>, i: nat, k: nat)
    requires ValidGraph(g) && v < |g.succ| && PushedBy(g, c0, v, pushed) && Stacked(g, c0, root, stack)
    requires i < |stack| - 1 && stack[|stack| - 1] == (v, false)
    ensures Under(g, c0, root, stack[i], v)
    ensures k < |pushed| ==> Under(g, c0, root, stack[i], pushed[k].0)
  {
    assert Under(g, c0, root, stack[i], stack[|stack| - 1].0);
    if k < |pushed| {
      UnderSuccessor(g, c0, root, stack[i], v, pushed[k].0);
    }
  }

  lemma NewUnder(g: Graph, c0: Cache, root: nat, v: nat, pushed: seq<Item>, i: nat, j: nat)
    requires ValidGraph(g) && v < |g.succ| && v !in c0 && PushedBy(g, c0, v, pushed) && Reaches(g, c0, root, v)
    requires j < |pushed|
    ensures Under(g, c0, root, (v, true), pushed[j].0)
    ensures i < j ==> Under(g, c0, root, pushed[i], pushed[j].0)
  {
    ReachesItself(g, c0, v);
    UnderSuccessor(g, c0, root, (v, true), v, pushed[j].0);
    if i < j {
      ReachesItself(g, c0, pushed[j].0);
      assert Before(g.succ[v], pushed[i].0, pushed[j].0);
      assert pushed[i] == (pushed[i].0, false) && pushed[j] == (pushed[j].0, false);
    }
  }

  lemma ReplacedUnder(
      g: Graph, c0: Cache, root: nat, stack: seq<Item>, stack': seq<Item>, v: nat, pushed: seq<Item>, i: nat, j: nat)
    requires ValidGraph(g) && v < |g.succ| && v !in c0 && PushedBy(g, c0, v, pushed)
    requires Replaced(stack, stack', v, pushed) && Stacked(g, c0, root, stack) && i < j < |stack'|
    ensures Under(g, c0, root, stack'[i], stack'[j].0)
  {
    var n := |stack|;
    if i < n - 1 {
      OldUnder(g, c0, root, stack, v, pushed, i, if j < n then 0 else j - n);
      assert j < n - 1 ==> Under(g, c0, root, stack[i], stack[j].0);
    } else {
      assert Reaches(g, c0, root, stack[n - 1].0);
      NewUnder(g, c0, root, v, pushed, if i < n then 0 else i - n, j - n);
    }
  }

  lemma ReplacedReached(
      g: Graph, c0: Cache, root: nat, stack: seq<Item>, stack': seq<Item>, v: nat, pushed: seq<Item>, k: nat)
    requires ValidGraph(g) && v < |g.succ| && v !in c0 && PushedBy(g, c0, v, pushed)
    requires Replaced(stack, stack', v, pushed) && Stacked(g, c0, root, stack) && k < |stack'|
    ensures Reaches(g, c0, root, stack'[k].0)
  {
    assert Reaches(g, c0, root, stack[|stack| - 1].0);
    if k >= |stack| {
      ReachesSuccessor(g, c0, root, v, pushed[k - |stack|].0);
    }
  }

  /** The first phase of v keeps the stack in order. */
  lemma OpenKeepsStacked(g: Graph, c0: Cache, root: nat, stack: seq<Item>, stack': seq<Item>, v: nat, pushed: seq<Item>)
    requires ValidGraph(g) && v < |g.succ| && v !in c0 && PushedBy(g, c0, v, pushed)
    requires Replaced(stack, stack', v, pushed) && Stacked(g, c0, root, stack)
    ensures Stacked(g, c0, root, stack')
  {
    forall k | 0 <= k < |stack'| ensures Reaches(g, c0, root, stack'[k].0) {
      ReplacedReached(g, c0, root, stack, stack', v, pushed, k);
    }
    forall i, j | 0 <= i < j < |stack'| ensures Under(g, c0, root, stack'[i], stack'[j].0) {
      ReplacedUnder(g, c0, root, stack, stack', v, pushed, i, j);
    }
  }

  lemma AdvanceKeepsStacked(g: Graph, c0: Cache, root: nat, s: Search, t: Tree)
    requires ValidGraph(g) && Inv(g, c0, root, s, t) && Stacked(g, c0, root, s.stack)
    ensures Stacked(g, c0, root, Advance(g, s).stack)
  {
    if s.stack != [] && s.stack[|s.stack| - 1] !in s.visited && !s.stack[|s.stack| - 1].1 {
      var v, pushed := OpenStack(g, c0, root, s, t);
      OpenedReplaces(g, c0, s, Step(g, s), v, pushed);
      OpenKeepsStacked(g, c0, root, s.stack, Step(g, s).stack, v, pushed);
    }
  }

  lemma NotReachedLater(g: Graph, c0: Cache, root: nat, v: nat, w: nat)
    requires ValidGraph(g) && Orderly(g, c0, root) && v < |g.succ| && w in g.succ[v] && w !in c0
    ensures !LaterReaches(g, c0, root, w, v)
  {
    forall p: nat, b: nat |
      p < |g.succ| && Reaches(g, c0, root, p) && Before(g.succ[p], w, b) && b != w && b !in c0
      ensures !Reaches(g, c0, b, v)
    {
      assert OrderlyAt(g, c0, p);
      if Reaches(g, c0, b, v) {
        ReachesSuccessor(g, c0, b, v, w);
      }
    }
  }

  lemma SuccessorKnown(g: Graph, c0: Cache, root: nat, s: Search, t: Tree, v: nat, w: nat)
    requires ValidGraph(g) && Inv(g, c0, root, s, t) && v < |g.succ| && Open(s, v) && w in g.succ[v] && w !in c0
    ensures NodePhase(c0, s, w) && (Seen(s, w) || Waiting(s, w))
  {
    assert Node(g, c0, root, s, t, v) && Node(g, c0, root, s, t, w);
  }

  lemma NotStackedAgain(g: Graph, c0: Cache, root: nat, stack: seq<Item>, v: nat, w: nat)
    requires ValidGraph(g) && Stacked(g, c0, root, stack) && Orderly(g, c0, root)
    requires stack != [] && stack[|stack| - 1] == (v, true)
    requires v < |g.succ| && w in g.succ[v] && w !in c0 && w != v
    ensures forall i | 0 <= i < |stack| :: stack[i].0 != w
  {
    var top := |stack| - 1;
    assert Reaches(g, c0, root, stack[top].0);
    assert OrderlyAt(g, c0, v);
    NotReachedLater(g, c0, root, v, w);
    forall i | 0 <= i < top ensures stack[i].0 != w {
      assert Under(g, c0, root, stack[i], stack[top].0);
    }
  }

  /** The second phase of v finds all other searched successors finished. */
  lemma ClosesInOrder(g: Graph, c0: Cache, root: nat, s: Search, t: Tree, v: nat)
    requires ValidGraph(g) && Inv(g, c0, root, s, t) && Stacked(g, c0, root, s.stack) && Orderly(g, c0, root)
    requires s.stack != [] && s.stack[|s.stack| - 1] == (v, true) && v < |g.succ|
    ensures forall w | w in g.succ[v] && w !in c0 && w != v :: Closed(s, w)
  {
    forall w | w in g.succ[v] && w !in c0 && w != v ensures Closed(s, w) {
      SuccessorKnown(g, c0, root, s, t, v, w);
      NotStackedAgain(g, c0, root, s.stack, v, w);
    }
  }

  lemma CloseKeepsClosed(g: Graph, c0: Cache, s: Search, v: nat)
    requires ValidGraph(g) && s.stack != [] && s.stack[|s.stack| - 1] == (v, true) && (v, true) !in s.visited
    requires v < |g.succ| && forall w | w in g.succ[v] && w !in c0 && w != v :: Closed(s, w)
    requires SuccessorsClosed(g, c0, s)
    ensures SuccessorsClosed(g, c0, Advance(g, s))
  {
  }

  lemma AdvanceKeepsClosed(g: Graph, c0: Cache, root: nat, s: Search, t: Tree)
    requires ValidGraph(g) && Inv(g, c0, root, s, t) && Stacked(g, c0, root, s.stack) && Orderly(g, c0, root)
    requires SuccessorsClosed(g, c0, s)
    ensures SuccessorsClosed(g, c0, Advance(g, s))
  {
    if s.stack != [] && s.stack[|s.stack| - 1] !in s.visited && s.stack[|s.stack| - 1].1 {
      var v := s.stack[|s.stack| - 1].0;
      ClosesInOrder(g, c0, root, s, t, v);
      CloseKeepsClosed(g, c0, s, v);
    } else {
      assert forall v :: Closed(Advance(g, s), v) <==> Closed(s, v);
    }
  }

  lemma OrderlyStart(g: Graph, c0: Cache, root: nat)
    requires Queried(g, c0, root)
    ensures Stacked(g, c0, root, Start(root, c0).stack) && SuccessorsClosed(g, c0, Start(root, c0))
  {
    ReachesItself(g, c0, root);
  }

  lemma OrderlyStep(g: Graph, c0: Cache, root: nat, n: nat, s: Search)
    requires Queried(g, c0, root) && Orderly(g, c0, root) && s == After(g, c0, root, n)
    requires Stacked(g, c0, root, s.stack) && SuccessorsClosed(g, c0, s)
    ensures Stacked(g, c0, root, Advance(g, s).stack) && SuccessorsClosed(g, c0, Advance(g, s))
  {
    var t := AfterInv(g, c0, root, n);
    AdvanceKeepsStacked(g, c0, root, s, t);
    AdvanceKeepsClosed(g, c0, root, s, t);
  }

  lemma OrderlyRun(g: Graph, c0: Cache, root: nat, n: nat)
    requires Queried(g, c0, root) && Orderly(g, c0, root)
    ensures Stacked(g, c0, root, After(g, c0, root, n).stack) && SuccessorsClosed(g, c0, After(g, c0, root, n))
  {
    OrderlyStart(g, c0, root);
    for k := 0 to n
      invariant Stacked(g, c0, root, After(g, c0, root, k).stack) && SuccessorsClosed(g, c0, After(g, c0, root, k))
    {
      OrderlyStep(g, c0, root, k, After(g, c0, root, k));
    }
  }

  /** On an orderly graph the search works in post-order, so all entries it makes are exact. */
  lemma OrderlyMeansPostOrder(g: Graph, c0: Cache, root: nat)
    requires Queried(g, c0, root) && Orderly(g, c0, root)
    ensures PostOrder(g, c0, root)
  {
    forall n: nat ensures SuccessorsClosed(g, c0, After(g, c0, root, n)) {
      OrderlyRun(g, c0, root, n);
    }
  }

  // ------------------------------------------------------------------ histories of queries

  /** All entries hold everything reachable. */
  ghost predicate Complete(g: Graph, cache: Cache)
    requires ValidGraph(g)
  {
    forall v: nat, x | v in cache :: x in cache[v] <==> InAnswer(g, map[], v, x)
  }

  lemma {:induction false} FactBehindFrontier(g: Graph, c0: Cache, p: seq<nat>, v: nat, u: nat, x: nat)
    requires ValidGraph(g) && Complete(g, c0) && Path(g, map[], p, v, u) && v !in c0
    requires x in Collect(g.own[u], g.succ[u], map[])
    ensures InAnswer(g, c0, v, x)
    decreases p
  {
    if |p| == 1 {
      OwnAnswer(g, c0, v, x);
    } else {
      var w := p[1];
      assert w in g.succ[p[0]];
      assert Path(g, map[], p[1..], w, u);
      if w in c0 {
        assert Reaches(g, map[], w, u);
        assert InAnswer(g, map[], w, x);
        OwnAnswer(g, c0, v, x);
      } else {
        FactBehindFrontier(g, c0, p[1..], w, u, x);
        AnswerOfSuccessor(g, c0, v, w, x);
      }
    }
  }

  /** Relative to a complete cache an answer is plain reachability. */
  lemma CompleteCacheHidesNothing(g: Graph, c0: Cache, v: nat, x: nat)
    requires ValidGraph(g) && Complete(g, c0) && v !in c0
    ensures InAnswer(g, c0, v, x) <==> InAnswer(g, map[], v, x)
  {
    if InAnswer(g, c0, v, x) {
      AnswerIsSound(g, c0, v, x);
    }
    if InAnswer(g, map[], v, x) {
      var u: nat :| Reaches(g, map[], v, u) && u < |g.succ| && x in Collect(g.own[u], g.succ[u], map[]);
      var p :| Path(g, map[], p, v, u);
      FactBehindFrontier(g, c0, p, v, u, x);
    }
  }

  /** A query against a complete cache is answered by plain reachability, on any graph. */
  lemma CompleteCacheAnswers(g: Graph, c0: Cache, v: nat, cache: Cache)
    requires ValidGraph(g) && v < |g.succ| && Complete(g, c0) && Answered(g, c0, v, cache)
    ensures v in cache && forall x :: x in cache[v] <==> InAnswer(g, map[], v, x)
  {
    if v !in c0 {
      var n :| After(g, c0, v, n).stack == [] && cache == After(g, c0, v, n).cache;
      var t := AfterInv(g, c0, v, n);
      SearchIsExact(g, c0, v, After(g, c0, v, n), t);
      forall x ensures x in cache[v] <==> InAnswer(g, map[], v, x) {
        CompleteCacheHidesNothing(g, c0, v, x);
      }
    }
  }

  /** An orderly query, or one answered from the cache, keeps a complete cache complete. */
  lemma StaysComplete(g: Graph, c0: Cache, v: nat, cache: Cache)
    requires ValidGraph(g) && v < |g.succ| && Complete(g, c0) && Answered(g, c0, v, cache)
    requires v in c0 || Orderly(g, c0, v)
    ensures Complete(g, cache)
  {
    if v !in c0 {
      var n :| After(g, c0, v, n).stack == [] && cache == After(g, c0, v, n).cache;
      var t := AfterInv(g, c0, v, n);
      SearchIsExact(g, c0, v, After(g, c0, v, n), t);
      OrderlyMeansPostOrder(g, c0, v);
      PostOrderSuffices(g, c0, v, n);
      forall u: nat, x | u in cache ensures x in cache[u] <==> InAnswer(g, map[], u, x) {
        if u !in c0 {
          CompleteCacheHidesNothing(g, c0, u, x);
        }
      }
    }
  }

  /** The condition need only be checked on the graph, whatever is cached. */
  lemma OrderlyWithAnyCache(g: Graph, c0: Cache, v: nat)
    requires ValidGraph(g) && Orderly(g, map[], v)
    ensures Orderly(g, c0, v)
  {
    forall a, b | Reaches(g, c0, a, b) ensures Reaches(g, map[], a, b) {
      var p :| Path(g, c0, p, a, b);
      assert Path(g, map[], p, a, b);
    }
    forall u: nat | u < |g.succ| && Reaches(g, c0, v, u) ensures OrderlyAt(g, c0, u) {
      assert OrderlyAt(g, map[], u);
    }
  }

  /** A history of queries: the caches before, between and after them. */
  ghost predicate History(g: Graph, queries: seq<nat>, caches: seq<Cache>)
    requires ValidGraph(g)
  {
    && |caches| == |queries| + 1 && caches[0] == map[]
    && forall i | 0 <= i < |queries| ::
         queries[i] < |g.succ| && Answered(g, caches[i], queries[i], caches[i + 1])
  }

  /** MAIN RESULT on histories: after any history of orderly queries, every entry, and so the answer of
      any further query, is plain reachability. */
  lemma {:induction false} OrderlyHistoryIsComplete(g: Graph, queries: seq<nat>, caches: seq<Cache>, k: nat)
    requires ValidGraph(g) && History(g, queries, caches) && k <= |queries|
    requires forall i | 0 <= i < |queries| :: Orderly(g, map[], queries[i])
    ensures Complete(g, caches[k])
    decreases k
  {
    if k > 0 {
      OrderlyHistoryIsComplete(g, queries, caches, k - 1);
      OrderlyWithAnyCache(g, caches[k - 1], queries[k - 1]);
      assert Answered(g, caches[k - 1], queries[k - 1], caches[k - 1 + 1]);
      StaysComplete(g, caches[k - 1], queries[k - 1], caches[k]);
    }
  }

  // ------------------------------------------------------------------ a graph that is not orderly

  /** Value 0 has the successors 1 and 2, and 2 has the successor 1, where the only fact is. */
  const SHARED := Graph([[1, 2], [], [1]], [{}, {1}, {}])

  function Stage(n: nat): Search {
    match n
    case 0 => Start(0, map[])
    case 1 => Search([(0, true), (1, false), (2, false)], {(0, false)}, map[])
    case 2 => Search([(0, true), (1, false), (2, true)], {(0, false), (2, false)}, map[])
    case 3 => Search([(0, true), (1, false)], {(0, false), (2, false), (2, true)}, map[2 := {}])
    case 4 => Search([(0, true), (1, true)], {(0, false), (2, false), (2, true), (1, false)}, map[2 := {}])
    case 5 => Search([(0, true)], {(0, false), (2, false), (2, true), (1, false), (1, true)}, map[2 := {}, 1 := {1}])
    case _ => Search([], {(0, false), (2, false), (2, true), (1, false), (1, true), (0, true)},
                     map[2 := {}, 1 := {1}, 0 := {1}])
  }

  lemma StageStep0()
    ensures ValidGraph(SHARED) && Step(SHARED, Stage(0)) == Stage(1)
  {
    assert [1, 2][..1] == [1] && [1][..0] == [];
    var e: Cache := map[];
    assert PushAll([(0, true)], [1], e) == [(0, true), (1, false)];
    assert PushAll([(0, true)], [1, 2], e) == [(0, true), (1, false), (2, false)];
    var s := Start(0, e);
    assert s.stack[..|s.stack| - 1] == [];
    assert Push([], (0, true)) == [(0, true)];
    assert Step(SHARED, s).visited == {(0, false)};
  }

  lemma StageStep1()
    ensures ValidGraph(SHARED) && Step(SHARED, Stage(1)) == Stage(2)
  {
    var e: Cache := map[];
    var rest := [(0, true), (1, false)];
    assert Stage(1).stack[..2] == rest;
    assert Push(rest, (2, true)) == rest + [(2, true)];
    assert PushAll(rest + [(2, true)], [1], e) == rest + [(2, true)] by { assert [1][..0] == []; }
    assert Step(SHARED, Stage(1)).visited == Stage(2).visited;
  }

  lemma StageStep2()
    ensures ValidGraph(SHARED) && Step(SHARED, Stage(2)) == Stage(3)
  {
    assert Collect({}, [1], map[]) == {};
    assert Stage(2).stack[..2] == Stage(3).stack;
    assert Step(SHARED, Stage(2)).visited == Stage(3).visited;
  }

  lemma StageStep3()
    ensures ValidGraph(SHARED) && Step(SHARED, Stage(3)) == Stage(4)
  {
    assert Stage(3).stack[..1] == [(0, true)];
    assert Push([(0, true)], (1, true)) == Stage(4).stack;
    assert Step(SHARED, Stage(3)).visited == Stage(4).visited;
  }

  lemma StageStep4()
    ensures ValidGraph(SHARED) && Step(SHARED, Stage(4)) == Stage(5)
  {
    assert Collect({1}, [], map[2 := {}]) == {1};
    assert Stage(4).stack[..1] == Stage(5).stack;
    assert Step(SHARED, Stage(4)).visited == Stage(5).visited;
  }

  lemma StageStep5()
    ensures ValidGraph(SHARED) && Step(SHARED, Stage(5)) == Stage(6)
  {
    var c: Cache := map[2 := {}, 1 := {1}];
    var found := Collect({}, [1, 2], c);
    assert [1, 2][0] == 1 && 1 in c && 1 in c[1];
    assert 1 in found && forall x | x in found :: x == 1;
    assert found == {1};
    assert Stage(5).stack[..0] == [];
    assert Step(SHARED, Stage(5)).visited == Stage(6).visited;
  }

  lemma StageStep(n: nat)
    requires n < 6
    ensures ValidGraph(SHARED) && Stage(n).stack != [] && Stage(n).stack[|Stage(n).stack| - 1].0 < |SHARED.succ|
    ensures Step(SHARED, Stage(n)) == Stage(n + 1)
  {
    match n
    case 0 => StageStep0();
    case 1 => StageStep1();
    case 2 => StageStep2();
    case 3 => StageStep3();
    case 4 => StageStep4();
    case 5 => StageStep5();
  }

  ghost predicate AtStage(n: nat) {
    ValidGraph(SHARED) && After(SHARED, map[], 0, n) == Stage(n)
  }

  lemma NextStage(n: nat)
    requires n < 6 && AtStage(n)
    ensures AtStage(n + 1)
  {
    StageStep(n);
  }

  lemma SharedRun() returns (n: nat)
    ensures ValidGraph(SHARED) && After(SHARED, map[], 0, n) == Stage(6)
  {
    n := 0;
    while n < 6
      invariant n <= 6 && AtStage(n)
    {
      NextStage(n);
      n := n + 1;
    }
  }

  lemma FactIsReachable()
    ensures ValidGraph(SHARED) && InAnswer(SHARED, map[], 2, 1)
  {
    OwnAnswer(SHARED, map[], 1, 1);
    assert 1 in SHARED.succ[2];
    AnswerOfSuccessor(SHARED, map[], 2, 1, 1);
  }

  lemma LastStage(cache: Cache)
    requires cache == Stage(6).cache
    ensures 0 in cache && cache[0] == {1} && 2 in cache && cache[2] == {}
  {
  }

  /** Entries of values other than the queried one can be incomplete, even without a cycle: since 1
      already waits on the list when 2 is processed, 2 is finished first and misses the fact at 1. */
  lemma OtherEntriesMayBeIncomplete(cache: Cache)
    requires ValidGraph(SHARED) && Answered(SHARED, map[], 0, cache)
    ensures 0 in cache && cache[0] == {1}
    ensures 2 in cache && cache[2] == {} && InAnswer(SHARED, map[], 2, 1)
  {
    var n := SharedRun();
    AnsweredIsUnique(SHARED, map[], 0, n, cache);
    LastStage(cache);
    FactIsReachable();
  }
}
