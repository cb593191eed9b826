/** The search both inference directions of ObjTypeInference.cpp share: an explicit stack of
    (value, canUpdate) pairs that simulates post-order recursion over a value graph, cyclic or not,
    and fills a cache that outlives the query. */
module TwoPhaseSearch {

  /** `own[v]` are the facts found at v itself, `succ[v]` the values v takes further facts from. */
  datatype Graph = Graph(succ: seq<seq<nat>>, own: seq<set<nat>>)

  ghost predicate ValidGraph(g: Graph) {
    && |g.succ| == |g.own|
    && forall v, k | 0 <= v < |g.succ| && 0 <= k < |g.succ[v]| :: g.succ[v][k] < |g.succ|
  }

  type Item = (nat, bool)
  type Cache = map<nat, set<nat>>

  datatype Search = Search(stack: seq<Item>, visited: set<Item>, cache: Cache)

  /** FILOWorkList::push: a pair already on the list is not pushed again. */
  function Push(stack: seq<Item>, item: Item): seq<Item> {
    if item in stack then stack else stack + [item]
  }

  /** First phase: descend into the values that have no cached answer. */
  function PushAll(stack: seq<Item>, succ: seq<nat>, cache: Cache): seq<Item> {
    if succ == [] then stack
    else
      var s := PushAll(stack, succ[..|succ| - 1], cache);
      var u := succ[|succ| - 1];
      if u in cache then s else Push(s, (u, false))
  }

  /** Second phase: gather what the cache knows by then. */
  function Collect(own: set<nat>, succ: seq<nat>, cache: Cache): set<nat> {
    own + set u, x | u in succ && u in cache && x in cache[u] :: x
  }

  /** One iteration of the while loop. */
  function Step(g: Graph, s: Search): Search
    requires ValidGraph(g) && s.stack != [] && s.stack[|s.stack| - 1].0 < |g.succ|
  {
    var item := s.stack[|s.stack| - 1];
    var rest := s.stack[..|s.stack| - 1];
    var v := item.0;
    if item in s.visited then s.(stack := rest)
    else if item.1 then
      Search(rest, s.visited + {item}, s.cache[v := Collect(g.own[v], g.succ[v], s.cache)])
    else
      var below := if v in s.cache then rest else Push(rest, (v, true));
      Search(PushAll(below, g.succ[v], s.cache), s.visited + {item}, s.cache)
  }

  function Start(v: nat, cache: Cache): Search { Search([(v, false)], {}, cache) }

  // ------------------------------------------------------------------ the answer

  /** A path from v to u through values without an answer in `cache`. */
  ghost predicate Path(g: Graph, cache: Cache, p: seq<nat>, v: nat, u: nat)
    requires ValidGraph(g)
  {
    && |p| > 0 && p[0] == v && p[|p| - 1] == u
    && (forall i | 0 <= i < |p| :: p[i] < |g.succ| && p[i] !in cache)
    && (forall i | 0 <= i < |p| - 1 :: p[i + 1] in g.succ[p[i]])
  }

  ghost predicate Reaches(g: Graph, cache: Cache, v: nat, u: nat)
    requires ValidGraph(g)
  {
    exists p :: Path(g, cache, p, v, u)
  }

  /** The complete answer for v relative to a cache: the facts of every value reachable through
      uncached values, and the cached answers on their frontier. */
  ghost predicate InAnswer(g: Graph, cache: Cache, v: nat, x: nat)
    requires ValidGraph(g)
  {
    exists u: nat :: Reaches(g, cache, v, u) && u < |g.succ| && x in Collect(g.own[u], g.succ[u], cache)
  }

  lemma OwnAnswer(g: Graph, cache: Cache, v: nat, x: nat)
    requires ValidGraph(g) && v < |g.succ| && v !in cache && x in Collect(g.own[v], g.succ[v], cache)
    ensures InAnswer(g, cache, v, x)
  {
    assert Path(g, cache, [v], v, v);
    assert Reaches(g, cache, v, v);
  }

  lemma AnswerOfSuccessor(g: Graph, cache: Cache, v: nat, w: nat, x: nat)
    requires ValidGraph(g) && v < |g.succ| && v !in cache && w in g.succ[v] && InAnswer(g, cache, w, x)
    ensures InAnswer(g, cache, v, x)
  {
    var u: nat :| Reaches(g, cache, w, u) && u < |g.succ| && x in Collect(g.own[u], g.succ[u], cache);
    var p :| Path(g, cache, p, w, u);
    assert Path(g, cache, [v] + p, v, u);
    assert Reaches(g, cache, v, u);
  }

  // ------------------------------------------------------------------ stack order

  ghost predicate NoDuplicates(s: seq<Item>) {
    forall i, j | 0 <= i < j < |s| :: s[i] != s[j]
  }

  ghost predicate Below(s: seq<Item>, a: Item, b: Item) {
    exists i, j :: 0 <= i < j < |s| && s[i] == a && s[j] == b
  }

  lemma BelowAppend(s: seq<Item>, t: seq<Item>, a: Item, b: Item)
    ensures Below(s, a, b) ==> Below(s + t, a, b)
    ensures a in s && b in t ==> Below(s + t, a, b)
  {
    if Below(s, a, b) {
      var i, j :| 0 <= i < j < |s| && s[i] == a && s[j] == b;
      assert (s + t)[i] == a && (s + t)[j] == b;
    }
    if a in s && b in t {
      var i :| 0 <= i < |s| && s[i] == a;
      var j :| 0 <= j < |t| && t[j] == b;
      assert (s + t)[i] == a && (s + t)[|s| + j] == b;
    }
  }

  lemma BelowPop(s: seq<Item>, a: Item, b: Item)
    requires s != [] && NoDuplicates(s) && Below(s, a, b)
    ensures a != s[|s| - 1] && a in s[..|s| - 1] && a != b
    ensures b != s[|s| - 1] ==> Below(s[..|s| - 1], a, b)
  {
    var i, j :| 0 <= i < j < |s| && s[i] == a && s[j] == b;
    var r := s[..|s| - 1];
    assert r[i] == a;
    if b != s[|s| - 1] {
      assert r[j] == b;
    }
  }

  /** `a` is listed before `b`. */
  ghost predicate Before(succ: seq<nat>, a: nat, b: nat) {
    exists k, l :: 0 <= k < l < |succ| && succ[k] == a && succ[l] == b
  }

  lemma BeforeInLonger(succ: seq<nat>, a: nat, b: nat)
    requires succ != []
    ensures Before(succ[..|succ| - 1], a, b) ==> Before(succ, a, b)
    ensures a in succ[..|succ| - 1] ==> Before(succ, a, succ[|succ| - 1])
  {
    var front := succ[..|succ| - 1];
    if Before(front, a, b) {
      var k, l :| 0 <= k < l < |front| && front[k] == a && front[l] == b;
      assert succ[k] == a && succ[l] == b;
    }
    if a in front {
      var k :| 0 <= k < |front| && front[k] == a;
      assert succ[k] == a;
    }
  }

  ghost predicate InOrder(succ: seq<nat>, items: seq<Item>) {
    forall i, j | 0 <= i < j < |items| :: Before(succ, items[i].0, items[j].0)
  }

  /** What a run of pushes adds on top of the stack. */
  lemma {:induction false} PushAllAdds(stack: seq<Item>, succ: seq<nat>, cache: Cache) returns (t: seq<Item>)
    requires NoDuplicates(stack)
    ensures PushAll(stack, succ, cache) == stack + t && NoDuplicates(stack + t)
    ensures forall k | 0 <= k < |t| :: !t[k].1 && t[k].0 in succ && t[k].0 !in cache && t[k] !in stack
    ensures forall u | u in succ && u !in cache :: (u, false) in stack + t
    ensures InOrder(succ, t)
  {
    if succ == [] {
      t := [];
      assert stack + t == stack;
    } else {
      var u, front := succ[|succ| - 1], succ[..|succ| - 1];
      t := PushAllAdds(stack, front, cache);
      forall i, j | 0 <= i < j < |t| ensures Before(succ, t[i].0, t[j].0) {
        BeforeInLonger(succ, t[i].0, t[j].0);
      }
      forall i | 0 <= i < |t| ensures Before(succ, t[i].0, u) {
        BeforeInLonger(succ, t[i].0, u);
      }
      assert forall w | w in succ :: w in front || w == u;
      if u !in cache && (u, false) !in stack + t {
        assert stack + t + [(u, false)] == stack + (t + [(u, false)]);
        t := t + [(u, false)];
      }
    }
  }

  // ------------------------------------------------------------------ the invariant

  /** The depth-first tree, kept for the proof: the value that first pushed a value, and the order in
      which values were first processed. */
  datatype Tree = Tree(par: map<nat, nat>, rank: map<nat, nat>, next: nat)

  ghost predicate Seen(s: Search, v: nat) { (v, false) in s.visited }
  ghost predicate Waiting(s: Search, v: nat) { (v, false) in s.stack }
  ghost predicate Open(s: Search, v: nat) { (v, true) in s.stack }
  ghost predicate Closed(s: Search, v: nat) { (v, true) in s.visited }

  ghost predicate StackOk(g: Graph, c0: Cache, root: nat, s: Search) {
    && NoDuplicates(s.stack)
    && (forall k | 0 <= k < |s.stack| :: s.stack[k].0 < |g.succ| && s.stack[k].0 !in c0)
    && root < |g.succ| && root !in c0
    && (Seen(s, root) || s.stack == [(root, false)])
  }

  /** The first phase opens a value, the second closes it and caches its answer. */
  ghost predicate NodePhase(c0: Cache, s: Search, u: nat) {
    && (u in s.cache <==> u in c0 || Closed(s, u))
    && (u in c0 ==> s.cache[u] == c0[u] && !Seen(s, u))
    && (Seen(s, u) <==> Open(s, u) || Closed(s, u))
    && !(Open(s, u) && Closed(s, u))
  }

  ghost predicate HasParent(g: Graph, t: Tree, u: nat) {
    u in t.par && t.par[u] < |g.succ| && u in g.succ[t.par[u]] && t.par[u] in t.rank
  }

  /** A value waits above the second phase of the value that pushed it. */
  ghost predicate NodeTree(g: Graph, root: nat, s: Search, t: Tree, u: nat) {
    && (Seen(s, u) <==> u in t.rank)
    && (u in t.rank ==> t.rank[u] < t.next)
    && (u != root && (Seen(s, u) || Waiting(s, u)) ==> HasParent(g, t, u))
    && (u != root && Seen(s, u) ==> t.rank[t.par[u]] < t.rank[u])
    && (u != root && Waiting(s, u) && !Seen(s, u) ==> Below(s.stack, (t.par[u], true), (u, false)))
    && (u != root && Seen(s, u) && Open(s, u) ==> Below(s.stack, (t.par[u], true), (u, true)))
  }

  /** A finished answer holds everything found at its value, nothing unreachable, and has flowed up
      the tree once the parent is finished too. */
  ghost predicate NodeFlow(g: Graph, c0: Cache, root: nat, s: Search, t: Tree, u: nat)
    requires ValidGraph(g)
  {
    Closed(s, u) && u in s.cache && u < |g.succ| ==>
      && Collect(g.own[u], g.succ[u], c0) <= s.cache[u]
      && (forall x | x in s.cache[u] :: InAnswer(g, c0, u, x))
      && (u != root && u in t.par && Closed(s, t.par[u]) && t.par[u] in s.cache ==>
            s.cache[u] <= s.cache[t.par[u]])
  }

  /** Nothing reachable is forgotten. */
  ghost predicate NodeFrontier(g: Graph, c0: Cache, s: Search, u: nat)
    requires u < |g.succ|
  {
    Seen(s, u) ==> forall w | w in g.succ[u] && w !in c0 :: Seen(s, w) || Waiting(s, w)
  }

  ghost predicate Node(g: Graph, c0: Cache, root: nat, s: Search, t: Tree, u: nat)
    requires ValidGraph(g) && u < |g.succ|
  {
    && NodePhase(c0, s, u) && NodeTree(g, root, s, t, u)
    && NodeFlow(g, c0, root, s, t, u) && NodeFrontier(g, c0, s, u)
  }

  ghost predicate Inv(g: Graph, c0: Cache, root: nat, s: Search, t: Tree)
    requires ValidGraph(g)
  {
    && StackOk(g, c0, root, s)
    && (forall u | 0 <= u < |g.succ| :: Node(g, c0, root, s, t, u))
    && (forall u: nat | u in s.cache && u >= |g.succ| :: u in c0)
    && (forall u: nat | u in c0 :: u in s.cache && s.cache[u] == c0[u])
  }

  lemma StartInv(g: Graph, c0: Cache, root: nat)
    requires ValidGraph(g) && root < |g.succ| && root !in c0
    ensures Inv(g, c0, root, Start(root, c0), Tree(map[], map[], 0))
  {
  }

  // ------------------------------------------------------------------ every step keeps it

  /** A stale entry is dropped. */
  lemma SkipNode(g: Graph, c0: Cache, root: nat, s: Search, t: Tree, u: nat)
    requires ValidGraph(g) && Inv(g, c0, root, s, t) && s.stack != [] && s.stack[|s.stack| - 1] in s.visited
    requires u < |g.succ|
    ensures Node(g, c0, root, Step(g, s), t, u)
  {
    var s', x := Step(g, s), s.stack[|s.stack| - 1];
    assert s.stack == s'.stack + [x];
    assert Node(g, c0, root, s, t, u) && Node(g, c0, root, s, t, x.0);
    SkipPhase(c0, s, s', x, u);
    SkipTree(g, root, s, s', t, x, u);
  }

  lemma SkipPhase(c0: Cache, s: Search, s': Search, x: Item, u: nat)
    requires s.stack == s'.stack + [x] && x in s.visited && s'.visited == s.visited && s'.cache == s.cache
    requires NodePhase(c0, s, u) && NodePhase(c0, s, x.0)
    ensures NodePhase(c0, s', u) && (Open(s', u) <==> Open(s, u))
  {
    assert x in s.stack && x == (x.0, x.1);
  }

  lemma SkipTree(g: Graph, root: nat, s: Search, s': Search, t: Tree, x: Item, u: nat)
    requires s.stack == s'.stack + [x] && x in s.visited && NoDuplicates(s.stack) && s'.visited == s.visited
    requires NodeTree(g, root, s, t, u) && (Open(s', u) <==> Open(s, u))
    ensures NodeTree(g, root, s', t, u)
  {
    assert s'.stack == s.stack[..|s.stack| - 1];
    if u != root && Waiting(s', u) && !Seen(s', u) {
      BelowPop(s.stack, (t.par[u], true), (u, false));
    }
    if u != root && Seen(s', u) && Open(s', u) {
      BelowPop(s.stack, (t.par[u], true), (u, true));
      assert (u, true) in s'.stack;
    }
  }

  /** The second phase of v: its answer is cached. No child of v is left above it on the stack. */
  lemma CloseNode(g: Graph, c0: Cache, root: nat, s: Search, t: Tree, u: nat)
    requires ValidGraph(g) && Inv(g, c0, root, s, t) && s.stack != []
    requires s.stack[|s.stack| - 1] !in s.visited && s.stack[|s.stack| - 1].1
    requires u < |g.succ|
    ensures Node(g, c0, root, Step(g, s), t, u)
  {
    var s', x := Step(g, s), s.stack[|s.stack| - 1];
    var v := x.0;
    assert s.stack == s'.stack + [x] && x == (v, true) && x in s.stack;
    assert Node(g, c0, root, s, t, u);
    CloseOpen(s, s', v, u);
    ClosePhase(c0, s, s', v, Collect(g.own[v], g.succ[v], s.cache), u);
    CloseTree(g, root, s, s', t, v, u);
    if u == v {
      CloseFlow(g, c0, root, s, t);
    } else {
      CloseFlowOther(g, c0, root, s, s', t, v, u);
    }
  }

  lemma CloseOpen(s: Search, s': Search, v: nat, u: nat)
    requires s.stack == s'.stack + [(v, true)] && NoDuplicates(s.stack)
    ensures Open(s', u) <==> Open(s, u) && u != v
    ensures Waiting(s', u) <==> Waiting(s, u)
  {
    assert forall k | 0 <= k < |s'.stack| :: s'.stack[k] == s.stack[k] != s.stack[|s.stack| - 1];
  }

  lemma ClosePhase(c0: Cache, s: Search, s': Search, v: nat, answer: set<nat>, u: nat)
    requires s'.visited == s.visited + {(v, true)} && s'.cache == s.cache[v := answer]
    requires Open(s, v) && NodePhase(c0, s, u)
    requires Open(s', u) <==> Open(s, u) && u != v
    ensures NodePhase(c0, s', u)
  {
  }

  lemma CloseFlowOther(g: Graph, c0: Cache, root: nat, s: Search, s': Search, t: Tree, v: nat, u: nat)
    requires ValidGraph(g) && u < |g.succ| && v < |g.succ| && u != v
    requires s'.visited == s.visited + {(v, true)} && s'.cache == s.cache[v := Collect(g.own[v], g.succ[v], s.cache)]
    requires NodeFlow(g, c0, root, s, t, u) && NodeTree(g, root, s, t, u) && NodePhase(c0, s, u)
    ensures NodeFlow(g, c0, root, s', t, u)
  {
    if u != root && Closed(s, u) && u in s.cache && u in t.par && t.par[u] == v {
      assert u in g.succ[v];
      assert s.cache[u] <= Collect(g.own[v], g.succ[v], s.cache);
    }
  }

  lemma CloseTree(g: Graph, root: nat, s: Search, s': Search, t: Tree, v: nat, u: nat)
    requires s.stack == s'.stack + [(v, true)] && NoDuplicates(s.stack) && s'.visited == s.visited + {(v, true)}
    requires NodeTree(g, root, s, t, u) && (Open(s', u) ==> Open(s, u) && u != v)
    ensures NodeTree(g, root, s', t, u)
  {
    assert s'.stack == s.stack[..|s.stack| - 1];
    if u != root && Waiting(s', u) && !Seen(s', u) {
      BelowPop(s.stack, (t.par[u], true), (u, false));
    }
    if u != root && Seen(s, u) && Open(s', u) {
      BelowPop(s.stack, (t.par[u], true), (u, true));
    }
  }

  lemma CloseFlow(g: Graph, c0: Cache, root: nat, s: Search, t: Tree)
    requires ValidGraph(g) && Inv(g, c0, root, s, t) && s.stack != []
    requires s.stack[|s.stack| - 1] !in s.visited && s.stack[|s.stack| - 1].1
    ensures NodeFlow(g, c0, root, Step(g, s), t, s.stack[|s.stack| - 1].0)
  {
    var s', x := Step(g, s), s.stack[|s.stack| - 1];
    var v := x.0;
    assert x == (v, true) && x in s.stack;
    assert Node(g, c0, root, s, t, v);
    assert Collect(g.own[v], g.succ[v], c0) <= s'.cache[v];
    forall y | y in s'.cache[v] ensures InAnswer(g, c0, v, y) {
      if y in Collect(g.own[v], g.succ[v], c0) {
        OwnAnswer(g, c0, v, y);
      } else {
        var w :| w in g.succ[v] && w in s.cache && y in s.cache[w];
        assert w < |g.succ| && Node(g, c0, root, s, t, w);
        AnswerOfSuccessor(g, c0, v, w, y);
      }
    }
    if v != root {
      BelowPop(s.stack, (t.par[v], true), (v, true));
      assert Node(g, c0, root, s, t, t.par[v]);
    }
  }

  ghost predicate Opens(g: Graph, c0: Cache, root: nat, s: Search, t: Tree)
    requires ValidGraph(g)
  {
    && Inv(g, c0, root, s, t) && s.stack != []
    && s.stack[|s.stack| - 1] !in s.visited && !s.stack[|s.stack| - 1].1
  }

  /** The stack after the first phase of v: its second phase, then the successors pushed by it. */
  ghost predicate Opened(g: Graph, s: Search, s': Search, v: nat, pushed: seq<Item>)
    requires s.stack != [] && v < |g.succ|
  {
    && s.stack[|s.stack| - 1] == (v, false)
    && s'.stack == s.stack[..|s.stack| - 1] + ([(v, true)] + pushed)
    && NoDuplicates(s'.stack)
    && (forall k | 0 <= k < |pushed| :: !pushed[k].1 && pushed[k].0 in g.succ[v] && pushed[k].0 !in s.cache &&
                                        pushed[k] !in s.stack[..|s.stack| - 1])
    && (forall w | w in g.succ[v] && w !in s.cache :: (w, false) in s'.stack)
    && s'.visited == s.visited + {(v, false)} && s'.cache == s.cache && v !in s.cache
  }

  lemma OpenStack(g: Graph, c0: Cache, root: nat, s: Search, t: Tree) returns (v: nat, pushed: seq<Item>)
    requires ValidGraph(g) && Opens(g, c0, root, s, t)
    ensures v < |g.succ| && Opened(g, s, Step(g, s), v, pushed) && InOrder(g.succ[v], pushed)
  {
    var x := s.stack[|s.stack| - 1];
    var rest := s.stack[..|s.stack| - 1];
    v := x.0;
    assert x == (v, false) && x in s.stack;
    assert Node(g, c0, root, s, t, v);
    pushed := OpenPushes(rest, v, g.succ[v], s.cache);
  }

  lemma OpenPushes(rest: seq<Item>, v: nat, succ: seq<nat>, cache: Cache) returns (pushed: seq<Item>)
    requires NoDuplicates(rest) && (v, true) !in rest
    ensures PushAll(Push(rest, (v, true)), succ, cache) == rest + ([(v, true)] + pushed)
    ensures NoDuplicates(rest + ([(v, true)] + pushed))
    ensures forall k | 0 <= k < |pushed| ::
              !pushed[k].1 && pushed[k].0 in succ && pushed[k].0 !in cache && pushed[k] !in rest
    ensures forall w | w in succ && w !in cache :: (w, false) in rest + ([(v, true)] + pushed)
    ensures InOrder(succ, pushed)
  {
    pushed := PushAllAdds(rest + [(v, true)], succ, cache);
    assert rest + [(v, true)] + pushed == rest + ([(v, true)] + pushed);
  }

  function Grow(t: Tree, g: Graph, s': Search, v: nat, pushed: seq<Item>): Tree
    requires v < |g.succ|
  {
    Tree(t.par + (map w | w in g.succ[v] && (w, false) in pushed && (w, false) !in s'.visited :: v),
         t.rank[v := t.next], t.next + 1)
  }

  lemma OpenStackOk(g: Graph, c0: Cache, root: nat, s: Search, s': Search, v: nat, pushed: seq<Item>)
    requires ValidGraph(g) && StackOk(g, c0, root, s) && s.stack != [] && v < |g.succ| && Opened(g, s, s', v, pushed)
    requires v !in c0 && forall w | w in c0 :: w in s.cache
    ensures StackOk(g, c0, root, s')
  {
    var rest := s.stack[..|s.stack| - 1];
    forall k | 0 <= k < |s'.stack| ensures s'.stack[k].0 < |g.succ| && s'.stack[k].0 !in c0 {
      if k < |rest| {
        assert s'.stack[k] == s.stack[k];
      } else if k > |rest| {
        assert s'.stack[k] == pushed[k - |rest| - 1];
      }
    }
  }

  lemma OpenPhase(g: Graph, c0: Cache, s: Search, s': Search, v: nat, pushed: seq<Item>, u: nat)
    requires s.stack != [] && v < |g.succ| && Opened(g, s, s', v, pushed) && v !in c0
    requires NodePhase(c0, s, u)
    ensures NodePhase(c0, s', u)
    ensures Open(s', u) <==> Open(s, u) || u == v
  {
    var rest := s.stack[..|s.stack| - 1];
    assert s.stack == rest + [(v, false)];
    assert (v, true) in [(v, true)] + pushed;
  }

  lemma OpenFrontier(g: Graph, c0: Cache, s: Search, s': Search, v: nat, pushed: seq<Item>, u: nat)
    requires s.stack != [] && v < |g.succ| && Opened(g, s, s', v, pushed) && u < |g.succ|
    requires NodeFrontier(g, c0, s, u) && forall w | w in g.succ[v] :: NodePhase(c0, s, w)
    ensures NodeFrontier(g, c0, s', u)
  {
    var rest := s.stack[..|s.stack| - 1];
    assert s.stack == rest + [(v, false)];
  }

  /** The value just opened takes the place where it waited. */
  lemma OpenBelowSelf(g: Graph, s: Search, s': Search, v: nat, pushed: seq<Item>, a: Item)
    requires s.stack != [] && NoDuplicates(s.stack) && v < |g.succ| && Opened(g, s, s', v, pushed)
    requires Below(s.stack, a, (v, false))
    ensures Below(s'.stack, a, (v, true))
  {
    var rest := s.stack[..|s.stack| - 1];
    BelowPop(s.stack, a, (v, false));
    assert ([(v, true)] + pushed)[0] == (v, true);
    BelowAppend(rest, [(v, true)] + pushed, a, (v, true));
  }

  lemma OpenTreeSelf(g: Graph, root: nat, s: Search, s': Search, t: Tree, v: nat, pushed: seq<Item>)
    requires s.stack != [] && NoDuplicates(s.stack) && v < |g.succ| && Opened(g, s, s', v, pushed)
    requires NodeTree(g, root, s, t, v) && !Seen(s, v)
    requires v != root && v in t.par && t.par[v] in t.rank ==> t.rank[t.par[v]] < t.next
    ensures NodeTree(g, root, s', Grow(t, g, s', v, pushed), v)
  {
    assert s.stack[|s.stack| - 1] == (v, false);
    if v != root {
      OpenBelowSelf(g, s, s', v, pushed, (t.par[v], true));
      assert Grow(t, g, s', v, pushed).par[v] == t.par[v];
    }
  }

  lemma OpenBelow(g: Graph, s: Search, s': Search, v: nat, pushed: seq<Item>, a: Item, b: Item)
    requires s.stack != [] && NoDuplicates(s.stack) && v < |g.succ| && Opened(g, s, s', v, pushed)
    ensures Below(s.stack, a, b) && b != (v, false) ==> Below(s'.stack, a, b)
    ensures a == (v, true) && b in pushed ==> Below(s'.stack, a, b)
  {
    var rest := s.stack[..|s.stack| - 1];
    if Below(s.stack, a, b) && b != (v, false) {
      BelowPop(s.stack, a, b);
      BelowAppend(rest, [(v, true)] + pushed, a, b);
    }
    if a == (v, true) && b in pushed {
      BelowAppend(rest + [(v, true)], pushed, a, b);
      assert rest + [(v, true)] + pushed == s'.stack;
    }
  }

  /** A value opened earlier. */
  lemma OpenTreeSeen(g: Graph, c0: Cache, root: nat, s: Search, s': Search, t: Tree, v: nat, pushed: seq<Item>, u: nat)
    requires s.stack != [] && NoDuplicates(s.stack) && v < |g.succ| && Opened(g, s, s', v, pushed)
    requires NodeTree(g, root, s, t, u) && NodePhase(c0, s, u) && u != v && Seen(s, u)
    requires v !in t.rank && (Open(s', u) <==> Open(s, u))
    ensures NodeTree(g, root, s', Grow(t, g, s', v, pushed), u)
  {
    var t' := Grow(t, g, s', v, pushed);
    assert u in t.par ==> u in t'.par && t'.par[u] == t.par[u];
    if u != root && Open(s, u) {
      OpenBelow(g, s, s', v, pushed, (t.par[u], true), (u, true));
    }
  }

  /** A value not opened yet: it waits where it was, or v just pushed it. */
  lemma OpenTreeUnseen(g: Graph, c0: Cache, root: nat, s: Search, s': Search, t: Tree, v: nat,
                       pushed: seq<Item>, u: nat)
    requires s.stack != [] && NoDuplicates(s.stack) && v < |g.succ| && Opened(g, s, s', v, pushed)
    requires NodeTree(g, root, s, t, u) && NodePhase(c0, s, u) && u != v && !Seen(s, u)
    requires v !in t.rank && (Open(s', u) <==> Open(s, u))
    ensures NodeTree(g, root, s', Grow(t, g, s', v, pushed), u)
  {
    var rest := s.stack[..|s.stack| - 1];
    var t' := Grow(t, g, s', v, pushed);
    if u != root && Waiting(s', u) {
      if (u, false) in rest {
        assert Waiting(s, u) && (u, false) !in pushed;
        OpenBelow(g, s, s', v, pushed, (t.par[u], true), (u, false));
      } else {
        assert (u, false) in pushed && t'.par[u] == v;
        OpenBelow(g, s, s', v, pushed, (v, true), (u, false));
      }
    }
  }

  lemma OpenNode(g: Graph, c0: Cache, root: nat, s: Search, t: Tree, v: nat, pushed: seq<Item>, u: nat)
    requires ValidGraph(g) && Opens(g, c0, root, s, t) && v < |g.succ| && Opened(g, s, Step(g, s), v, pushed)
    requires u < |g.succ|
    ensures Node(g, c0, root, Step(g, s), Grow(t, g, Step(g, s), v, pushed), u)
  {
    var s' := Step(g, s);
    assert Node(g, c0, root, s, t, u) && Node(g, c0, root, s, t, v);
    forall w | w in g.succ[v] ensures NodePhase(c0, s, w) {
      assert Node(g, c0, root, s, t, w);
    }
    OpenPhase(g, c0, s, s', v, pushed, u);
    OpenFrontier(g, c0, s, s', v, pushed, u);
    if u == v {
      if v != root && v in t.par && t.par[v] in t.rank && t.par[v] < |g.succ| {
        assert Node(g, c0, root, s, t, t.par[v]);
      }
      OpenTreeSelf(g, root, s, s', t, v, pushed);
    } else if Seen(s, u) {
      OpenTreeSeen(g, c0, root, s, s', t, v, pushed, u);
    } else {
      OpenTreeUnseen(g, c0, root, s, s', t, v, pushed, u);
    }
    OpenFlow(g, c0, root, s, s', t, v, pushed, u);
  }

  lemma OpenFlow(g: Graph, c0: Cache, root: nat, s: Search, s': Search, t: Tree, v: nat, pushed: seq<Item>, u: nat)
    requires ValidGraph(g) && s.stack != [] && v < |g.succ| && Opened(g, s, s', v, pushed)
    requires NodeFlow(g, c0, root, s, t, u) && NodePhase(c0, s, u)
    ensures NodeFlow(g, c0, root, s', Grow(t, g, s', v, pushed), u)
  {
  }

  lemma StepKeepsInv(g: Graph, c0: Cache, root: nat, s: Search, t: Tree) returns (t': Tree)
    requires ValidGraph(g) && Inv(g, c0, root, s, t) && s.stack != []
    ensures s.stack[|s.stack| - 1].0 < |g.succ| && Inv(g, c0, root, Step(g, s), t')
  {
    var x, s' := s.stack[|s.stack| - 1], Step(g, s);
    t' := t;
    if x in s.visited {
      forall u | 0 <= u < |g.succ| ensures Node(g, c0, root, s', t', u) {
        SkipNode(g, c0, root, s, t, u);
      }
      RootStays(g, c0, root, s, t);
    } else if x.1 {
      forall u | 0 <= u < |g.succ| ensures Node(g, c0, root, s', t', u) {
        CloseNode(g, c0, root, s, t, u);
      }
      RootStays(g, c0, root, s, t);
    } else {
      var v, pushed := OpenStack(g, c0, root, s, t);
      t' := Grow(t, g, s', v, pushed);
      OpenStackOk(g, c0, root, s, s', v, pushed);
      forall u | 0 <= u < |g.succ| ensures Node(g, c0, root, s', t', u) {
        OpenNode(g, c0, root, s, t, v, pushed, u);
      }
    }
  }

  lemma RootStays(g: Graph, c0: Cache, root: nat, s: Search, t: Tree)
    requires ValidGraph(g) && Inv(g, c0, root, s, t) && s.stack != []
    requires s.stack[|s.stack| - 1] in s.visited || s.stack[|s.stack| - 1].1
    ensures StackOk(g, c0, root, Step(g, s))
    ensures forall u: nat | u in Step(g, s).cache && u >= |g.succ| :: u in c0
    ensures forall u: nat | u in c0 :: u in Step(g, s).cache && Step(g, s).cache[u] == c0[u]
  {
  }

  // ------------------------------------------------------------------ the result

  /** When the stack is empty every seen value is closed, and its answer is part of the root's. */
  lemma {:induction false} FlowsToRoot(g: Graph, c0: Cache, root: nat, s: Search, t: Tree, u: nat)
    requires ValidGraph(g) && Inv(g, c0, root, s, t) && s.stack == []
    requires u < |g.succ| && Seen(s, u)
    ensures Closed(s, u) && Closed(s, root) && u in s.cache && root in s.cache && s.cache[u] <= s.cache[root]
    decreases if u in t.rank then t.rank[u] else 0
  {
    assert Node(g, c0, root, s, t, u) && Node(g, c0, root, s, t, root);
    if u != root {
      var p := t.par[u];
      assert Node(g, c0, root, s, t, p);
      FlowsToRoot(g, c0, root, s, t, p);
    }
  }

  lemma {:induction false} PathSeen(g: Graph, c0: Cache, root: nat, s: Search, t: Tree, p: seq<nat>, v: nat, u: nat)
    requires ValidGraph(g) && Inv(g, c0, root, s, t) && s.stack == [] && Path(g, c0, p, v, u) && Seen(s, v)
    ensures Seen(s, u)
  {
    if |p| > 1 {
      assert p[1] in g.succ[p[0]];
      assert Node(g, c0, root, s, t, v);
      PathSeen(g, c0, root, s, t, p[1..], p[1], u);
    }
  }

  /** MAIN RESULT: the cached answer of the queried value is exactly the complete answer relative to
      the cache at entry, on any graph; all other entries are kept or are subsets of theirs. */
  lemma SearchIsExact(g: Graph, c0: Cache, root: nat, s: Search, t: Tree)
    requires ValidGraph(g) && Inv(g, c0, root, s, t) && s.stack == []
    ensures root in s.cache
    ensures forall x :: x in s.cache[root] <==> InAnswer(g, c0, root, x)
    ensures forall u, x | u in s.cache && u !in c0 && x in s.cache[u] :: InAnswer(g, c0, u, x)
    ensures forall u | u in c0 :: u in s.cache && s.cache[u] == c0[u]
  {
    assert Node(g, c0, root, s, t, root);
    FlowsToRoot(g, c0, root, s, t, root);
    forall x | InAnswer(g, c0, root, x) ensures x in s.cache[root] {
      var u: nat :| Reaches(g, c0, root, u) && u < |g.succ| && x in Collect(g.own[u], g.succ[u], c0);
      var p :| Path(g, c0, p, root, u);
      PathSeen(g, c0, root, s, t, p, root, u);
      FlowsToRoot(g, c0, root, s, t, u);
      assert Node(g, c0, root, s, t, u);
    }
    forall u, x | u in s.cache && u !in c0 && x in s.cache[u] ensures InAnswer(g, c0, u, x) {
      assert u < |g.succ| && Node(g, c0, root, s, t, u);
    }
  }

  /** Pairs that may ever be visited. */
  function Universe(g: Graph): set<Item> {
    set v, b | 0 <= v < |g.succ| && b in {true, false} :: (v, b)
  }

  /** Termination: each iteration visits a new pair or shortens the stack. */
  lemma StepProgress(g: Graph, c0: Cache, root: nat, s: Search, t: Tree)
    requires ValidGraph(g) && Inv(g, c0, root, s, t) && s.stack != []
    ensures s.stack[|s.stack| - 1] in Universe(g)
    ensures var x := s.stack[|s.stack| - 1];
            if x in s.visited then Step(g, s).visited == s.visited && |Step(g, s).stack| < |s.stack|
            else Step(g, s).visited == s.visited + {x}
  {
    assert s.stack[|s.stack| - 1].1 in {true, false};
  }

  /** All that one iteration of the loop needs to know. */
  lemma Iteration(g: Graph, c0: Cache, root: nat, s: Search, t: Tree) returns (t': Tree)
    requires ValidGraph(g) && Inv(g, c0, root, s, t) && s.stack != []
    ensures var x := s.stack[|s.stack| - 1];
            && x.0 < |g.succ| && x.0 !in c0 && x in Universe(g)
            && Inv(g, c0, root, Step(g, s), t')
            && (x !in s.visited && x.1 ==> x.0 !in s.cache)
            && (if x in s.visited then Step(g, s).visited == s.visited && |Step(g, s).stack| < |s.stack|
                else Step(g, s).visited == s.visited + {x})
  {
    var x := s.stack[|s.stack| - 1];
    StepProgress(g, c0, root, s, t);
    t' := StepKeepsInv(g, c0, root, s, t);
    assert x in s.stack && Node(g, c0, root, s, t, x.0);
    assert x == (x.0, x.1);
  }

  // ------------------------------------------------- what a non-empty cache may and may not hold

  /** Every cached fact is really reachable. */
  ghost predicate Sound(g: Graph, cache: Cache)
    requires ValidGraph(g)
  {
    forall v: nat, x | v in cache && x in cache[v] :: InAnswer(g, map[], v, x)
  }

  lemma {:induction false} AnswerAlongPath(g: Graph, p: seq<nat>, v: nat, u: nat, x: nat)
    requires ValidGraph(g) && Path(g, map[], p, v, u) && InAnswer(g, map[], u, x)
    ensures InAnswer(g, map[], v, x)
  {
    if |p| > 1 {
      assert p[1] in g.succ[p[0]];
      AnswerAlongPath(g, p[1..], p[1], u, x);
      AnswerOfSuccessor(g, map[], v, p[1], x);
    }
  }

  /** An answer relative to a sound cache is sound. */
  lemma AnswerIsSound(g: Graph, cache: Cache, v: nat, x: nat)
    requires ValidGraph(g) && Sound(g, cache) && InAnswer(g, cache, v, x)
    ensures InAnswer(g, map[], v, x)
  {
    var u: nat :| Reaches(g, cache, v, u) && u < |g.succ| && x in Collect(g.own[u], g.succ[u], cache);
    var p :| Path(g, cache, p, v, u);
    assert Path(g, map[], p, v, u);
    if x in g.own[u] {
      OwnAnswer(g, map[], u, x);
    } else {
      var w :| w in g.succ[u] && w in cache && x in cache[w];
      AnswerOfSuccessor(g, map[], u, w, x);
    }
    AnswerAlongPath(g, p, v, u, x);
  }
}
