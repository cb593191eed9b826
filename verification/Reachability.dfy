/** Paths over a successor relation, for the worklist loops. */
module Reachability {

  ghost predicate IsPath<T(!new)>(step: (T, T) -> bool, p: seq<T>, a: T, b: T) {
    && |p| > 0 && p[0] == a && p[|p| - 1] == b
    && forall i: nat | i + 1 < |p| :: step(p[i], p[i + 1])
  }

  /** b is a or can be reached from it. */
  ghost predicate Reaches<T(!new)>(step: (T, T) -> bool, a: T, b: T) {
    exists p :: IsPath(step, p, a, b)
  }

  ghost predicate Closed<T(!new)>(step: (T, T) -> bool, s: set<T>) {
    forall a, b | a in s && step(a, b) :: b in s
  }

  lemma ReachesItself<T(!new)>(step: (T, T) -> bool, a: T)
    ensures Reaches(step, a, a)
  {
    assert IsPath(step, [a], a, a);
  }

  lemma ReachesFurther<T(!new)>(step: (T, T) -> bool, a: T, b: T, c: T)
    requires Reaches(step, a, b) && step(b, c)
    ensures Reaches(step, a, c)
  {
    var p :| IsPath(step, p, a, b);
    assert IsPath(step, p + [c], a, c);
  }

  lemma ReachesTransitive<T(!new)>(step: (T, T) -> bool, a: T, b: T, c: T)
    requires Reaches(step, a, b) && Reaches(step, b, c)
    ensures Reaches(step, a, c)
  {
    var p :| IsPath(step, p, a, b);
    var q :| IsPath(step, q, b, c);
    var r := p + q[1..];
    forall i: nat | i + 1 < |r| ensures step(r[i], r[i + 1]) {
      if i + 1 >= |p| {
        var j: nat := i + 1 - |p|;
        assert r[i] == q[j] && r[i + 1] == q[j + 1];
      }
    }
    assert IsPath(step, r, a, c);
  }

  lemma ReachesBy<T(!new)>(step: (T, T) -> bool, a: T, b: T, c: T)
    requires step(a, b) && Reaches(step, b, c)
    ensures Reaches(step, a, c)
  {
    var p :| IsPath(step, p, b, c);
    assert IsPath(step, [a] + p, a, c);
  }

  lemma ReachesFirst<T(!new)>(step: (T, T) -> bool, a: T, c: T) returns (b: T)
    requires Reaches(step, a, c) && a != c
    ensures step(a, b) && Reaches(step, b, c)
  {
    var p :| IsPath(step, p, a, c);
    b := p[1];
    assert step(p[0], p[0 + 1]);
    assert IsPath(step, p[1..], b, c);
  }

  lemma ReachesLast<T(!new)>(step: (T, T) -> bool, a: T, c: T) returns (b: T)
    requires Reaches(step, a, c) && a != c
    ensures Reaches(step, a, b) && step(b, c)
  {
    var p :| IsPath(step, p, a, c);
    var n := |p| - 2;
    b := p[n];
    assert step(p[n], p[n + 1]);
    assert IsPath(step, p[..n + 1], a, b);
  }

  /** Steps that are paths of other steps lead nowhere else. */
  lemma ReachesThrough<T(!new)>(step: (T, T) -> bool, finer: (T, T) -> bool, a: T, b: T)
    requires Reaches(step, a, b) && forall x, y | step(x, y) :: Reaches(finer, x, y)
    ensures Reaches(finer, a, b)
  {
    var p :| IsPath(step, p, a, b);
    ReachesItself(finer, a);
    for i := 1 to |p|
      invariant Reaches(finer, a, p[i - 1])
    {
      assert step(p[i - 1], p[i - 1 + 1]);
      ReachesTransitive(finer, a, p[i - 1], p[i]);
    }
  }

  /** More steps reach no less. */
  lemma ReachesMore<T(!new)>(step: (T, T) -> bool, more: (T, T) -> bool, a: T, b: T)
    requires Reaches(step, a, b) && forall x, y | step(x, y) :: more(x, y)
    ensures Reaches(more, a, b)
  {
    var p :| IsPath(step, p, a, b);
    assert IsPath(more, p, a, b);
  }

  /** Nothing outside a closed set is reachable from inside. */
  lemma ClosedHoldsReachable<T(!new)>(step: (T, T) -> bool, s: set<T>, a: T, b: T)
    requires Closed(step, s) && a in s && Reaches(step, a, b)
    ensures b in s
  {
    var p :| IsPath(step, p, a, b);
    PathStaysInside(step, s, p, |p| - 1);
  }

  lemma {:induction false} PathStaysInside<T(!new)>(step: (T, T) -> bool, s: set<T>, p: seq<T>, k: nat)
    requires Closed(step, s) && k < |p| && p[0] in s && forall i: nat | i + 1 < |p| :: step(p[i], p[i + 1])
    ensures p[k] in s
  {
    if k > 0 {
      PathStaysInside(step, s, p, k - 1);
      assert step(p[k - 1], p[(k - 1) + 1]);
    }
  }

  ghost predicate Symmetric<T(!new)>(step: (T, T) -> bool) {
    forall a, b | step(a, b) :: step(b, a)
  }

  lemma ReachesBack<T(!new)>(step: (T, T) -> bool, a: T, b: T)
    requires Symmetric(step) && Reaches(step, a, b)
    ensures Reaches(step, b, a)
  {
    var p :| IsPath(step, p, a, b);
    var r := seq(|p|, i requires 0 <= i < |p| => p[|p| - 1 - i]);
    forall i: nat | i + 1 < |r| ensures step(r[i], r[i + 1]) {
      var j: nat := |p| - 2 - i;
      assert step(p[j], p[j + 1]);
    }
    assert IsPath(step, r, b, a);
  }

  /** FIFOWorkList::push: an element on the list is not pushed again. */
  function Push<T(==)>(list: seq<T>, x: T): seq<T> {
    if x in list then list else list + [x]
  }

  /** The numbers of all nodes. */
  function Ids(count: nat): (r: set<nat>)
    ensures forall k: nat :: k in r <==> k < count
  {
    if count == 0 then {} else Ids(count - 1) + {count - 1}
  }

  // ---------------------------------------------------------------- worklist searches

  function Elements<T(==)>(list: seq<T>): set<T> {
    set x | x in list
  }

  ghost predicate ReachedFrom<T(!new)>(step: (T, T) -> bool, starts: set<T>, x: T) {
    exists s | s in starts :: Reaches(step, s, x)
  }

  /** A search from `starts`: `touched` are the visited elements and those on the list. */
  ghost predicate Walking<T(!new)>(step: (T, T) -> bool, starts: set<T>, visited: set<T>, touched: set<T>,
                                   list: seq<T>) {
    && starts <= touched
    && touched == visited + Elements(list)
    && (forall x | x in touched :: ReachedFrom(step, starts, x))
    && (forall x, y | x in visited && step(x, y) :: y in touched)
  }

  lemma StartWalking<T(!new)>(step: (T, T) -> bool, starts: set<T>, list: seq<T>)
    requires Elements(list) == starts
    ensures Walking(step, starts, {}, starts, list)
  {
    forall x | x in starts ensures ReachedFrom(step, starts, x) {
      ReachesItself(step, x);
    }
  }

  lemma WalkOver<T(!new)>(
      step: (T, T) -> bool, starts: set<T>, visited: set<T>, touched: set<T>, list: seq<T>)
    requires Walking(step, starts, visited, touched, list) && list != [] && list[0] in visited
    ensures Walking(step, starts, visited, touched, list[1..])
  {
    ElementsOfRest(list);
  }

  lemma WalkOn<T(!new)>(step: (T, T) -> bool, starts: set<T>, visited: set<T>, touched: set<T>,
                                           list: seq<T>, next: set<T>, longer: seq<T>)
    requires Walking(step, starts, visited, touched, list) && list != []
    requires (forall y :: y in next <==> step(list[0], y)) && Elements(longer) == Elements(list[1..]) + next
    ensures Walking(step, starts, visited + {list[0]}, touched + next, longer)
  {
    var x := list[0];
    ElementsOfRest(list);
    Regroup(visited, x, Elements(list[1..]), next);
    forall y | y in next ensures ReachedFrom(step, starts, y) {
      ReachedFurther(step, starts, x, y);
    }
  }

  lemma Regroup<T(!new)>(visited: set<T>, x: T, rest: set<T>, next: set<T>)
    ensures visited + ({x} + rest) + next == (visited + {x}) + (rest + next)
  {
  }

  lemma ElementsOfRest<T(!new)>(list: seq<T>)
    requires list != []
    ensures Elements(list) == {list[0]} + Elements(list[1..])
  {
    assert list == [list[0]] + list[1..];
  }

  lemma ReachedFurther<T(!new)>(step: (T, T) -> bool, starts: set<T>, x: T, y: T)
    requires ReachedFrom(step, starts, x) && step(x, y)
    ensures ReachedFrom(step, starts, y)
  {
    var s :| s in starts && Reaches(step, s, x);
    ReachesFurther(step, s, x, y);
  }

  /** An ended search has visited what can be reached, and nothing else. */
  lemma WalkIsComplete<T(!new)>(step: (T, T) -> bool, starts: set<T>, visited: set<T>, touched: set<T>)
    requires Walking(step, starts, visited, touched, [])
    ensures touched == visited
    ensures forall x :: x in visited <==> ReachedFrom(step, starts, x)
  {
    assert Elements<T>([]) == {};
    assert Closed(step, visited);
    forall x | ReachedFrom(step, starts, x) ensures x in visited {
      var s :| s in starts && Reaches(step, s, x);
      ClosedHoldsReachable(step, visited, s, x);
    }
  }
}
