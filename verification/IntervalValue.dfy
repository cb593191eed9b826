/** The interval abstract domain (svf/include/AbstractExecution/IntervalValue.h): values, operators,
    lattice order, and the in-place operations. */
module IntervalValues {
  import opened NumericLiterals

  datatype Interval = Interval(lb: NumericLiteral, ub: NumericLiteral) {

    predicate IsTop() { lb.MinusInfinity? && ub.PlusInfinity? }

    predicate IsBottom() { !ub.Geq(lb) }

    predicate IsZero() { lb.IsZero() && ub.IsZero() }

    predicate IsNumeral() { lb == ub }

    /** `contains(n)` of the original. */
    predicate Contains(n: int) { lb.Leq(Finite(n)) && ub.Geq(Finite(n)) }

    predicate Leq(other: Interval) {
      if IsBottom() then true
      else if other.IsBottom() then false
      else other.lb.Leq(lb) && ub.Leq(other.ub)
    }

    predicate Geq(other: Interval) {
      if IsBottom() then true
      else if other.IsBottom() then false
      else other.lb.Geq(lb) && ub.Geq(other.ub)
    }

    predicate Equals(other: Interval) {
      if IsBottom() then other.IsBottom()
      else if other.IsBottom() then false
      else lb == other.lb && ub == other.ub
    }
  }

  const TOP := Interval(MinusInfinity, PlusInfinity)
  const BOTTOM := Interval(Finite(1), Finite(0))

  function Single(n: int): Interval { Interval(Finite(n), Finite(n)) }

  function Range(l: int, u: int): Interval { Interval(Finite(l), Finite(u)) }

  /** The invariant every operation relies on: a non-empty interval has members. */
  ghost predicate WellFormed(i: Interval) {
    i.IsBottom() || (i.lb != PlusInfinity && i.ub != MinusInfinity)
  }

  /** The concrete set an interval stands for. */
  ghost predicate Members(i: Interval, x: int) {
    i.lb.Leq(Finite(x)) && Finite(x).Leq(i.ub)
  }

  ghost predicate Subset(i: Interval, j: Interval) {
    forall x :: Members(i, x) ==> Members(j, x)
  }

  ghost predicate SameSet(i: Interval, j: Interval) {
    forall x :: Members(i, x) <==> Members(j, x)
  }

  lemma BottomIsEmpty(i: Interval)
    requires WellFormed(i)
    ensures i.IsBottom() <==> forall x :: !Members(i, x)
  {
    if !i.IsBottom() {
      var x := MemberAbove(i, 0);
      assert Members(i, x);
    }
  }

  /** A member that is at least `k` when the interval has no upper bound. */
  function MemberAbove(i: Interval, k: int): (x: int)
    requires WellFormed(i) && !i.IsBottom()
    ensures Members(i, x) && (i.ub.PlusInfinity? ==> x >= k)
  {
    match (i.lb, i.ub)
    case (_, Finite(u)) => u
    case (Finite(l), _) => if l >= k then l else k
    case _ => k
  }

  /** A member that is at most `k` when the interval has no lower bound. */
  function MemberBelow(i: Interval, k: int): (x: int)
    requires WellFormed(i) && !i.IsBottom()
    ensures Members(i, x) && (i.lb.MinusInfinity? ==> x <= k)
  {
    match (i.lb, i.ub)
    case (Finite(l), _) => l
    case (_, Finite(u)) => if u <= k then u else k
    case _ => k
  }

  // ------------------------------------------------------------ lattice operations

  function Join(a: Interval, b: Interval): Interval {
    if a.IsBottom() then (if b.IsBottom() then a else b)
    else if b.IsBottom() then a
    else Interval(Min(a.lb, b.lb), Max(a.ub, b.ub))
  }

  function Meet(a: Interval, b: Interval): Interval {
    if a.IsBottom() || b.IsBottom() then BOTTOM
    else
      var m := Interval(Max(a.lb, b.lb), Min(a.ub, b.ub));
      if m.IsBottom() then BOTTOM else m
  }

  function Widen(a: Interval, b: Interval): Interval {
    if a.IsBottom() then b
    else if b.IsBottom() then a
    else Interval(if !a.lb.Leq(b.lb) then MinusInfinity else a.lb,
                  if !a.ub.Geq(b.ub) then PlusInfinity else a.ub)
  }

  function Narrow(a: Interval, b: Interval): Interval {
    if a.IsBottom() || b.IsBottom() then BOTTOM
    else Interval(if a.lb.IsInfinity() then b.lb else a.lb,
                  if a.ub.IsInfinity() then b.ub else a.ub)
  }

  /** The mutable abstract value: each method overwrites the bounds of `this`. */
  class IntervalValue {
    var lb: NumericLiteral
    var ub: NumericLiteral

    function Value(): Interval
      reads this
    {
      Interval(lb, ub)
    }

    constructor (i: Interval)
      ensures Value() == i
    {
      lb, ub := i.lb, i.ub;
    }

    method SetToBottom()
      modifies this
      ensures Value() == BOTTOM
    {
      lb, ub := Finite(1), Finite(0);
    }

    method JoinWith(other: IntervalValue)
      modifies this
      ensures Value() == Join(old(Value()), old(other.Value()))
      ensures other != this ==> other.Value() == old(other.Value())
    {
      if Value().IsBottom() {
        if other.Value().IsBottom() {
          return;
        } else {
          lb := other.lb;
          ub := other.ub;
        }
      } else if other.Value().IsBottom() {
        return;
      } else {
        var l := Min(lb, other.lb);
        var u := Max(ub, other.ub);
        lb := l;
        ub := u;
      }
    }

    method WidenWith(other: IntervalValue)
      modifies this
      ensures Value() == Widen(old(Value()), old(other.Value()))
      ensures other != this ==> other.Value() == old(other.Value())
    {
      if Value().IsBottom() {
        lb := other.lb;
        ub := other.ub;
      } else if other.Value().IsBottom() {
        return;
      } else {
        var l := if !lb.Leq(other.lb) then MinusInfinity else lb;
        lb := l;
        ub := if !ub.Geq(other.ub) then PlusInfinity else ub;
      }
    }

    method NarrowWith(other: IntervalValue)
      modifies this
      ensures Value() == Narrow(old(Value()), old(other.Value()))
      ensures other != this ==> other.Value() == old(other.Value())
    {
      if Value().IsBottom() || other.Value().IsBottom() {
        SetToBottom();
      } else {
        lb := if lb.IsInfinity() then other.lb else lb;
        ub := if ub.IsInfinity() then other.ub else ub;
      }
    }

    method MeetWith(other: IntervalValue)
      modifies this
      ensures Value() == Meet(old(Value()), old(other.Value()))
      ensures other != this ==> other.Value() == old(other.Value())
    {
      if Value().IsBottom() || other.Value().IsBottom() {
        SetToBottom();
      } else {
        lb := Max(lb, other.lb);
        ub := Min(ub, other.ub);
        if Value().IsBottom() {
          SetToBottom();
        }
      }
    }
  }

  // ------------------------------------------------------------ lattice laws

  /** `leq` is exactly set inclusion. */
  lemma LeqIsInclusion(i: Interval, j: Interval)
    requires WellFormed(i) && WellFormed(j)
    ensures i.Leq(j) <==> Subset(i, j)
  {
    BottomIsEmpty(i);
    BottomIsEmpty(j);
    if !i.IsBottom() && !j.IsBottom() && Subset(i, j) {
      var x := MemberBelow(i, if j.lb.Finite? then j.lb.n - 1 else 0);
      assert Members(i, x);
      var y := MemberAbove(i, if j.ub.Finite? then j.ub.n + 1 else 0);
      assert Members(i, y);
    }
  }

  lemma EqualsIsSameSet(i: Interval, j: Interval)
    requires WellFormed(i) && WellFormed(j)
    ensures i.Equals(j) <==> SameSet(i, j)
  {
    LeqIsInclusion(i, j);
    LeqIsInclusion(j, i);
    BottomIsEmpty(i);
    BottomIsEmpty(j);
    if SameSet(i, j) {
      assert Subset(i, j) && Subset(j, i);
    }
  }

  ghost predicate IsConstant(i: Interval) {
    exists x :: SameSet(i, Single(x))
  }

  lemma ConstantMeans(i: Interval)
    requires WellFormed(i) && !i.IsBottom()
    ensures IsConstant(i) <==> i.IsNumeral()
  {
    if i.IsNumeral() {
      assert SameSet(i, Single(i.lb.n));
    }
    if x :| SameSet(i, Single(x)) {
      EqualsIsSameSet(i, Single(x));
    }
  }

  /** `geq` answers for an empty operand as if it were `leq`, so it is reversed inclusion exactly
      when both operands are empty or neither is. */
  lemma GeqIsInclusionExactlyWhen(i: Interval, j: Interval)
    requires WellFormed(i) && WellFormed(j)
    ensures (i.Geq(j) <==> Subset(j, i)) <==> (i.IsBottom() <==> j.IsBottom())
  {
    LeqIsInclusion(j, i);
    BottomIsEmpty(i);
    BottomIsEmpty(j);
  }

  lemma GeqWrongOnBottom()
    ensures BOTTOM.Geq(TOP) && !Subset(TOP, BOTTOM)
    ensures !TOP.Geq(BOTTOM) && Subset(BOTTOM, TOP)
  {
    assert Members(TOP, 0);
  }

  lemma JoinIsLeastUpperBound(a: Interval, b: Interval, c: Interval)
    requires WellFormed(a) && WellFormed(b) && WellFormed(c)
    ensures WellFormed(Join(a, b)) && Subset(a, Join(a, b)) && Subset(b, Join(a, b))
    ensures Subset(a, c) && Subset(b, c) ==> Subset(Join(a, b), c)
  {
    BottomIsEmpty(a);
    BottomIsEmpty(b);
    LeqIsInclusion(a, c);
    LeqIsInclusion(b, c);
    LeqIsInclusion(Join(a, b), c);
  }

  lemma MeetIsIntersection(a: Interval, b: Interval, x: int)
    requires WellFormed(a) && WellFormed(b)
    ensures WellFormed(Meet(a, b))
    ensures Members(Meet(a, b), x) <==> Members(a, x) && Members(b, x)
  {
  }

  lemma MeetIsGreatestLowerBound(a: Interval, b: Interval, c: Interval)
    requires WellFormed(a) && WellFormed(b) && WellFormed(c)
    ensures Subset(Meet(a, b), a) && Subset(Meet(a, b), b)
    ensures Subset(c, a) && Subset(c, b) ==> Subset(c, Meet(a, b))
  {
    forall x ensures Members(Meet(a, b), x) <==> Members(a, x) && Members(b, x) {
      MeetIsIntersection(a, b, x);
    }
  }

  // ------------------------------------------------------------ extrapolation

  lemma WidenIsUpperBound(a: Interval, b: Interval)
    requires WellFormed(a) && WellFormed(b)
    ensures WellFormed(Widen(a, b)) && Subset(a, Widen(a, b)) && Subset(b, Widen(a, b))
  {
    BottomIsEmpty(a);
    BottomIsEmpty(b);
  }

  // ------------------------------------------------------- extrapolation by members alone

  /** Not below all members. */
  ghost predicate NotBelow(i: Interval, k: int) {
    exists m :: Members(i, m) && m <= k
  }

  ghost predicate NotAbove(i: Interval, k: int) {
    exists m :: Members(i, m) && k <= m
  }

  ghost predicate IsLeastMember(i: Interval, n: int) {
    Members(i, n) && forall m | Members(i, m) :: n <= m
  }

  ghost predicate IsGreatestMember(i: Interval, n: int) {
    Members(i, n) && forall m | Members(i, m) :: m <= n
  }

  ghost predicate BoundedBelow(i: Interval) {
    exists n :: IsLeastMember(i, n)
  }

  ghost predicate BoundedAbove(i: Interval) {
    exists n :: IsGreatestMember(i, n)
  }

  lemma LeastIsLower(i: Interval)
    requires WellFormed(i) && !i.IsBottom()
    ensures forall n :: IsLeastMember(i, n) <==> i.lb == Finite(n)
    ensures forall n :: IsGreatestMember(i, n) <==> i.ub == Finite(n)
  {
    forall n ensures IsLeastMember(i, n) <==> i.lb == Finite(n) {
      assert Members(i, MemberBelow(i, n - 1));
    }
    forall n ensures IsGreatestMember(i, n) <==> i.ub == Finite(n) {
      assert Members(i, MemberAbove(i, n + 1));
    }
  }

  /** What these notions mean for the bounds. */
  lemma BoundsByMembers(i: Interval, k: int)
    requires WellFormed(i) && !i.IsBottom()
    ensures NotBelow(i, k) <==> i.lb.Leq(Finite(k))
    ensures NotAbove(i, k) <==> Finite(k).Leq(i.ub)
    ensures BoundedBelow(i) <==> i.lb.Finite?
    ensures BoundedAbove(i) <==> i.ub.Finite?
  {
    assert Members(i, MemberBelow(i, k)) && Members(i, MemberAbove(i, k));
    LeastIsLower(i);
    assert i.lb.Finite? ==> IsLeastMember(i, i.lb.n);
    assert i.ub.Finite? ==> IsGreatestMember(i, i.ub.n);
  }

  /** MAIN RESULT: widening keeps a bound that the second interval respects, and gives the other bound up;
      an empty interval changes nothing. */
  lemma WidenMembers(a: Interval, b: Interval, k: int)
    requires WellFormed(a) && WellFormed(b)
    ensures a.IsBottom() ==> (Members(Widen(a, b), k) <==> Members(b, k))
    ensures b.IsBottom() ==> (Members(Widen(a, b), k) <==> Members(a, k))
    ensures !a.IsBottom() && !b.IsBottom() ==>
              (Members(Widen(a, b), k) <==>
               && ((forall m | Members(b, m) :: NotBelow(a, m)) ==> NotBelow(a, k))
               && ((forall m | Members(b, m) :: NotAbove(a, m)) ==> NotAbove(a, k)))
  {
    BottomIsEmpty(a);
    BottomIsEmpty(b);
    if !a.IsBottom() && !b.IsBottom() {
      BoundsByMembers(a, k);
      RespectsBounds(a, b);
    }
  }

  lemma RespectsBounds(a: Interval, b: Interval)
    requires WellFormed(a) && WellFormed(b) && !a.IsBottom() && !b.IsBottom()
    ensures (forall m | Members(b, m) :: NotBelow(a, m)) <==> a.lb.Leq(b.lb)
    ensures (forall m | Members(b, m) :: NotAbove(a, m)) <==> b.ub.Leq(a.ub)
  {
    var lo := MemberBelow(b, if a.lb.Finite? then a.lb.n - 1 else 0);
    var hi := MemberAbove(b, if a.ub.Finite? then a.ub.n + 1 else 0);
    BoundsByMembers(a, lo);
    BoundsByMembers(a, hi);
    forall m | Members(b, m) ensures a.lb.Leq(b.lb) ==> NotBelow(a, m) {
      BoundsByMembers(a, m);
    }
    forall m | Members(b, m) ensures b.ub.Leq(a.ub) ==> NotAbove(a, m) {
      BoundsByMembers(a, m);
    }
  }

  /** MAIN RESULT: narrowing takes each bound from the first interval where that has one, and from the
      second otherwise; an empty interval makes it empty. */
  lemma NarrowMembers(a: Interval, b: Interval, k: int)
    requires WellFormed(a) && WellFormed(b)
    ensures a.IsBottom() || b.IsBottom() ==> !Members(Narrow(a, b), k)
    ensures !a.IsBottom() && !b.IsBottom() ==>
              (Members(Narrow(a, b), k) <==>
               NotBelow(if BoundedBelow(a) then a else b, k) && NotAbove(if BoundedAbove(a) then a else b, k))
  {
    if !a.IsBottom() && !b.IsBottom() {
      BoundsByMembers(a, k);
      BoundsByMembers(b, k);
    }
  }

  /** Where x has a least or a greatest member, z has the same. */
  ghost predicate KeepsBounds(x: Interval, z: Interval) {
    && (forall n | IsLeastMember(x, n) :: IsLeastMember(z, n))
    && (forall n | IsGreatestMember(x, n) :: IsGreatestMember(z, n))
  }

  /** How many more times a widening chain can change: one step out of bottom, one per bound. */
  function WidenRank(i: Interval): nat {
    if i.IsBottom() then 3
    else (if i.lb.MinusInfinity? then 0 else 1) + (if i.ub.PlusInfinity? then 0 else 1)
  }

  lemma WidenStep(a: Interval, b: Interval)
    requires WellFormed(a) && WellFormed(b)
    ensures SameSet(a, Widen(a, b)) || WidenRank(Widen(a, b)) < WidenRank(a)
  {
    BottomIsEmpty(a);
    BottomIsEmpty(b);
  }

  /** `chain` is what repeated extrapolation with the inputs `ys` produces. */
  ghost predicate WideningChain(chain: seq<Interval>, ys: seq<Interval>) {
    && |chain| == |ys| + 1
    && forall k | 0 <= k < |ys| :: chain[k + 1] == Widen(chain[k], ys[k])
  }

  ghost predicate NarrowingChain(chain: seq<Interval>, ys: seq<Interval>) {
    && |chain| == |ys| + 1
    && forall k | 0 <= k < |ys| :: chain[k + 1] == Narrow(chain[k], ys[k])
  }

  /** The number of steps of `chain` at which the set of members changes. */
  ghost function Changes(chain: seq<Interval>): nat {
    if |chain| <= 1 then 0
    else (if SameSet(chain[0], chain[1]) then 0 else 1) + Changes(chain[1..])
  }

  lemma {:induction false} WideningChangesAtMost(chain: seq<Interval>, ys: seq<Interval>)
    requires WideningChain(chain, ys) && WellFormed(chain[0])
    requires forall k | 0 <= k < |ys| :: WellFormed(ys[k])
    ensures Changes(chain) <= WidenRank(chain[0])
  {
    if |ys| > 0 {
      WidenIsUpperBound(chain[0], ys[0]);
      WidenStep(chain[0], ys[0]);
      if SameSet(chain[0], chain[1]) {
        RankOfSameSet(chain[0], chain[1]);
      }
      WideningChangesAtMost(chain[1..], ys[1..]);
    }
  }

  lemma RankOfSameSet(a: Interval, b: Interval)
    requires WellFormed(a) && WellFormed(b) && SameSet(a, b)
    ensures WidenRank(a) == WidenRank(b) && NarrowRank(a) == NarrowRank(b)
  {
    EqualsIsSameSet(a, b);
  }

  /** MAIN RESULT: whatever the inputs, widening stabilises after at most three changes. */
  lemma WideningTerminates(chain: seq<Interval>, ys: seq<Interval>)
    requires WideningChain(chain, ys) && WellFormed(chain[0])
    requires forall k | 0 <= k < |ys| :: WellFormed(ys[k])
    ensures Changes(chain) <= 3
  {
    WideningChangesAtMost(chain, ys);
  }

  /** Narrowing by something smaller stays between the two. */
  lemma NarrowStaysBetween(x: Interval, y: Interval)
    requires WellFormed(x) && WellFormed(y) && Subset(y, x)
    ensures WellFormed(Narrow(x, y)) && Subset(y, Narrow(x, y)) && Subset(Narrow(x, y), x)
  {
    LeqIsInclusion(y, x);
    BottomIsEmpty(x);
    BottomIsEmpty(y);
  }

  /** MAIN RESULT: narrowing by something smaller, y, keeps the finite bounds of x and nothing else that it
      need not keep: the result is the least interval around y with those bounds. */
  lemma NarrowIsLeast(x: Interval, y: Interval, z: Interval)
    requires WellFormed(x) && WellFormed(y) && Subset(y, x) && !y.IsBottom()
    ensures Subset(y, Narrow(x, y)) && KeepsBounds(x, Narrow(x, y))
    ensures WellFormed(z) && Subset(y, z) && KeepsBounds(x, z) ==> Subset(Narrow(x, y), z)
  {
    NarrowStaysBetween(x, y);
    LeqIsInclusion(y, x);
    BottomIsEmpty(x);
    BottomIsEmpty(y);
    LeastIsLower(x);
    LeastIsLower(Narrow(x, y));
    if WellFormed(z) && Subset(y, z) && KeepsBounds(x, z) {
      LeqIsInclusion(y, z);
      BottomIsEmpty(z);
      LeastIsLower(z);
      LeqIsInclusion(Narrow(x, y), z);
    }
  }

  function NarrowRank(i: Interval): nat {
    if i.IsBottom() then 0
    else 1 + (if i.lb.MinusInfinity? then 1 else 0) + (if i.ub.PlusInfinity? then 1 else 0)
  }

  lemma NarrowStep(a: Interval, b: Interval)
    requires WellFormed(a) && WellFormed(b)
    ensures WellFormed(Narrow(a, b))
    ensures SameSet(a, Narrow(a, b)) || NarrowRank(Narrow(a, b)) < NarrowRank(a)
  {
    BottomIsEmpty(a);
  }

  lemma {:induction false} NarrowingChangesAtMost(chain: seq<Interval>, ys: seq<Interval>)
    requires NarrowingChain(chain, ys) && WellFormed(chain[0])
    requires forall k | 0 <= k < |ys| :: WellFormed(ys[k])
    ensures Changes(chain) <= NarrowRank(chain[0])
  {
    if |ys| > 0 {
      NarrowStep(chain[0], ys[0]);
      if SameSet(chain[0], chain[1]) {
        RankOfSameSet(chain[0], chain[1]);
      }
      NarrowingChangesAtMost(chain[1..], ys[1..]);
    }
  }

  /** MAIN RESULT: the same bound for narrowing, again for arbitrary inputs. */
  lemma NarrowingTerminates(chain: seq<Interval>, ys: seq<Interval>)
    requires NarrowingChain(chain, ys) && WellFormed(chain[0])
    requires forall k | 0 <= k < |ys| :: WellFormed(ys[k])
    ensures Changes(chain) <= 3
  {
    NarrowingChangesAtMost(chain, ys);
  }
}
