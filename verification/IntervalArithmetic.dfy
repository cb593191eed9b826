/** The arithmetic and comparison operators on intervals, their soundness for whole expressions, and
    the exactness of multiplication and division. */
module IntervalArithmetic {
  import opened NumericLiterals
  import opened IntervalValues
  import opened Wrappers

  function Truth(b: bool): Interval { if b then Single(1) else Single(0) }

  const EITHER := Range(0, 1)

  function FourCorners(ll: NumericLiteral, lu: NumericLiteral, ul: NumericLiteral, uu: NumericLiteral): Interval {
    Interval(MinOf([ll, lu, ul, uu]), MaxOf([ll, lu, ul, uu]))
  }

  function Add(l: Interval, r: Interval): Interval
    requires WellFormed(l) && WellFormed(r)
  {
    if l.IsBottom() || r.IsBottom() then BOTTOM
    else if l.IsTop() || r.IsTop() then TOP
    else Interval(l.lb.Add(r.lb), l.ub.Add(r.ub))
  }

  function Sub(l: Interval, r: Interval): Interval
    requires WellFormed(l) && WellFormed(r)
  {
    if l.IsBottom() || r.IsBottom() then BOTTOM
    else if l.IsTop() || r.IsTop() then TOP
    else Interval(l.lb.Sub(r.ub), l.ub.Sub(r.lb))
  }

  function Mul(l: Interval, r: Interval): Interval {
    if l.IsBottom() || r.IsBottom() then BOTTOM
    else FourCorners(l.lb.Mul(r.lb), l.lb.Mul(r.ub), l.ub.Mul(r.lb), l.ub.Mul(r.ub))
  }

  function Div(l: Interval, r: Interval): Interval {
    if l.IsBottom() || r.IsBottom() then BOTTOM
    else if r.Contains(0) then if l.IsZero() then Single(0) else TOP
    else FourCorners(l.lb.Div(r.lb), l.lb.Div(r.ub), l.ub.Div(r.lb), l.ub.Div(r.ub))
  }

  function Rem(l: Interval, r: Interval): Interval
    requires WellFormed(l) && WellFormed(r)
  {
    if l.IsBottom() || r.IsBottom() then BOTTOM
    else if r.Contains(0) then if l.IsZero() then Single(0) else TOP
    else if l.IsNumeral() && r.IsNumeral() then Interval(l.lb.Mod(r.lb), l.lb.Mod(r.lb))
    else
      var nUb := Max(l.lb.Abs(), l.ub.Abs());
      var dUb := Max(r.lb.Abs(), r.ub).Sub(Finite(1));
      var ub := Min(nUb, dUb);
      if l.lb.GetNumeral() < 0 then
        if l.ub.GetNumeral() > 0 then Interval(ub.Neg(), ub) else Interval(ub.Neg(), Finite(0))
      else Interval(Finite(0), ub)
  }

  function Eq(l: Interval, r: Interval): Interval {
    if l.IsBottom() || r.IsBottom() then BOTTOM
    else if l.IsTop() || r.IsTop() then TOP
    else if l.IsNumeral() && r.IsNumeral() then Truth(l.lb == r.lb)
    else if Meet(l, r).IsBottom() then Single(0)
    else EITHER
  }

  function Ne(l: Interval, r: Interval): Interval {
    if l.IsBottom() || r.IsBottom() then BOTTOM
    else if l.IsTop() || r.IsTop() then TOP
    else if l.IsNumeral() && r.IsNumeral() then Truth(l.lb != r.lb)
    else if !Meet(l, r).IsBottom() then EITHER
    else Single(1)
  }

  function Gt(l: Interval, r: Interval): Interval {
    if l.IsBottom() || r.IsBottom() then BOTTOM
    else if l.IsTop() || r.IsTop() then TOP
    else if l.IsNumeral() && r.IsNumeral() then Truth(!l.lb.Leq(r.lb))
    else if !l.lb.Leq(r.ub) then Single(1)
    else if l.ub.Leq(r.lb) then Single(0)
    else EITHER
  }

  function Lt(l: Interval, r: Interval): Interval {
    if l.IsBottom() || r.IsBottom() then BOTTOM
    else if l.IsTop() || r.IsTop() then TOP
    else if l.IsNumeral() && r.IsNumeral() then Truth(!l.lb.Geq(r.lb))
    else if !l.ub.Geq(r.lb) then Single(1)
    else if l.lb.Geq(r.ub) then Single(0)
    else EITHER
  }

  function Ge(l: Interval, r: Interval): Interval {
    if l.IsBottom() || r.IsBottom() then BOTTOM
    else if l.IsTop() || r.IsTop() then TOP
    else if l.IsNumeral() && r.IsNumeral() then Truth(l.lb.Geq(r.lb))
    else if l.lb.Geq(r.ub) then Single(1)
    else if !l.ub.Geq(r.lb) then Single(0)
    else EITHER
  }

  function Le(l: Interval, r: Interval): Interval {
    if l.IsBottom() || r.IsBottom() then BOTTOM
    else if l.IsTop() || r.IsTop() then TOP
    else if l.IsNumeral() && r.IsNumeral() then Truth(l.lb.Leq(r.lb))
    else if l.ub.Leq(r.lb) then Single(1)
    else if !l.lb.Leq(r.ub) then Single(0)
    else EITHER
  }

  // --------------------------------------------------------------- expressions

  datatype Operator = Plus | Minus | Times | Divide | Equal | Unequal | Greater | Less | GreaterEq | LessEq

  datatype Expr = Constant(n: int) | Variable(name: string) | Binary(op: Operator, l: Expr, r: Expr)

  function Bit(b: bool): int { if b then 1 else 0 }

  /** The concrete operator; only division by zero is undefined. */
  function Apply(op: Operator, x: int, y: int): Option<int> {
    match op
    case Plus => Some(x + y)
    case Minus => Some(x - y)
    case Times => Some(x * y)
    case Divide => if y == 0 then None else Some(x / y)
    case Equal => Some(Bit(x == y))
    case Unequal => Some(Bit(x != y))
    case Greater => Some(Bit(x > y))
    case Less => Some(Bit(x < y))
    case GreaterEq => Some(Bit(x >= y))
    case LessEq => Some(Bit(x <= y))
  }

  function AbstractApply(op: Operator, l: Interval, r: Interval): Interval
    requires WellFormed(l) && WellFormed(r)
  {
    match op
    case Plus => Add(l, r)
    case Minus => Sub(l, r)
    case Times => Mul(l, r)
    case Divide => Div(l, r)
    case Equal => Eq(l, r)
    case Unequal => Ne(l, r)
    case Greater => Gt(l, r)
    case Less => Lt(l, r)
    case GreaterEq => Ge(l, r)
    case LessEq => Le(l, r)
  }

  /** Undefined as soon as a variable is missing or a division by zero is met. */
  function Evaluate(e: Expr, env: map<string, int>): Option<int> {
    match e
    case Constant(n) => Some(n)
    case Variable(x) => if x in env then Some(env[x]) else None
    case Binary(op, l, r) =>
      match (Evaluate(l, env), Evaluate(r, env))
      case (Some(x), Some(y)) => Apply(op, x, y)
      case _ => None
  }

  ghost predicate WellFormedEnv(aenv: map<string, Interval>) {
    forall x | x in aenv :: WellFormed(aenv[x])
  }

  function AbstractEvaluate(e: Expr, aenv: map<string, Interval>): (i: Interval)
    requires WellFormedEnv(aenv)
    ensures WellFormed(i)
  {
    match e
    case Constant(n) => Single(n)
    case Variable(x) => if x in aenv then aenv[x] else TOP
    case Binary(op, l, r) =>
      var a, b := AbstractEvaluate(l, aenv), AbstractEvaluate(r, aenv);
      OperatorsKeepWellFormed(op, a, b);
      AbstractApply(op, a, b)
  }

  /** MAIN RESULT: the abstract value of a whole expression contains its concrete value whenever that
      is defined, for all intervals around the variables, infinite bounds included. */
  lemma {:induction false} EvaluationIsSound(e: Expr, env: map<string, int>, aenv: map<string, Interval>)
    requires WellFormedEnv(aenv)
    requires forall x | x in env && x in aenv :: Members(aenv[x], env[x])
    ensures Evaluate(e, env).Some? ==> Members(AbstractEvaluate(e, aenv), Evaluate(e, env).value)
  {
    if e.Binary? && Evaluate(e, env).Some? {
      EvaluationIsSound(e.l, env, aenv);
      EvaluationIsSound(e.r, env, aenv);
      OperatorIsSound(e.op, AbstractEvaluate(e.l, aenv), AbstractEvaluate(e.r, aenv),
                      Evaluate(e.l, env).value, Evaluate(e.r, env).value);
    }
  }

  lemma OperatorIsSound(op: Operator, l: Interval, r: Interval, x: int, y: int)
    requires WellFormed(l) && WellFormed(r) && Members(l, x) && Members(r, y)
    ensures Apply(op, x, y).Some? ==> Members(AbstractApply(op, l, r), Apply(op, x, y).value)
  {
    match op
    case Times => MulIsSound(l, r, x, y);
    case Divide => if y != 0 { DivIsSound(l, r, x, y); }
    case Plus => AddIsSound(l, r, x, y);
    case Minus => SubIsSound(l, r, x, y);
    case _ => ComparisonIsSound(op, l, r, x, y);
  }

  /** Nothing comes of operands without members. */
  lemma NothingFromNothing(op: Operator, l: Interval, r: Interval, v: int)
    requires WellFormed(l) && WellFormed(r) && Members(AbstractApply(op, l, r), v)
    ensures exists x, y :: Members(l, x) && Members(r, y)
  {
    assert !l.IsBottom() && !r.IsBottom();
    assert Members(l, MemberAbove(l, 0)) && Members(r, MemberAbove(r, 0));
  }

  lemma AddIsSound(l: Interval, r: Interval, x: int, y: int)
    requires WellFormed(l) && WellFormed(r) && Members(l, x) && Members(r, y)
    ensures Members(Add(l, r), x + y)
  {
  }

  lemma SubIsSound(l: Interval, r: Interval, x: int, y: int)
    requires WellFormed(l) && WellFormed(r) && Members(l, x) && Members(r, y)
    ensures Members(Sub(l, r), x - y)
  {
  }

  lemma ComparisonIsSound(op: Operator, l: Interval, r: Interval, x: int, y: int)
    requires WellFormed(l) && WellFormed(r) && Members(l, x) && Members(r, y)
    requires !op.Plus? && !op.Minus? && !op.Times? && !op.Divide?
    ensures Members(AbstractApply(op, l, r), Apply(op, x, y).value)
  {
    MeetIsIntersection(l, r, x);
  }

  // ---------------------------------------------------- exactness of comparisons and sums

  ghost predicate HasOutcome(op: Operator, l: Interval, r: Interval, v: int) {
    exists x, y :: Members(l, x) && Members(r, y) && Apply(op, x, y) == Some(v)
  }

  /** Members of `l` and `r` in a given order exist whenever the bounds leave room for them. */
  lemma OrderWitness(l: Interval, r: Interval, d: int) returns (x: int, y: int)
    requires WellFormed(l) && WellFormed(r) && !l.IsBottom() && !r.IsBottom()
    requires l.ub.Finite? && r.lb.Finite? ==> l.ub.n >= r.lb.n + d
    ensures Members(l, x) && Members(r, y) && x >= y + d
  {
    y := MemberBelow(r, if l.ub.Finite? then l.ub.n - d else 0);
    x := MemberAbove(l, y + d);
  }

  ghost predicate HasAll(i: Interval) {
    forall x :: Members(i, x)
  }

  lemma TopHasAll(i: Interval)
    requires WellFormed(i)
    ensures HasAll(i) <==> i.IsTop()
  {
    if !i.IsTop() {
      assert !Members(i, if i.lb.Finite? then i.lb.n - 1 else if i.ub.Finite? then i.ub.n + 1 else 0);
    }
  }

  /** A comparison answers exactly the set of possible outcomes; only when an operand has all numbers does
      it answer all numbers. */
  lemma ComparisonIsExact(op: Operator, l: Interval, r: Interval, b: int)
    requires WellFormed(l) && WellFormed(r)
    requires !op.Plus? && !op.Minus? && !op.Times? && !op.Divide?
    ensures Members(AbstractApply(op, l, r), b) <==>
            HasOutcome(op, l, r, b) ||
            ((HasAll(l) || HasAll(r)) && exists x, y :: Members(l, x) && Members(r, y))
  {
    TopHasAll(l);
    TopHasAll(r);
    if HasOutcome(op, l, r, b) {
      var x, y :| Members(l, x) && Members(r, y) && Apply(op, x, y) == Some(b);
      ComparisonIsSound(op, l, r, x, y);
    }
    if Members(AbstractApply(op, l, r), b) {
      NothingFromNothing(op, l, r, b);
      if !l.IsTop() && !r.IsTop() {
        assert !l.IsBottom() && !r.IsBottom();
        OutcomeWitness(op, l, r, b);
      }
    }
  }

  lemma OutcomeWitness(op: Operator, l: Interval, r: Interval, b: int)
    requires WellFormed(l) && WellFormed(r) && !l.IsTop() && !r.IsTop() && !l.IsBottom() && !r.IsBottom()
    requires !op.Plus? && !op.Minus? && !op.Times? && !op.Divide?
    requires Members(AbstractApply(op, l, r), b)
    ensures HasOutcome(op, l, r, b)
  {
    if (op.Equal? && b == 1) || (op.Unequal? && b == 0) {
      var m := Meet(l, r);
      var x := MemberAbove(m, 0);
      MeetIsIntersection(l, r, x);
      assert Apply(op, x, x) == Some(b);
    } else if (op.Greater? && b == 1) || (op.LessEq? && b == 0) {
      var x, y := OrderWitness(l, r, 1);
      assert Apply(op, x, y) == Some(b);
    } else if (op.GreaterEq? && b == 1) || (op.Less? && b == 0) {
      var x, y := OrderWitness(l, r, 0);
      assert Apply(op, x, y) == Some(b);
    } else if (op.Less? && b == 1) || (op.GreaterEq? && b == 0) {
      var y, x := OrderWitness(r, l, 1);
      assert Apply(op, x, y) == Some(b);
    } else if (op.LessEq? && b == 1) || (op.Greater? && b == 0) {
      var y, x := OrderWitness(r, l, 0);
      assert Apply(op, x, y) == Some(b);
    } else {
      UnequalWitness(op, l, r, b);
    }
  }

  lemma UnequalWitness(op: Operator, l: Interval, r: Interval, b: int)
    requires WellFormed(l) && WellFormed(r) && !l.IsTop() && !r.IsTop() && !l.IsBottom() && !r.IsBottom()
    requires (op.Equal? && b == 0) || (op.Unequal? && b == 1)
    requires Members(AbstractApply(op, l, r), b)
    ensures HasOutcome(op, l, r, b)
  {
    if l.ub.Finite? && r.lb.Finite? && l.ub.n < r.lb.n + 1 {
      var y, x := OrderWitness(r, l, 1);
      assert Apply(op, x, y) == Some(b);
    } else {
      var x, y := OrderWitness(l, r, 1);
      assert Apply(op, x, y) == Some(b);
    }
  }

  /** What is added to the left operand: a difference adds the mirrored right operand. */
  function Addend(op: Operator, r: Interval): Interval {
    if op.Plus? then r else Interval(r.ub.Neg(), r.lb.Neg())
  }

  lemma Outcome(op: Operator, l: Interval, r: Interval, x: int, y: int)
    requires (op.Plus? || op.Minus?) && Members(l, x) && Members(Addend(op, r), y)
    ensures HasOutcome(op, l, r, x + y)
  {
    assert Members(r, if op.Plus? then y else -y);
    assert Apply(op, x, if op.Plus? then y else -y) == Some(x + y);
  }

  ghost predicate HasOutcomeBeyond(op: Operator, l: Interval, r: Interval, k: int, up: bool) {
    exists v :: (if up then v >= k else v <= k) && HasOutcome(op, l, r, v)
  }

  /** Sums and differences are exact as well: a finite bound is reached, an infinite one exceeded. */
  lemma SumUpperBoundIsExact(op: Operator, l: Interval, r: Interval, k: int)
    requires WellFormed(l) && WellFormed(r) && !l.IsBottom() && !r.IsBottom() && (op.Plus? || op.Minus?)
    ensures var u := AbstractApply(op, l, r).ub;
            if u.Finite? then HasOutcome(op, l, r, u.n) else HasOutcomeBeyond(op, l, r, k, true)
  {
    var m := Addend(op, r);
    assert WellFormed(m) && !m.IsBottom();
    if l.ub.Finite? && m.ub.Finite? {
      Outcome(op, l, r, l.ub.n, m.ub.n);
    } else if l.ub.PlusInfinity? {
      var y := MemberAbove(m, 0);
      Outcome(op, l, r, MemberAbove(l, k - y), y);
    } else {
      var x := MemberAbove(l, 0);
      Outcome(op, l, r, x, MemberAbove(m, k - x));
    }
  }

  lemma SumLowerBoundIsExact(op: Operator, l: Interval, r: Interval, k: int)
    requires WellFormed(l) && WellFormed(r) && !l.IsBottom() && !r.IsBottom() && (op.Plus? || op.Minus?)
    ensures var b := AbstractApply(op, l, r).lb;
            if b.Finite? then HasOutcome(op, l, r, b.n) else HasOutcomeBeyond(op, l, r, k, false)
  {
    var m := Addend(op, r);
    assert WellFormed(m) && !m.IsBottom();
    if l.lb.Finite? && m.lb.Finite? {
      Outcome(op, l, r, l.lb.n, m.lb.n);
    } else if l.lb.MinusInfinity? {
      var y := MemberBelow(m, 0);
      Outcome(op, l, r, MemberBelow(l, k - y), y);
    } else {
      var x := MemberBelow(l, 0);
      Outcome(op, l, r, x, MemberBelow(m, k - x));
    }
  }

  // ------------------------------------------------------------ multiplication

  /** A product with one factor between two others lies between the two products. */
  lemma MulBetween(a: NumericLiteral, c: NumericLiteral, d: NumericLiteral, y: NumericLiteral)
    requires c.Leq(y) && y.Leq(d)
    ensures Min(a.Mul(c), a.Mul(d)).Leq(a.Mul(y)) && a.Mul(y).Leq(Max(a.Mul(c), a.Mul(d)))
  {
    MulMonotone(a, c, y);
    MulMonotone(a, y, d);
  }

  lemma FourBounds(p: NumericLiteral, q: NumericLiteral, v: NumericLiteral,
                   ll: NumericLiteral, lu: NumericLiteral, ul: NumericLiteral, uu: NumericLiteral)
    requires Min(ll, lu).Leq(p) && p.Leq(Max(ll, lu))
    requires Min(ul, uu).Leq(q) && q.Leq(Max(ul, uu))
    requires Min(p, q).Leq(v) && v.Leq(Max(p, q))
    ensures FourCorners(ll, lu, ul, uu).lb.Leq(v) && v.Leq(FourCorners(ll, lu, ul, uu).ub)
  {
    var h := FourCorners(ll, lu, ul, uu);
    CornersWithin(ll, lu, ul, uu);
    BoundsThrough(h.lb, h.ub, ll, lu, p);
    BoundsThrough(h.lb, h.ub, ul, uu, q);
    BoundsThrough(h.lb, h.ub, p, q, v);
  }

  lemma CornersWithin(ll: NumericLiteral, lu: NumericLiteral, ul: NumericLiteral, uu: NumericLiteral)
    ensures forall c | c in [ll, lu, ul, uu] ::
              FourCorners(ll, lu, ul, uu).lb.Leq(c) && c.Leq(FourCorners(ll, lu, ul, uu).ub)
    ensures ll in [ll, lu, ul, uu] && lu in [ll, lu, ul, uu] && ul in [ll, lu, ul, uu] && uu in [ll, lu, ul, uu]
  {
    var l := [ll, lu, ul, uu];
    assert l[0] == ll && l[1] == lu && l[2] == ul && l[3] == uu;
  }

  lemma BoundsThrough(lo: NumericLiteral, hi: NumericLiteral, a: NumericLiteral, b: NumericLiteral, v: NumericLiteral)
    requires lo.Leq(a) && lo.Leq(b) && a.Leq(hi) && b.Leq(hi)
    requires Min(a, b).Leq(v) && v.Leq(Max(a, b))
    ensures lo.Leq(v) && v.Leq(hi)
  {
  }

  /** A product of two factors, each between two others. */
  lemma MulCorners(a: NumericLiteral, b: NumericLiteral, c: NumericLiteral, d: NumericLiteral, x: int, y: int)
    requires a.Leq(Finite(x)) && Finite(x).Leq(b)
    ensures Min(a.Mul(Finite(y)), b.Mul(Finite(y))).Leq(Finite(x * y))
    ensures Finite(x * y).Leq(Max(a.Mul(Finite(y)), b.Mul(Finite(y))))
  {
    MulBetween(Finite(y), a, b, Finite(x));
    MulCommutes(Finite(y), a);
    MulCommutes(Finite(y), b);
    assert Finite(y).Mul(Finite(x)) == Finite(x * y);
  }

  lemma MulIsSound(l: Interval, r: Interval, x: int, y: int)
    requires Members(l, x) && Members(r, y)
    ensures Members(Mul(l, r), x * y)
  {
    var p, q := l.lb.Mul(Finite(y)), l.ub.Mul(Finite(y));
    var ll, lu, ul, uu := l.lb.Mul(r.lb), l.lb.Mul(r.ub), l.ub.Mul(r.lb), l.ub.Mul(r.ub);
    assert Min(ll, lu).Leq(p) && p.Leq(Max(ll, lu)) by { MulBetween(l.lb, r.lb, r.ub, Finite(y)); }
    assert Min(ul, uu).Leq(q) && q.Leq(Max(ul, uu)) by { MulBetween(l.ub, r.lb, r.ub, Finite(y)); }
    assert Min(p, q).Leq(Finite(x * y)) && Finite(x * y).Leq(Max(p, q)) by { MulCorners(l.lb, l.ub, r.lb, r.ub, x, y); }
    FourBounds(p, q, Finite(x * y), ll, lu, ul, uu);
    assert !l.IsBottom() && !r.IsBottom();
  }

  function Product(x: int, y: int): int { x * y }

  ghost predicate HasProduct(l: Interval, r: Interval, v: int) {
    exists x, y :: Members(l, x) && Members(r, y) && Product(x, y) == v
  }

  ghost predicate HasProductAtLeast(l: Interval, r: Interval, k: int) {
    exists x, y :: Members(l, x) && Members(r, y) && Product(x, y) >= k
  }

  ghost predicate HasProductAtMost(l: Interval, r: Interval, k: int) {
    exists x, y :: Members(l, x) && Members(r, y) && Product(x, y) <= k
  }

  /** Products of members reach `bound` when it is finite and exceed everything when it is infinite. */
  ghost predicate Approached(l: Interval, r: Interval, bound: NumericLiteral) {
    match bound
    case Finite(v) => HasProduct(l, r, v)
    case PlusInfinity => forall k :: HasProductAtLeast(l, r, k)
    case MinusInfinity => forall k :: HasProductAtMost(l, r, k)
  }

  predicate BoundOf(i: Interval, p: NumericLiteral) {
    p == i.lb || p == i.ub
  }

  /** `x` is `p`, or at least `k` beyond zero on the side of an infinite `p`. */
  predicate CloseTo(p: NumericLiteral, x: int, k: int) {
    match p
    case Finite(v) => x == v
    case PlusInfinity => x >= k
    case MinusInfinity => x <= -k
  }

  function Near(i: Interval, p: NumericLiteral, k: int): (x: int)
    requires WellFormed(i) && !i.IsBottom() && BoundOf(i, p)
    ensures Members(i, x) && CloseTo(p, x, k)
  {
    match p
    case Finite(v) => v
    case PlusInfinity => MemberAbove(i, k)
    case MinusInfinity => MemberBelow(i, -k)
  }

  lemma ProductNear(p: NumericLiteral, q: NumericLiteral, x: int, y: int, k: int)
    requires CloseTo(p, x, k) && CloseTo(q, y, k) && k >= 1
    ensures CloseTo(p.Mul(q), x * y, k)
  {
    if !p.IsZero() && !q.IsZero() && !(p.Finite? && q.Finite?) {
      LargeProduct(x, y, k);
    }
  }

  lemma LargeProduct(x: int, y: int, k: int)
    requires k >= 1
    ensures (x >= k && y >= 1) || (x >= 1 && y >= k) || (x <= -k && y <= -1) || (x <= -1 && y <= -k) ==> x * y >= k
    ensures (x >= k && y <= -1) || (x >= 1 && y <= -k) || (x <= -k && y >= 1) || (x <= -1 && y >= k) ==> x * y <= -k
  {
    var ax, ay := if x < 0 then -x else x, if y < 0 then -y else y;
    if ax >= k && ay >= 1 {
      LemmaMulLe(1, ay, ax);
    } else if ax >= 1 && ay >= k {
      LemmaMulLe(1, ax, ay);
    }
  }

  lemma CornerApproached(l: Interval, r: Interval, p: NumericLiteral, q: NumericLiteral)
    requires WellFormed(l) && WellFormed(r) && !l.IsBottom() && !r.IsBottom()
    requires BoundOf(l, p) && BoundOf(r, q)
    ensures Approached(l, r, p.Mul(q))
  {
    match p.Mul(q)
    case Finite(v) =>
      CornerWitness(l, r, p, q, 1);
    case PlusInfinity =>
      forall k ensures HasProductAtLeast(l, r, k) {
        CornerWitness(l, r, p, q, if k < 1 then 1 else k);
      }
    case MinusInfinity =>
      forall k ensures HasProductAtMost(l, r, k) {
        CornerWitness(l, r, p, q, if k < -1 then -k else 1);
      }
  }

  lemma CornerWitness(l: Interval, r: Interval, p: NumericLiteral, q: NumericLiteral, k: int)
    requires WellFormed(l) && WellFormed(r) && !l.IsBottom() && !r.IsBottom()
    requires BoundOf(l, p) && BoundOf(r, q) && k >= 1
    ensures exists x, y :: Members(l, x) && Members(r, y) && CloseTo(p.Mul(q), Product(x, y), k)
  {
    var x, y := Near(l, p, k), Near(r, q, k);
    ProductNear(p, q, x, y, k);
    assert CloseTo(p.Mul(q), Product(x, y), k);
  }

  /** MAIN RESULT: multiplication yields exactly the hull of all products: every product lies inside,
      a finite bound is a product, an infinite bound means unbounded products. */
  lemma MultiplicationIsExact(l: Interval, r: Interval)
    requires WellFormed(l) && WellFormed(r) && !l.IsBottom() && !r.IsBottom()
    ensures forall x, y :: Members(l, x) && Members(r, y) ==> Members(Mul(l, r), Product(x, y))
    ensures Approached(l, r, Mul(l, r).lb) && Approached(l, r, Mul(l, r).ub)
  {
    forall x, y | Members(l, x) && Members(r, y) ensures Members(Mul(l, r), Product(x, y)) {
      MulIsSound(l, r, x, y);
    }
    BoundsAreCorners(l, r, Mul(l, r).lb);
    BoundsAreCorners(l, r, Mul(l, r).ub);
  }

  lemma BoundsAreCorners(l: Interval, r: Interval, m: NumericLiteral)
    requires WellFormed(l) && WellFormed(r) && !l.IsBottom() && !r.IsBottom() && BoundOf(Mul(l, r), m)
    ensures Approached(l, r, m)
  {
    NotInfiniteCorners(l, r);
    CornerApproached(l, r, l.lb, r.lb);
    CornerApproached(l, r, l.lb, r.ub);
    CornerApproached(l, r, l.ub, r.lb);
    CornerApproached(l, r, l.ub, r.ub);
  }

  lemma NotInfiniteCorners(l: Interval, r: Interval)
    requires WellFormed(l) && WellFormed(r) && !l.IsBottom() && !r.IsBottom()
    ensures Mul(l, r).lb in [l.lb.Mul(r.lb), l.lb.Mul(r.ub), l.ub.Mul(r.lb), l.ub.Mul(r.ub)]
    ensures Mul(l, r).ub in [l.lb.Mul(r.lb), l.lb.Mul(r.ub), l.ub.Mul(r.lb), l.ub.Mul(r.ub)]
  {
    var corners := [l.lb.Mul(r.lb), l.lb.Mul(r.ub), l.ub.Mul(r.lb), l.ub.Mul(r.ub)];
    assert MinOf(corners).Leq(corners[0]) && corners[0].Leq(MaxOf(corners));
    assert corners[0] in corners;
  }

  // ------------------------------------------------------------------- division

  /** A quotient with its divisor between two others of one sign, infinities included. */
  lemma DivBetween(a: NumericLiteral, c: NumericLiteral, d: NumericLiteral, y: int)
    requires c.Leq(Finite(y)) && Finite(y).Leq(d) && y != 0
    requires !c.Leq(Finite(0)) || !d.Geq(Finite(0))
    ensures Min(a.Div(c), a.Div(d)).Leq(a.Div(Finite(y))) && a.Div(Finite(y)).Leq(Max(a.Div(c), a.Div(d)))
  {
    if a.Finite? {
      if y > 0 {
        DivMonotoneDenominator(a.n, c.n, y);
        if d.Finite? {
          DivMonotoneDenominator(a.n, y, d.n);
        }
      } else {
        DivNegative(a.n, y);
        DivNegative(a.n, d.n);
        DivMonotoneDenominator(a.n, -d.n, -y);
        if c.Finite? {
          DivNegative(a.n, c.n);
          DivMonotoneDenominator(a.n, -y, -c.n);
        }
      }
    }
  }

  /** A quotient with its dividend between two others. */
  lemma DivNumeratorBetween(a: NumericLiteral, b: NumericLiteral, x: int, y: int)
    requires a.Leq(Finite(x)) && Finite(x).Leq(b) && y != 0
    ensures Min(a.Div(Finite(y)), b.Div(Finite(y))).Leq(Finite(x / y))
    ensures Finite(x / y).Leq(Max(a.Div(Finite(y)), b.Div(Finite(y))))
  {
    var s := if y > 0 then y else -y;
    if y < 0 {
      DivNegative(x, y);
    }
    if a.Finite? {
      DivMonotoneNumerator(a.n, x, s);
      if y < 0 {
        DivNegative(a.n, y);
      }
    }
    if b.Finite? {
      DivMonotoneNumerator(x, b.n, s);
      if y < 0 {
        DivNegative(b.n, y);
      }
    }
  }

  lemma DivIsSound(l: Interval, r: Interval, x: int, y: int)
    requires Members(l, x) && Members(r, y) && y != 0
    ensures Members(Div(l, r), x / y)
  {
    if !r.Contains(0) {
      DivBetween(l.lb, r.lb, r.ub, y);
      DivBetween(l.ub, r.lb, r.ub, y);
      DivNumeratorBetween(l.lb, l.ub, x, y);
      FourBounds(l.lb.Div(Finite(y)), l.ub.Div(Finite(y)), Finite(x / y),
                 l.lb.Div(r.lb), l.lb.Div(r.ub), l.ub.Div(r.lb), l.ub.Div(r.ub));
    }
  }

  /** A bound that outcomes reach when it is finite and exceed when it is infinite. */
  ghost predicate Attained(op: Operator, l: Interval, r: Interval, bound: NumericLiteral) {
    match bound
    case Finite(v) => HasOutcome(op, l, r, v)
    case PlusInfinity => forall k :: HasOutcomeBeyond(op, l, r, k, true)
    case MinusInfinity => forall k :: HasOutcomeBeyond(op, l, r, k, false)
  }

  lemma Quotient(l: Interval, r: Interval, x: int, y: int)
    requires Members(l, x) && Members(r, y) && y != 0
    ensures HasOutcome(Divide, l, r, x / y)
  {
    assert Apply(Divide, x, y) == Some(x / y);
  }

  /** A dividend far out gives a quotient at least as far out. */
  lemma LargeQuotient(x: int, y: int, k: int, far: int)
    requires y != 0 && k >= 0 && far == AbsOf(y) * k
    ensures x >= far ==> if y > 0 then x / y >= k else x / y <= -k
    ensures x <= -far ==> if y > 0 then x / y <= -k else x / y >= k
  {
    var s: int := AbsOf(y);
    if y < 0 {
      DivNegative(x, y);
    }
    if x >= far {
      QuotientAtLeast(x, s, k);
    } else if x <= -far {
      DivMonotoneNumerator(x, -far, s);
      ExactQuotient(-far, s, -k);
    }
  }

  lemma ExactQuotient(x: int, y: int, k: int)
    requires y > 0 && x == y * k
    ensures x / y == k
  {
    QuotientAtLeast(x, y, k);
  }

  lemma SmallDividend(x: nat, y: int)
    requires x < AbsOf(y)
    ensures y != 0 && x / y == 0
  {
    if y < 0 {
      DivNegative(x, y);
    }
  }

  lemma InfiniteDividend(l: Interval, r: Interval, p: NumericLiteral, q: NumericLiteral)
    requires WellFormed(l) && WellFormed(r) && !l.IsBottom() && !r.IsBottom() && !r.Contains(0)
    requires BoundOf(l, p) && BoundOf(r, q) && !p.Finite?
    ensures Attained(Divide, l, r, p.Div(q))
  {
    var y := Near(r, q, 1);
    assert p.Div(q).PlusInfinity? <==> (p.PlusInfinity? <==> y > 0);
    forall k ensures HasOutcomeBeyond(Divide, l, r, k, p.Div(q).PlusInfinity?) {
      var x := FarDividend(l, p, y, k);
      Quotient(l, r, x, y);
    }
  }

  lemma FarDividend(l: Interval, p: NumericLiteral, y: int, k: int) returns (x: int)
    requires WellFormed(l) && !l.IsBottom() && BoundOf(l, p) && !p.Finite? && y != 0
    ensures Members(l, x) && if p.PlusInfinity? <==> y > 0 then x / y >= k else x / y <= k
  {
    var far := AbsOf(y) * AbsOf(k);
    x := Near(l, p, far);
    LargeQuotient(x, y, AbsOf(k), far);
  }

  lemma QuotientCorner(l: Interval, r: Interval, p: NumericLiteral, q: NumericLiteral)
    requires WellFormed(l) && WellFormed(r) && !l.IsBottom() && !r.IsBottom() && !r.Contains(0)
    requires BoundOf(l, p) && BoundOf(r, q) && (q.Finite? || Finite(0).Leq(l.ub))
    ensures Attained(Divide, l, r, p.Div(q))
  {
    if !p.Finite? {
      InfiniteDividend(l, r, p, q);
    } else if q.Finite? {
      Quotient(l, r, p.n, q.n);
    } else {
      var x := MemberAbove(l, 0);
      var y := Near(r, q, x + 1);
      SmallDividend(x, y);
      Quotient(l, r, x, y);
    }
  }

  lemma DivBoundsAreCorners(l: Interval, r: Interval)
    requires WellFormed(l) && WellFormed(r) && !l.IsBottom() && !r.IsBottom() && !r.Contains(0)
    ensures Div(l, r).lb in [l.lb.Div(r.lb), l.lb.Div(r.ub), l.ub.Div(r.lb), l.ub.Div(r.ub)]
    ensures Div(l, r).ub in [l.lb.Div(r.lb), l.lb.Div(r.ub), l.ub.Div(r.lb), l.ub.Div(r.ub)]
  {
    var corners := [l.lb.Div(r.lb), l.lb.Div(r.ub), l.ub.Div(r.lb), l.ub.Div(r.ub)];
    assert MinOf(corners).Leq(corners[0]) && corners[0].Leq(MaxOf(corners));
    assert corners[0] in corners;
  }

  /** MAIN RESULT: without zero among the divisors, division yields exactly the hull of the quotients if and
      only if the divisors are bounded or some dividend is not negative. A negative dividend over ever larger
      divisors stays at -1 or 1, where the literals answer 0. */
  lemma DivisionIsExactExactlyWhen(l: Interval, r: Interval)
    requires WellFormed(l) && WellFormed(r) && !l.IsBottom() && !r.IsBottom() && !r.Contains(0)
    ensures Attained(Divide, l, r, Div(l, r).lb) && Attained(Divide, l, r, Div(l, r).ub) <==>
            (r.lb.Finite? && r.ub.Finite?) || exists x :: x >= 0 && Members(l, x)
  {
    assert (exists x :: x >= 0 && Members(l, x)) <==> Finite(0).Leq(l.ub) by {
      if Finite(0).Leq(l.ub) {
        assert MemberAbove(l, 0) >= 0;
      }
    }
    if (r.lb.Finite? && r.ub.Finite?) || Finite(0).Leq(l.ub) {
      DivBoundsAreCorners(l, r);
      QuotientCorner(l, r, l.lb, r.lb);
      QuotientCorner(l, r, l.lb, r.ub);
      QuotientCorner(l, r, l.ub, r.lb);
      QuotientCorner(l, r, l.ub, r.ub);
    } else {
      ZeroIsNotAttained(l, r);
    }
  }

  lemma ZeroIsNotAttained(l: Interval, r: Interval)
    requires WellFormed(l) && WellFormed(r) && !l.IsBottom() && !r.IsBottom() && !r.Contains(0)
    requires !(r.lb.Finite? && r.ub.Finite?) && !Finite(0).Leq(l.ub)
    ensures !(Attained(Divide, l, r, Div(l, r).lb) && Attained(Divide, l, r, Div(l, r).ub))
  {
    CornersWithin(l.lb.Div(r.lb), l.lb.Div(r.ub), l.ub.Div(r.lb), l.ub.Div(r.ub));
    forall v | HasOutcome(Divide, l, r, v) ensures if r.ub.PlusInfinity? then v < 0 else v > 0 {
      var x, y :| Members(l, x) && Members(r, y) && Apply(Divide, x, y) == Some(v);
      NegativeDividend(x, y);
    }
    if r.ub.PlusInfinity? {
      assert Finite(0).Leq(Div(l, r).ub);
      assert !HasOutcomeBeyond(Divide, l, r, 0, true);
    } else {
      assert Div(l, r).lb.Leq(Finite(0));
      assert !HasOutcomeBeyond(Divide, l, r, 0, false);
    }
  }

  lemma NegativeDividend(x: int, y: int)
    requires x < 0 && y != 0
    ensures if y > 0 then x / y < 0 else x / y > 0
  {
    if y > 0 {
      DivMonotoneDenominator(x, y, y);
    } else {
      DivNegative(x, y);
      DivMonotoneDenominator(x, -y, -y);
    }
  }

  /** With zero among the divisors every number is possible, unless zero is the only dividend. */
  lemma DivisionByZero(l: Interval, r: Interval, v: int)
    requires WellFormed(l) && WellFormed(r) && Members(r, 0)
    ensures Members(Div(l, r), v) <==>
            (exists x :: Members(l, x) && x != 0) || (v == 0 && Members(l, 0))
  {
    if !l.IsBottom() && !l.IsZero() {
      var x := if l.ub.IsZero() then MemberBelow(l, -1) else MemberAbove(l, 1);
      assert Members(l, x) && x != 0;
    }
  }

  // -------------------------------------------------------- the invariant is kept

  /** An interval with a member is well-formed. */
  lemma MemberMakesWellFormed(i: Interval, x: int)
    requires Members(i, x)
    ensures WellFormed(i)
  {
  }

  lemma OperatorsKeepWellFormed(op: Operator, l: Interval, r: Interval)
    requires WellFormed(l) && WellFormed(r)
    ensures WellFormed(AbstractApply(op, l, r))
  {
    if !l.IsBottom() && !r.IsBottom() {
      var x, y := MemberAbove(l, 0), MemberAbove(r, 1);
      match op {
        case Divide =>
          if y == 0 || r.Contains(0) {
          } else {
            DivIsSound(l, r, x, y);
            MemberMakesWellFormed(Div(l, r), x / y);
          }
        case _ =>
          OperatorIsSound(op, l, r, x, y);
          MemberMakesWellFormed(AbstractApply(op, l, r), Apply(op, x, y).value);
      }
    }
  }

  // ------------------------------------------------------------------- remainder

  /** C's remainder: the sign of the dividend. */
  function Truncated(x: int, y: int): int
    requires y != 0
  {
    if x >= 0 then x % y else -((-x) % y)
  }

  /** The range branch follows C's remainder, for all dividends and infinite bounds alike. */
  lemma RemRangeIsTruncated(l: Interval, r: Interval, x: int, y: int)
    requires WellFormed(l) && WellFormed(r) && Members(l, x) && Members(r, y) && y != 0
    requires !(l.IsNumeral() && r.IsNumeral())
    ensures Members(Rem(l, r), Truncated(x, y))
  {
    TruncatedBounds(x, y);
    RemRangeHolds(l, r, x, y, Truncated(x, y));
  }

  function AbsOf(x: int): nat { if x < 0 then -x else x }

  lemma RemRangeHolds(l: Interval, r: Interval, x: int, y: int, t: int)
    requires WellFormed(l) && WellFormed(r) && Members(l, x) && Members(r, y) && y != 0
    requires !(l.IsNumeral() && r.IsNumeral())
    requires (x >= 0 ==> 0 <= t) && (x <= 0 ==> t <= 0) && AbsOf(t) <= AbsOf(x) && AbsOf(t) < AbsOf(y)
    ensures Members(Rem(l, r), t)
  {
    if r.Contains(0) {
      if l.IsZero() {
        assert x == 0;
      }
    } else {
      DividendBound(l, x);
      DivisorBound(r, y);
      var ub := Min(Max(l.lb.Abs(), l.ub.Abs()), Max(r.lb.Abs(), r.ub).Sub(Finite(1)));
      assert Finite(AbsOf(t)).Leq(ub);
    }
  }

  lemma DividendBound(l: Interval, x: int)
    requires WellFormed(l) && Members(l, x)
    ensures Finite(AbsOf(x)).Leq(Max(l.lb.Abs(), l.ub.Abs()))
  {
  }

  lemma DivisorBound(r: Interval, y: int)
    requires WellFormed(r) && Members(r, y) && !r.Contains(0)
    ensures Finite(AbsOf(y) - 1).Leq(Max(r.lb.Abs(), r.ub).Sub(Finite(1)))
  {
  }

  lemma TruncatedBounds(x: int, y: int)
    requires y != 0
    ensures x >= 0 ==> 0 <= Truncated(x, y) <= x
    ensures x <= 0 ==> x <= Truncated(x, y) <= 0
    ensures y > 0 ==> -y < Truncated(x, y) < y
    ensures y < 0 ==> y < Truncated(x, y) < -y
  {
    RemainderAtMost(if x >= 0 then x else -x, y);
  }

  lemma RemainderAtMost(x: int, y: int)
    requires x >= 0 && y != 0
    ensures x % y <= x
  {
    var q := x / y;
    assert x == y * q + x % y;
    if y > 0 {
      DivMonotoneDenominator(x, y, y);
    } else {
      DivNegative(x, y);
      DivMonotoneDenominator(x, -y, -y);
      assert y * q == -y * -q;
    }
  }

  /** The numeral branch follows SMT-LIB `mod`; both agree, and the result is sound for it, when the
      dividends are non-negative. */
  lemma RemIsSoundForNonNegative(l: Interval, r: Interval, x: int, y: int)
    requires WellFormed(l) && WellFormed(r) && Members(l, x) && Members(r, y) && y != 0
    requires l.lb.Geq(Finite(0)) || (l.IsNumeral() && r.IsNumeral())
    ensures Members(Rem(l, r), x % y)
    ensures l.lb.Geq(Finite(0)) ==> x % y == Truncated(x, y)
  {
    if !(l.IsNumeral() && r.IsNumeral()) {
      RemRangeIsTruncated(l, r, x, y);
    }
  }

  ghost predicate RemIsEuclidean(l: Interval, r: Interval)
    requires WellFormed(l) && WellFormed(r)
  {
    forall x, y | Members(l, x) && Members(r, y) && y != 0 :: RemHolds(l, r, x, y)
  }

  predicate RemHolds(l: Interval, r: Interval, x: int, y: int)
    requires WellFormed(l) && WellFormed(r) && y != 0
  {
    Rem(l, r).Contains(x % y)
  }

  function DividendLimit(l: Interval): NumericLiteral { Max(l.lb.Abs(), l.ub.Abs()) }

  function DivisorLimit(r: Interval): NumericLiteral { Max(r.lb.Abs(), r.ub).Sub(Finite(1)) }

  // The least common multiple of the numbers lo..hi, by search.

  predicate CommonMultiple(lo: nat, hi: nat, m: nat) {
    forall y | lo <= y <= hi :: y != 0 && m % y == 0
  }

  function FirstCommonMultiple(lo: nat, hi: nat, m: nat, limit: nat): (r: nat)
    requires m <= limit && CommonMultiple(lo, hi, limit)
    ensures m <= r && CommonMultiple(lo, hi, r) && forall k | m <= k < r :: !CommonMultiple(lo, hi, k)
    decreases limit - m
  {
    if CommonMultiple(lo, hi, m) then m else FirstCommonMultiple(lo, hi, m + 1, limit)
  }

  function ProductOf(lo: nat, hi: nat): (p: nat)
    requires 0 < lo
    ensures p > 0 && CommonMultiple(lo, hi, p)
    decreases hi
  {
    if hi < lo then 1
    else
      var q := ProductOf(lo, hi - 1);
      ProductDivides(lo, hi, q);
      q * hi
  }

  lemma ProductDivides(lo: nat, hi: nat, q: nat)
    requires 0 < lo <= hi && q > 0 && CommonMultiple(lo, hi - 1, q)
    ensures q * hi > 0 && CommonMultiple(lo, hi, q * hi)
  {
    LemmaMulLe(1, q, hi);
    forall y | lo <= y <= hi ensures (q * hi) % y == 0 {
      if y == hi {
        ExactMod(q * hi, y, q);
      } else {
        Divided(q, y);
        MulAssociates(y, q / y, hi);
        ExactMod(q * hi, y, (q / y) * hi);
      }
    }
  }

  lemma Divided(x: int, y: int)
    requires y != 0 && x % y == 0
    ensures x == y * (x / y)
  {
  }

  lemma MulAssociates(x: int, y: int, z: int)
    ensures (x * y) * z == x * (y * z)
  {
  }

  function Lcm(lo: nat, hi: nat): (r: nat)
    requires 0 < lo
  {
    FirstCommonMultiple(lo, hi, 1, ProductOf(lo, hi))
  }

  /** Every common multiple is a multiple of the least one: the remainder would be a smaller one. */
  lemma CommonMultipleExactlyWhen(lo: nat, hi: nat, n: nat)
    requires 0 < lo
    ensures Lcm(lo, hi) > 0 && (CommonMultiple(lo, hi, n) <==> n % Lcm(lo, hi) == 0)
  {
    var l := Lcm(lo, hi);
    var q := n / l;
    assert n == l * q + n % l;
    forall y | lo <= y <= hi ensures n % y == 0 <==> (n % l) % y == 0 {
      Divided(l, y);
      MulAssociates(y, l / y, q);
      AddMultiple(n % l, y, (l / y) * q);
    }
    if CommonMultiple(lo, hi, n) {
      assert CommonMultiple(lo, hi, n % l);
    }
  }

  lemma AddMultiple(x: int, y: int, q: int)
    requires y != 0
    ensures (x + y * q) % y == x % y
  {
    var d := x / y;
    assert x == y * d + x % y;
    var z := x + y * q;
    var e := z / y;
    assert z == y * e + z % y;
    assert z % y - x % y == y * (d + q - e);
    SmallMultiple(y, d + q - e, z % y - x % y);
  }

  lemma SmallMultiple(y: int, q: int, r: int)
    requires y != 0 && r == y * q && AbsOf(r) < AbsOf(y)
    ensures r == 0
  {
    if q > 0 {
      LemmaMulLe(1, q, AbsOf(y));
    } else if q < 0 {
      LemmaMulLe(1, -q, AbsOf(y));
    }
    assert AbsOf(y) * q == r || AbsOf(y) * q == -r;
  }

  /** When `%` meets SMT-LIB `mod`: not on the range branch with negative dividends, unless the dividends
      reach both sides of zero and are large enough, or every divisor divides them. */
  ghost predicate RemAgrees(l: Interval, r: Interval) {
    || r.Contains(0) || (l.IsNumeral() && r.IsNumeral()) || l.lb.Geq(Finite(0))
    || (!l.ub.Leq(Finite(0)) && DivisorLimit(r).Leq(DividendLimit(l)))
    || (l.ub.Leq(Finite(0)) && (DivisorLimit(r) == Finite(0) || (l.IsNumeral() && DividesBy(l.lb, r))))
  }

  /** A check on the bounds of the divisors: both are finite, and a is a multiple of the least common
      multiple of the numbers between them. */
  ghost predicate DividesBy(a: NumericLiteral, r: Interval) {
    && a.Finite? && r.lb.Finite? && r.ub.Finite?
    && var lo, hi := AbsOf(r.lb.n), AbsOf(r.ub.n);
       lo != 0 && hi != 0 && AbsOf(a.n) % Lcm(if lo <= hi then lo else hi, if lo <= hi then hi else lo) == 0
  }

  lemma DividesByMeans(a: NumericLiteral, r: Interval)
    requires WellFormed(r) && !r.IsBottom() && !r.Contains(0) && a.Finite? && a.n != 0
    ensures DividesBy(a, r) <==> forall y | Members(r, y) && y != 0 :: a.n % y == 0
  {
    if r.lb.Finite? && r.ub.Finite? {
      var lo, hi := AbsOf(r.lb.n), AbsOf(r.ub.n);
      var least, greatest := if lo <= hi then lo else hi, if lo <= hi then hi else lo;
      CommonMultipleExactlyWhen(least, greatest, AbsOf(a.n));
      MembersByAbs(r, a.n, least, greatest);
    } else {
      var y := LargeDivisor(r, AbsOf(a.n));
      NotDivided(a.n, y);
    }
  }

  /** The members of an interval on one side of zero are the numbers between its bounds, up to the sign. */
  lemma MembersByAbs(r: Interval, n: int, lo: nat, hi: nat)
    requires WellFormed(r) && !r.IsBottom() && !r.Contains(0) && r.lb.Finite? && r.ub.Finite?
    requires lo <= hi && {lo, hi} == {AbsOf(r.lb.n), AbsOf(r.ub.n)}
    ensures CommonMultiple(lo, hi, AbsOf(n)) <==> forall y | Members(r, y) && y != 0 :: n % y == 0
  {
    if CommonMultiple(lo, hi, AbsOf(n)) {
      forall y | Members(r, y) && y != 0 ensures n % y == 0 {
        assert lo <= AbsOf(y) <= hi;
        SignsDoNotMatter(n, y);
      }
    }
    if forall y | Members(r, y) && y != 0 :: n % y == 0 {
      forall k | lo <= k <= hi ensures k != 0 && AbsOf(n) % k == 0 {
        var y: int := if r.lb.n > 0 then k else -k;
        assert Members(r, y) && AbsOf(y) == k;
        SignsDoNotMatter(n, y);
      }
    }
  }

  lemma NotDivided(x: int, y: int)
    requires x != 0 && AbsOf(y) > AbsOf(x)
    ensures x % y != 0
  {
    SignsDoNotMatter(x, y);
    if AbsOf(x) % AbsOf(y) == 0 {
      SmallMultiple(AbsOf(y), AbsOf(x) / AbsOf(y), AbsOf(x));
    }
  }

  lemma SignsDoNotMatter(x: int, y: int)
    requires y != 0
    ensures x % y == 0 <==> AbsOf(x) % AbsOf(y) == 0
  {
    if x % y == 0 {
      var q := x / y;
      assert AbsOf(x) == AbsOf(y) * q || AbsOf(x) == AbsOf(y) * -q;
      ExactMod(AbsOf(x), AbsOf(y), if AbsOf(x) == AbsOf(y) * q then q else -q);
    }
    if AbsOf(x) % AbsOf(y) == 0 {
      var q := AbsOf(x) / AbsOf(y);
      assert x == y * q || x == y * -q;
      ExactMod(x, y, if x == y * q then q else -q);
    }
  }

  /** MAIN RESULT: the exact condition under which `%` contains every remainder. */
  lemma RemIsEuclideanExactlyWhen(l: Interval, r: Interval)
    requires WellFormed(l) && WellFormed(r) && !l.IsBottom() && !r.IsBottom()
    ensures RemIsEuclidean(l, r) <==> RemAgrees(l, r)
  {
    if RemAgrees(l, r) {
      forall x, y | Members(l, x) && Members(r, y) && y != 0 ensures RemHolds(l, r, x, y) {
        RemAgreesAt(l, r, x, y);
      }
    } else {
      var x, y := RemMissed(l, r);
      assert !RemHolds(l, r, x, y);
    }
  }

  lemma RemAgreesAt(l: Interval, r: Interval, x: int, y: int)
    requires WellFormed(l) && WellFormed(r) && Members(l, x) && Members(r, y) && y != 0 && RemAgrees(l, r)
    ensures RemHolds(l, r, x, y)
  {
    if l.lb.Geq(Finite(0)) || (l.IsNumeral() && r.IsNumeral()) {
      RemIsSoundForNonNegative(l, r, x, y);
    } else if !r.Contains(0) {
      ModBounds(x, y);
      if l.IsNumeral() && l.ub.Leq(Finite(0)) && DividesBy(l.lb, r) {
        DividesByMeans(l.lb, r);
        assert x == l.lb.n;
      }
      SmallRemainderHolds(l, r, x, y, x % y);
    }
  }

  /** The range branch contains t. */
  lemma SmallRemainderHolds(l: Interval, r: Interval, x: int, y: int, t: nat)
    requires WellFormed(l) && WellFormed(r) && Members(l, x) && Members(r, y) && y != 0
    requires !r.Contains(0) && !(l.IsNumeral() && r.IsNumeral()) && !l.lb.Geq(Finite(0))
    requires t < AbsOf(y)
    requires t == 0 || (!l.ub.Leq(Finite(0)) && DivisorLimit(r).Leq(DividendLimit(l))) || DivisorLimit(r) == Finite(0)
    ensures Rem(l, r).Contains(t)
  {
    DividendBound(l, x);
    DivisorBound(r, y);
    var ub := Min(DividendLimit(l), DivisorLimit(r));
    assert Finite(0).Leq(ub);
    if t != 0 {
      assert Finite(t).Leq(DivisorLimit(r));
    }
  }

  lemma ModBounds(x: int, y: int)
    requires y != 0
    ensures 0 <= x % y < AbsOf(y) && (AbsOf(y) == 1 ==> x % y == 0)
  {
  }

  lemma RemMissed(l: Interval, r: Interval) returns (x: int, y: int)
    requires WellFormed(l) && WellFormed(r) && !l.IsBottom() && !r.IsBottom() && !RemAgrees(l, r)
    ensures Members(l, x) && Members(r, y) && y != 0 && !RemHolds(l, r, x, y)
  {
    if !l.ub.Leq(Finite(0)) {
      x := -1;
      y := LargeDivisor(r, DividendLimit(l).n + 1);
      MinusOneMod(y);
      assert x % y > DividendLimit(l).n;
    } else if l.IsNumeral() {
      x := l.lb.n;
      DividesByMeans(l.lb, r);
      y :| Members(r, y) && y != 0 && x % y != 0;
      ModBounds(x, y);
    } else {
      y := LargeDivisor(r, 1);
      x := MemberAbove(l, 0);
      if !Members(l, x - 1) {
        x := x + 1;
      }
      NotBothZero(x, y);
      if x % y == 0 {
        x := x - 1;
      }
      ModBounds(x, y);
    }
  }

  /** A divisor whose remainders go up to k. */
  lemma LargeDivisor(r: Interval, k: nat) returns (y: int)
    requires WellFormed(r) && !r.IsBottom() && !r.Contains(0) && Finite(k).Leq(DivisorLimit(r))
    ensures Members(r, y) && AbsOf(y) - 1 >= k
  {
    var m: int := k + 1;
    y := if r.lb.Leq(Finite(0)) then MemberBelow(r, -m) else MemberAbove(r, m);
    if r.lb.Finite? && r.lb.Leq(Finite(0)) {
      y := r.lb.n;
    } else if r.ub.Finite? && !r.lb.Leq(Finite(0)) {
      y := r.ub.n;
    }
  }

  lemma MinusOneMod(y: int)
    requires y != 0
    ensures -1 % y == AbsOf(y) - 1
  {
    if y > 0 {
      assert -1 == y * -1 + (y - 1);
    } else {
      assert -1 == y * 1 + (-y - 1);
    }
  }

  lemma NotBothZero(x: int, y: int)
    requires AbsOf(y) >= 2
    ensures x % y != 0 || (x - 1) % y != 0
  {
    if x % y == 0 && (x - 1) % y == 0 {
      var p, q := x / y, (x - 1) / y;
      assert y * (p - q) == 1;
      assert p - q != 0;
      LargeFactor(y, p - q);
    }
  }

  lemma LargeFactor(y: int, q: int)
    requires AbsOf(y) >= 2 && q != 0
    ensures y * q >= 2 || y * q <= -2
  {
    LargeProduct(y, q, 2);
  }

  predicate TruncatedHolds(l: Interval, r: Interval, x: int, y: int)
    requires WellFormed(l) && WellFormed(r) && y != 0
  {
    Rem(l, r).Contains(Truncated(x, y))
  }

  /** The numeral branch meets C's remainder exactly for non-negative or divisible dividends, the range
      branch always. */
  lemma RemIsTruncatedExactlyWhen(l: Interval, r: Interval)
    requires WellFormed(l) && WellFormed(r) && !l.IsBottom() && !r.IsBottom()
    ensures (forall x, y | Members(l, x) && Members(r, y) && y != 0 :: TruncatedHolds(l, r, x, y)) <==>
            (l.IsNumeral() && r.IsNumeral() && !r.Contains(0) ==> l.lb.n >= 0 || l.lb.n % r.lb.n == 0)
  {
    if l.IsNumeral() && r.IsNumeral() {
      var x, y := l.lb.n, r.lb.n;
      assert Members(l, x) && Members(r, y);
      if y != 0 {
        ModBounds(x, y);
        TruncatedMod(x, y);
        assert TruncatedHolds(l, r, x, y) <==> Truncated(x, y) == x % y;
      }
    } else {
      forall x, y | Members(l, x) && Members(r, y) && y != 0 ensures TruncatedHolds(l, r, x, y) {
        RemRangeIsTruncated(l, r, x, y);
      }
    }
  }

  lemma TruncatedMod(x: int, y: int)
    requires y != 0
    ensures Truncated(x, y) == x % y <==> x >= 0 || x % y == 0
  {
    ModBounds(x, y);
    TruncatedBounds(x, y);
    if x < 0 && x % y == 0 {
      var q := x / y;
      assert -x == y * -q;
      ExactMod(-x, y, -q);
    }
  }

  lemma ExactMod(x: int, y: int, q: int)
    requires y != 0 && x == y * q
    ensures x % y == 0
  {
    var d := x / y;
    assert x % y == y * (q - d);
    if q > d {
      LemmaMulLe(1, q - d, AbsOf(y));
    } else if q < d {
      LemmaMulLe(1, d - q, AbsOf(y));
    }
    assert AbsOf(y) * (q - d) == y * (q - d) || AbsOf(y) * (q - d) == -(y * (q - d));
  }

  /** With negative dividends each branch misses the other's remainder. */
  lemma RemBranchesDisagree()
    ensures Members(Range(-5, -3), -5) && !Members(Rem(Range(-5, -3), Single(3)), -5 % 3)
    ensures !Members(Rem(Single(-5), Single(3)), Truncated(-5, 3))
  {
  }

  // ------------------------------------------------------- how large the range of `%` is

  ghost predicate HasAbsAtLeast(i: Interval, k: nat) {
    exists x :: Members(i, x) && AbsOf(x) >= k
  }

  ghost predicate HasSign(i: Interval, negative: bool) {
    exists x :: Members(i, x) && if negative then x < 0 else x > 0
  }

  ghost predicate HasRemainder(l: Interval, r: Interval, v: int) {
    exists x, y :: Members(l, x) && Members(r, y) && y != 0 && v == x % y
  }

  /** What `%` answers, by members. Constants give their remainder. Otherwise it is everything no larger
      than some dividend, smaller than some divisor, and with the sign of some dividend. With zero among the
      divisors it is everything, unless zero is the only dividend. */
  lemma RemMembers(l: Interval, r: Interval, v: int)
    requires WellFormed(l) && WellFormed(r) && !l.IsBottom() && !r.IsBottom()
    ensures Members(Rem(l, r), v) <==>
            if Members(r, 0) then HasSign(l, true) || HasSign(l, false) || v == 0
            else if IsConstant(l) && IsConstant(r) then HasRemainder(l, r, v)
            else HasAbsAtLeast(l, AbsOf(v)) && HasAbsAtLeast(r, AbsOf(v) + 1) && (v != 0 ==> HasSign(l, v < 0))
  {
    if Members(r, 0) {
      SignMeans(l);
    } else {
      ConstantMeans(l);
      ConstantMeans(r);
      if l.IsNumeral() && r.IsNumeral() {
        RemOfNumerals(l, r, v);
      } else {
        RemRangeMembers(l, r, v);
      }
    }
  }

  lemma RemOfNumerals(l: Interval, r: Interval, v: int)
    requires WellFormed(l) && WellFormed(r) && !l.IsBottom() && !r.IsBottom() && !Members(r, 0)
    requires l.IsNumeral() && r.IsNumeral()
    ensures Members(Rem(l, r), v) <==> HasRemainder(l, r, v)
  {
    assert Members(l, l.lb.n) && Members(r, r.lb.n) && r.lb.n != 0;
    assert Rem(l, r) == Single(l.lb.n % r.lb.n);
  }

  lemma RemRangeMembers(l: Interval, r: Interval, v: int)
    requires WellFormed(l) && WellFormed(r) && !l.IsBottom() && !r.IsBottom() && !Members(r, 0)
    requires !(l.IsNumeral() && r.IsNumeral())
    ensures Members(Rem(l, r), v) <==>
            HasAbsAtLeast(l, AbsOf(v)) && HasAbsAtLeast(r, AbsOf(v) + 1) && (v != 0 ==> HasSign(l, v < 0))
  {
    SignMeans(l);
    AbsMeans(l, AbsOf(v));
    AbsMeans(r, AbsOf(v) + 1);
    RemRangeBounds(l, r, v);
  }

  lemma RemRangeBounds(l: Interval, r: Interval, v: int)
    requires WellFormed(l) && WellFormed(r) && !l.IsBottom() && !r.IsBottom() && !Members(r, 0)
    requires !(l.IsNumeral() && r.IsNumeral())
    ensures Members(Rem(l, r), v) <==>
            && Finite(AbsOf(v)).Leq(Max(l.lb.Abs(), l.ub.Abs()))
            && Finite(AbsOf(v) + 1).Leq(Max(r.lb.Abs(), r.ub.Abs()))
            && (v < 0 ==> l.lb.GetNumeral() < 0) && (v > 0 ==> l.ub.GetNumeral() > 0)
  {
    var n, d := DividendLimit(l), DivisorLimit(r);
    var negative, positive := l.lb.GetNumeral() < 0, l.ub.GetNumeral() > 0;
    assert Rem(l, r) == SignedRange(negative, positive, Min(n, d)) by { assert !r.Contains(0); }
    DivisorByAbs(r, AbsOf(v));
    OneSign(l);
    BelowBoth(AbsOf(v), n, d);
    SignedRangeMembers(negative, positive, Min(n, d), v);
  }

  lemma DivisorByAbs(r: Interval, k: nat)
    requires WellFormed(r) && !r.IsBottom() && !Members(r, 0)
    ensures Finite(k).Leq(DivisorLimit(r)) <==> Finite(k + 1).Leq(Max(r.lb.Abs(), r.ub.Abs()))
  {
  }

  lemma OneSign(l: Interval)
    requires WellFormed(l) && !l.IsBottom()
    ensures l.lb.GetNumeral() >= 0 && l.ub.GetNumeral() <= 0 ==> DividendLimit(l) == Finite(0)
    ensures Finite(0).Leq(DividendLimit(l))
  {
  }

  lemma BelowBoth(k: nat, n: NumericLiteral, d: NumericLiteral)
    ensures Finite(k).Leq(Min(n, d)) <==> Finite(k).Leq(n) && Finite(k).Leq(d)
    ensures Min(n, d).Leq(n)
  {
  }

  /** The range up to `ub` with the signs that the dividends have. */
  function SignedRange(negative: bool, positive: bool, ub: NumericLiteral): Interval {
    if negative then
      if positive then Interval(ub.Neg(), ub) else Interval(ub.Neg(), Finite(0))
    else Interval(Finite(0), ub)
  }

  lemma SignedRangeMembers(negative: bool, positive: bool, ub: NumericLiteral, v: int)
    requires !negative && !positive ==> ub.Leq(Finite(0))
    ensures Members(SignedRange(negative, positive, ub), v) <==>
            Finite(AbsOf(v)).Leq(ub) && (v < 0 ==> negative) && (v > 0 ==> positive)
  {
  }

  lemma SignMeans(i: Interval)
    requires WellFormed(i) && !i.IsBottom()
    ensures HasSign(i, true) <==> i.lb.GetNumeral() < 0
    ensures HasSign(i, false) <==> i.ub.GetNumeral() > 0
  {
    assert Members(i, MemberBelow(i, -1)) && Members(i, MemberAbove(i, 1));
  }

  lemma AbsMeans(i: Interval, k: int)
    requires WellFormed(i) && k >= 0 && !i.IsBottom()
    ensures HasAbsAtLeast(i, k) <==> Finite(k).Leq(Max(i.lb.Abs(), i.ub.Abs()))
  {
    var low, high := MemberBelow(i, -k), MemberAbove(i, k);
    assert Members(i, low) && Members(i, high);
    if Finite(k).Leq(i.lb.Abs()) {
      assert AbsOf(low) >= k;
    }
    if Finite(k).Leq(i.ub.Abs()) {
      assert AbsOf(high) >= k;
    }
  }
}
