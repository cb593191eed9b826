/** Integers extended with both infinities (svf/include/AbstractExecution/NumericLiteral.h).
    Finite literals are Z3 integers: unbounded, with `div` and `mod` of the SMT-LIB Ints theory,
    which are Dafny's `/` and `%`. */
module NumericLiterals {

  datatype NumericLiteral = MinusInfinity | Finite(n: int) | PlusInfinity {

    predicate IsInfinity() { !Finite? }

    predicate IsZero() { this == Finite(0) }

    predicate Leq(rhs: NumericLiteral) {
      if IsInfinity() != rhs.IsInfinity() then
        if IsInfinity() then MinusInfinity? else rhs.PlusInfinity?
      else if IsInfinity() then MinusInfinity? || rhs.PlusInfinity?
      else n <= rhs.n
    }

    predicate Geq(rhs: NumericLiteral) {
      if IsInfinity() != rhs.IsInfinity() then
        if IsInfinity() then PlusInfinity? else rhs.MinusInfinity?
      else if IsInfinity() then PlusInfinity? || rhs.MinusInfinity?
      else n >= rhs.n
    }

    function Neg(): NumericLiteral {
      match this
      case PlusInfinity => MinusInfinity
      case MinusInfinity => PlusInfinity
      case Finite(k) => Finite(-k)
    }

    /** +oo + -oo aborts in the original. */
    function Add(rhs: NumericLiteral): NumericLiteral
      requires IsInfinity() && rhs.IsInfinity() ==> this == rhs
    {
      if Finite? && rhs.Finite? then Finite(n + rhs.n)
      else if Finite? then rhs
      else this
    }

    /** +oo - +oo and -oo - -oo abort in the original. */
    function Sub(rhs: NumericLiteral): NumericLiteral
      requires IsInfinity() && rhs.IsInfinity() ==> this != rhs
    {
      if Finite? && rhs.Finite? then Finite(n - rhs.n)
      else if Finite? then rhs.Neg()
      else this
    }

    /** Zero times an infinity is zero. */
    function Mul(rhs: NumericLiteral): NumericLiteral {
      if IsZero() || rhs.IsZero() then Finite(0)
      else if IsInfinity() && rhs.IsInfinity() then if this == rhs then PlusInfinity else MinusInfinity
      else if IsInfinity() then if !rhs.Leq(Finite(0)) then this else Neg()
      else if rhs.IsInfinity() then if !Leq(Finite(0)) then rhs else rhs.Neg()
      else Finite(n * rhs.n)
    }

    /** Division by zero aborts in the original. */
    function Div(rhs: NumericLiteral): NumericLiteral
      requires !rhs.IsZero()
    {
      if Finite? && rhs.Finite? then Finite(n / rhs.n)
      else if Finite? then Finite(0)
      else if rhs.Finite? then if !rhs.Leq(Finite(0)) then this else Neg()
      else if this == rhs then PlusInfinity else MinusInfinity
    }

    function Mod(rhs: NumericLiteral): NumericLiteral
      requires !rhs.IsZero()
    {
      if Finite? && rhs.Finite? then Finite(n % rhs.n)
      else if Finite? then Finite(0)
      else if rhs.Finite? then if !rhs.Leq(Finite(0)) then this else Neg()
      else if this == rhs then PlusInfinity else MinusInfinity
    }

    function Abs(): NumericLiteral {
      if Leq(Finite(0)) then Neg() else this
    }

    /** The conversion to a 64-bit number saturates. */
    function GetNumeral(): int {
      match this
      case MinusInfinity => -0x8000_0000_0000_0000
      case PlusInfinity => 0x7FFF_FFFF_FFFF_FFFF
      case Finite(k) =>
        if -0x8000_0000_0000_0000 <= k <= 0x7FFF_FFFF_FFFF_FFFF then k
        else if k < 0 then -0x8000_0000_0000_0000 else 0x7FFF_FFFF_FFFF_FFFF
    }
  }

  function Min(a: NumericLiteral, b: NumericLiteral): NumericLiteral {
    if a.Leq(b) then a else b
  }

  function Max(a: NumericLiteral, b: NumericLiteral): NumericLiteral {
    if a.Leq(b) then b else a
  }

  /** `m` is the least element of `l`, or +oo when `l` is empty. */
  ghost predicate IsMinOf(m: NumericLiteral, l: seq<NumericLiteral>) {
    && (forall k | 0 <= k < |l| :: m.Leq(l[k]))
    && (m in l || m == PlusInfinity)
  }

  ghost predicate IsMaxOf(m: NumericLiteral, l: seq<NumericLiteral>) {
    && (forall k | 0 <= k < |l| :: l[k].Leq(m))
    && (m in l || m == MinusInfinity)
  }

  function MinOf(l: seq<NumericLiteral>): (m: NumericLiteral)
    ensures IsMinOf(m, l)
  {
    if l == [] then PlusInfinity else Min(l[0], MinOf(l[1..]))
  }

  function MaxOf(l: seq<NumericLiteral>): (m: NumericLiteral)
    ensures IsMaxOf(m, l)
  {
    if l == [] then MinusInfinity else Max(l[0], MaxOf(l[1..]))
  }

  /** The vector minimum, with its early exit at -oo. */
  method MinVector(l: seq<NumericLiteral>) returns (ret: NumericLiteral)
    ensures IsMinOf(ret, l) && ret == MinOf(l)
  {
    ret := PlusInfinity;
    var k := 0;
    while k < |l|
      invariant 0 <= k <= |l|
      invariant forall j | 0 <= j < k :: ret.Leq(l[j])
      invariant ret in l || ret == PlusInfinity
    {
      if l[k].MinusInfinity? {
        OneMinimum(MinusInfinity, l);
        return MinusInfinity;
      } else if !l[k].Geq(ret) {
        ret := l[k];
      }
      k := k + 1;
    }
    OneMinimum(ret, l);
  }

  method MaxVector(l: seq<NumericLiteral>) returns (ret: NumericLiteral)
    ensures IsMaxOf(ret, l) && ret == MaxOf(l)
  {
    ret := MinusInfinity;
    var k := 0;
    while k < |l|
      invariant 0 <= k <= |l|
      invariant forall j | 0 <= j < k :: l[j].Leq(ret)
      invariant ret in l || ret == MinusInfinity
    {
      if l[k].PlusInfinity? {
        OneMaximum(PlusInfinity, l);
        return PlusInfinity;
      } else if !l[k].Leq(ret) {
        ret := l[k];
      }
      k := k + 1;
    }
    OneMaximum(ret, l);
  }

  lemma OneMinimum(m: NumericLiteral, l: seq<NumericLiteral>)
    requires IsMinOf(m, l)
    ensures m == MinOf(l)
  {
    var m' := MinOf(l);
    if m in l {
      var k :| 0 <= k < |l| && l[k] == m;
      assert m'.Leq(l[k]);
    }
    if m' in l {
      var k :| 0 <= k < |l| && l[k] == m';
      assert m.Leq(l[k]);
    }
  }

  lemma OneMaximum(m: NumericLiteral, l: seq<NumericLiteral>)
    requires IsMaxOf(m, l)
    ensures m == MaxOf(l)
  {
    var m' := MaxOf(l);
    if m in l {
      var k :| 0 <= k < |l| && l[k] == m;
      assert l[k].Leq(m');
    }
    if m' in l {
      var k :| 0 <= k < |l| && l[k] == m';
      assert l[k].Leq(m);
    }
  }

  /** Infinite operands of division and remainder: an infinite dividend keeps its size and takes the sign a
      product would have; over an infinite divisor a finite one gives zero. */
  lemma DivisionWithInfinities(a: NumericLiteral, b: NumericLiteral)
    requires !b.IsZero()
    ensures a.IsInfinity() ==> a.Div(b) == a.Mul(b) && a.Mod(b) == a.Mul(b)
    ensures a.Finite? && b.IsInfinity() ==> a.Div(b).IsZero() && a.Mod(b).IsZero()
  {
  }

  // -------------------------------------------------- monotonicity with infinities

  lemma MulMonotone(a: NumericLiteral, y: NumericLiteral, z: NumericLiteral)
    requires y.Leq(z)
    ensures Finite(0).Leq(a) ==> a.Mul(y).Leq(a.Mul(z))
    ensures a.Leq(Finite(0)) ==> a.Mul(z).Leq(a.Mul(y))
  {
    if a.Finite? && y.Finite? && z.Finite? {
      MulFinite(a.n, y.n);
      MulFinite(a.n, z.n);
      MulMonotoneFinite(a.n, y.n, z.n);
    } else {
      MulMonotoneInfinite(a, y, z);
    }
  }

  lemma MulFinite(x: int, y: int)
    ensures Finite(x).Mul(Finite(y)) == Finite(x * y)
  {
  }

  lemma MulMonotoneFinite(a: int, y: int, z: int)
    requires y <= z
    ensures a >= 0 ==> a * y <= a * z
    ensures a <= 0 ==> a * z <= a * y
  {
    if a >= 0 {
      LemmaMulLe(y, z, a);
    } else {
      LemmaMulLe(y, z, -a);
      assert a * y == -(-a * y) && a * z == -(-a * z);
    }
  }

  lemma MulMonotoneInfinite(a: NumericLiteral, y: NumericLiteral, z: NumericLiteral)
    requires y.Leq(z) && !(a.Finite? && y.Finite? && z.Finite?)
    ensures Finite(0).Leq(a) ==> a.Mul(y).Leq(a.Mul(z))
    ensures a.Leq(Finite(0)) ==> a.Mul(z).Leq(a.Mul(y))
  {
  }

  lemma MulCommutes(a: NumericLiteral, y: NumericLiteral)
    ensures a.Mul(y) == y.Mul(a)
  {
    if a.Finite? && y.Finite? {
      assert a.n * y.n == y.n * a.n;
    }
  }

  /** SMT-LIB division by a negative number. */
  lemma DivNegative(x: int, y: int)
    requires y < 0
    ensures x / y == -(x / -y)
  {
  }

  lemma DivMonotoneNumerator(x: int, z: int, y: int)
    requires x <= z && y > 0
    ensures x / y <= z / y
  {
    var q, r := x / y, z / y;
    assert x == y * q + x % y && z == y * r + z % y;
    assert y * (r + 1) == y * r + y;
    if r + 1 <= q {
      LemmaMulLe(r + 1, q, y);
    }
  }

  lemma LemmaMulLe(a: int, b: int, y: int)
    requires a <= b && y >= 0
    ensures y * a <= y * b
  {
  }

  lemma DivMonotoneDenominator(x: int, y: int, z: int)
    requires 0 < y <= z
    ensures x >= 0 ==> 0 <= x / z <= x / y
    ensures x < 0 ==> x / y <= x / z <= -1
  {
    var q := x / z;
    assert x == z * q + x % z;
    if x >= 0 {
      assert q >= 0 by { if q < 0 { LemmaMulLe(q, -1, z); } }
      LemmaMulLe(y, z, q);
      assert x - y * q >= 0;
      QuotientAtLeast(x, y, q);
    } else {
      assert q <= -1 by { if q >= 0 { LemmaMulLe(0, q, z); } }
      var p := x / y;
      assert x == y * p + x % y;
      assert p <= -1 by { if p >= 0 { LemmaMulLe(0, p, y); } }
      LemmaMulLe(y, z, -p);
      assert z * p <= y * p;
      assert x - z * p >= 0;
      QuotientAtLeast(x, z, p);
    }
  }

  lemma QuotientAtLeast(x: int, y: int, q: int)
    requires y > 0 && x - y * q >= 0
    ensures q <= x / y
  {
    var p := x / y;
    assert x == y * p + x % y;
    assert y * (p + 1) == y * p + y;
    if p + 1 <= q {
      LemmaMulLe(p + 1, q, y);
    }
  }
}
