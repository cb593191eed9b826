/** Shifts and bitwise operators on intervals, with their 32-bit and 64-bit corners. */
module IntervalBitwise {
  import opened NumericLiterals
  import opened IntervalValues
  import opened IntervalArithmetic
  import opened Words

  function Pow2(k: nat): (p: int)
    ensures p >= 1
  {
    if k == 0 then 1 else 2 * Pow2(k - 1)
  }

  lemma {:induction false} Pow2Monotone(j: nat, k: nat)
    requires j <= k
    ensures Pow2(j) <= Pow2(k)
    decreases k
  {
    if j < k {
      Pow2Monotone(j, k - 1);
    }
  }

  lemma Pow2Values()
    ensures Pow2(30) == 0x4000_0000 && Pow2(31) == 0x8000_0000
  {
    assert Pow2(10) == 1024;
    assert Pow2(20) == 0x10_0000;
    assert Pow2(30) == 0x4000_0000;
  }

  /** `1 << i` on a C int. Shifting by 32 or more is undefined. */
  function ShiftOne(i: nat): int
    requires i < 32
  {
    if i == 31 then -0x8000_0000 else Pow2(i)
  }

  // ------------------------------------------------------------- bitwise operations

  datatype BitOp = And | Or | Xor

  function BitOf(op: BitOp, a: int, b: int): nat {
    match op
    case And => if a == 1 && b == 1 then 1 else 0
    case Or => if a == 1 || b == 1 then 1 else 0
    case Xor => if a != b then 1 else 0
  }

  /** The operation on the binary digits of two naturals. */
  function Bits(op: BitOp, x: nat, y: nat): nat
    decreases x + y
  {
    if x == 0 && y == 0 then 0 else 2 * Bits(op, x / 2, y / 2) + BitOf(op, x % 2, y % 2)
  }

  const WORD: int := 0x1_0000_0000_0000_0000

  /** int2bv(64), the bit operation, and the signed bv2int. */
  function Word(op: BitOp, x: int, y: int): int {
    var v := Bits(op, x % WORD, y % WORD);
    if v >= WORD / 2 then v - WORD else v
  }

  lemma {:induction false} BitsBelow(op: BitOp, x: nat, y: nat, k: nat)
    requires x < Pow2(k) && y < Pow2(k)
    ensures Bits(op, x, y) < Pow2(k)
  {
    if x != 0 || y != 0 {
      BitsBelow(op, x / 2, y / 2, k - 1);
    }
  }

  lemma {:induction false} AndBelowBoth(x: nat, y: nat)
    ensures Bits(And, x, y) <= x && Bits(And, x, y) <= y
    decreases x + y
  {
    if x != 0 || y != 0 {
      AndBelowBoth(x / 2, y / 2);
    }
  }

  /** Digit k of a natural, counted from the least. */
  function Digit(n: nat, k: nat): bool {
    if k == 0 then n % 2 == 1 else Digit(n / 2, k - 1)
  }

  lemma {:induction false} DigitOfZero(k: nat)
    ensures !Digit(0, k)
  {
    if k > 0 {
      DigitOfZero(k - 1);
    }
  }

  /** Every digit of the result is the connective applied to the digits of the operands. */
  lemma {:induction false} BitsByDigits(op: BitOp, x: nat, y: nat, k: nat)
    ensures Digit(Bits(op, x, y), k) <==>
            match op
            case And => Digit(x, k) && Digit(y, k)
            case Or => Digit(x, k) || Digit(y, k)
            case Xor => Digit(x, k) != Digit(y, k)
    decreases k
  {
    if x == 0 && y == 0 {
      DigitOfZero(k);
    } else {
      var rest, low := Bits(op, x / 2, y / 2), BitOf(op, x % 2, y % 2);
      assert (2 * rest + low) % 2 == low && (2 * rest + low) / 2 == rest;
      if k > 0 {
        BitsByDigits(op, x / 2, y / 2, k - 1);
      }
    }
  }

  /** The word operation is the signed number with those digits. */
  lemma WordByDigits(op: BitOp, x: int, y: int, k: nat)
    ensures Signed64(Word(op, x, y))
    ensures Digit(Word(op, x, y) % WORD, k) <==>
            match op
            case And => Digit(x % WORD, k) && Digit(y % WORD, k)
            case Or => Digit(x % WORD, k) || Digit(y % WORD, k)
            case Xor => Digit(x % WORD, k) != Digit(y % WORD, k)
  {
    var v := Bits(op, x % WORD, y % WORD);
    Pow2Of64();
    BitsBelow(op, x % WORD, y % WORD, 64);
    assert Word(op, x, y) % WORD == v;
    BitsByDigits(op, x % WORD, y % WORD, k);
  }

  lemma Pow2Of64()
    ensures Pow2(64) == WORD
  {
    Pow2Values();
    assert Pow2(40) == 0x100_0000_0000;
    assert Pow2(50) == 0x4_0000_0000_0000;
    assert Pow2(60) == 0x1000_0000_0000_0000;
  }

  predicate Signed64(x: int) { -WORD / 2 <= x < WORD / 2 }

  function BitAnd(l: Interval, r: Interval): Interval
    requires WellFormed(l) && WellFormed(r)
  {
    if l.IsBottom() || r.IsBottom() then BOTTOM
    else if l.IsNumeral() && r.IsNumeral() then Single(Word(And, l.lb.n, r.lb.n))
    else if l.lb.GetNumeral() >= 0 && r.lb.GetNumeral() >= 0 then Interval(Finite(0), Min(l.ub, r.ub))
    else if l.lb.GetNumeral() >= 0 then Interval(Finite(0), l.ub)
    else if r.lb.GetNumeral() >= 0 then Interval(Finite(0), r.ub)
    else TOP
  }

  /** `&` is sound for all signed 64-bit operands. */
  lemma BitAndIsSound(l: Interval, r: Interval, x: int, y: int)
    requires WellFormed(l) && WellFormed(r) && Members(l, x) && Members(r, y)
    requires Signed64(x) && Signed64(y)
    ensures Members(BitAnd(l, r), Word(And, x, y))
  {
    AndWord(x, y);
  }

  ghost predicate NonNegative(i: Interval) {
    forall x :: Members(i, x) ==> x >= 0
  }

  ghost predicate NotAboveAll(i: Interval, v: int) {
    exists x :: Members(i, x) && v <= x
  }

  ghost predicate HasWord(op: BitOp, l: Interval, r: Interval, v: int) {
    exists x, y :: Members(l, x) && Members(r, y) && v == Word(op, x, y)
  }

  /** The result is no larger than this needs: two constants give one number; otherwise it is everything
      that is not negative and not above any operand that cannot be negative. */
  lemma BitAndMembers(l: Interval, r: Interval, v: int)
    requires WellFormed(l) && WellFormed(r) && !l.IsBottom() && !r.IsBottom()
    ensures Members(BitAnd(l, r), v) <==>
            if IsConstant(l) && IsConstant(r) then HasWord(And, l, r, v)
            else (NonNegative(l) ==> v >= 0 && NotAboveAll(l, v)) && (NonNegative(r) ==> v >= 0 && NotAboveAll(r, v))
  {
    ConstantMeans(l);
    ConstantMeans(r);
    if l.IsNumeral() && r.IsNumeral() {
      WordOfNumerals(And, l, r, v);
    } else {
      NonNegativeMeans(l, v);
      NonNegativeMeans(r, v);
    }
  }

  lemma WordOfNumerals(op: BitOp, l: Interval, r: Interval, v: int)
    requires WellFormed(l) && WellFormed(r) && l.IsNumeral() && r.IsNumeral() && !l.IsBottom() && !r.IsBottom()
    ensures HasWord(op, l, r, v) <==> v == Word(op, l.lb.n, r.lb.n)
  {
    assert Members(l, l.lb.n) && Members(r, r.lb.n);
  }

  lemma NonNegativeMeans(i: Interval, v: int)
    requires WellFormed(i) && !i.IsBottom()
    ensures NonNegative(i) <==> i.lb.GetNumeral() >= 0
    ensures NotAboveAll(i, v) <==> Finite(v).Leq(i.ub)
  {
    var low, high := MemberBelow(i, -1), MemberAbove(i, v);
    assert Members(i, low) && Members(i, high);
  }

  lemma AndWord(x: int, y: int)
    requires Signed64(x) && Signed64(y)
    ensures x >= 0 ==> 0 <= Word(And, x, y) <= x
    ensures y >= 0 ==> 0 <= Word(And, x, y) <= y
  {
    AndBelowBoth(x % WORD, y % WORD);
  }

  /** The least i >= 1 with num < 2^i. */
  function BitLength(num: nat): (i: nat)
    ensures i >= 1 && num < Pow2(i) && (i > 1 ==> num >= Pow2(i - 1))
  {
    if num < 2 then 1 else 1 + BitLength(num / 2)
  }

  lemma LengthIsUnique(num: nat, i: nat)
    requires i >= 1 && num < Pow2(i) && (i > 1 ==> num >= Pow2(i - 1))
    ensures i == BitLength(num)
  {
    var j := BitLength(num);
    if i < j {
      Pow2Monotone(i, j - 1);
    } else if j < i {
      Pow2Monotone(j, i - 1);
    }
  }

  /** The loop of next_power_of_2; `num >> i` is the quotient by 2^i. */
  method NextPowerOf2(num: nat) returns (p: int)
    requires num < 0x8000_0000
    ensures BitLength(num) < 32 && p == ShiftOne(BitLength(num))
  {
    var i := 1;
    Pow2Values();
    while num / Pow2(i) != 0
      invariant 1 <= i < 32
      invariant i > 1 ==> num >= Pow2(i - 1)
      decreases 32 - i
    {
      QuotientAtLeast(num, Pow2(i), 0);
      assert num >= Pow2(i) by {
        if num < Pow2(i) {
          SmallQuotient(num, Pow2(i));
        }
      }
      i := i + 1;
    }
    assert num < Pow2(i) by {
      if num >= Pow2(i) {
        QuotientAtLeast(num, Pow2(i), 1);
      }
    }
    LengthIsUnique(num, i);
    p := if i == 31 then -0x8000_0000 else Pow2(i);
  }

  lemma SmallQuotient(x: int, y: int)
    requires 0 <= x < y
    ensures x / y == 0
  {
  }

  predicate RangeBranch(l: Interval, r: Interval) {
    && !l.IsBottom() && !r.IsBottom() && !(l.IsNumeral() && r.IsNumeral())
    && l.lb.GetNumeral() >= 0 && l.ub.Finite? && r.lb.GetNumeral() >= 0 && r.ub.Finite?
  }

  /** The larger upper bound. */
  function LargerBound(l: Interval, r: Interval): int
    requires l.ub.Finite? && r.ub.Finite?
  {
    if l.ub.n < r.ub.n then r.ub.n else l.ub.n
  }

  /** The shift in next_power_of_2 is defined. */
  predicate OrDefined(l: Interval, r: Interval) {
    RangeBranch(l, r) ==> 0 <= LargerBound(l, r) && LargerBound(l, r) + 1 < 0x8000_0000
  }

  /** `|` and `^` differ only in the numeral case. */
  function BitOrXor(op: BitOp, l: Interval, r: Interval): Interval
    requires WellFormed(l) && WellFormed(r) && OrDefined(l, r)
  {
    if l.IsBottom() || r.IsBottom() then BOTTOM
    else if l.IsNumeral() && r.IsNumeral() then Single(Word(op, l.lb.n, r.lb.n))
    else if RangeBranch(l, r) then
      var num := LargerBound(l, r) + 1;
      assert BitLength(num) < 32 by { Pow2Values(); ShortLength(num, 31); }
      Range(0, ShiftOne(BitLength(num)))
    else TOP
  }

  lemma {:induction false} ShortLength(num: nat, k: nat)
    requires k >= 1 && num < Pow2(k)
    ensures BitLength(num) <= k
  {
    if num >= 2 {
      ShortLength(num / 2, k - 1);
    }
  }

  ghost predicate OrSound(op: BitOp, l: Interval, r: Interval)
    requires WellFormed(l) && WellFormed(r) && OrDefined(l, r)
  {
    forall x, y :: Members(l, x) && Members(r, y) ==> Members(BitOrXor(op, l, r), Word(op, x, y))
  }

  /** `|` and `^` are sound unless the range branch is taken with an upper bound of 2^30 - 1 or more;
      then the 32-bit shift turns negative and the result is the empty interval. */
  lemma BitOrXorIsSoundExactlyWhen(op: BitOp, l: Interval, r: Interval)
    requires op.Or? || op.Xor?
    requires WellFormed(l) && WellFormed(r) && OrDefined(l, r)
    ensures OrSound(op, l, r) <==> (RangeBranch(l, r) ==> LargerBound(l, r) + 1 < 0x4000_0000)
  {
    Pow2Values();
    if RangeBranch(l, r) {
      var num := LargerBound(l, r) + 1;
      if num < 0x4000_0000 {
        ShortLength(num, 30);
        forall x, y | Members(l, x) && Members(r, y) ensures Members(BitOrXor(op, l, r), Word(op, x, y)) {
          OrInRange(op, l, r, x, y);
        }
      } else {
        ShortLength(num, 31);
        assert BitLength(num) == 31 by { LengthIsUnique(num, 31); }
        var x, y := MemberAbove(l, 0), MemberAbove(r, 0);
        assert Members(l, x) && Members(r, y) && !Members(BitOrXor(op, l, r), Word(op, x, y));
      }
    }
  }

  ghost predicate UpperLimit(i: Interval, b: int) {
    forall x :: Members(i, x) ==> x <= b
  }

  /** 2^k is the least power above m + 1 for every member m of either operand. */
  ghost predicate PowerAbove(l: Interval, r: Interval, k: nat) {
    && k >= 1 && UpperLimit(l, Pow2(k) - 2) && UpperLimit(r, Pow2(k) - 2)
    && (k > 1 ==> !UpperLimit(l, Pow2(k - 1) - 2) || !UpperLimit(r, Pow2(k - 1) - 2))
  }

  /** No operand has negative members, or members without limit. */
  ghost predicate Limited(l: Interval, r: Interval) {
    NonNegative(l) && NonNegative(r) && (exists b :: UpperLimit(l, b)) && (exists b :: UpperLimit(r, b))
  }

  ghost predicate UpToPowerAbove(l: Interval, r: Interval, v: int) {
    v >= 0 && exists k: nat :: PowerAbove(l, r, k) && k < 31 && v <= Pow2(k)
  }

  /** The result is no larger than this needs: two constants give one number, limited operands the numbers
      up to the next power of two as long as that is less than 2^31, and others give everything. */
  lemma BitOrXorMembers(op: BitOp, l: Interval, r: Interval, v: int)
    requires WellFormed(l) && WellFormed(r) && OrDefined(l, r) && !l.IsBottom() && !r.IsBottom()
    ensures Members(BitOrXor(op, l, r), v) <==>
            if IsConstant(l) && IsConstant(r) then HasWord(op, l, r, v)
            else Limited(l, r) ==> UpToPowerAbove(l, r, v)
  {
    ConstantMeans(l);
    ConstantMeans(r);
    if l.IsNumeral() && r.IsNumeral() {
      WordOfNumerals(op, l, r, v);
    } else {
      LimitedMeans(l, r);
      if RangeBranch(l, r) {
        RangeMembers(op, l, r, v);
      }
    }
  }

  lemma LimitedMeans(l: Interval, r: Interval)
    requires WellFormed(l) && WellFormed(r) && !l.IsBottom() && !r.IsBottom() && !(l.IsNumeral() && r.IsNumeral())
    ensures Limited(l, r) <==> RangeBranch(l, r)
  {
    NonNegativeMeans(l, 0);
    NonNegativeMeans(r, 0);
    BoundedMeans(l);
    BoundedMeans(r);
  }

  lemma BoundedMeans(i: Interval)
    requires WellFormed(i) && !i.IsBottom()
    ensures (exists b :: UpperLimit(i, b)) <==> i.ub.Finite?
  {
    if i.ub.Finite? {
      assert UpperLimit(i, i.ub.n);
    }
    forall b | !i.ub.Finite? ensures !UpperLimit(i, b) {
      var x := MemberAbove(i, b + 1);
      assert Members(i, x) && x > b;
    }
  }

  lemma UpperLimitMeans(i: Interval, b: int)
    requires WellFormed(i) && !i.IsBottom() && i.ub.Finite?
    ensures UpperLimit(i, b) <==> i.ub.n <= b
  {
    assert Members(i, i.ub.n);
  }

  lemma PowerAboveMeans(l: Interval, r: Interval, k: nat)
    requires WellFormed(l) && WellFormed(r) && RangeBranch(l, r) && LargerBound(l, r) >= 0
    ensures PowerAbove(l, r, k) <==> k == BitLength(LargerBound(l, r) + 1)
  {
    var num := LargerBound(l, r) + 1;
    UpperLimitMeans(l, Pow2(k) - 2);
    UpperLimitMeans(r, Pow2(k) - 2);
    if k > 1 {
      UpperLimitMeans(l, Pow2(k - 1) - 2);
      UpperLimitMeans(r, Pow2(k - 1) - 2);
    }
    assert PowerAbove(l, r, k) <==> k >= 1 && num < Pow2(k) && (k > 1 ==> num >= Pow2(k - 1));
    if PowerAbove(l, r, k) {
      LengthIsUnique(num, k);
    }
  }

  lemma UpToPower(l: Interval, r: Interval, v: int, i: nat)
    requires WellFormed(l) && WellFormed(r) && RangeBranch(l, r) && LargerBound(l, r) >= 0
    requires i == BitLength(LargerBound(l, r) + 1)
    ensures UpToPowerAbove(l, r, v) <==> i < 31 && 0 <= v <= Pow2(i)
  {
    PowerAboveMeans(l, r, i);
    if k: nat :| PowerAbove(l, r, k) && k < 31 && v <= Pow2(k) {
      PowerAboveMeans(l, r, k);
    }
  }

  lemma RangeMembers(op: BitOp, l: Interval, r: Interval, v: int)
    requires WellFormed(l) && WellFormed(r) && OrDefined(l, r) && RangeBranch(l, r)
    ensures Members(BitOrXor(op, l, r), v) <==> UpToPowerAbove(l, r, v)
  {
    var i := BitLength(LargerBound(l, r) + 1);
    assert i <= 31 by {
      Pow2Values();
      ShortLength(LargerBound(l, r) + 1, 31);
    }
    UpToPower(l, r, v, i);
    assert BitOrXor(op, l, r) == Range(0, ShiftOne(i));
  }

  lemma OrInRange(op: BitOp, l: Interval, r: Interval, x: int, y: int)
    requires WellFormed(l) && WellFormed(r) && OrDefined(l, r) && RangeBranch(l, r)
    requires LargerBound(l, r) + 1 < 0x4000_0000 && Members(l, x) && Members(r, y)
    ensures Members(BitOrXor(op, l, r), Word(op, x, y))
  {
    Pow2Values();
    var num := LargerBound(l, r) + 1;
    ShortLength(num, 30);
    SmallWord(op, x, y, BitLength(num));
  }

  /** On operands of at most 30 bits the word operation is the operation on their digits. */
  lemma SmallWord(op: BitOp, x: nat, y: nat, k: nat)
    requires x < Pow2(k) && y < Pow2(k) && k <= 30
    ensures 0 <= Word(op, x, y) < Pow2(k)
  {
    BitsBelow(op, x, y, k);
    assert Pow2(k) <= 0x4000_0000 by {
      Pow2Monotone(k, 30);
      Pow2Values();
    }
    SmallModWord(x);
    SmallModWord(y);
  }

  lemma SmallModWord(x: nat)
    requires x < 0x4000_0000
    ensures x % WORD == x
  {
  }

  // ------------------------------------------------------------------- left shift

  /** The non-negative part of the shift amount. */
  function ShiftAmount(r: Interval): Interval { Meet(r, Interval(Finite(0), PlusInfinity)) }

  predicate ShiftDefined(r: Interval) {
    ShiftAmount(r).IsBottom() ||
    (0 <= ShiftAmount(r).lb.GetNumeral() < 32 && (ShiftAmount(r).ub.Finite? ==> ShiftAmount(r).ub.n < 32))
  }

  lemma ShiftAmountBounds(r: Interval)
    requires WellFormed(r) && !ShiftAmount(r).IsBottom()
    ensures ShiftAmount(r).lb.Finite? && ShiftAmount(r).lb.n >= 0
    ensures ShiftAmount(r).ub.PlusInfinity? || (ShiftAmount(r).ub.Finite? && ShiftAmount(r).ub.n >= ShiftAmount(r).lb.n)
  {
  }

  function Coefficient(r: Interval): Interval
    requires WellFormed(r) && ShiftDefined(r) && !ShiftAmount(r).IsBottom()
  {
    ShiftAmountBounds(r);
    var s := ShiftAmount(r);
    Interval(Finite(ShiftOne(s.lb.n)), if s.ub.IsInfinity() then PlusInfinity else Finite(ShiftOne(s.ub.n)))
  }

  function ShiftLeft(l: Interval, r: Interval): Interval
    requires WellFormed(l) && WellFormed(r) && ShiftDefined(r)
  {
    if l.IsBottom() || r.IsBottom() then BOTTOM
    else if l.IsTop() && r.IsTop() then TOP
    else if ShiftAmount(r).IsBottom() then BOTTOM
    else Mul(l, Coefficient(r))
  }

  ghost predicate ShiftLeftSound(l: Interval, r: Interval)
    requires WellFormed(l) && WellFormed(r) && ShiftDefined(r)
  {
    forall x, y: nat :: Members(l, x) && Members(r, y) ==> Members(ShiftLeft(l, r), Product(x, Pow2(y)))
  }

  predicate ShiftBelow31(l: Interval, r: Interval) {
    var s := ShiftAmount(r);
    || l.IsBottom() || s.IsBottom()
    || s.ub.PlusInfinity?
    || (s.ub.Finite? && s.ub.n <= 30)
    || (s.lb == Finite(31) && l.lb == l.ub.Neg())
  }

  /** `<<` contains x * 2^y for all members exactly when the shift amounts have no upper bound or stay
      below 31, or the shift is 31 throughout and the shifted interval is symmetric around zero. */
  lemma ShiftLeftIsSoundExactlyWhen(l: Interval, r: Interval)
    requires WellFormed(l) && WellFormed(r) && ShiftDefined(r)
    ensures ShiftLeftSound(l, r) <==> ShiftBelow31(l, r)
  {
    if !l.IsBottom() && !ShiftAmount(r).IsBottom() {
      if ShiftBelow31(l, r) {
        forall x, y: nat | Members(l, x) && Members(r, y)
          ensures Members(ShiftLeft(l, r), Product(x, Pow2(y)))
        {
          ShiftLeftMember(l, r, x, y);
        }
      } else {
        ShiftLeftFails(l, r);
      }
    }
  }

  lemma ShiftLeftMember(l: Interval, r: Interval, x: int, y: nat)
    requires WellFormed(l) && WellFormed(r) && ShiftDefined(r) && ShiftBelow31(l, r)
    requires Members(l, x) && Members(r, y)
    ensures Members(ShiftLeft(l, r), Product(x, Pow2(y)))
  {
    MeetIsIntersection(r, Interval(Finite(0), PlusInfinity), y);
    var s := ShiftAmount(r);
    ShiftAmountBounds(r);
    Pow2Values();
    if s.lb == Finite(31) && s.ub == Finite(31) {
      assert y == 31 && Coefficient(r) == Single(-0x8000_0000);
      assert Members(l, -x);
      MulIsSound(l, Single(-0x8000_0000), -x, -0x8000_0000);
      assert Product(x, Pow2(y)) == -x * -0x8000_0000;
    } else {
      CoefficientMember(l, r, y);
      MulIsSound(l, Coefficient(r), x, Pow2(y));
    }
  }

  lemma CoefficientMember(l: Interval, r: Interval, y: nat)
    requires WellFormed(l) && WellFormed(r) && ShiftDefined(r) && ShiftBelow31(l, r) && !l.IsBottom()
    requires !ShiftAmount(r).IsBottom() && Members(ShiftAmount(r), y)
    requires ShiftAmount(r).lb != Finite(31) || ShiftAmount(r).ub != Finite(31)
    ensures Members(Coefficient(r), Pow2(y))
  {
    var s := ShiftAmount(r);
    Pow2Values();
    Pow2Monotone(s.lb.n, y);
    if s.ub.Finite? {
      Pow2Monotone(y, s.ub.n);
    }
  }

  lemma ShiftLeftFails(l: Interval, r: Interval)
    requires WellFormed(l) && WellFormed(r) && ShiftDefined(r) && !ShiftBelow31(l, r)
    ensures !ShiftLeftSound(l, r)
  {
    var s := ShiftAmount(r);
    ShiftAmountBounds(r);
    Pow2Values();
    assert s.ub == Finite(31);
    MeetIsIntersection(r, Interval(Finite(0), PlusInfinity), 31);
    assert Members(s, 31) && Members(r, 31);
    if s.lb.n < 31 {
      var x := MemberAbove(l, 0);
      assert ShiftLeft(l, r).IsBottom();
      assert !Members(ShiftLeft(l, r), Product(x, Pow2(31)));
    } else {
      NegatedProduct(l);
      var x :| Members(l, x) && !Members(Mul(l, Single(-0x8000_0000)), Product(x, 0x8000_0000));
      assert !Members(ShiftLeft(l, r), Product(x, Pow2(31)));
    }
  }

  /** Multiplying by -2^31 mirrors the interval, so a one-sided bound is lost. */
  lemma NegatedProduct(l: Interval)
    requires WellFormed(l) && !l.IsBottom() && l.lb != l.ub.Neg()
    ensures exists x :: Members(l, x) && !Members(Mul(l, Single(-0x8000_0000)), Product(x, 0x8000_0000))
  {
    MirroredCorners(l);
    var x := OutsideMirror(l);
    MirrorMisses(l, x);
    assert Product(x, 0x8000_0000) == 0x8000_0000 * x;
  }

  lemma OutsideMirror(l: Interval) returns (x: int)
    requires WellFormed(l) && !l.IsBottom() && l.lb != l.ub.Neg()
    ensures Members(l, x) && !Members(Interval(l.ub.Neg(), l.lb.Neg()), x)
  {
    if l.ub.Leq(l.lb.Neg()) {
      x := MemberBelow(l, if l.ub.Finite? then -l.ub.n - 1 else 0);
    } else {
      x := MemberAbove(l, if l.lb.Finite? then -l.lb.n + 1 else 0);
    }
  }

  lemma MirrorMisses(l: Interval, x: int)
    requires !Members(Interval(l.ub.Neg(), l.lb.Neg()), x)
    ensures !Members(Interval(Mirrored(l.ub), Mirrored(l.lb)), 0x8000_0000 * x)
  {
  }

  function Mirrored(a: NumericLiteral): NumericLiteral {
    if a.Finite? then Finite(-0x8000_0000 * a.n) else a.Neg()
  }

  lemma MirroredCorners(l: Interval)
    requires WellFormed(l) && !l.IsBottom()
    ensures Mul(l, Single(-0x8000_0000)) == Interval(Mirrored(l.ub), Mirrored(l.lb))
  {
    var a, b := Mirrored(l.lb), Mirrored(l.ub);
    assert a == l.lb.Mul(Finite(-0x8000_0000)) && b == l.ub.Mul(Finite(-0x8000_0000));
    var c := [a, a, b, b];
    assert c[0] == a && c[2] == b && b.Leq(a);
    OneMinimum(b, c);
    OneMaximum(a, c);
  }

  // --------------------------------------------------------- exactness of the shifts

  function Shifted(left: bool, x: int, y: nat): int {
    if left then Product(x, Pow2(y)) else x / Pow2(y)
  }

  ghost predicate HasShifted(left: bool, l: Interval, r: Interval, v: int) {
    exists x, y: nat :: Members(l, x) && Members(r, y) && Shifted(left, x, y) == v
  }

  ghost predicate HasShiftedBeyond(left: bool, l: Interval, r: Interval, k: int, up: bool) {
    exists v :: (if up then v >= k else v <= k) && HasShifted(left, l, r, v)
  }

  /** A bound that shifted members reach when it is finite and exceed when it is infinite. */
  ghost predicate ShiftReaches(left: bool, l: Interval, r: Interval, bound: NumericLiteral) {
    match bound
    case Finite(v) => HasShifted(left, l, r, v)
    case PlusInfinity => forall k :: HasShiftedBeyond(left, l, r, k, true)
    case MinusInfinity => forall k :: HasShiftedBeyond(left, l, r, k, false)
  }

  lemma {:induction false} Pow2Exceeds(k: nat)
    ensures Pow2(k) > k
  {
    if k > 0 {
      Pow2Exceeds(k - 1);
    }
  }

  /** The bounds of shift amounts below 31 or without an upper bound. */
  predicate SmallAmount(r: Interval) {
    ShiftAmount(r).lb.Leq(Finite(30)) && (ShiftAmount(r).ub.PlusInfinity? || ShiftAmount(r).ub.Leq(Finite(30)))
  }

  /** An amount whose power of two is close to a bound of the coefficient. */
  lemma AmountNear(r: Interval, q: NumericLiteral, k: nat) returns (y: nat)
    requires WellFormed(r) && ShiftDefined(r) && !ShiftAmount(r).IsBottom() && SmallAmount(r)
    requires BoundOf(Coefficient(r), q)
    ensures Members(r, y) && CloseTo(q, Pow2(y), k)
  {
    var s := ShiftAmount(r);
    ShiftAmountBounds(r);
    if q.Finite? {
      y := if q == Finite(Pow2(s.lb.n)) then s.lb.n else s.ub.n;
    } else {
      y := if s.lb.n >= k then s.lb.n else k;
      Pow2Exceeds(y);
    }
    MeetIsIntersection(r, Interval(Finite(0), PlusInfinity), y);
  }

  lemma ShiftedCorner(l: Interval, r: Interval, p: NumericLiteral, q: NumericLiteral, k: int)
    requires WellFormed(l) && WellFormed(r) && ShiftDefined(r) && !l.IsBottom() && !ShiftAmount(r).IsBottom()
    requires SmallAmount(r) && BoundOf(l, p) && BoundOf(Coefficient(r), q) && k >= 1
    ensures exists v :: HasShifted(true, l, r, v) && CloseTo(p.Mul(q), v, k)
  {
    var x := Near(l, p, k);
    var y := AmountNear(r, q, k);
    ProductNear(p, q, x, Pow2(y), k);
    assert Shifted(true, x, y) == x * Pow2(y);
    assert HasShifted(true, l, r, x * Pow2(y));
  }

  lemma CornerIsReached(l: Interval, r: Interval, p: NumericLiteral, q: NumericLiteral)
    requires WellFormed(l) && WellFormed(r) && ShiftDefined(r) && !l.IsBottom() && !ShiftAmount(r).IsBottom()
    requires SmallAmount(r) && BoundOf(l, p) && BoundOf(Coefficient(r), q)
    ensures ShiftReaches(true, l, r, p.Mul(q))
  {
    match p.Mul(q)
    case Finite(_) =>
      ShiftedCorner(l, r, p, q, 1);
    case PlusInfinity =>
      forall k ensures HasShiftedBeyond(true, l, r, k, true) {
        ShiftedCorner(l, r, p, q, if k < 1 then 1 else k);
      }
    case MinusInfinity =>
      forall k ensures HasShiftedBeyond(true, l, r, k, false) {
        ShiftedCorner(l, r, p, q, if k < -1 then -k else 1);
      }
  }

  lemma ProductIsReached(l: Interval, r: Interval)
    requires WellFormed(l) && WellFormed(r) && ShiftDefined(r) && !l.IsBottom() && !ShiftAmount(r).IsBottom()
    requires SmallAmount(r)
    ensures var m := Mul(l, Coefficient(r)); ShiftReaches(true, l, r, m.lb) && ShiftReaches(true, l, r, m.ub)
  {
    var c := Coefficient(r);
    CoefficientGrows(r);
    NotInfiniteCorners(l, c);
    CornerIsReached(l, r, l.lb, c.lb);
    CornerIsReached(l, r, l.lb, c.ub);
    CornerIsReached(l, r, l.ub, c.lb);
    CornerIsReached(l, r, l.ub, c.ub);
  }

  /** MAIN RESULT: with amounts below 31, or without an upper bound, `<<` yields the hull of the shifted
      members: both bounds are reached. */
  lemma ShiftLeftIsExact(l: Interval, r: Interval)
    requires WellFormed(l) && WellFormed(r) && ShiftDefined(r) && !l.IsBottom() && !ShiftAmount(r).IsBottom()
    requires SmallAmount(r)
    ensures ShiftReaches(true, l, r, ShiftLeft(l, r).lb) && ShiftReaches(true, l, r, ShiftLeft(l, r).ub)
  {
    ProductIsReached(l, r);
    if l.IsTop() && r.IsTop() {
      CoefficientGrows(r);
      TopTimes(Coefficient(r));
    } else {
      assert ShiftLeft(l, r) == Mul(l, Coefficient(r));
    }
  }

  lemma CoefficientGrows(r: Interval)
    requires WellFormed(r) && ShiftDefined(r) && !ShiftAmount(r).IsBottom() && SmallAmount(r)
    ensures WellFormed(Coefficient(r)) && !Coefficient(r).IsBottom()
    ensures Finite(1).Leq(Coefficient(r).lb) && Coefficient(r).lb.Finite? && Coefficient(r).lb.Leq(Coefficient(r).ub)
  {
    var s := ShiftAmount(r);
    ShiftAmountBounds(r);
    if s.ub.Finite? {
      Pow2Monotone(s.lb.n, s.ub.n);
    }
  }

  lemma TopTimes(c: Interval)
    requires Finite(1).Leq(c.lb) && c.lb.Finite? && c.lb.Leq(c.ub)
    ensures Mul(TOP, c) == TOP
  {
    var corners := [TOP.lb.Mul(c.lb), TOP.lb.Mul(c.ub), TOP.ub.Mul(c.lb), TOP.ub.Mul(c.ub)];
    assert corners[0] == MinusInfinity && corners[2] == PlusInfinity;
    OneMinimum(MinusInfinity, corners);
    OneMaximum(PlusInfinity, corners);
  }

  // ------------------------------------------------------------------- right shift

  predicate InS32(a: NumericLiteral) { a.Finite? ==> S32(a.n) == a.n }

  /** `>>` on literals: floor of the quotient by 2^s on 32-bit operands. */
  function ShiftLiteral(a: NumericLiteral, s: NumericLiteral): NumericLiteral
    requires s.Geq(Finite(0)) && (s.Finite? ==> s.n < 32)
  {
    if a.IsZero() || a.IsInfinity() then a
    else if s.IsInfinity() then if a.Geq(Finite(0)) then Finite(0) else Finite(-1)
    else Finite(S32(a.GetNumeral()) / Pow2(s.n))
  }

  /** Intervals around zero are split; each part is shifted on its own. */
  function ShiftRight(l: Interval, r: Interval): Interval
    requires WellFormed(l) && WellFormed(r) && ShiftDefined(r)
    decreases l.Contains(0)
  {
    if l.IsBottom() || r.IsBottom() then BOTTOM
    else if l.IsTop() && r.IsTop() then TOP
    else if ShiftAmount(r).IsBottom() then BOTTOM
    else if l.Contains(0) then
      var neg, pos := Interval(l.lb, Finite(-1)), Interval(Finite(1), l.ub);
      Join(Join(ShiftRight(neg, r), ShiftRight(pos, r)), Single(0))
    else
      ShiftAmountBounds(r);
      var s := ShiftAmount(r);
      FourCorners(ShiftLiteral(l.lb, s.lb), ShiftLiteral(l.lb, s.ub),
                  ShiftLiteral(l.ub, s.lb), ShiftLiteral(l.ub, s.ub))
  }

  function Floor(a: NumericLiteral, y: nat): NumericLiteral {
    if a.Finite? then Finite(a.n / Pow2(y)) else a
  }

  lemma ShiftLiteralIsFloor(a: NumericLiteral, s: NumericLiteral)
    requires s.Finite? && 0 <= s.n < 32 && InS32(a)
    ensures ShiftLiteral(a, s) == Floor(a, s.n)
  {
    if a.IsZero() {
      assert a == Finite(0) && 0 / Pow2(s.n) == 0;
    } else if a.Finite? {
      assert S32(a.n) == a.n;
    }
  }

  lemma FloorBetweenShifts(a: NumericLiteral, c: NumericLiteral, d: NumericLiteral, y: nat)
    requires InS32(a) && c.Finite? && 0 <= c.n <= y && c.n < 32 && Finite(y).Leq(d) && (d.Finite? ==> d.n < 32)
    ensures Min(ShiftLiteral(a, c), ShiftLiteral(a, d)).Leq(Floor(a, y))
    ensures Floor(a, y).Leq(Max(ShiftLiteral(a, c), ShiftLiteral(a, d)))
  {
    ShiftLiteralIsFloor(a, c);
    if a.Finite? {
      Pow2Monotone(c.n, y);
      DivMonotoneDenominator(a.n, Pow2(c.n), Pow2(y));
      if d.Finite? {
        ShiftLiteralIsFloor(a, d);
        Pow2Monotone(y, d.n);
        DivMonotoneDenominator(a.n, Pow2(y), Pow2(d.n));
      }
    }
  }

  lemma FloorBetweenValues(a: NumericLiteral, b: NumericLiteral, x: int, y: nat)
    requires a.Leq(Finite(x)) && Finite(x).Leq(b)
    ensures Min(Floor(a, y), Floor(b, y)).Leq(Finite(x / Pow2(y)))
    ensures Finite(x / Pow2(y)).Leq(Max(Floor(a, y), Floor(b, y)))
  {
    if a.Finite? {
      DivMonotoneNumerator(a.n, x, Pow2(y));
    }
    if b.Finite? {
      DivMonotoneNumerator(x, b.n, Pow2(y));
    }
  }

  lemma JoinMember(a: Interval, b: Interval, v: int)
    requires Members(a, v) || Members(b, v)
    ensures Members(Join(a, b), v)
  {
  }

  /** The 32-bit conversion cannot push a finite bound across the values it bounds. */
  predicate ShiftFits(l: Interval, r: Interval) {
    || l.IsBottom() || ShiftAmount(r).IsBottom()
    || ((l.lb.Finite? ==> l.lb.n >= -0x8000_0000) && (l.ub.Finite? ==> l.ub.n < 0x8000_0000))
  }

  ghost predicate ShiftRightSound(l: Interval, r: Interval)
    requires WellFormed(l) && WellFormed(r) && ShiftDefined(r)
  {
    forall x, y: nat :: Members(l, x) && Members(r, y) ==> Members(ShiftRight(l, r), x / Pow2(y))
  }

  /** MAIN RESULT: `>>` contains floor(x / 2^y) for all members, through the split at zero and with
      infinite bounds of both operands, exactly when no finite lower bound lies below and no finite upper
      bound above the 32-bit range. A bound that leaves the range on the other side wraps harmlessly. */
  lemma ShiftRightIsSoundExactlyWhen(l: Interval, r: Interval)
    requires WellFormed(l) && WellFormed(r) && ShiftDefined(r)
    ensures ShiftRightSound(l, r) <==> ShiftFits(l, r)
  {
    if ShiftFits(l, r) {
      forall x, y: nat | Members(l, x) && Members(r, y) ensures Members(ShiftRight(l, r), x / Pow2(y)) {
        ShiftRightMember(l, r, x, y);
      }
    } else {
      ShiftRightFails(l, r);
    }
  }

  lemma {:induction false} ShiftRightMember(l: Interval, r: Interval, x: int, y: nat)
    requires WellFormed(l) && WellFormed(r) && ShiftDefined(r) && ShiftFits(l, r)
    requires Members(l, x) && Members(r, y)
    ensures Members(ShiftRight(l, r), x / Pow2(y))
    decreases l.Contains(0)
  {
    MeetIsIntersection(r, Interval(Finite(0), PlusInfinity), y);
    var s := ShiftAmount(r);
    if l.IsTop() && r.IsTop() {
    } else if l.Contains(0) {
      var neg, pos := Interval(l.lb, Finite(-1)), Interval(Finite(1), l.ub);
      if x < 0 {
        ShiftRightMember(neg, r, x, y);
      } else if x > 0 {
        ShiftRightMember(pos, r, x, y);
      } else {
        SmallQuotient(0, Pow2(y));
      }
      var a, b := ShiftRight(neg, r), ShiftRight(pos, r);
      if x != 0 {
        JoinMember(a, b, x / Pow2(y));
      }
      JoinMember(Join(a, b), Single(0), x / Pow2(y));
    } else {
      ShiftAmountBounds(r);
      CornersHold(l, r, x, y);
    }
  }

  /** An interval on one side of zero. */
  lemma CornersHold(l: Interval, r: Interval, x: int, y: nat)
    requires WellFormed(l) && WellFormed(r) && ShiftDefined(r) && ShiftFits(l, r) && !l.Contains(0)
    requires Members(l, x) && !ShiftAmount(r).IsBottom() && Members(ShiftAmount(r), y)
    ensures Members(ShiftRight(l, r), x / Pow2(y))
  {
    ShiftAmountBounds(r);
    var s := ShiftAmount(r);
    if l.lb.Finite? && l.lb.n >= 0x8000_0000 {
      WrappedBelow(l.lb.n, s, x, y);
      CornersContain(l, s, x / Pow2(y));
    } else if l.ub.Finite? && l.ub.n < -0x8000_0000 {
      WrappedAbove(l.ub.n, s, x, y);
      CornersContain(l, s, x / Pow2(y));
    } else {
      FittingCorners(l, s, x, y);
    }
  }

  function Corners(l: Interval, s: Interval): Interval
    requires s.lb.Finite? && 0 <= s.lb.n < 32 && Finite(0).Leq(s.ub) && (s.ub.Finite? ==> s.ub.n < 32)
  {
    FourCorners(ShiftLiteral(l.lb, s.lb), ShiftLiteral(l.lb, s.ub), ShiftLiteral(l.ub, s.lb), ShiftLiteral(l.ub, s.ub))
  }

  lemma FittingCorners(l: Interval, s: Interval, x: int, y: nat)
    requires s.lb.Finite? && 0 <= s.lb.n < 32 && Finite(0).Leq(s.ub) && (s.ub.Finite? ==> s.ub.n < 32)
    requires InS32(l.lb) && InS32(l.ub) && Members(l, x) && Members(s, y)
    ensures Members(Corners(l, s), x / Pow2(y))
  {
    FloorBetweenShifts(l.lb, s.lb, s.ub, y);
    FloorBetweenShifts(l.ub, s.lb, s.ub, y);
    FloorBetweenValues(l.lb, l.ub, x, y);
    FourBounds(Floor(l.lb, y), Floor(l.ub, y), Finite(x / Pow2(y)),
               ShiftLiteral(l.lb, s.lb), ShiftLiteral(l.lb, s.ub), ShiftLiteral(l.ub, s.lb), ShiftLiteral(l.ub, s.ub));
  }

  /** One infinite bound, and the corner of the other bound on the right side of v. */
  lemma CornersContain(l: Interval, s: Interval, v: int)
    requires s.lb.Finite? && 0 <= s.lb.n < 32 && Finite(0).Leq(s.ub) && (s.ub.Finite? ==> s.ub.n < 32)
    requires (l.ub.PlusInfinity? && ShiftLiteral(l.lb, s.ub).Leq(Finite(v)))
          || (l.lb.MinusInfinity? && Finite(v).Leq(ShiftLiteral(l.ub, s.ub)))
    ensures Members(Corners(l, s), v)
  {
    var ll, lu := ShiftLiteral(l.lb, s.lb), ShiftLiteral(l.lb, s.ub);
    var ul, uu := ShiftLiteral(l.ub, s.lb), ShiftLiteral(l.ub, s.ub);
    CornersWithin(ll, lu, ul, uu);
  }

  lemma QuotientFalls(x: int, v: int, p: int, q: int)
    requires 0 <= x && v <= x && 1 <= p <= q
    ensures v / q <= x / p
  {
    DivMonotoneNumerator(v, x, q);
    DivMonotoneDenominator(x, p, q);
  }

  lemma QuotientRises(x: int, v: int, p: int, q: int)
    requires x < 0 && x <= v && 1 <= p <= q
    ensures x / p <= v / q && x / p <= -1
  {
    DivMonotoneNumerator(x, v, q);
    DivMonotoneDenominator(x, p, q);
  }

  /** A finite bound as the shift reads it: saturated to 64 bits, then cut to 32. */
  function Narrowed(n: int): int { S32(Finite(n).GetNumeral()) }

  lemma NarrowedRange(n: int)
    ensures -0x8000_0000 <= Narrowed(n) < 0x8000_0000
    ensures -0x8000_0000 <= n < 0x8000_0000 ==> Narrowed(n) == n
  {
  }

  /** A lower bound beyond the range wraps to something smaller. */
  lemma WrappedBelow(n: int, s: Interval, x: int, y: nat)
    requires 0 < n <= x && s.lb.Finite? && 0 <= s.lb.n && Members(s, y) && (s.ub.Finite? ==> s.ub.n < 32)
    ensures ShiftLiteral(Finite(n), s.ub).Leq(Finite(x / Pow2(y)))
  {
    NarrowedRange(n);
    if s.ub.Finite? {
      Pow2Monotone(y, s.ub.n);
      ShiftLiteralIs(n, s.ub);
      QuotientFalls(x, Narrowed(n), Pow2(y), Pow2(s.ub.n));
    } else {
      QuotientFalls(x, 0, Pow2(y), Pow2(y));
      SmallQuotient(0, Pow2(y));
    }
  }

  /** An upper bound below the range wraps to something larger. */
  lemma WrappedAbove(n: int, s: Interval, x: int, y: nat)
    requires x <= n < 0 && s.lb.Finite? && 0 <= s.lb.n && Members(s, y) && (s.ub.Finite? ==> s.ub.n < 32)
    ensures Finite(x / Pow2(y)).Leq(ShiftLiteral(Finite(n), s.ub))
  {
    NarrowedRange(n);
    if s.ub.Finite? {
      Pow2Monotone(y, s.ub.n);
      ShiftLiteralIs(n, s.ub);
      QuotientRises(x, Narrowed(n), Pow2(y), Pow2(s.ub.n));
    } else {
      QuotientRises(x, x, Pow2(y), Pow2(y));
    }
  }

  lemma ShiftLiteralIs(n: int, s: NumericLiteral)
    requires s.Finite? && 0 <= s.n < 32
    ensures ShiftLiteral(Finite(n), s) == Finite(Narrowed(n) / Pow2(s.n))
  {
    if n == 0 {
      SmallQuotient(0, Pow2(s.n));
    }
  }

  lemma {:induction false} Pow2Sum(j: nat, k: nat)
    ensures Pow2(j + k) == Pow2(j) * Pow2(k)
  {
    if j > 0 {
      Pow2Sum(j - 1, k);
      assert 2 * (Pow2(j - 1) * Pow2(k)) == (2 * Pow2(j - 1)) * Pow2(k);
    }
  }

  /** What is left of 2^31 after a shift by at least c. */
  function ShiftedRange(c: nat): int
    requires c < 32
  {
    Pow2(31 - c)
  }

  /** Shifting a finite bound gives a number of at most 31 - c bits and a sign. */
  lemma ShiftLiteralRange(n: int, s: NumericLiteral, c: nat)
    requires c < 32 && Finite(c).Leq(s) && (s.Finite? ==> s.n < 32)
    ensures Finite(-ShiftedRange(c)).Leq(ShiftLiteral(Finite(n), s))
    ensures ShiftLiteral(Finite(n), s).Leq(Finite(ShiftedRange(c) - 1))
  {
    if s.Finite? {
      var p, q := Pow2(c), Pow2(s.n);
      Pow2Monotone(c, s.n);
      Pow2Sum(c, 31 - c);
      Pow2Values();
      NarrowedRange(n);
      ShiftLiteralIs(n, s);
      WrappedQuotient(Narrowed(n), p, q, ShiftedRange(c));
    }
  }

  lemma WrappedQuotient(v: int, p: int, q: int, b: int)
    requires 1 <= p <= q && b >= 1 && -(p * b) <= v < p * b
    ensures -b <= v / q < b
  {
    if v >= 0 {
      DivMonotoneDenominator(v, p, q);
      QuotientBelow(v, p, b);
    } else {
      DivMonotoneDenominator(v, p, q);
      assert v - p * -b >= 0;
      QuotientAtLeast(v, p, -b);
    }
  }

  /** A finite upper bound leads to results below what is left of 2^31. */
  lemma {:induction false} ShiftRightBelow(l: Interval, r: Interval)
    requires WellFormed(l) && WellFormed(r) && ShiftDefined(r) && !ShiftAmount(r).IsBottom() && l.ub.Finite?
    ensures ShiftAmount(r).lb.Finite? && 0 <= ShiftAmount(r).lb.n < 32
    ensures var i := ShiftRight(l, r); i.IsBottom() || i.ub.Leq(Finite(ShiftedRange(ShiftAmount(r).lb.n) - 1))
    decreases l.Contains(0)
  {
    ShiftAmountBounds(r);
    if !l.IsBottom() {
      if l.Contains(0) {
        ShiftRightBelow(Interval(l.lb, Finite(-1)), r);
        ShiftRightBelow(Interval(Finite(1), l.ub), r);
      } else {
        CornersBelow(l, ShiftAmount(r));
      }
    }
  }

  lemma CornersBelow(l: Interval, s: Interval)
    requires s.lb.Finite? && 0 <= s.lb.n < 32 && s.lb.Leq(s.ub) && (s.ub.Finite? ==> s.ub.n < 32)
    requires l.ub.Finite? && l.lb != PlusInfinity
    ensures Corners(l, s).ub.Leq(Finite(ShiftedRange(s.lb.n) - 1))
  {
    ShiftLiteralRange(l.ub.n, s.lb, s.lb.n);
    ShiftLiteralRange(l.ub.n, s.ub, s.lb.n);
    if l.lb.Finite? {
      ShiftLiteralRange(l.lb.n, s.lb, s.lb.n);
      ShiftLiteralRange(l.lb.n, s.ub, s.lb.n);
    }
    var c := [ShiftLiteral(l.lb, s.lb), ShiftLiteral(l.lb, s.ub), ShiftLiteral(l.ub, s.lb), ShiftLiteral(l.ub, s.ub)];
    assert MaxOf(c) in c || MaxOf(c) == MinusInfinity;
  }

  lemma {:induction false} ShiftRightAbove(l: Interval, r: Interval)
    requires WellFormed(l) && WellFormed(r) && ShiftDefined(r) && !ShiftAmount(r).IsBottom() && l.lb.Finite?
    ensures ShiftAmount(r).lb.Finite? && 0 <= ShiftAmount(r).lb.n < 32
    ensures var i := ShiftRight(l, r); i.IsBottom() || Finite(-ShiftedRange(ShiftAmount(r).lb.n)).Leq(i.lb)
    decreases l.Contains(0)
  {
    ShiftAmountBounds(r);
    if !l.IsBottom() {
      if l.Contains(0) {
        ShiftRightAbove(Interval(l.lb, Finite(-1)), r);
        ShiftRightAbove(Interval(Finite(1), l.ub), r);
      } else {
        CornersAbove(l, ShiftAmount(r));
      }
    }
  }

  lemma CornersAbove(l: Interval, s: Interval)
    requires s.lb.Finite? && 0 <= s.lb.n < 32 && s.lb.Leq(s.ub) && (s.ub.Finite? ==> s.ub.n < 32)
    requires l.lb.Finite? && l.ub != MinusInfinity
    ensures Finite(-ShiftedRange(s.lb.n)).Leq(Corners(l, s).lb)
  {
    ShiftLiteralRange(l.lb.n, s.lb, s.lb.n);
    ShiftLiteralRange(l.lb.n, s.ub, s.lb.n);
    if l.ub.Finite? {
      ShiftLiteralRange(l.ub.n, s.lb, s.lb.n);
      ShiftLiteralRange(l.ub.n, s.ub, s.lb.n);
    }
    var c := [ShiftLiteral(l.lb, s.lb), ShiftLiteral(l.lb, s.ub), ShiftLiteral(l.ub, s.lb), ShiftLiteral(l.ub, s.ub)];
    assert MinOf(c) in c || MinOf(c) == PlusInfinity;
  }

  /** The bound that does not fit is missed by the least shift. */
  lemma ShiftRightFails(l: Interval, r: Interval)
    requires WellFormed(l) && WellFormed(r) && ShiftDefined(r) && !ShiftFits(l, r)
    ensures !ShiftRightSound(l, r)
  {
    ShiftAmountBounds(r);
    var y: nat := ShiftAmount(r).lb.n;
    MeetIsIntersection(r, Interval(Finite(0), PlusInfinity), y);
    assert Members(r, y);
    var x := MissedBound(l, r, y);
    assert Members(l, x) && !Members(ShiftRight(l, r), x / Pow2(y));
  }

  lemma MissedBound(l: Interval, r: Interval, y: nat) returns (x: int)
    requires WellFormed(l) && WellFormed(r) && ShiftDefined(r) && !ShiftFits(l, r) && ShiftAmount(r).lb == Finite(y)
    ensures Members(l, x) && !Members(ShiftRight(l, r), x / Pow2(y))
  {
    if l.ub.Finite? && l.ub.n >= 0x8000_0000 {
      x := l.ub.n;
      ShiftRightBelow(l, r);
    } else {
      x := l.lb.n;
      ShiftRightAbove(l, r);
    }
    TooFarOut(x, y);
  }

  lemma TooFarOut(x: int, y: nat)
    requires y < 32
    ensures x >= 0x8000_0000 ==> x / Pow2(y) >= ShiftedRange(y)
    ensures x < -0x8000_0000 ==> x / Pow2(y) < -ShiftedRange(y)
  {
    Pow2Sum(y, 31 - y);
    Pow2Values();
    QuotientBeyond(x, Pow2(y), ShiftedRange(y));
  }

  lemma QuotientBeyond(x: int, p: int, b: int)
    requires p >= 1 && p * b == 0x8000_0000
    ensures x >= 0x8000_0000 ==> x / p >= b
    ensures x < -0x8000_0000 ==> x / p < -b
  {
    assert p * -b == -(p * b);
    if x >= 0x8000_0000 {
      QuotientAtLeast(x, p, b);
    } else if x < -0x8000_0000 {
      QuotientBelow(x, p, -b);
    }
  }

  lemma QuotientBelow(x: int, y: int, q: int)
    requires y > 0 && x < y * q
    ensures x / y < q
  {
    var d := x / y;
    assert x == y * d + x % y;
    if d >= q {
      LemmaMulLe(q, d, y);
    }
  }

  // -------------------------------------------------------- the invariant is kept

  lemma CornersKeepWellFormed(ll: NumericLiteral, lu: NumericLiteral, ul: NumericLiteral, uu: NumericLiteral)
    requires ll != PlusInfinity && uu != MinusInfinity
    ensures WellFormed(FourCorners(ll, lu, ul, uu))
  {
    var c := [ll, lu, ul, uu];
    assert MinOf(c).Leq(c[0]) && c[3].Leq(MaxOf(c));
  }

  /** With OperatorsKeepWellFormed: no operator ever yields a non-empty interval without members. */
  lemma BitOperatorsKeepWellFormed(op: BitOp, l: Interval, r: Interval)
    requires WellFormed(l) && WellFormed(r)
    ensures WellFormed(Rem(l, r)) && WellFormed(BitAnd(l, r))
    ensures OrDefined(l, r) ==> WellFormed(BitOrXor(op, l, r))
  {
  }

  lemma ShiftLeftKeepsWellFormed(l: Interval, r: Interval)
    requires WellFormed(l) && WellFormed(r) && ShiftDefined(r)
    ensures WellFormed(ShiftLeft(l, r))
  {
    if !l.IsBottom() && !ShiftAmount(r).IsBottom() {
      ShiftAmountBounds(r);
      OperatorsKeepWellFormed(Times, l, Coefficient(r));
    }
  }

  lemma {:induction false} ShiftRightKeepsWellFormed(l: Interval, r: Interval)
    requires WellFormed(l) && WellFormed(r) && ShiftDefined(r)
    ensures WellFormed(ShiftRight(l, r))
    decreases l.Contains(0)
  {
    if !l.IsBottom() && !r.IsBottom() && !ShiftAmount(r).IsBottom() && !(l.IsTop() && r.IsTop()) {
      if l.Contains(0) {
        var neg, pos := Interval(l.lb, Finite(-1)), Interval(Finite(1), l.ub);
        ShiftRightKeepsWellFormed(neg, r);
        ShiftRightKeepsWellFormed(pos, r);
        JoinIsLeastUpperBound(ShiftRight(neg, r), ShiftRight(pos, r), TOP);
        JoinIsLeastUpperBound(Join(ShiftRight(neg, r), ShiftRight(pos, r)), Single(0), TOP);
      } else {
        ShiftAmountBounds(r);
        var s := ShiftAmount(r);
        CornersKeepWellFormed(ShiftLiteral(l.lb, s.lb), ShiftLiteral(l.lb, s.ub),
                              ShiftLiteral(l.ub, s.lb), ShiftLiteral(l.ub, s.ub));
      }
    }
  }

  // -------------------------------------------------------- inputs that miss

  /** 0 | 0 and 0 ^ 0 over [0, 2^30 - 1] are in no interval. */
  lemma OrMissesZero(op: BitOp, l: Interval, r: Interval)
    requires l == Range(0, 0x3FFF_FFFF) && r == Single(0)
    ensures Members(l, 0) && Members(r, 0) && OrDefined(l, r) && BitOrXor(op, l, r).IsBottom()
  {
    Pow2Values();
    var num := LargerBound(l, r) + 1;
    assert BitLength(num) == 31 by { LengthIsUnique(num, 31); }
  }

  /** 1 << 31 turns negative. */
  lemma ShiftLeftMisses(l: Interval, r: Interval)
    requires l == Single(1) && r == Single(31)
    ensures ShiftDefined(r) && ShiftLeft(l, r) == Single(-0x8000_0000)
  {
    var s := ShiftAmount(r);
    assert s.lb.n == s.ub.n == 31;
    MirroredCorners(l);
  }

  /** So does 2^31 >> 0. */
  lemma ShiftRightMisses(l: Interval, r: Interval)
    requires l == Single(0x8000_0000) && r == Single(0)
    ensures ShiftDefined(r) && ShiftRight(l, r) == Single(-0x8000_0000)
  {
    Pow2Values();
    var s := ShiftAmount(r);
    assert s.lb.n == s.ub.n == 0;
    assert ShiftLiteral(l.lb, s.lb) == Finite(-0x8000_0000);
  }

  // --------------------------------------------------------- exactness of the right shift

  /** An amount at which a finite bound, shifted, is what the literals answer for the bound of the amounts. */
  lemma LiteralIsReached(l: Interval, r: Interval, a: NumericLiteral, q: NumericLiteral)
    requires WellFormed(l) && WellFormed(r) && ShiftDefined(r) && !l.IsBottom() && !ShiftAmount(r).IsBottom()
    requires BoundOf(l, a) && a.Finite? && a.n != 0 && S32(a.n) == a.n && BoundOf(ShiftAmount(r), q)
    ensures q.Geq(Finite(0)) && (q.Finite? ==> q.n < 32) && ShiftReaches(false, l, r, ShiftLiteral(a, q))
  {
    var s := ShiftAmount(r);
    ShiftAmountBounds(r);
    var y: nat := if q.Finite? then q.n else s.lb.n + AbsOf(a.n);
    MeetIsIntersection(r, Interval(Finite(0), PlusInfinity), y);
    if q.Finite? {
      assert ShiftLiteral(a, q) == Finite(a.n / Pow2(y));
    } else {
      Pow2Exceeds(y);
      VanishingQuotient(a.n, Pow2(y));
    }
    assert ShiftLiteral(a, q) == Finite(Shifted(false, a.n, y));
  }

  lemma VanishingQuotient(x: int, p: int)
    requires AbsOf(x) < p
    ensures x / p == if x >= 0 then 0 else -1
  {
    if x >= 0 {
      SmallQuotient(x, p);
    } else {
      assert x == p * -1 + (x + p);
      QuotientAtLeast(x, p, -1);
      DivMonotoneDenominator(x, p, p);
    }
  }

  lemma InfiniteBoundIsReached(l: Interval, r: Interval, a: NumericLiteral)
    requires WellFormed(l) && WellFormed(r) && ShiftDefined(r) && !l.IsBottom() && !ShiftAmount(r).IsBottom()
    requires BoundOf(l, a) && !a.Finite?
    ensures ShiftReaches(false, l, r, a)
  {
    ShiftAmountBounds(r);
    var y: nat := ShiftAmount(r).lb.n;
    MeetIsIntersection(r, Interval(Finite(0), PlusInfinity), y);
    forall k ensures HasShiftedBeyond(false, l, r, k, a.PlusInfinity?) {
      var x := FarDividend(l, a, Pow2(y), k);
      assert HasShifted(false, l, r, Shifted(false, x, y));
    }
  }

  lemma ShiftCornerIsReached(l: Interval, r: Interval, a: NumericLiteral, q: NumericLiteral)
    requires WellFormed(l) && WellFormed(r) && ShiftDefined(r) && !l.IsBottom() && !ShiftAmount(r).IsBottom()
    requires !l.Contains(0) && BoundOf(l, a) && InS32(a) && BoundOf(ShiftAmount(r), q)
    ensures q.Geq(Finite(0)) && (q.Finite? ==> q.n < 32) && ShiftReaches(false, l, r, ShiftLiteral(a, q))
  {
    ShiftAmountBounds(r);
    if a.Finite? {
      LiteralIsReached(l, r, a, q);
    } else {
      InfiniteBoundIsReached(l, r, a);
    }
  }

  lemma ReachedFromPart(part: Interval, l: Interval, r: Interval, bound: NumericLiteral)
    requires ShiftReaches(false, part, r, bound) && Subset(part, l)
    ensures ShiftReaches(false, l, r, bound)
  {
    forall v | HasShifted(false, part, r, v) ensures HasShifted(false, l, r, v) {
      var x, y: nat :| Members(part, x) && Members(r, y) && Shifted(false, x, y) == v;
    }
    if !bound.Finite? {
      forall k ensures HasShiftedBeyond(false, l, r, k, bound.PlusInfinity?) {
        assert HasShiftedBeyond(false, part, r, k, bound.PlusInfinity?);
      }
    }
  }

  lemma SideShift(l: Interval, r: Interval)
    requires WellFormed(l) && WellFormed(r) && ShiftDefined(r) && !l.IsBottom() && !ShiftAmount(r).IsBottom()
    requires !l.Contains(0)
    ensures ShiftAmount(r).lb.Finite? && 0 <= ShiftAmount(r).lb.n < 32 && Finite(0).Leq(ShiftAmount(r).ub)
    ensures ShiftAmount(r).ub.Finite? ==> ShiftAmount(r).ub.n < 32
    ensures ShiftRight(l, r) == Corners(l, ShiftAmount(r))
  {
    ShiftAmountBounds(r);
    assert !l.IsTop() && !r.IsBottom();
  }

  /** An interval on one side of zero. */
  lemma SideIsExact(l: Interval, r: Interval)
    requires WellFormed(l) && WellFormed(r) && ShiftDefined(r) && !l.IsBottom() && !ShiftAmount(r).IsBottom()
    requires InS32(l.lb) && InS32(l.ub) && !l.Contains(0)
    ensures ShiftReaches(false, l, r, ShiftRight(l, r).lb) && ShiftReaches(false, l, r, ShiftRight(l, r).ub)
  {
    SideShift(l, r);
    var s := ShiftAmount(r);
    ShiftCornerIsReached(l, r, l.lb, s.lb);
    ShiftCornerIsReached(l, r, l.lb, s.ub);
    ShiftCornerIsReached(l, r, l.ub, s.lb);
    ShiftCornerIsReached(l, r, l.ub, s.ub);
    BoundsAmong(ShiftLiteral(l.lb, s.lb), ShiftLiteral(l.lb, s.ub), ShiftLiteral(l.ub, s.lb), ShiftLiteral(l.ub, s.ub));
  }

  lemma BoundsAmong(ll: NumericLiteral, lu: NumericLiteral, ul: NumericLiteral, uu: NumericLiteral)
    ensures FourCorners(ll, lu, ul, uu).lb in [ll, lu, ul, uu]
    ensures FourCorners(ll, lu, ul, uu).ub in [ll, lu, ul, uu]
  {
    var corners := [ll, lu, ul, uu];
    assert MinOf(corners).Leq(corners[0]) && corners[0].Leq(MaxOf(corners));
    assert corners[0] in corners;
  }

  lemma ZeroIsReached(l: Interval, r: Interval)
    requires WellFormed(r) && Members(l, 0) && !ShiftAmount(r).IsBottom()
    ensures ShiftReaches(false, l, r, Finite(0))
  {
    ShiftAmountBounds(r);
    var y: nat := ShiftAmount(r).lb.n;
    MeetIsIntersection(r, Interval(Finite(0), PlusInfinity), y);
    SmallQuotient(0, Pow2(y));
    assert Shifted(false, 0, y) == 0;
  }

  /** Both bounds are reached, or there are none. */
  ghost predicate HullReached(l: Interval, r: Interval, result: Interval) {
    result.IsBottom() || (ShiftReaches(false, l, r, result.lb) && ShiftReaches(false, l, r, result.ub))
  }

  /** One of the two parts beside zero, shifted on its own. */
  lemma PartIsExact(part: Interval, l: Interval, r: Interval)
    requires WellFormed(part) && WellFormed(r) && ShiftDefined(r) && !ShiftAmount(r).IsBottom()
    requires InS32(part.lb) && InS32(part.ub) && !part.Contains(0) && Subset(part, l)
    ensures HullReached(l, r, ShiftRight(part, r))
  {
    if !part.IsBottom() {
      SideIsExact(part, r);
      ReachedFromPart(part, l, r, ShiftRight(part, r).lb);
      ReachedFromPart(part, l, r, ShiftRight(part, r).ub);
    }
  }

  lemma JoinedHull(l: Interval, r: Interval, a: Interval, b: Interval)
    requires HullReached(l, r, a) && HullReached(l, r, b)
    ensures HullReached(l, r, Join(a, b))
  {
  }

  /** MAIN RESULT: with finite bounds in the 32-bit range `>>` yields the hull of the shifted members: both
      bounds are reached. */
  lemma ShiftRightIsExact(l: Interval, r: Interval)
    requires WellFormed(l) && WellFormed(r) && ShiftDefined(r) && !l.IsBottom() && !ShiftAmount(r).IsBottom()
    requires InS32(l.lb) && InS32(l.ub)
    ensures ShiftReaches(false, l, r, ShiftRight(l, r).lb) && ShiftReaches(false, l, r, ShiftRight(l, r).ub)
  {
    if l.IsTop() && r.IsTop() {
      InfiniteBoundIsReached(l, r, MinusInfinity);
      InfiniteBoundIsReached(l, r, PlusInfinity);
    } else if l.Contains(0) {
      SplitIsExact(l, r);
    } else {
      SideIsExact(l, r);
    }
  }

  lemma SplitIsExact(l: Interval, r: Interval)
    requires WellFormed(l) && WellFormed(r) && ShiftDefined(r) && !l.IsBottom() && !ShiftAmount(r).IsBottom()
    requires InS32(l.lb) && InS32(l.ub) && l.Contains(0) && !(l.IsTop() && r.IsTop())
    ensures ShiftReaches(false, l, r, ShiftRight(l, r).lb) && ShiftReaches(false, l, r, ShiftRight(l, r).ub)
  {
    var neg, pos := Interval(l.lb, Finite(-1)), Interval(Finite(1), l.ub);
    PartIsExact(neg, l, r);
    PartIsExact(pos, l, r);
    ZeroIsReached(l, r);
    WholeIsReached(l, r, ShiftRight(neg, r), ShiftRight(pos, r));
    assert !r.IsBottom();
  }

  lemma WholeIsReached(l: Interval, r: Interval, a: Interval, b: Interval)
    requires HullReached(l, r, a) && HullReached(l, r, b) && ShiftReaches(false, l, r, Finite(0))
    ensures !Join(Join(a, b), Single(0)).IsBottom() && HullReached(l, r, Join(Join(a, b), Single(0)))
  {
    JoinedHull(l, r, a, b);
    JoinedHull(l, r, Join(a, b), Single(0));
    JoinMember(Join(a, b), Single(0), 0);
  }

  /** Nothing comes of operands without members, nor of a shift without amounts. */
  lemma NoWordsFromNothing(op: BitOp, l: Interval, r: Interval, v: int)
    requires WellFormed(l) && WellFormed(r) && OrDefined(l, r)
    requires Members(BitAnd(l, r), v) || Members(BitOrXor(op, l, r), v) || Members(Rem(l, r), v)
    ensures exists x, y :: Members(l, x) && Members(r, y)
  {
    assert !l.IsBottom() && !r.IsBottom();
    assert Members(l, MemberAbove(l, 0)) && Members(r, MemberAbove(r, 0));
  }

  lemma NoShiftsFromNothing(l: Interval, r: Interval, v: int)
    requires WellFormed(l) && WellFormed(r) && ShiftDefined(r)
    requires Members(ShiftLeft(l, r), v) || Members(ShiftRight(l, r), v)
    ensures exists x, y: nat :: Members(l, x) && Members(r, y)
  {
    assert !l.IsBottom() && !r.IsBottom();
    assert !ShiftAmount(r).IsBottom();
    ShiftAmountBounds(r);
    MeetIsIntersection(r, Interval(Finite(0), PlusInfinity), ShiftAmount(r).lb.n);
    assert Members(l, MemberAbove(l, 0));
  }
}
