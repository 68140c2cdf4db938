/** The checksum of the Pratt benchmark: the two folds of a chain's operands in 64-bit wrapping
    arithmetic, and which rearrangements of the operands they notice.  Both folds are first
    related to integer values, wrapped once at the end; the left value weighs each operand with
    a power of 31, and how much of 2 divides 31^k - 1 decides what survives modulo 2^64. */
module ChainFold {
  import opened Sequences

  const TWO_64: int := 0x1_0000_0000_0000_0000
  const TWO_63: int := 0x8000_0000_0000_0000

  newtype i64 = x: int | -0x8000_0000_0000_0000 <= x < 0x8000_0000_0000_0000

  datatype Assoc = Left | Right

  /** Two's complement wrap-around. */
  function Wrap(x: int): i64 {
    ((x + TWO_63) % TWO_64 - TWO_63) as i64
  }

  lemma WrapsAlikeIff(x: int, y: int)
    ensures Wrap(x) == Wrap(y) <==> (x - y) % TWO_64 == 0
  {
    ModDifference(x + TWO_63, y + TWO_63, TWO_64);
    assert (x + TWO_63) - (y + TWO_63) == x - y;
  }

  lemma ModDifference(a: int, b: int, m: int)
    requires m > 0
    ensures a % m == b % m <==> (a - b) % m == 0
  {
    var qa, qb, qd := a / m, b / m, (a - b) / m;
    var t := qd - (qa - qb);
    assert t * m == (a % m - b % m) - (a - b) % m;
    Multiples(t, m);
    assert a - b == (qa - qb) * m + (a % m - b % m);
    if a % m == b % m { MultipleHasNoRemainder(qa - qb, m); }
  }

  lemma Multiples(t: int, m: int)
    requires m > 0
    ensures t >= 1 ==> t * m >= m
    ensures t <= -1 ==> t * m <= -m
  {
  }

  lemma MultipleHasNoRemainder(q: int, m: int)
    requires m > 0
    ensures (q * m) % m == 0
  {
    var d := (q * m) / m;
    assert (q - d) * m == (q * m) % m;
    Multiples(q - d, m);
  }

  /** `expected_fold`: a wrapping multiplication, then a wrapping addition. */
  function Fold(left: i64, right: i64): i64 {
    Wrap(Wrap(left as int * 31) as int + right as int)
  }

  lemma FoldIsExact(left: int, right: int)
    ensures Fold(Wrap(left), Wrap(right)) == Wrap(31 * left + right)
  {
    var l := Wrap(left) as int;
    var r := Wrap(right) as int;
    var m := Wrap(l * 31) as int;
    CongruentToWrap(left);
    CongruentToWrap(right);
    CongruentToWrap(l * 31);
    var a := (left - l) / TWO_64;
    var b := (right - r) / TWO_64;
    var c := (l * 31 - m) / TWO_64;
    assert (31 * left + right) - (m + r) == (31 * a + b + c) * TWO_64;
    MultipleHasNoRemainder(31 * a + b + c, TWO_64);
    WrapsAlikeIff(31 * left + right, m + r);
  }

  lemma CongruentToWrap(x: int)
    ensures (x - Wrap(x) as int) % TWO_64 == 0 && x - Wrap(x) as int == ((x - Wrap(x) as int) / TWO_64) * TWO_64
  {
    var q := (x + TWO_63) / TWO_64;
    assert x - Wrap(x) as int == q * TWO_64;
    MultipleHasNoRemainder(q, TWO_64);
  }

  // ---- the two values ---------------------------------------------------------------

  /** The left-to-right fold over the integers. */
  function LeftValue(ops: seq<int>): int
    requires ops != []
  {
    if |ops| == 1 then ops[0] else 31 * LeftValue(Front(ops)) + Last(ops)
  }

  /** The right-to-left fold over the integers. */
  function RightValue(ops: seq<int>): int
    requires ops != []
  {
    31 * Sum(Front(ops)) + Last(ops)
  }

  function ChainValue(ops: seq<int>, assoc: Assoc): int
    requires ops != []
  {
    if assoc.Left? then LeftValue(ops) else RightValue(ops)
  }

  /** `expected_expression`: each fold computes its integer value, wrapped once at the end. */
  method ExpectedExpression(ops: seq<i64>, assoc: Assoc) returns (value: i64)
    requires ops != []
    ensures value == Wrap(ChainValue(Ints(ops), assoc))
  {
    hide Wrap, Fold;
    match assoc {
      case Left =>
        value := ops[0];
        var k := 1;
        WrapOfI64(ops[0]);
        assert Ints(ops[..1]) == [ops[0] as int];
        while k < |ops|
          invariant 1 <= k <= |ops|
          invariant value == Wrap(LeftValue(Ints(ops[..k])))
        {
          IntsSnoc(ops, k);
          WrapOfI64(ops[k]);
          FoldIsExact(LeftValue(Ints(ops[..k])), ops[k] as int);
          value := Fold(value, ops[k]);
          k := k + 1;
        }
        assert ops[..k] == ops;
      case Right =>
        var last := |ops| - 1;
        value := ops[last];
        var k := last;
        WrapOfI64(ops[last]);
        assert ops[k..last] == [];
        while k > 0
          invariant 0 <= k <= last
          invariant value == Wrap(31 * Sum(Ints(ops[k..last])) + ops[last] as int)
        {
          k := k - 1;
          var sofar := 31 * Sum(Ints(ops[k + 1..last])) + ops[last] as int;
          WrapOfI64(ops[k]);
          FoldIsExact(ops[k] as int, sofar);
          assert ops[k..last] == [ops[k]] + ops[k + 1..last];
          assert Ints(ops[k..last]) == [ops[k] as int] + Ints(ops[k + 1..last]);
          SumCons(ops[k] as int, Ints(ops[k + 1..last]));
          value := Fold(ops[k], value);
        }
        assert Ints(ops[0..last]) == Front(Ints(ops));
    }
  }

  function Ints(ops: seq<i64>): (r: seq<int>)
    ensures |r| == |ops|
  {
    Map((x: i64) => x as int, ops)
  }

  lemma IntsSnoc(ops: seq<i64>, k: nat)
    requires 1 <= k < |ops|
    ensures Front(Ints(ops[..k + 1])) == Ints(ops[..k]) && Last(Ints(ops[..k + 1])) == ops[k] as int
  {
  }

  lemma WrapOfI64(x: i64)
    ensures Wrap(x as int) == x
  {
  }

  // ---- which rearrangements are noticed ---------------------------------------------

  function Pow31(k: nat): int {
    if k == 0 then 1 else 31 * Pow31(k - 1)
  }

  lemma {:induction false} PowSplits(a: nat, b: nat)
    ensures Pow31(a + b) == Pow31(a) * Pow31(b)
    decreases b
  {
    if b > 0 {
      PowSplits(a, b - 1);
      assert Pow31(a) * (31 * Pow31(b - 1)) == 31 * (Pow31(a) * Pow31(b - 1));
    }
  }

  lemma {:induction false} PowIsOdd(k: nat)
    ensures Pow31(k) >= 1 && Pow31(k) % 2 == 1 && (k > 0 ==> Pow31(k) >= 31)
  {
    if k > 0 { PowIsOdd(k - 1); }
  }

  /** The value is linear: operand `i` counts with weight 31 to the power of what follows it. */
  lemma {:induction false} LeftIsLinear(ops: seq<int>, i: nat, x: int)
    requires i < |ops|
    ensures LeftValue(ops[i := x]) == LeftValue(ops) + (x - ops[i]) * Pow31(|ops| - 1 - i)
    decreases |ops|
  {
    var ops' := ops[i := x];
    if |ops| == 1 {
    } else if i == |ops| - 1 {
      assert Front(ops') == Front(ops);
    } else {
      assert Front(ops') == Front(ops)[i := x];
      LeftIsLinear(Front(ops), i, x);
      var w := Pow31(|ops| - 2 - i);
      assert 31 * ((x - ops[i]) * w) == (x - ops[i]) * (31 * w);
    }
  }

  function Swapped(ops: seq<int>, i: nat, j: nat): seq<int>
    requires i < |ops| && j < |ops|
  {
    ops[i := ops[j]][j := ops[i]]
  }

  lemma SwapShifts(ops: seq<int>, i: nat, j: nat)
    requires i < j < |ops|
    ensures LeftValue(Swapped(ops, i, j)) - LeftValue(ops)
            == (ops[j] - ops[i]) * (Pow31(|ops| - 1 - j) * (Pow31(j - i) - 1))
  {
    hide LeftValue, Pow31;
    var d := ops[j] - ops[i];
    var q := Pow31(|ops| - 1 - j);
    LeftIsLinear(ops, i, ops[j]);
    LeftIsLinear(ops[i := ops[j]], j, ops[i]);
    PowSplits(|ops| - 1 - j, j - i);
    SwapAlgebra(d, q, Pow31(j - i));
  }

  lemma SwapAlgebra(d: int, q: int, p: int)
    ensures d * (q * p) + (-d) * q == d * (q * (p - 1))
  {
  }

  /** Exchanging two unequal operands always changes the left value over the integers. */
  lemma SwapChangesLeft(ops: seq<int>, i: nat, j: nat)
    requires i < j < |ops| && ops[i] != ops[j]
    ensures LeftValue(Swapped(ops, i, j)) != LeftValue(ops)
  {
    hide LeftValue, Pow31;
    SwapShifts(ops, i, j);
    PowIsOdd(|ops| - 1 - j);
    PowIsOdd(j - i);
    NonzeroProduct(Pow31(|ops| - 1 - j), Pow31(j - i) - 1);
    NonzeroProduct(ops[j] - ops[i], Pow31(|ops| - 1 - j) * (Pow31(j - i) - 1));
  }

  lemma NonzeroProduct(a: int, b: int)
    requires a != 0 && b != 0
    ensures a * b != 0
  {
  }

  // ---- modulo 2^64 ------------------------------------------------------------------

  function Pow2(e: nat): (r: int)
    ensures r >= 1
  {
    if e == 0 then 1 else 2 * Pow2(e - 1)
  }

  lemma {:induction false} Pow2Splits(a: nat, b: nat)
    ensures Pow2(a + b) == Pow2(a) * Pow2(b)
    decreases b
  {
    if b > 0 {
      Pow2Splits(a, b - 1);
      assert Pow2(a) * (2 * Pow2(b - 1)) == 2 * (Pow2(a) * Pow2(b - 1));
    }
  }

  /** An odd factor does not help a power of two divide. */
  lemma {:induction false} OddFactorIsNoHelp(t: nat, x: int, odd: int, q: int)
    requires odd % 2 == 1 && x * odd == Pow2(t) * q
    ensures x % Pow2(t) == 0
    decreases t
  {
    if t > 0 {
      var half := Pow2(t - 1) * q;
      assert Pow2(t) * q == 2 * half;
      EvenProduct(x, odd, half);
      var y := x / 2;
      assert x == 2 * y;
      assert y * odd == half by { assert (2 * y) * odd == 2 * (y * odd); }
      OddFactorIsNoHelp(t - 1, y, odd, q);
      var d := y / Pow2(t - 1);
      assert x == d * Pow2(t) by { assert 2 * (d * Pow2(t - 1)) == d * (2 * Pow2(t - 1)); }
      MultipleHasNoRemainder(d, Pow2(t));
    }
  }

  lemma EvenProduct(x: int, odd: int, half: int)
    requires odd % 2 == 1 && x * odd == 2 * half
    ensures x % 2 == 0
  {
    if x % 2 == 1 { OddTimesOdd(x, odd); }
  }

  /** 31 squared is 1 modulo 64, so its powers alternate. */
  lemma {:induction false} PowModulo64(k: nat)
    ensures Pow31(k) % 64 == if k % 2 == 0 then 1 else 31
  {
    if k > 0 {
      PowModulo64(k - 1);
      TimesModulo64(Pow31(k - 1));
    }
  }

  lemma TimesModulo64(p: int)
    ensures p % 64 == 1 ==> (31 * p) % 64 == 31
    ensures p % 64 == 31 ==> (31 * p) % 64 == 1
  {
    var q := p / 64;
    if p % 64 == 1 {
      assert 31 * p == 64 * (31 * q) + 31;
    } else if p % 64 == 31 {
      assert 31 * p == 64 * (31 * q + 15) + 1;
    }
  }

  /** `x` is an odd number times a power of two that is at most `bound`. */
  ghost predicate EvenPart(x: int, e: nat, odd: int, bound: int) {
    odd % 2 == 1 && x == Pow2(e) * odd && Pow2(e) <= bound
  }

  /** 31^k - 1 is an odd number times a power of two that is at most 32 k. */
  lemma {:induction false} PowerOfTwoIn(k: nat) returns (e: nat, odd: int)
    requires k > 0
    ensures EvenPart(Pow31(k) - 1, e, odd, 32 * k)
    decreases k
  {
    hide Pow31, Pow2, EvenPart;
    var h := k / 2;
    PowModulo64(k);
    PowModulo64(h);
    if k % 2 == 1 {
      e, odd := OddExponent(Pow31(k), k);
    } else {
      PowSplits(h, h);
      SquareLessOne(Pow31(h));
      if h % 2 == 1 {
        e, odd := OddHalf(Pow31(h), k);
      } else {
        var e1, odd1 := PowerOfTwoIn(h);
        e, odd := EvenHalf(Pow31(h), h, e1, odd1);
      }
    }
  }

  lemma OddExponent(p: int, k: nat) returns (e: nat, odd: int)
    requires p % 64 == 31 && k > 0
    ensures EvenPart(p - 1, e, odd, 32 * k)
  {
    hide Pow2;
    SmallPowers();
    HalfIsOdd(p);
    e, odd := 1, (p - 1) / 2;
  }

  lemma HalfIsOdd(p: int)
    requires p % 64 == 31
    ensures p - 1 == 2 * ((p - 1) / 2) && ((p - 1) / 2) % 2 == 1
  {
    var q := p / 64;
    assert p - 1 == 2 * (32 * q + 15);
  }

  lemma OddHalf(p: int, k: nat) returns (e: nat, odd: int)
    requires p % 64 == 31 && k > 1
    ensures EvenPart((p - 1) * (p + 1), e, odd, 32 * k)
  {
    hide Pow2;
    SixtyFour();
    SixtyFourTimesOdd(p);
    OddTimesOdd((p - 1) / 2, (p + 1) / 32);
    e, odd := 6, ((p - 1) / 2) * ((p + 1) / 32);
  }

  lemma EvenHalf(p: int, h: nat, e1: nat, odd1: int) returns (e: nat, odd: int)
    requires p % 64 == 1 && EvenPart(p - 1, e1, odd1, 32 * h)
    ensures EvenPart((p - 1) * (p + 1), e, odd, 32 * (h + h))
  {
    OneMoreTwo(p, e1, odd1);
    hide Pow2;
    OddTimesOdd(odd1, (p + 1) / 2);
    e, odd := e1 + 1, odd1 * ((p + 1) / 2);
  }

  lemma SquareLessOne(p: int)
    ensures p * p - 1 == (p - 1) * (p + 1)
  {
  }

  lemma SixtyFourTimesOdd(p: int)
    requires p % 64 == 31
    ensures (p - 1) * (p + 1) == 64 * (((p - 1) / 2) * ((p + 1) / 32))
    ensures ((p - 1) / 2) % 2 == 1 && ((p + 1) / 32) % 2 == 1
  {
    var a, b := (p - 1) / 2, (p + 1) / 32;
    assert p - 1 == 2 * a && p + 1 == 32 * b;
    assert (2 * a) * (32 * b) == 64 * (a * b);
  }

  lemma OneMoreTwo(p: int, e: nat, odd: int)
    requires p % 64 == 1 && p - 1 == Pow2(e) * odd
    ensures ((p + 1) / 2) % 2 == 1 && Pow2(e + 1) == 2 * Pow2(e)
    ensures (p - 1) * (p + 1) == Pow2(e + 1) * (odd * ((p + 1) / 2))
  {
    var b, w := (p + 1) / 2, Pow2(e);
    assert p + 1 == 2 * b;
    assert (w * odd) * (2 * b) == (2 * w) * (odd * b);
  }

  lemma SmallPowers()
    ensures Pow2(1) == 2 && Pow2(3) == 8
  {
  }

  lemma SixtyFour()
    ensures Pow2(6) == 64
  {
    hide Pow2;
    SmallPowers();
    Pow2Splits(3, 3);
  }

  lemma OddTimesOdd(a: int, b: int)
    requires a % 2 == 1 && b % 2 == 1
    ensures (a * b) % 2 == 1
  {
    var x, y := a / 2, b / 2;
    assert (2 * x + 1) * (2 * y + 1) == 2 * (2 * (x * y) + x + y) + 1;
  }

  lemma Pow2Of64()
    ensures Pow2(64) == TWO_64
  {
    hide Pow2;
    SmallPowers();
    SixtyFour();
    Pow2Splits(6, 6);
    Pow2Splits(12, 12);
    Pow2Splits(24, 24);
    Pow2Splits(48, 12);
    Pow2Splits(60, 3);
    Pow2Splits(63, 1);
  }

  /** Exchanging two unequal operands changes the left value modulo 2^64 as long as their
      difference is small against their distance; four-digit operands stay far inside the bound
      at every depth the benchmark could use. */
  lemma SwapChangesWrappedLeft(ops: seq<int>, i: nat, j: nat)
    requires i < j < |ops| && ops[i] != ops[j]
    requires Abs(ops[j] - ops[i]) * (32 * (j - i)) < TWO_64
    ensures Wrap(LeftValue(Swapped(ops, i, j))) != Wrap(LeftValue(ops))
  {
    hide Wrap, LeftValue, Pow31, Pow2;
    var d := ops[j] - ops[i];
    var q := Pow31(|ops| - 1 - j);
    SwapShifts(ops, i, j);
    PowIsOdd(|ops| - 1 - j);
    var e, odd := PowerOfTwoIn(j - i);
    var shift := LeftValue(Swapped(ops, i, j)) - LeftValue(ops);
    assert shift == d * (q * (Pow2(e) * odd));
    WrapsAlikeIff(LeftValue(Swapped(ops, i, j)), LeftValue(ops));
    OddTimesOdd(q, odd);
    if shift % TWO_64 == 0 {
      ShiftTooSmall(d, q * odd, e, shift / TWO_64, j - i);
    }
  }

  /** So no exchange of unequal four-digit operands goes unnoticed, at depths up to 2^32. */
  lemma FourDigitSwapIsNoticed(ops: seq<int>, i: nat, j: nat)
    requires i < j < |ops| <= 0x1_0000_0000 && ops[i] != ops[j]
    requires forall k :: 0 <= k < |ops| ==> 1000 <= ops[k] <= 9999
    ensures Wrap(LeftValue(Swapped(ops, i, j))) != Wrap(LeftValue(ops))
  {
    hide Wrap, LeftValue;
    var d := Abs(ops[j] - ops[i]);
    MultiplyBoth(d, 9000, 32 * (j - i));
    SwapChangesWrappedLeft(ops, i, j);
  }

  function Abs(x: int): int {
    if x < 0 then -x else x
  }

  lemma ShiftTooSmall(d: int, odd: int, e: nat, n: int, k: int)
    requires d != 0 && odd % 2 == 1 && d * (Pow2(e) * odd) == TWO_64 * n
    requires Pow2(e) <= 32 * k
    ensures Abs(d) * (32 * k) >= TWO_64
  {
    hide Pow2;
    Pow2Of64();
    if e >= 64 {
      Pow2Splits(64, e - 64);
      Multiples(Pow2(e - 64), TWO_64);
      Multiples(Abs(d), Pow2(e));
    } else {
      var high := Pow2(64 - e);
      Pow2Splits(64 - e, e);
      assert d * (Pow2(e) * odd) == (d * odd) * Pow2(e);
      assert (high * Pow2(e)) * n == (high * n) * Pow2(e);
      CancelFactor(d * odd, high * n, Pow2(e));
      OddFactorIsNoHelp(64 - e, d, odd, n);
      NonzeroMultiple(d, high);
      MultiplyBoth(high, Abs(d), Pow2(e));
    }
    MultiplyBoth(Pow2(e), 32 * k, Abs(d));
  }

  lemma CancelFactor(a: int, b: int, m: int)
    requires m > 0 && a * m == b * m
    ensures a == b
  {
    assert (a - b) * m == 0;
    Multiples(a - b, m);
  }

  lemma NonzeroMultiple(d: int, m: int)
    requires m > 0 && d != 0 && d % m == 0
    ensures Abs(d) >= m
  {
    var q := d / m;
    assert d == q * m;
    Multiples(q, m);
  }

  lemma MultiplyBoth(a: int, b: int, m: int)
    requires a <= b && m >= 0
    ensures a * m <= b * m
  {
  }

  // ---- what the right fold sees -----------------------------------------------------

  /** The right value ignores any rearrangement of the leading operands. */
  lemma RightIgnoresLeadingOrder(a: seq<int>, b: seq<int>)
    requires a != [] && b != [] && multiset(Front(a)) == multiset(Front(b)) && Last(a) == Last(b)
    ensures RightValue(a) == RightValue(b)
  {
    SumPermutes(Front(a), Front(b));
  }

  // ---- when a rearrangement goes unnoticed ------------------------------------------

  /** Behind `j` the two lists agree. */
  ghost predicate SameBehind(a: seq<int>, b: seq<int>, j: nat) {
    j < |a| == |b| && a[j + 1..] == b[j + 1..]
  }

  lemma LeftSnoc(ops: seq<int>, j: nat)
    requires 0 < j < |ops|
    ensures LeftValue(ops[..j + 1]) == 31 * LeftValue(ops[..j]) + ops[j]
  {
    assert Front(ops[..j + 1]) == ops[..j];
  }

  /** What the lists share behind `j` only scales the difference up to `j`. */
  lemma {:induction false} SharedTailScales(a: seq<int>, b: seq<int>, j: nat)
    requires SameBehind(a, b, j)
    ensures LeftValue(a) - LeftValue(b) == (LeftValue(a[..j + 1]) - LeftValue(b[..j + 1])) * Pow31(|a| - 1 - j)
    decreases |a|
  {
    if j == |a| - 1 {
      assert a[..j + 1] == a && b[..j + 1] == b;
    } else {
      var last := |a| - 1;
      assert a[last] == a[j + 1..][last - j - 1] && b[last] == b[j + 1..][last - j - 1];
      assert Front(a)[j + 1..] == Front(a[j + 1..]) && Front(b)[j + 1..] == Front(b[j + 1..]);
      assert Front(a)[..j + 1] == a[..j + 1] && Front(b)[..j + 1] == b[..j + 1];
      SharedTailScales(Front(a), Front(b), j);
      var d, w := LeftValue(a[..j + 1]) - LeftValue(b[..j + 1]), Pow31(|a| - 2 - j);
      assert 31 * (d * w) == d * (31 * w);
    }
  }

  /** At `j` the difference of the operands is a multiple of 31 that the operands before make up. */
  ghost predicate MadeUp(a: seq<int>, b: seq<int>, j: nat)
    requires 0 < j < |a| == |b|
  {
    (a[j] - b[j]) % 31 == 0 && LeftValue(b[..j]) == LeftValue(a[..j]) + (a[j] - b[j]) / 31
  }

  /** The exact condition under which two lists that agree behind `j` have one left value. */
  lemma CollisionIff(a: seq<int>, b: seq<int>, j: nat)
    requires 0 < j && SameBehind(a, b, j)
    ensures LeftValue(a) == LeftValue(b) <==> MadeUp(a, b, j)
  {
    hide LeftValue, Pow31;
    SharedTailScales(a, b, j);
    PowIsOdd(|a| - 1 - j);
    ZeroProduct(LeftValue(a[..j + 1]) - LeftValue(b[..j + 1]), Pow31(|a| - 1 - j));
    LeftSnoc(a, j);
    LeftSnoc(b, j);
    MultipleOf31(LeftValue(b[..j]) - LeftValue(a[..j]), a[j] - b[j]);
  }

  lemma ZeroProduct(d: int, w: int)
    requires w > 0
    ensures d * w == 0 <==> d == 0
  {
    if d != 0 { NonzeroProduct(d, w); }
  }

  lemma MultipleOf31(q: int, d: int)
    ensures 31 * q == d <==> d % 31 == 0 && q == d / 31
  {
  }

  /** Of any two different lists of one length, the last difference decides: they have different
      left values exactly when it is at the head or is not made up before it. */
  lemma LastDifferenceDecides(a: seq<int>, b: seq<int>) returns (j: nat)
    requires |a| == |b| && a != b
    ensures SameBehind(a, b, j) && a[j] != b[j]
    ensures LeftValue(a) != LeftValue(b) <==> j == 0 || !MadeUp(a, b, j)
  {
    hide LeftValue, MadeUp, Pow31;
    j := LastDifference(a, b);
    if j > 0 {
      CollisionIff(a, b, j);
    } else {
      SharedTailScales(a, b, 0);
      PowIsOdd(|a| - 1);
      HeadValue(a);
      HeadValue(b);
      NonzeroProduct(a[0] - b[0], Pow31(|a| - 1));
    }
  }

  lemma HeadValue(ops: seq<int>)
    requires ops != []
    ensures LeftValue(ops[..1]) == ops[0]
  {
  }

  lemma {:induction false} LastDifference(a: seq<int>, b: seq<int>) returns (j: nat)
    requires |a| == |b| && a != b
    ensures SameBehind(a, b, j) && a[j] != b[j]
    decreases |a|
  {
    if Last(a) != Last(b) {
      j := |a| - 1;
    } else {
      assert a == Front(a) + [Last(a)] && b == Front(b) + [Last(b)];
      j := LastDifference(Front(a), Front(b));
      assert a[j + 1..] == Front(a)[j + 1..] + [Last(a)] && b[j + 1..] == Front(b)[j + 1..] + [Last(b)];
    }
  }

  /** A last difference that is no multiple of 31 is always noticed. */
  lemma IncongruentIsNoticed(a: seq<int>, b: seq<int>, j: nat)
    requires SameBehind(a, b, j) && (a[j] - b[j]) % 31 != 0
    ensures LeftValue(a) != LeftValue(b)
  {
    hide LeftValue, Pow31;
    if j > 0 {
      CollisionIff(a, b, j);
    } else {
      SharedTailScales(a, b, 0);
      PowIsOdd(|a| - 1);
      HeadValue(a);
      HeadValue(b);
      NonzeroProduct(a[0] - b[0], Pow31(|a| - 1));
    }
  }

  /** Lists whose operands differ by less than 31 place by place do not collide. */
  lemma CloseOperandsAreNoticed(a: seq<int>, b: seq<int>)
    requires |a| == |b| && a != b
    requires forall i :: 0 <= i < |a| ==> Abs(a[i] - b[i]) < 31
    ensures LeftValue(a) != LeftValue(b)
  {
    hide LeftValue, MadeUp;
    var j := LastDifference(a, b);
    assert Abs(a[j] - b[j]) < 31;
    IncongruentIsNoticed(a, b, j);
  }

  /** So no rearrangement of operands that lie within 31 of one another goes unnoticed. */
  lemma CloseRearrangementIsNoticed(a: seq<int>, b: seq<int>)
    requires multiset(a) == multiset(b) && a != b
    requires forall x, y :: x in a && y in a ==> Abs(x - y) < 31
    ensures LeftValue(a) != LeftValue(b)
  {
    hide LeftValue;
    assert |a| == |multiset(a)| == |multiset(b)| == |b|;
    forall i | 0 <= i < |a| ensures Abs(a[i] - b[i]) < 31 {
      assert b[i] in multiset(b);
      assert a[i] in a && b[i] in a;
    }
    CloseOperandsAreNoticed(a, b);
  }

  /** The same for the wrapped value: what is shared behind `j` drops out, because powers of 31
      are odd, and the difference up to `j` must vanish modulo 2^64. */
  lemma WrappedCollisionIff(a: seq<int>, b: seq<int>, j: nat)
    requires 0 < j && SameBehind(a, b, j)
    ensures Wrap(LeftValue(a)) == Wrap(LeftValue(b)) <==>
      UpTo(a, b, j) % TWO_64 == 0
  {
    hide LeftValue, Pow31, Wrap, UpTo;
    var d, w := LeftValue(a[..j + 1]) - LeftValue(b[..j + 1]), Pow31(|a| - 1 - j);
    SharedTailScales(a, b, j);
    PowIsOdd(|a| - 1 - j);
    WrapsAlikeScaled(LeftValue(a), LeftValue(b), d, w);
    UpToIsDifference(a, b, j);
  }

  /** By how much the operands up to `j` differ, from the value before `j` and the operand there. */
  function UpTo(a: seq<int>, b: seq<int>, j: nat): int
    requires 0 < j < |a| == |b|
  {
    31 * (LeftValue(a[..j]) - LeftValue(b[..j])) + (a[j] - b[j])
  }

  lemma UpToIsDifference(a: seq<int>, b: seq<int>, j: nat)
    requires 0 < j < |a| == |b|
    ensures LeftValue(a[..j + 1]) - LeftValue(b[..j + 1]) == UpTo(a, b, j)
  {
    hide LeftValue;
    LeftSnoc(a, j);
    LeftSnoc(b, j);
  }

  lemma WrapsAlikeScaled(x: int, y: int, d: int, w: int)
    requires x - y == d * w && w % 2 == 1
    ensures Wrap(x) == Wrap(y) <==> d % TWO_64 == 0
  {
    hide Wrap;
    WrapsAlikeIff(x, y);
    OddScale(d, w);
  }

  lemma OddScale(d: int, w: int)
    requires w % 2 == 1
    ensures (d * w) % TWO_64 == 0 <==> d % TWO_64 == 0
  {
    hide Pow2;
    Pow2Of64();
    if (d * w) % TWO_64 == 0 { OddFactorIsNoHelp(64, d, w, (d * w) / TWO_64); }
    if d % TWO_64 == 0 { ScaledMultiple(d, w, TWO_64); }
  }

  lemma ScaledMultiple(d: int, w: int, m: int)
    requires m > 0 && d % m == 0
    ensures (d * w) % m == 0
  {
    var q := d / m;
    assert d * w == (q * w) * m by { assert d == q * m; }
    MultipleHasNoRemainder(q * w, m);
  }

  /** Two arrangements of one bag that collide: the last operands differ by 31 times 100, and the
      operands before make that up. */
  lemma LeftCollision()
    ensures var a: seq<int>, b: seq<int> := [2000, 1900, 5100], [1900, 5100, 2000];
      multiset(a) == multiset(b) && a != b && LeftValue(a) == LeftValue(b)
  {
    hide LeftValue;
    var a: seq<int>, b: seq<int> := [2000, 1900, 5100], [1900, 5100, 2000];
    assert a[..2] == [2000, 1900] && b[..2] == [1900, 5100];
    TwoOperands(2000, 1900);
    TwoOperands(1900, 5100);
    CollisionIff(a, b, 2);
  }

  lemma TwoOperands(x: int, y: int)
    ensures LeftValue([x, y]) == 31 * x + y
  {
    assert Front([x, y]) == [x];
  }

  /** With one operator the two folds agree; with more, the left one is strictly larger on
      positive operands. */
  lemma {:induction false} LeftAgainstRight(ops: seq<int>)
    requires ops != [] && forall k :: 0 <= k < |ops| ==> ops[k] > 0
    ensures |ops| <= 2 ==> LeftValue(ops) == RightValue(ops)
    ensures |ops| > 2 ==> LeftValue(ops) > RightValue(ops)
    ensures 0 < Sum(ops) <= LeftValue(ops) && (|ops| > 1 ==> Sum(ops) < LeftValue(ops))
    decreases |ops|
  {
    if |ops| > 1 { LeftAgainstRight(Front(ops)); }
    if |ops| == 2 { assert Front(Front(ops)) == []; }
    if |ops| == 1 { assert Front(ops) == []; }
  }
}
