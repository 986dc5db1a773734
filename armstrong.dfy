/** amstrong/AmstrongNumber: decides whether a number equals the sum of its decimal
    digits, each raised to the number of digits.  `leng` counts the digits with a
    loop; the main loop peels digits off least significant first and adds
    `Math.pow(digit, len)` to `sum`.

    Java `int` semantics are modelled exactly.  `/` and `%` truncate toward zero, so a
    negative number has non-positive digits.  `Math.pow` returns the exact power here:
    its specification makes the result exact when both arguments are integers and the
    result is representable as a double, and |digit| <= 9, len <= 10 give at most 9^10.
    `sum + Math.pow(...)` is exact too, as every value stays below 2^53.  The compound
    assignment `sum += <double>` narrows the double back to int, which saturates at the ends of
    the int range. */
module Armstrong {

  const IntMin: int := -0x8000_0000
  const IntMax: int := 0x7fff_ffff

  predicate IsInt(x: int)
  {
    IntMin <= x <= IntMax
  }

  function Abs(x: int): nat
  {
    if x < 0 then -x else x
  }

  /** Java's int division, which truncates toward zero. */
  function Quot(a: int, b: int): (q: int)
    requires b > 0
    ensures Abs(q) == Abs(a) / b
    ensures a >= 0 ==> q >= 0
    ensures a <= 0 ==> q <= 0
  {
    if a >= 0 then a / b else -((-a) / b)
  }

  /** Java's `%`, the remainder of truncating division; it takes the sign of `a`. */
  function Rem(a: int, b: int): (r: int)
    requires b > 0
    ensures Quot(a, b) * b + r == a
    ensures Abs(r) < b
    ensures a >= 0 ==> r >= 0
    ensures a <= 0 ==> r <= 0
  {
    a - b * Quot(a, b)
  }

  /** The narrowing conversion of an exact double value to int: saturating. */
  function Narrow(x: int): (r: int)
    ensures IsInt(r)
    ensures IsInt(x) ==> r == x
    ensures x > IntMax ==> r == IntMax
    ensures x < IntMin ==> r == IntMin
  {
    if x > IntMax then IntMax else if x < IntMin then IntMin else x
  }

  /** Integer power: the exact value `Math.pow` returns for integer operands. */
  function Pow(b: int, e: nat): int
  {
    if e == 0 then 1 else b * Pow(b, e - 1)
  }

  /** The digits `num % 10` that repeated `num / 10` yields until `num` is 0, least
      significant first. */
  function Digits(n: int): seq<int>
    decreases Abs(n)
  {
    if n == 0 then [] else [Rem(n, 10)] + Digits(Quot(n, 10))
  }

  /** The value `leng(num)` returns. */
  function NumDigits(n: int): nat
  {
    |Digits(n)|
  }

  /** Exact sum of `d^k` over the digits `ds`. */
  function DigitPowerSum(ds: seq<int>, k: nat): int
  {
    if ds == [] then 0 else Pow(ds[0], k) + DigitPowerSum(ds[1..], k)
  }

  /** The main loop's arithmetic: each digit's power is added to `acc` and the sum is
      narrowed back to int, as `sum += Math.pow(digit, len)` does. */
  function SaturatingSum(ds: seq<int>, k: nat, acc: int): (r: int)
    ensures IsInt(acc) ==> IsInt(r)
  {
    if ds == [] then acc else SaturatingSum(ds[1..], k, Narrow(acc + Pow(ds[0], k)))
  }

  /** The value of `sum` after the main loop. */
  function ProgramSum(num: int): (r: int)
    ensures IsInt(r)
  {
    SaturatingSum(Digits(num), NumDigits(num), 0)
  }

  /** A number equal to the exact sum of its digits each raised to the digit count. */
  predicate IsArmstrong(num: int)
  {
    DigitPowerSum(Digits(num), NumDigits(num)) == num
  }

  /** `leng(num)`: the loop divides by 10 until nothing is left, counting the steps. */
  method Leng(num: int) returns (len: nat)
    requires IsInt(num)
    ensures len == NumDigits(num)
    ensures num == 0 ==> len == 0
    ensures num != 0 ==> Pow(10, len - 1) <= Abs(num) < Pow(10, len)
  {
    len := 0;
    var n := num;
    while n != 0
      invariant len + NumDigits(n) == NumDigits(num)
      decreases Abs(n)
    {
      len := len + 1;
      n := Quot(n, 10);
    }
    NumDigitsBounds(num);
  }

  /** The program with its hard-coded 371 lifted to a parameter: computes `len` and
      `sum` and reports whether `sum == num`.  The verdict is the exact Armstrong
      property; narrowing never changes it. */
  method CheckArmstrong(num: int) returns (sum: int, isArmstrong: bool, ghost iterations: nat)
    requires IsInt(num)
    ensures sum == ProgramSum(num) && IsInt(sum)
    ensures iterations == NumDigits(num)
    ensures isArmstrong == (sum == num)
    ensures isArmstrong <==> IsArmstrong(num)
  {
    var len := Leng(num);
    var temp := num;
    sum := 0;
    iterations := 0;
    while temp != 0
      invariant SaturatingSum(Digits(temp), len, sum) == ProgramSum(num)
      invariant IsInt(sum)
      invariant iterations + NumDigits(temp) == len
      decreases Abs(temp)
    {
      var digit := Rem(temp, 10);
      sum := Narrow(sum + Pow(digit, len));
      temp := Quot(temp, 10);
      iterations := iterations + 1;
    }
    isArmstrong := sum == num;
    VerdictUnaffectedByNarrowing(num);
  }

  /** Closed form of `leng`: zero for 0, otherwise the number of decimal digits of |n|. */
  lemma {:induction false} NumDigitsBounds(n: int)
    ensures n == 0 ==> NumDigits(n) == 0
    ensures n != 0 ==> NumDigits(n) >= 1 && Pow(10, NumDigits(n) - 1) <= Abs(n) < Pow(10, NumDigits(n))
    decreases Abs(n)
  {
    if n != 0 {
      var q := Quot(n, 10);
      assert Abs(n) == 10 * Abs(q) + Abs(Rem(n, 10)) && Abs(Rem(n, 10)) < 10;
      NumDigitsBounds(q);
    }
  }

  /** Digits of a non-negative number lie in 0..9, those of a negative one in -9..0. */
  lemma {:induction false} DigitsRange(n: int)
    ensures n >= 0 ==> forall i :: 0 <= i < |Digits(n)| ==> 0 <= Digits(n)[i] <= 9
    ensures n < 0 ==> forall i :: 0 <= i < |Digits(n)| ==> -9 <= Digits(n)[i] <= 0
    decreases Abs(n)
  {
    if n != 0 {
      DigitsRange(Quot(n, 10));
    }
  }

  lemma {:induction false} PowSign(b: int, e: nat)
    ensures b >= 0 ==> Pow(b, e) >= 0
    ensures b <= 0 && e % 2 == 0 ==> Pow(b, e) >= 0
    ensures b <= 0 && e % 2 == 1 ==> Pow(b, e) <= 0
  {
    if e > 0 {
      PowSign(b, e - 1);
    }
  }

  /** With no negative addend, narrowing only caps the exact sum at IntMax. */
  lemma {:induction false} SaturatingSumUp(ds: seq<int>, k: nat, acc: int)
    requires IsInt(acc)
    requires forall i :: 0 <= i < |ds| ==> Pow(ds[i], k) >= 0
    ensures DigitPowerSum(ds, k) >= 0
    ensures SaturatingSum(ds, k, acc) == if acc + DigitPowerSum(ds, k) > IntMax then IntMax else acc + DigitPowerSum(ds, k)
  {
    if ds != [] {
      assert forall i :: 0 <= i < |ds[1..]| ==> ds[1..][i] == ds[i + 1];
      SaturatingSumUp(ds[1..], k, Narrow(acc + Pow(ds[0], k)));
    }
  }

  /** With no positive addend, narrowing only floors the exact sum at IntMin. */
  lemma {:induction false} SaturatingSumDown(ds: seq<int>, k: nat, acc: int)
    requires IsInt(acc)
    requires forall i :: 0 <= i < |ds| ==> Pow(ds[i], k) <= 0
    ensures DigitPowerSum(ds, k) <= 0
    ensures SaturatingSum(ds, k, acc) == if acc + DigitPowerSum(ds, k) < IntMin then IntMin else acc + DigitPowerSum(ds, k)
  {
    if ds != [] {
      assert forall i :: 0 <= i < |ds[1..]| ==> ds[1..][i] == ds[i + 1];
      SaturatingSumDown(ds[1..], k, Narrow(acc + Pow(ds[0], k)));
    }
  }

  /** What `sum` holds after the loop: the exact digit-power sum, capped at IntMax for a
      non-negative number or an even digit count, floored at IntMin otherwise.  Every
      negative number with an even digit count gets a non-negative sum. */
  lemma ProgramSumClosedForm(num: int)
    ensures var e := DigitPowerSum(Digits(num), NumDigits(num));
      ProgramSum(num) == if num >= 0 || NumDigits(num) % 2 == 0
                         then (if e > IntMax then IntMax else e)
                         else (if e < IntMin then IntMin else e)
    ensures num < 0 && NumDigits(num) % 2 == 0 ==> ProgramSum(num) >= 0
    ensures num < 0 && NumDigits(num) % 2 == 1 ==> ProgramSum(num) <= 0
  {
    var ds, k := Digits(num), NumDigits(num);
    DigitsRange(num);
    forall i | 0 <= i < |ds| ensures num >= 0 || k % 2 == 0 ==> Pow(ds[i], k) >= 0
      ensures num < 0 && k % 2 == 1 ==> Pow(ds[i], k) <= 0
    {
      PowSign(ds[i], k);
    }
    if num >= 0 || k % 2 == 0 {
      SaturatingSumUp(ds, k, 0);
    } else {
      SaturatingSumDown(ds, k, 0);
    }
  }

  /** One step of digit extraction, with the quotient and remainder given. */
  lemma DigitsStep(n: int, q: int, r: int)
    requires n != 0 && Quot(n, 10) == q && Rem(n, 10) == r
    ensures Digits(n) == [r] + Digits(q)
  {
  }

  lemma DigitsOfIntMax()
    ensures Digits(IntMax) == [7, 4, 6, 3, 8, 4, 7, 4, 1, 2]
  {
    DigitsStep(2147483647, 214748364, 7);
    DigitsStep(214748364, 21474836, 4);
    DigitsStep(21474836, 2147483, 6);
    DigitsStep(2147483, 214748, 3);
    DigitsStep(214748, 21474, 8);
    DigitsStep(21474, 2147, 4);
    DigitsStep(2147, 214, 7);
    DigitsStep(214, 21, 4);
    DigitsStep(21, 2, 1);
    DigitsStep(2, 0, 2);
  }

  lemma DigitsOfIntMin()
    ensures Digits(IntMin) == [-8, -4, -6, -3, -8, -4, -7, -4, -1, -2]
  {
    DigitsStep(-2147483648, -214748364, -8);
    DigitsStep(-214748364, -21474836, -4);
    DigitsStep(-21474836, -2147483, -6);
    DigitsStep(-2147483, -214748, -3);
    DigitsStep(-214748, -21474, -8);
    DigitsStep(-21474, -2147, -4);
    DigitsStep(-2147, -214, -7);
    DigitsStep(-214, -21, -4);
    DigitsStep(-21, -2, -1);
    DigitsStep(-2, 0, -2);
  }

  lemma TenthPowers()
    ensures Pow(1, 10) == 1
    ensures Pow(2, 10) == 1024
    ensures Pow(3, 10) == 59049
    ensures Pow(4, 10) == 1048576
    ensures Pow(6, 10) == 60466176
    ensures Pow(7, 10) == 282475249
    ensures Pow(8, 10) == 1073741824
  {
  }

  /** The two ends of the int range: ten digits each, and IntMax's digit-power sum
      stays well below IntMax. */
  lemma IntRangeEnds()
    ensures NumDigits(IntMax) == 10 && DigitPowerSum(Digits(IntMax), 10) == 1702364300
    ensures NumDigits(IntMin) == 10
  {
    DigitsOfIntMax();
    DigitsOfIntMin();
    TenthPowers();
    assert DigitPowerSum([2], 10) == 1024;
    assert DigitPowerSum([1, 2], 10) == 1025;
    assert DigitPowerSum([4, 1, 2], 10) == 1049601;
    assert DigitPowerSum([7, 4, 1, 2], 10) == 283524850;
    assert DigitPowerSum([4, 7, 4, 1, 2], 10) == 284573426;
    assert DigitPowerSum([8, 4, 7, 4, 1, 2], 10) == 1358315250;
    assert DigitPowerSum([3, 8, 4, 7, 4, 1, 2], 10) == 1358374299;
    assert DigitPowerSum([6, 3, 8, 4, 7, 4, 1, 2], 10) == 1418840475;
    assert DigitPowerSum([4, 6, 3, 8, 4, 7, 4, 1, 2], 10) == 1419889051;
    assert DigitPowerSum([7, 4, 6, 3, 8, 4, 7, 4, 1, 2], 10) == 1702364300;
  }

  /** Neither end of the int range passes, narrowed or exact. */
  lemma RangeEndsRejected()
    ensures ProgramSum(IntMax) != IntMax && !IsArmstrong(IntMax)
    ensures ProgramSum(IntMin) != IntMin && !IsArmstrong(IntMin)
  {
    IntRangeEnds();
    ProgramSumClosedForm(IntMax);
    ProgramSumClosedForm(IntMin);
  }

  /** Comparing the narrowed `sum` with `num` gives the same answer as comparing the
      exact digit-power sum: no int in range has a capped or floored sum equal to itself. */
  lemma VerdictUnaffectedByNarrowing(num: int)
    requires IsInt(num)
    ensures ProgramSum(num) == num <==> IsArmstrong(num)
  {
    if num == IntMax || num == IntMin {
      RangeEndsRejected();
    } else {
      var e, k := DigitPowerSum(Digits(num), NumDigits(num)), NumDigits(num);
      ProgramSumClosedForm(num);
      if num >= 0 {
        assert ProgramSum(num) == if e > IntMax then IntMax else e;
      } else if k % 2 == 0 {
        assert ProgramSum(num) >= 0 && e >= 0;
      } else {
        assert ProgramSum(num) == if e < IntMin then IntMin else e;
      }
    }
  }

  /** 371 = 3^3 + 7^3 + 1^3 is reported as an Armstrong number. */
  lemma ProgramExample()
    ensures NumDigits(371) == 3 && ProgramSum(371) == 371 && IsArmstrong(371)
  {
    assert Digits(3) == [3];
    assert Digits(37) == [7, 3];
    assert Digits(371) == [1, 7, 3];
    assert SaturatingSum([3], 3, 28) == 55;
    assert SaturatingSum([7, 3], 3, 1) == 371;
    assert SaturatingSum([1, 7, 3], 3, 0) == 371;
    assert DigitPowerSum([3], 3) == 27;
    assert DigitPowerSum([7, 3], 3) == 370;
    assert DigitPowerSum([1, 7, 3], 3) == 371;
  }

  /** Every element negated. */
  function Negated(ds: seq<int>): (r: seq<int>)
    ensures |r| == |ds|
  {
    if ds == [] then [] else [-ds[0]] + Negated(ds[1..])
  }

  /** Truncating division makes the digits of `-n` the negated digits of `n`. */
  lemma {:induction false} DigitsNegated(n: int)
    ensures Digits(-n) == Negated(Digits(n))
    decreases Abs(n)
  {
    if n != 0 {
      assert Quot(-n, 10) == -Quot(n, 10) && Rem(-n, 10) == -Rem(n, 10);
      DigitsNegated(Quot(n, 10));
    }
  }

  lemma {:induction false} PowNegated(b: int, e: nat)
    ensures Pow(-b, e) == if e % 2 == 0 then Pow(b, e) else -Pow(b, e)
  {
    if e > 0 {
      PowNegated(b, e - 1);
    }
  }

  lemma {:induction false} DigitPowerSumNegated(ds: seq<int>, k: nat)
    requires k % 2 == 1
    ensures DigitPowerSum(Negated(ds), k) == -DigitPowerSum(ds, k)
  {
    if ds != [] {
      PowNegated(ds[0], k);
      DigitPowerSumNegated(ds[1..], k);
    }
  }

  /** With an odd digit count, `-n` passes the test exactly when `n` does, so the
      program also reports -371, -153, ... as Armstrong numbers; with an even digit
      count no negative number passes. */
  lemma NegativeNumbers(n: int)
    ensures NumDigits(n) % 2 == 1 ==> (IsArmstrong(-n) <==> IsArmstrong(n))
    ensures n < 0 && NumDigits(n) % 2 == 0 ==> !IsArmstrong(n)
  {
    DigitsNegated(n);
    if NumDigits(n) % 2 == 1 {
      DigitPowerSumNegated(Digits(n), NumDigits(n));
    }
    if n < 0 && NumDigits(n) % 2 == 0 {
      ProgramSumClosedForm(n);
    }
  }

  /** -371 is reported too: (-3)^3 + (-7)^3 + (-1)^3 = -371. */
  lemma NegativeExample()
    ensures ProgramSum(-371) == -371
  {
    ProgramExample();
    NegativeNumbers(371);
    VerdictUnaffectedByNarrowing(-371);
  }

  /** The program run on its own input reaches the "Armstrong Number" branch. */
  method RunProgram()
  {
    var sum, isArmstrong, iterations := CheckArmstrong(371);
    ProgramExample();
    assert isArmstrong && sum == 371 && iterations == 3;
  }
}
