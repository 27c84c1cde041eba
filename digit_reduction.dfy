// Decimal digits and the repeated digit-sum reduction behind
// NumerologyTriangle.reduceToSingleDigit (script.js).

module DigitReduction {

  /** 10 to the power k. */
  function Pow10(k: nat): (p: nat)
    ensures p >= 1
  {
    if k == 0 then 1 else 10 * Pow10(k - 1)
  }

  /** The decimal digits of n, most significant first: what `n.toString()`
      spells, each character read as the digit it stands for.  There is
      no leading zero except in the representation of 0 itself. */
  function Digits(n: nat): (ds: seq<nat>)
    ensures |ds| >= 1
    ensures forall k :: 0 <= k < |ds| ==> ds[k] < 10
    ensures n >= 1 ==> ds[0] >= 1
    decreases n
  {
    if n < 10 then [n] else Digits(n / 10) + [n % 10]
  }

  /** The number a digit sequence denotes in base 10, most significant first. */
  function FromDigits(ds: seq<nat>): nat
  {
    if ds == [] then 0 else FromDigits(ds[..|ds| - 1]) * 10 + ds[|ds| - 1]
  }

  /** Reading the decimal representation of n back gives n. */
  lemma {:induction false} DigitsRoundTrip(n: nat)
    ensures FromDigits(Digits(n)) == n
    decreases n
  {
    if n >= 10 {
      DigitsRoundTrip(n / 10);
      var ds := Digits(n);
      assert ds[..|ds| - 1] == Digits(n / 10);
    }
  }

  /** A number below 10^k has at most k decimal digits. */
  lemma {:induction false} DigitsAtMost(n: nat, k: nat)
    requires 1 <= k && n < Pow10(k)
    ensures |Digits(n)| <= k
    decreases k
  {
    if n >= 10 {
      DigitsAtMost(n / 10, k - 1);
    }
  }

  /** A number of at least 10^k has more than k decimal digits. */
  lemma {:induction false} DigitsAtLeast(n: nat, k: nat)
    requires n >= Pow10(k)
    ensures |Digits(n)| > k
    decreases k
  {
    if k >= 1 {
      DigitsAtLeast(n / 10, k - 1);
    }
  }

  /** `s.padStart(width, '0')` on a digit sequence: zeros are put in front
      until the sequence is `width` long; a longer one is left as it is. */
  function PadStart(ds: seq<nat>, width: nat): seq<nat>
    decreases width - |ds|
  {
    if |ds| < width then PadStart([0] + ds, width) else ds
  }

  /** Padding keeps the digits at the end, puts only zeros in front, and
      reaches the requested width. */
  lemma {:induction false} PadStartShape(ds: seq<nat>, width: nat)
    ensures |PadStart(ds, width)| == if |ds| < width then width else |ds|
    ensures PadStart(ds, width)[|PadStart(ds, width)| - |ds|..] == ds
    ensures forall k :: 0 <= k < |PadStart(ds, width)| - |ds| ==> PadStart(ds, width)[k] == 0
    decreases width - |ds|
  {
    if |ds| < width {
      PadStartShape([0] + ds, width);
      var p := PadStart(ds, width);
      assert p == PadStart([0] + ds, width);
      assert p[|p| - |ds|..] == ([0] + ds)[1..];
      assert p[|p| - |ds| - 1] == 0;
    }
  }

  /** A leading zero does not change the number denoted. */
  lemma {:induction false} FromDigitsLeadingZero(ds: seq<nat>)
    ensures FromDigits([0] + ds) == FromDigits(ds)
    decreases |ds|
  {
    if ds != [] {
      var s := [0] + ds;
      assert s[..|s| - 1] == [0] + ds[..|ds| - 1];
      FromDigitsLeadingZero(ds[..|ds| - 1]);
    }
  }

  /** Zero padding does not change the number denoted. */
  lemma {:induction false} FromDigitsPadStart(ds: seq<nat>, width: nat)
    ensures FromDigits(PadStart(ds, width)) == FromDigits(ds)
    decreases width - |ds|
  {
    if |ds| < width {
      FromDigitsPadStart([0] + ds, width);
      FromDigitsLeadingZero(ds);
    }
  }

  /** Left-to-right total, as `digits.reduce((sum, digit) => sum + digit, 0)`. */
  function Sum(s: seq<nat>): nat
  {
    if s == [] then 0 else Sum(s[..|s| - 1]) + s[|s| - 1]
  }

  /** The sum of the decimal digits of n, peeled off from the units end.
      It never exceeds n, is strictly smaller once n has two digits (so the
      reduction loop terminates), and is positive when n is. */
  function DigitSum(n: nat): (s: nat)
    ensures s <= n
    ensures n >= 10 ==> s < n
    ensures n >= 1 ==> s >= 1
    decreases n
  {
    if n < 10 then n else DigitSum(n / 10) + n % 10
  }

  /** Adding up the spelled-out digits left to right gives the digit sum. */
  lemma {:induction false} SumOfDigits(n: nat)
    ensures Sum(Digits(n)) == DigitSum(n)
    decreases n
  {
    if n >= 10 {
      var ds := Digits(n);
      assert ds[..|ds| - 1] == Digits(n / 10);
      SumOfDigits(n / 10);
    }
  }

  /** The remainder modulo 9 is determined by any decomposition x == 9q + rem
      with 0 <= rem < 9. */
  lemma ModNineUnique(x: int, q: int, rem: int)
    requires x == 9 * q + rem && 0 <= rem < 9
    ensures x % 9 == rem
  {
  }

  /** Casting out nines: the digit sum is congruent to the number modulo 9. */
  lemma {:induction false} DigitSumMod9(n: nat)
    ensures DigitSum(n) % 9 == n % 9
    decreases n
  {
    if n >= 10 {
      var q, u, s := n / 10, n % 10, DigitSum(n / 10);
      DigitSumMod9(q);
      var m := (q % 9 + u) % 9;
      assert q == 9 * (q / 9) + q % 9;
      assert s == 9 * (s / 9) + q % 9;
      assert q % 9 + u == 9 * ((q % 9 + u) / 9) + m;
      ModNineUnique(n, q + q / 9 + (q % 9 + u) / 9, m);
      ModNineUnique(s + u, s / 9 + (q % 9 + u) / 9, m);
    }
  }

  /** The value `reduceToSingleDigit(n)` returns: while n is above 9 it is
      replaced by its digit sum, so the result is a single digit. */
  function Reduce(n: nat): (r: nat)
    ensures r <= 9
    decreases n
  {
    if n > 9 then Reduce(DigitSum(n)) else n
  }

  /** The reduction keeps the residue modulo 9, and gives 0 exactly for 0:
      the loop guard is `n > 9`, so 0 is left as it is and a positive
      number never reaches 0. */
  lemma {:induction false} ReduceResidue(n: nat)
    ensures Reduce(n) % 9 == n % 9
    ensures Reduce(n) == 0 <==> n == 0
    decreases n
  {
    if n > 9 {
      DigitSumMod9(n);
      ReduceResidue(DigitSum(n));
    }
  }

  /** The digital root in closed form: 0 for 0, else 1 + (n - 1) mod 9. */
  function DigitalRoot(n: nat): (r: nat)
    ensures r <= 9
    ensures r == 0 <==> n == 0
  {
    if n == 0 then 0 else 1 + (n - 1) % 9
  }

  /** The digital root keeps the residue modulo 9, and is 0 exactly for 0. */
  lemma RootResidue(n: nat)
    ensures DigitalRoot(n) % 9 == n % 9
    ensures DigitalRoot(n) == 0 <==> n == 0
  {
  }

  /** Numbers with the same residue modulo 9 that are both zero or both
      positive have the same digital root. */
  lemma RootCongruent(x: nat, y: nat)
    requires x % 9 == y % 9
    requires x == 0 <==> y == 0
    ensures DigitalRoot(x) == DigitalRoot(y)
  {
  }

  /** The repeated digit sum is the digital root. */
  lemma ReduceIsDigitalRoot(n: nat)
    ensures Reduce(n) == DigitalRoot(n)
  {
    ReduceResidue(n);
    RootResidue(n);
  }

  /** Numbers with the same residue modulo 9 that are both zero or both
      positive reduce to the same digit. */
  lemma ReduceCongruent(x: nat, y: nat)
    requires x % 9 == y % 9
    requires x == 0 <==> y == 0
    ensures Reduce(x) == Reduce(y)
  {
    ReduceIsDigitalRoot(x);
    ReduceIsDigitalRoot(y);
    RootCongruent(x, y);
  }

  /** Every single digit 0..9 is a fixed point of the reduction. */
  lemma ReduceFixesDigits(n: nat)
    requires n <= 9
    ensures Reduce(n) == n
  {
  }

  /** Reducing twice is reducing once. */
  lemma ReduceIdempotent(n: nat)
    ensures Reduce(Reduce(n)) == Reduce(n)
  {
  }

  /** Taking the digital roots of the parts of a sum first does not change
      the digital root of the sum; c names the sum. */
  lemma RootOfSum(a: nat, b: nat, c: nat)
    requires a + b == c
    ensures DigitalRoot(DigitalRoot(a) + DigitalRoot(b)) == DigitalRoot(c)
  {
  }

  /** The same for three parts. */
  lemma RootOfSum3(a: nat, b: nat, c: nat, sum: nat)
    requires a + b + c == sum
    ensures DigitalRoot(DigitalRoot(a) + DigitalRoot(b) + DigitalRoot(c)) == DigitalRoot(sum)
  {
    var ra, rb, rc := DigitalRoot(a), DigitalRoot(b), DigitalRoot(c);
    RootResidue(a);
    RootResidue(b);
    RootResidue(c);
    var ma, mb, mc := a % 9, b % 9, c % 9;
    assert a == 9 * (a / 9) + ma;
    assert b == 9 * (b / 9) + mb;
    assert c == 9 * (c / 9) + mc;
    assert ra == 9 * (ra / 9) + ma;
    assert rb == 9 * (rb / 9) + mb;
    assert rc == 9 * (rc / 9) + mc;
    var m := (ma + mb + mc) % 9;
    assert ma + mb + mc == 9 * ((ma + mb + mc) / 9) + m;
    ModNineUnique(ra + rb + rc, ra / 9 + rb / 9 + rc / 9 + (ma + mb + mc) / 9, m);
    ModNineUnique(sum, a / 9 + b / 9 + c / 9 + (ma + mb + mc) / 9, m);
    RootCongruent(ra + rb + rc, sum);
  }

  /** `reduceToSingleDigit` as the source runs it: while the number is
      above 9, spell it out in decimal and add its digits up left to right. */
  method ReduceToSingleDigit(n: nat) returns (r: nat)
    ensures r == Reduce(n)
    ensures r <= 9
  {
    var num := n;
    while num > 9
      invariant Reduce(num) == Reduce(n)
      decreases num
    {
      var digits := Digits(num);
      var sum := 0;
      for k := 0 to |digits|
        invariant sum == Sum(digits[..k])
      {
        assert digits[..k + 1][..k] == digits[..k];
        sum := sum + digits[k];
      }
      assert digits[..|digits|] == digits;
      SumOfDigits(num);
      num := sum;
    }
    r := num;
  }
}
