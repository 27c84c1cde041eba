// The digit triangle of class NumerologyTriangle (script.js): a birth date
// split into eight digits A..H, seven inner nodes I..O and nine outer
// nodes P..X built by reduced pairwise sums, and three derived codes.

module NumerologyTriangle {
  import opened DigitReduction

  /** The eight digits of `parseDate`: day tens and units (A, B), month tens
      and units (C, D), and the four characters of the zero-padded year
      (E, F, G, H). */
  datatype DateDigits = DateDigits(A: nat, B: nat, C: nat, D: nat, E: nat, F: nat, G: nat, H: nat)

  /** The date as it was handed in. */
  datatype BirthDate = BirthDate(year: nat, month: nat, day: nat)

  /** The inner triangle; O is the apex. */
  datatype InnerTriangle = InnerTriangle(I: nat, J: nat, K: nat, L: nat, M: nat, N: nat, O: nat)

  /** The outer triangle. */
  datatype OuterTriangle = OuterTriangle(P: nat, Q: nat, R: nat, S: nat, T: nat, U: nat, V: nat, W: nat, X: nat)

  /** The three derived codes. */
  datatype CoreCodes = CoreCodes(innerCode: nat, outerCode: nat, subconsciousCode: nat)

  /** What `performCalculation` returns. */
  datatype TriangleResult = TriangleResult(
    originalDate: DateDigits,
    birthDate: BirthDate,
    inner: InnerTriangle,
    outer: OuterTriangle,
    core: CoreCodes)

  /** A four-entry digit sequence denotes its thousands, hundreds, tens and units. */
  lemma FromDigitsFour(p: seq<nat>)
    requires |p| == 4
    ensures FromDigits(p) == p[0] * 1000 + p[1] * 100 + p[2] * 10 + p[3]
  {
    assert p[..3][..2] == p[..2];
    assert p[..2][..1] == p[..1];
    assert p[..1][..0] == [];
    assert FromDigits(p[..1]) == p[0];
    assert FromDigits(p[..2]) == p[0] * 10 + p[1];
    assert FromDigits(p[..3]) == p[0] * 100 + p[1] * 10 + p[2];
  }

  /** The year as `year.toString().padStart(4, '0')` spells it: at least four
      digits; exactly four, recomposing the year, when the year is below
      10000; from 1000 on no padding at all, so a non-zero first digit. */
  lemma PaddedYear(year: nat)
    ensures |PadStart(Digits(year), 4)| >= 4
    ensures forall k :: 0 <= k < |PadStart(Digits(year), 4)| ==> PadStart(Digits(year), 4)[k] < 10
    ensures year < 10000 ==> |PadStart(Digits(year), 4)| == 4
    ensures year < 10000 ==>
      var p := PadStart(Digits(year), 4);
      p[0] * 1000 + p[1] * 100 + p[2] * 10 + p[3] == year
    ensures year >= 1000 ==> PadStart(Digits(year), 4) == Digits(year)
    ensures year >= 1000 ==> PadStart(Digits(year), 4)[0] >= 1
  {
    var ds := Digits(year);
    var p := PadStart(ds, 4);
    PadStartShape(ds, 4);
    forall k | 0 <= k < |p|
      ensures p[k] < 10
    {
      if k >= |p| - |ds| {
        assert p[k] == p[|p| - |ds|..][k - (|p| - |ds|)];
      }
    }
    if year < 10000 {
      DigitsAtMost(year, 4);
      FromDigitsPadStart(ds, 4);
      DigitsRoundTrip(year);
      FromDigitsFour(p);
    }
    if year >= 1000 {
      DigitsAtLeast(year, 3);
      assert p == ds;
    }
  }

  /** A year from 10000 on is spelled with five digits or more. */
  lemma LongYear(year: nat)
    ensures year >= 10000 ==> |Digits(year)| >= 5
  {
    if year >= 10000 {
      DigitsAtLeast(year, 4);
    }
  }

  /** `parseDate`: tens and units of the day and of the month, and the first
      four characters of the zero-padded year.  Day and month always
      recompose; their tens are single digits when they are below 100.
      The year digits are always single digits and recompose the year when
      it is below 10000; a longer year keeps only its first four digits. */
  function ParseDate(year: nat, month: nat, day: nat): (d: DateDigits)
    ensures d.A * 10 + d.B == day && d.B < 10
    ensures d.C * 10 + d.D == month && d.D < 10
    ensures day < 100 ==> d.A < 10
    ensures month < 100 ==> d.C < 10
    ensures d.E < 10 && d.F < 10 && d.G < 10 && d.H < 10
    ensures year < 10000 ==> d.E * 1000 + d.F * 100 + d.G * 10 + d.H == year
    ensures year >= 1000 ==> d.E >= 1
    ensures year >= 10000 ==> var ds := Digits(year);
      |ds| >= 5 && d.E == ds[0] && d.F == ds[1] && d.G == ds[2] && d.H == ds[3]
  {
    PaddedYear(year);
    LongYear(year);
    var y := PadStart(Digits(year), 4);
    DateDigits(day / 10, day % 10, month / 10, month % 10, y[0], y[1], y[2], y[3])
  }

  /** `calculateInnerCode`: the table 1->2, 2->4, 3->6, 4->8, 5->1, 6->3,
      7->5, 8->7, 9->9, a single digit congruent to twice the input modulo
      9; anything outside 1..9 is returned unchanged. */
  function InnerCode(o: nat): (code: nat)
    ensures 1 <= o <= 9 ==> 1 <= code <= 9 && code % 9 == (2 * o) % 9
    ensures !(1 <= o <= 9) ==> code == o
  {
    match o
    case 1 => 2
    case 2 => 4
    case 3 => 6
    case 4 => 8
    case 5 => 1
    case 6 => 3
    case 7 => 5
    case 8 => 7
    case 9 => 9
    case _ => o
  }

  /** On 1..9 the table is exactly "double, then reduce". */
  lemma InnerCodeIsDoubling(o: nat)
    requires 1 <= o <= 9
    ensures InnerCode(o) == Reduce(2 * o)
  {
  }

  /** Undoes the inner code on 1..9: multiplying by 5 inverts doubling modulo 9. */
  function InnerDecode(code: nat): nat
  {
    Reduce(5 * code)
  }

  /** InnerDecode is a two-sided inverse of InnerCode on 1..9. */
  lemma InnerCodeInverse(o: nat)
    requires 1 <= o <= 9
    ensures 1 <= InnerDecode(o) <= 9
    ensures InnerDecode(InnerCode(o)) == o
    ensures InnerCode(InnerDecode(o)) == o
  {
    match o
    case 1 => assert InnerDecode(1) == 5 && InnerDecode(2) == 1;
    case 2 => assert InnerDecode(2) == 1 && InnerDecode(4) == 2;
    case 3 => assert InnerDecode(3) == 6 && InnerDecode(6) == 3;
    case 4 => assert InnerDecode(4) == 2 && InnerDecode(8) == 4;
    case 5 => assert InnerDecode(5) == 7 && InnerDecode(1) == 5;
    case 6 => assert InnerDecode(6) == 3 && InnerDecode(3) == 6;
    case 7 => assert InnerDecode(7) == 8 && InnerDecode(5) == 7;
    case 8 => assert InnerDecode(8) == 4 && InnerDecode(7) == 8;
    case 9 => assert InnerDecode(9) == 9;
  }

  /** The inner code is a permutation of 1..9: one-to-one, and onto with
      InnerDecode giving the preimage. */
  lemma InnerCodeBijective()
    ensures forall x: nat, y: nat :: 1 <= x <= 9 && 1 <= y <= 9 && InnerCode(x) == InnerCode(y) ==> x == y
    ensures forall c: nat :: 1 <= c <= 9 ==> 1 <= InnerDecode(c) <= 9 && InnerCode(InnerDecode(c)) == c
  {
    forall x: nat, y: nat | 1 <= x <= 9 && 1 <= y <= 9 && InnerCode(x) == InnerCode(y)
      ensures x == y
    {
      InnerCodeInverse(x);
      InnerCodeInverse(y);
    }
    forall c: nat | 1 <= c <= 9
      ensures 1 <= InnerDecode(c) <= 9 && InnerCode(InnerDecode(c)) == c
    {
      InnerCodeInverse(c);
    }
  }

  /** `calculateOuterCode`: the reduced sum of S, R and T.  Here and below
      `reduceToSingleDigit(x)` is written DigitalRoot(x), the value the
      reduction loop returns (ReduceToSingleDigit and ReduceIsDigitalRoot). */
  function OuterCode(S: nat, R: nat, T: nat): (code: nat)
    ensures code <= 9
    ensures code % 9 == (S + R + T) % 9
    ensures code == 0 <==> S == 0 && R == 0 && T == 0
  {
    RootResidue(S + R + T);
    DigitalRoot(S + R + T)
  }

  /** `calculateSubconsciousCode`: the reduced sum of L, I and O. */
  function SubconsciousCode(L: nat, I: nat, O: nat): (code: nat)
    ensures code <= 9
    ensures code % 9 == (L + I + O) % 9
    ensures code == 0 <==> L == 0 && I == 0 && O == 0
  {
    RootResidue(L + I + O);
    DigitalRoot(L + I + O)
  }

  /** Both three-argument codes ignore the order of their arguments. */
  lemma CodesSymmetric(a: nat, b: nat, c: nat)
    ensures OuterCode(a, b, c) == OuterCode(b, a, c) == OuterCode(a, c, b)
      == OuterCode(c, b, a) == OuterCode(b, c, a) == OuterCode(c, a, b)
    ensures SubconsciousCode(a, b, c) == SubconsciousCode(b, a, c) == SubconsciousCode(a, c, b)
      == SubconsciousCode(c, b, a) == SubconsciousCode(b, c, a) == SubconsciousCode(c, a, b)
  {
  }

  /** Every node and every code of a result is a single digit. */
  predicate AllSingleDigits(res: TriangleResult)
  {
    var t, u, k := res.inner, res.outer, res.core;
    t.I <= 9 && t.J <= 9 && t.K <= 9 && t.L <= 9 && t.M <= 9 && t.N <= 9 && t.O <= 9 &&
    u.P <= 9 && u.Q <= 9 && u.R <= 9 && u.S <= 9 && u.T <= 9 && u.U <= 9 && u.V <= 9 && u.W <= 9 && u.X <= 9 &&
    k.innerCode <= 9 && k.outerCode <= 9 && k.subconsciousCode <= 9
  }

  /** The inner triangle of `performCalculation`: the four bottom nodes
      from the digit pairs, then M and N, then the apex O. */
  function InnerOf(d: DateDigits): (t: InnerTriangle)
    ensures t.I <= 9 && t.J <= 9 && t.K <= 9 && t.L <= 9 && t.M <= 9 && t.N <= 9 && t.O <= 9
  {
    var I := DigitalRoot(d.A + d.B);
    var J := DigitalRoot(d.C + d.D);
    var K := DigitalRoot(d.E + d.F);
    var L := DigitalRoot(d.G + d.H);
    var M := DigitalRoot(I + J);
    var N := DigitalRoot(K + L);
    var O := DigitalRoot(M + N);
    InnerTriangle(I, J, K, L, M, N, O)
  }

  /** The outer triangle: S, T, U lean on I, J under M; V, W, X on K, L
      under N; P, Q, R on M, N under O. */
  function OuterOf(t: InnerTriangle): (u: OuterTriangle)
    ensures u.P <= 9 && u.Q <= 9 && u.R <= 9 && u.S <= 9 && u.T <= 9 && u.U <= 9 && u.V <= 9 && u.W <= 9 && u.X <= 9
  {
    var S := DigitalRoot(t.I + t.M);
    var T := DigitalRoot(t.J + t.M);
    var U := DigitalRoot(S + T);
    var V := DigitalRoot(t.K + t.N);
    var W := DigitalRoot(t.L + t.N);
    var X := DigitalRoot(V + W);
    var P := DigitalRoot(t.M + t.O);
    var Q := DigitalRoot(t.N + t.O);
    var R := DigitalRoot(P + Q);
    OuterTriangle(P, Q, R, S, T, U, V, W, X)
  }

  /** The three codes, from the apex, from S, R, T and from L, I, O. */
  function CodesOf(t: InnerTriangle, u: OuterTriangle): (k: CoreCodes)
    ensures t.O <= 9 ==> k.innerCode <= 9
    ensures k.outerCode <= 9 && k.subconsciousCode <= 9
  {
    CoreCodes(InnerCode(t.O), OuterCode(u.S, u.R, u.T), SubconsciousCode(t.L, t.I, t.O))
  }

  /** The chain of `performCalculation` on parsed digits. */
  function Evaluate(d: DateDigits, date: BirthDate): (res: TriangleResult)
    ensures res.originalDate == d && res.birthDate == date
    ensures AllSingleDigits(res)
  {
    var t := InnerOf(d);
    var u := OuterOf(t);
    TriangleResult(d, date, t, u, CodesOf(t, u))
  }

  /** `performCalculation`: parse the date into digits and run the chain;
      the result carries the date both as handed in and as split. */
  function Calculate(year: nat, month: nat, day: nat): (res: TriangleResult)
    ensures res.birthDate == BirthDate(year, month, day)
    ensures res.originalDate == ParseDate(year, month, day)
    ensures AllSingleDigits(res)
  {
    Evaluate(ParseDate(year, month, day), BirthDate(year, month, day))
  }

  /** Each side result of the outer triangle is the reduced sum of its
      two base nodes and twice its top node: reducing the corners first
      does not change it.  U, on I and J under M: */
  lemma LeftSideResult(t: InnerTriangle)
    ensures OuterOf(t).U == DigitalRoot(t.I + t.J + 2 * t.M)
  {
    RootOfSum(t.I + t.M, t.J + t.M, t.I + t.J + 2 * t.M);
  }

  /** X, on K and L under N. */
  lemma RightSideResult(t: InnerTriangle)
    ensures OuterOf(t).X == DigitalRoot(t.K + t.L + 2 * t.N)
  {
    RootOfSum(t.K + t.N, t.L + t.N, t.K + t.L + 2 * t.N);
  }

  /** R, on M and N under O. */
  lemma TopSideResult(t: InnerTriangle)
    ensures OuterOf(t).R == DigitalRoot(t.M + t.N + 2 * t.O)
  {
    RootOfSum(t.M + t.O, t.N + t.O, t.M + t.N + 2 * t.O);
  }

  /** The outer code S + R + T is the reduced sum I + J + 3M + N + 2O of
      the inner nodes. */
  lemma OuterCodeOfInner(t: InnerTriangle)
    ensures CodesOf(t, OuterOf(t)).outerCode == DigitalRoot(t.I + t.J + 3 * t.M + t.N + 2 * t.O)
  {
    TopSideResult(t);
    RootOfSum3(t.I + t.M, t.M + t.N + 2 * t.O, t.J + t.M, t.I + t.J + 3 * t.M + t.N + 2 * t.O);
  }

  /** A digit 1..9. */
  predicate NonZeroDigit(x: nat)
  {
    1 <= x <= 9
  }

  /** With a positive day pair, month pair and century pair, every inner
      node except L is a non-zero digit. */
  lemma InnerNonZero(d: DateDigits)
    requires d.A + d.B >= 1 && d.C + d.D >= 1 && d.E + d.F >= 1
    ensures var t := InnerOf(d);
      NonZeroDigit(t.I) && NonZeroDigit(t.J) && NonZeroDigit(t.K) &&
      NonZeroDigit(t.M) && NonZeroDigit(t.N) && NonZeroDigit(t.O)
  {
  }

  /** An inner triangle whose nodes other than L are non-zero has a
      non-zero outer triangle and non-zero codes. */
  lemma OuterNonZero(t: InnerTriangle)
    requires NonZeroDigit(t.I) && NonZeroDigit(t.J) && NonZeroDigit(t.K)
    requires NonZeroDigit(t.M) && NonZeroDigit(t.N) && NonZeroDigit(t.O)
    ensures var u, k := OuterOf(t), CodesOf(t, OuterOf(t));
      NonZeroDigit(u.P) && NonZeroDigit(u.Q) && NonZeroDigit(u.R) &&
      NonZeroDigit(u.S) && NonZeroDigit(u.T) && NonZeroDigit(u.U) &&
      NonZeroDigit(u.V) && NonZeroDigit(u.W) && NonZeroDigit(u.X) &&
      NonZeroDigit(k.innerCode) && NonZeroDigit(k.outerCode) && NonZeroDigit(k.subconsciousCode)
  {
  }

  /** For a day and month of at least 1 and a century pair E + F of at
      least 1, every node except L and every code is a digit 1..9. */
  lemma CalculateNonZero(year: nat, month: nat, day: nat)
    requires day >= 1 && month >= 1
    requires ParseDate(year, month, day).E + ParseDate(year, month, day).F >= 1
    ensures var res := Calculate(year, month, day);
      var t, u, k := res.inner, res.outer, res.core;
      NonZeroDigit(t.I) && NonZeroDigit(t.J) && NonZeroDigit(t.K) &&
      NonZeroDigit(t.M) && NonZeroDigit(t.N) && NonZeroDigit(t.O) &&
      NonZeroDigit(u.P) && NonZeroDigit(u.Q) && NonZeroDigit(u.R) &&
      NonZeroDigit(u.S) && NonZeroDigit(u.T) && NonZeroDigit(u.U) &&
      NonZeroDigit(u.V) && NonZeroDigit(u.W) && NonZeroDigit(u.X) &&
      NonZeroDigit(k.innerCode) && NonZeroDigit(k.outerCode) && NonZeroDigit(k.subconsciousCode)
  {
    var d := ParseDate(year, month, day);
    InnerNonZero(d);
    OuterNonZero(InnerOf(d));
  }

  /** The century pair E + F is positive exactly for years from 100 on. */
  lemma CenturyPairPositive(year: nat, month: nat, day: nat)
    ensures var d := ParseDate(year, month, day);
      d.E + d.F >= 1 <==> year >= 100
  {
  }

  /** x mod 100 from a quotient and a remainder below 100. */
  lemma ModHundredUnique(x: int, q: int, rem: int)
    requires x == 100 * q + rem && 0 <= rem < 100
    ensures x % 100 == rem
  {
  }

  /** L is 0 exactly when both year-in-century digits G and H are 0, that
      is, for a year below 10000, when the year is a multiple of 100. */
  lemma LastPairZero(year: nat, month: nat, day: nat)
    ensures var d := ParseDate(year, month, day);
      Calculate(year, month, day).inner.L == 0 <==> d.G == 0 && d.H == 0
    ensures year < 10000 ==> (Calculate(year, month, day).inner.L == 0 <==> year % 100 == 0)
  {
    var d := ParseDate(year, month, day);
    if year < 10000 {
      ModHundredUnique(year, d.E * 10 + d.F, d.G * 10 + d.H);
    }
  }

  /** The apex O keeps the residue modulo 9 of the sum of all eight
      digits. */
  lemma ApexResidue(year: nat, month: nat, day: nat)
    ensures var d := ParseDate(year, month, day);
      Calculate(year, month, day).inner.O % 9 == (d.A + d.B + d.C + d.D + d.E + d.F + d.G + d.H) % 9
  {
    var d := ParseDate(year, month, day);
    InnerApex(d);
    RootResidue(((d.A + d.B) + (d.C + d.D)) + ((d.E + d.F) + (d.G + d.H)));
  }

  /** The same inner triangle computed in one step per node: each node is
      the reduction of a fixed sum of the day pair (A + B), the month pair
      (C + D), the century pair (E + F) and the year-in-century pair
      (G + H). */
  function DirectInner(d: DateDigits): InnerTriangle
  {
    var day, month, cent, yr := d.A + d.B, d.C + d.D, d.E + d.F, d.G + d.H;
    InnerTriangle(
      DigitalRoot(day), DigitalRoot(month), DigitalRoot(cent), DigitalRoot(yr),
      DigitalRoot(day + month), DigitalRoot(cent + yr), DigitalRoot((day + month) + (cent + yr)))
  }

  /** M, the left node of the middle row, is the reduced day and month sum. */
  lemma InnerLeft(d: DateDigits)
    ensures InnerOf(d).M == DigitalRoot((d.A + d.B) + (d.C + d.D))
  {
    RootOfSum(d.A + d.B, d.C + d.D, (d.A + d.B) + (d.C + d.D));
  }

  /** N, the right node of the middle row, is the reduced year sum. */
  lemma InnerRight(d: DateDigits)
    ensures InnerOf(d).N == DigitalRoot((d.E + d.F) + (d.G + d.H))
  {
    RootOfSum(d.E + d.F, d.G + d.H, (d.E + d.F) + (d.G + d.H));
  }

  /** The apex O is the reduced sum of all eight digits. */
  lemma InnerApex(d: DateDigits)
    ensures InnerOf(d).O == DigitalRoot(((d.A + d.B) + (d.C + d.D)) + ((d.E + d.F) + (d.G + d.H)))
  {
    InnerLeft(d);
    InnerRight(d);
    RootOfSum((d.A + d.B) + (d.C + d.D), (d.E + d.F) + (d.G + d.H), ((d.A + d.B) + (d.C + d.D)) + ((d.E + d.F) + (d.G + d.H)));
  }

  /** The step-by-step chain agrees with the direct one-step formulas. */
  lemma InnerMatchesDirect(d: DateDigits)
    ensures InnerOf(d) == DirectInner(d)
  {
    InnerLeft(d);
    InnerRight(d);
    InnerApex(d);
  }

  /** The inner triangle of `performCalculation` is the direct one of the
      parsed date. */
  lemma CalculateInnerDirect(year: nat, month: nat, day: nat)
    ensures Calculate(year, month, day).inner == DirectInner(ParseDate(year, month, day))
  {
    InnerMatchesDirect(ParseDate(year, month, day));
  }

  /** A worked date, 15 May 1990: its digits ... */
  lemma ParseExample()
    ensures ParseDate(1990, 5, 15) == DateDigits(1, 5, 0, 5, 1, 9, 9, 0)
  {
    assert Digits(1990) == [1, 9, 9, 0] by {
      assert Digits(1) == [1];
      assert Digits(19) == [1, 9];
      assert Digits(199) == [1, 9, 9];
    }
  }

  /** ... its inner triangle ... */
  lemma InnerExample()
    ensures InnerOf(DateDigits(1, 5, 0, 5, 1, 9, 9, 0)) == InnerTriangle(6, 5, 1, 9, 2, 1, 3)
  {
  }

  /** ... its outer triangle ... */
  lemma OuterExample()
    ensures OuterOf(InnerTriangle(6, 5, 1, 9, 2, 1, 3)) == OuterTriangle(5, 4, 9, 8, 7, 6, 2, 1, 3)
  {
  }

  /** ... and its codes. */
  lemma CalculateExample()
    ensures Calculate(1990, 5, 15) == TriangleResult(
      DateDigits(1, 5, 0, 5, 1, 9, 9, 0),
      BirthDate(1990, 5, 15),
      InnerTriangle(6, 5, 1, 9, 2, 1, 3),
      OuterTriangle(5, 4, 9, 8, 7, 6, 2, 1, 3),
      CoreCodes(6, 6, 9))
  {
    ParseExample();
    InnerExample();
    OuterExample();
    assert CodesOf(InnerTriangle(6, 5, 1, 9, 2, 1, 3), OuterTriangle(5, 4, 9, 8, 7, 6, 2, 1, 3)) == CoreCodes(6, 6, 9);
  }
}
