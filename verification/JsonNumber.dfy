/**
 * What the numbers of section 6 of RFC 8259 stand for: a sign, an integer, a fraction and an
 * exponent, read by parse_number.
 */
module JsonNumber {
  import opened Json

  // Decimal digits.
  ghost predicate Decimal(ds: seq<nat>) {
    forall i :: 0 <= i < |ds| ==> ds[i] < 10
  }

  // Their value as an integer, and behind a decimal point.
  function Whole(ds: seq<nat>): nat {
    if ds == [] then 0 else Whole(ds[..|ds| - 1]) * 10 + ds[|ds| - 1]
  }

  function Part(fs: seq<nat>): real {
    if fs == [] then 0.0 else (fs[0] as real + Part(fs[1..])) / 10.0
  }

  // x times ten to the power of e.
  function Scale(x: real, e: int): real
    decreases if e < 0 then -e else e
  {
    if e == 0 then x else if e > 0 then Scale(x * 10.0, e - 1) else Scale(x / 10.0, e + 1)
  }

  // The exponent: none, or a mark, a sign if there is one, and digits.
  datatype Exp = NoExp | Exp(mark: char, sign: string, es: seq<nat>)

  ghost predicate GoodExp(x: Exp) {
    x.Exp? ==> (x.mark == 'e' || x.mark == 'E') && (x.sign == "" || x.sign == "+" || x.sign == "-") && x.es != [] && Decimal(x.es)
  }

  function ExpValue(x: Exp): int {
    if x.NoExp? then 0 else if x.sign == "-" then -(Whole(x.es) as int) else Whole(x.es)
  }

  // An integer has no leading zeros.
  ghost predicate GoodInt(ds: seq<nat>) {
    ds != [] && Decimal(ds) && (ds[0] == 0 ==> |ds| == 1)
  }

  // The text of all this, with k behind it.
  function DigitsOf(ds: seq<nat>, k: string): string
    requires Decimal(ds)
  {
    if ds == [] then k else ["0123456789"[ds[0]]] + DigitsOf(ds[1..], k)
  }

  function FractionOf(fs: seq<nat>, k: string): string
    requires Decimal(fs)
  {
    if fs == [] then k else "." + DigitsOf(fs, k)
  }

  function ExpOf(x: Exp, k: string): string
    requires GoodExp(x)
  {
    if x.NoExp? then k else [x.mark] + x.sign + DigitsOf(x.es, k)
  }

  function NumberText(neg: bool, ds: seq<nat>, fs: seq<nat>, x: Exp, k: string): string
    requires GoodInt(ds) && Decimal(fs) && GoodExp(x)
  {
    var t := DigitsOf(ds, FractionOf(fs, ExpOf(x, k)));
    if neg then "-" + t else t
  }

  function Value(neg: bool, ds: seq<nat>, fs: seq<nat>, x: Exp): real {
    var v := Whole(ds) as real + Part(fs);
    Scale(if neg then -v else v, ExpValue(x))
  }

  // Reading digits. ------------------------------------------------------------------------------

  predicate NoDigit(k: string) {
    k == "" || !IsDigit(k[0])
  }

  lemma CharOfDigit(d: nat)
    requires d < 10
    ensures var c := "0123456789"[d]; IsDigit(c) && DigitValue(c) == d && (d > 0 ==> '1' <= c <= '9') && (d == 0 ==> c == '0')
  {
  }

  // Digits ds behind a number n.
  function Fold(n: nat, ds: seq<nat>): nat
    decreases |ds|
  {
    if ds == [] then n else Fold(n * 10 + ds[0], ds[1..])
  }

  lemma {:induction false} DigitsRead(ds: seq<nat>, n: nat, k: string)
    requires Decimal(ds) && NoDigit(k)
    ensures Digits(DigitsOf(ds, k), n) == (Fold(n, ds), k)
  {
    if ds != [] {
      var t := DigitsOf(ds, k);
      CharOfDigit(ds[0]);
      assert t[0] == "0123456789"[ds[0]] && t[1..] == DigitsOf(ds[1..], k);
      DigitsRead(ds[1..], n * 10 + ds[0], k);
    }
  }

  lemma {:induction false} DigitsSize(ds: seq<nat>, k: string)
    requires Decimal(ds)
    ensures |DigitsOf(ds, k)| == |ds| + |k|
  {
    if ds != [] {
      DigitsSize(ds[1..], k);
    }
  }

  lemma MagnitudeReads(ds: seq<nat>, k: string)
    requires GoodInt(ds) && NoDigit(k)
    ensures Magnitude(DigitsOf(ds, k)) == (Fold(0, ds), k)
  {
    var t := DigitsOf(ds, k);
    CharOfDigit(ds[0]);
    assert t[0] == "0123456789"[ds[0]] && t[1..] == DigitsOf(ds[1..], k);
    if ds[0] != 0 {
      DigitsRead(ds[1..], ds[0], k);
    } else {
      assert ds[1..] == [] && Fold(0, []) == 0;
    }
  }

  lemma FractionReads(fs: seq<nat>, n: nat, k: string)
    requires Decimal(fs) && NoDigit(k) && (k == "" || k[0] != '.')
    ensures Fraction(n, FractionOf(fs, k)) == (Fold(n, fs), |fs|, k)
  {
    if fs != [] {
      var u := DigitsOf(fs, k);
      CharOfDigit(fs[0]);
      assert u[0] == "0123456789"[fs[0]];
      DigitsRead(fs, n, k);
      DigitsSize(fs, k);
      PointReads("." + u, u, n);
    }
  }

  lemma PointReads(w: string, u: string, n: nat)
    requires w == "." + u && u != "" && IsDigit(u[0])
    ensures Fraction(n, w) == (Digits(u, n).0, |u| - |Digits(u, n).1|, Digits(u, n).1)
  {
    assert w[1..] == u && w[1] == u[0];
  }

  lemma ExpReads(x: Exp, k: string)
    requires GoodExp(x) && EndsNumber(k)
    ensures Exponent(ExpOf(x, k)) == (if x.NoExp? then 0 else if x.sign == "-" then -(Fold(0, x.es) as int) else Fold(0, x.es), k)
  {
    if x.Exp? {
      var w, u := ExpOf(x, k), DigitsOf(x.es, k);
      DigitsRead(x.es, 0, k);
      CharOfDigit(x.es[0]);
      assert u[0] == "0123456789"[x.es[0]];
      if x.sign == "" {
        assert w[1..] == u && w[1] == u[0];
      } else {
        assert w[2..] == u && w[1] == x.sign[0];
      }
    }
  }

  // What is read. --------------------------------------------------------------------------------

  lemma {:induction false} FoldLast(n: nat, ds: seq<nat>)
    requires ds != []
    ensures Fold(n, ds) == Fold(n, ds[..|ds| - 1]) * 10 + ds[|ds| - 1]
    decreases |ds|
  {
    if |ds| > 1 {
      FoldLast(n * 10 + ds[0], ds[1..]);
      assert ds[1..][..|ds| - 2] == ds[..|ds| - 1][1..];
    }
  }

  lemma {:induction false} FoldIsWhole(ds: seq<nat>)
    ensures Fold(0, ds) == Whole(ds)
  {
    if ds != [] {
      FoldIsWhole(ds[..|ds| - 1]);
      FoldLast(0, ds);
    }
  }

  lemma {:induction false} ScaleStep(x: real, e: int)
    ensures Scale(x * 10.0, e - 1) == Scale(x, e)
    decreases if e < 0 then -e else e
  {
    if e <= 0 {
      assert x * 10.0 / 10.0 == x;
    }
  }

  // NumberOf, for any numerator.
  function RealOf(x: real, e: int): real {
    if e >= 0 then x * Pow10(e) as real else x / Pow10(-e) as real
  }

  lemma NumberIsReal(n: int, e: int)
    ensures NumberOf(n, e) == RealOf(n as real, e)
  {
    if e >= 0 {
      Product(n, Pow10(e));
    }
  }

  lemma Product(a: int, b: int)
    ensures (a * b) as real == a as real * b as real
  {
  }

  lemma {:induction false} RealIsScale(x: real, e: int)
    ensures RealOf(x, e) == Scale(x, e)
    decreases if e < 0 then -e else e
  {
    if e > 0 {
      RealUp(x, e);
      RealIsScale(x * 10.0, e - 1);
    } else if e < 0 {
      RealDown(x, e);
      RealIsScale(x / 10.0, e + 1);
    }
  }

  lemma RealUp(x: real, e: int)
    requires e > 0
    ensures RealOf(x, e) == RealOf(x * 10.0, e - 1)
  {
    TenMore(x, Pow10(e - 1));
  }

  lemma RealDown(x: real, e: int)
    requires e < 0
    ensures RealOf(x, e) == RealOf(x / 10.0, e + 1)
  {
    if e == -1 {
      assert Pow10(1) == 10;
    } else {
      TenLess(x, Pow10(-e - 1));
      assert -(e + 1) == -e - 1;
    }
  }

  lemma TenMore(x: real, p: nat)
    ensures x * 10.0 * p as real == x * (10 * p) as real
  {
    assert (10 * p) as real == 10.0 * p as real;
  }

  lemma TenLess(x: real, p: nat)
    requires 0 < p
    ensures x / 10.0 / p as real == x / (10 * p) as real
  {
    var y, q := x / 10.0 / p as real, (10 * p) as real;
    assert q == 10.0 * p as real;
    assert y * q == x by {
      assert y * p as real == x / 10.0;
      assert y * (10.0 * p as real) == y * p as real * 10.0;
    }
  }

  lemma NumberIs(n: int, e: int)
    ensures NumberOf(n, e) == Scale(n as real, e)
  {
    NumberIsReal(n, e);
    RealIsScale(n as real, e);
  }

  lemma {:induction false} ScaleMinus(x: real, e: int)
    ensures Scale(-x, e) == -Scale(x, e)
    decreases if e < 0 then -e else e
  {
    if e > 0 {
      ScaleMinus(x * 10.0, e - 1);
      assert -x * 10.0 == -(x * 10.0);
    } else if e < 0 {
      ScaleMinus(x / 10.0, e + 1);
      assert -x / 10.0 == -(x / 10.0);
    }
  }

  // A number n and digits fs, with the point before the digits.
  lemma {:induction false} FoldIsPart(n: nat, fs: seq<nat>, e: int)
    ensures Scale(Fold(n, fs) as real, e - |fs|) == Scale(n as real + Part(fs), e)
    decreases |fs|
  {
    if fs == [] {
      assert n as real + 0.0 == n as real;
    } else {
      var y := n as real + Part(fs);
      FoldIsPart(n * 10 + fs[0], fs[1..], e - 1);
      assert e - 1 - |fs[1..]| == e - |fs|;
      assert (n * 10 + fs[0]) as real + Part(fs[1..]) == y * 10.0;
      ScaleStep(y, e);
    }
  }

  // Digits ds and fs, scaled by the exponent less the length of the fraction.
  lemma ScaledIs(neg: bool, ds: seq<nat>, fs: seq<nat>, e: int) returns (x: real)
    ensures x == NumberOf(if neg then -(Fold(Fold(0, ds), fs) as int) else Fold(Fold(0, ds), fs), e - |fs|)
    ensures var v := Whole(ds) as real + Part(fs); x == Scale(if neg then -v else v, e)
  {
    var m, v := Fold(Fold(0, ds), fs), Whole(ds) as real + Part(fs);
    FoldIsWhole(ds);
    FoldIsPart(Whole(ds), fs, e);
    x := NumberOf(if neg then -(m as int) else m, e - |fs|);
    if neg {
      NumberIs(-(m as int), e - |fs|);
      assert (-(m as int)) as real == -(m as real);
      ScaleMinus(m as real, e - |fs|);
      ScaleMinus(v, e);
    } else {
      NumberIs(m, e - |fs|);
    }
  }

  /** Every number of the grammar is read as what its digits mean. */
  lemma NumberReads(neg: bool, ds: seq<nat>, fs: seq<nat>, x: Exp, k: string)
    requires GoodInt(ds) && Decimal(fs) && GoodExp(x) && EndsNumber(k)
    ensures ParseNumber(NumberText(neg, ds, fs, x, k)) == Got(Num(Value(neg, ds, fs, x)), k)
  {
    var u := ExpOf(x, k);
    var w := FractionOf(fs, u);
    var t := DigitsOf(ds, w);
    MagnitudeReads(ds, w);
    ScaledReads(neg, ds, fs, x, k);
    CharOfDigit(ds[0]);
    assert t[0] == "0123456789"[ds[0]];
    SignReads(neg, t, if neg then "-" + t else t);
  }

  lemma ScaledReads(neg: bool, ds: seq<nat>, fs: seq<nat>, x: Exp, k: string)
    requires Decimal(fs) && GoodExp(x) && EndsNumber(k)
    ensures Scaled(if neg then -1 else 1, Fold(0, ds), FractionOf(fs, ExpOf(x, k))) == Got(Num(Value(neg, ds, fs, x)), k)
  {
    var n, u := Fold(0, ds), ExpOf(x, k);
    ExpStarts(x, k);
    FractionReads(fs, n, u);
    ExpValueReads(x, k);
    ScaledOf(neg, ds, fs, FractionOf(fs, u), u, ExpValue(x), k);
  }

  // An exponent does not go on with the number before it.
  lemma ExpStarts(x: Exp, k: string)
    requires GoodExp(x) && EndsNumber(k)
    ensures NoDigit(ExpOf(x, k)) && (ExpOf(x, k) == "" || ExpOf(x, k)[0] != '.')
  {
  }

  lemma ExpValueReads(x: Exp, k: string)
    requires GoodExp(x) && EndsNumber(k)
    ensures Exponent(ExpOf(x, k)) == (ExpValue(x), k)
  {
    ExpReads(x, k);
    if x.Exp? {
      FoldIsWhole(x.es);
    }
  }

  lemma ScaledOf(neg: bool, ds: seq<nat>, fs: seq<nat>, w: string, u: string, e: int, k: string)
    requires Fraction(Fold(0, ds), w) == (Fold(Fold(0, ds), fs), |fs|, u) && Exponent(u) == (e, k)
    ensures var v := Whole(ds) as real + Part(fs);
      Scaled(if neg then -1 else 1, Fold(0, ds), w) == Got(Num(Scale(if neg then -v else v, e)), k)
  {
    var m := Fold(Fold(0, ds), fs);
    var x := ScaledIs(neg, ds, fs, e);
    Signed(neg, m, Fold(0, ds), w, |fs|, u, e, k, x);
  }

  lemma Signed(neg: bool, m: nat, n: nat, w: string, places: nat, u: string, e: int, k: string, x: real)
    requires Fraction(n, w) == (m, places, u) && Exponent(u) == (e, k)
    requires x == NumberOf(if neg then -(m as int) else m, e - places)
    ensures Scaled(if neg then -1 else 1, n, w) == Got(Num(x), k)
  {
    assert -1 * m == -(m as int);
  }

  lemma SignReads(neg: bool, t: string, all: string)
    requires t != "" && IsDigit(t[0]) && all == if neg then "-" + t else t
    ensures ParseNumber(all) == Scaled(if neg then -1 else 1, Magnitude(t).0, Magnitude(t).1)
  {
    assert neg ==> all[0] == '-' && all[1..] == t;
  }

  /** So it is as a value. */
  lemma NumberIsRead(neg: bool, ds: seq<nat>, fs: seq<nat>, x: Exp, k: string)
    requires GoodInt(ds) && Decimal(fs) && GoodExp(x) && EndsNumber(k)
    ensures ParseValue(NumberText(neg, ds, fs, x, k)) == Got(Num(Value(neg, ds, fs, x)), k)
  {
    var t := NumberText(neg, ds, fs, x, k);
    NumberReads(neg, ds, fs, x, k);
    CharOfDigit(ds[0]);
    assert DigitsOf(ds, FractionOf(fs, ExpOf(x, k)))[0] == "0123456789"[ds[0]];
    NoKeyword(t);
  }

  /** 1.5 is three halves. */
  lemma ThreeHalves()
    ensures ParseNumber("1.5") == Got(Num(3.0 / 2.0), "")
  {
    NumberReads(false, [1], [5], NoExp, "");
    assert DigitsOf([5], "") == "5" && DigitsOf([1], ".5") == "1.5";
    assert Part([5]) == 0.5 && Whole([1]) == 1;
  }

  /** -25e-1 is minus five halves. */
  lemma MinusFiveHalves()
    ensures ParseNumber("-25e-1") == Got(Num(-5.0 / 2.0), "")
  {
    var x := Exp('e', "-", [1]);
    NumberReads(true, [2, 5], [], x, "");
    TextOfSample(x);
    ValueOfSample(x);
  }

  lemma TextOfSample(x: Exp)
    requires x == Exp('e', "-", [1])
    ensures NumberText(true, [2, 5], [], x, "") == "-25e-1"
  {
    assert DigitsOf([1], "") == "1" && ExpOf(x, "") == "e-1";
    assert DigitsOf([5], "e-1") == "5e-1" && DigitsOf([2, 5], "e-1") == "25e-1";
  }

  lemma ValueOfSample(x: Exp)
    requires x == Exp('e', "-", [1])
    ensures Value(true, [2, 5], [], x) == -5.0 / 2.0
  {
    assert Whole([1]) == 1 && Whole([2]) == 2 && Whole([2, 5]) == 25;
    assert Part([]) == 0.0 && Scale(-2.5, 0) == -2.5 && Scale(-25.0, -1) == -2.5;
  }
}
