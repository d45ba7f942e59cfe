/** The JavaScript primitive values a formula computes with (number, string,
    boolean) and the conversions the engine relies on: `String(v)`, `Number(text)`
    for the number literals the grammar accepts, truthiness and the `+` operator.
    JavaScript numbers are modelled as exact reals. */
module Values {
  import opened Utility

  datatype Value = Num(n: real) | Str(s: string) | Bool(b: bool)

  /** Message used where the model stops following JavaScript: numeric coercion of
      strings, and the non-finite numbers (NaN, Infinity) it and division by `false`
      produce. It is also the message the source gives when an operator throws. */
  const InvalidOperation: string := "invalid operation"

  predicate IsDigit(c: char) { '0' <= c <= '9' }

  function DigitValue(c: char): nat
    requires IsDigit(c)
  {
    (c as int - '0' as int) as nat
  }

  function DigitChar(d: nat): (c: char)
    requires d < 10
    ensures IsDigit(c) && DigitValue(c) == d
  {
    "0123456789"[d]
  }

  predicate AllDigits(t: string) { forall k :: 0 <= k < |t| ==> IsDigit(t[k]) }

  /** The decimal digits of a natural number, without leading zeros. */
  function IntText(n: nat): (t: string)
    ensures |t| > 0 && AllDigits(t)
    ensures n > 0 <==> t[0] != '0'
  {
    if n < 10 then [DigitChar(n)] else IntText(n / 10) + [DigitChar(n % 10)]
  }

  /** The number a run of decimal digits denotes. */
  function DigitsValue(t: string): nat
    requires AllDigits(t)
  {
    if |t| == 0 then 0 else DigitsValue(t[..|t| - 1]) * 10 + DigitValue(t[|t| - 1])
  }

  lemma {:induction false} IntTextRoundTrip(n: nat)
    ensures DigitsValue(IntText(n)) == n
  {
    if n >= 10 {
      var t := IntText(n);
      assert t[..|t| - 1] == IntText(n / 10);
      IntTextRoundTrip(n / 10);
    }
  }

  function Pow10(k: nat): (p: nat)
    ensures p >= 1
  {
    if k == 0 then 1 else 10 * Pow10(k - 1)
  }

  /** `Number(text)` for a text matched by `-?(\d+)(\.\d+)?`, split into sign,
      whole digits and fraction digits. */
  function LiteralValue(negative: bool, whole: string, fraction: string): real
    requires AllDigits(whole) && AllDigits(fraction)
  {
    var magnitude := DigitsValue(whole) as real + DigitsValue(fraction) as real / Pow10(|fraction|) as real;
    if negative then -magnitude else magnitude
  }

  /** Digits printed after the decimal point before `String` gives up (see README). */
  const MaxFractionDigits: nat := 20

  /** The first `n` digits of the decimal expansion of `f`, stopping early when
      the expansion ends (`FractionDigits` reads them back). */
  function FractionText(f: real, n: nat): (t: string)
    requires 0.0 <= f < 1.0
    ensures AllDigits(t) && |t| <= n
    decreases n
  {
    if f == 0.0 || n == 0 then ""
    else
      var d := (f * 10.0).Floor;
      assert 0 <= d < 10;
      [DigitChar(d as nat)] + FractionText(f * 10.0 - d as real, n - 1)
  }

  /** `f` with the decimal point moved `k` places to the right. */
  function Shifted(f: real, k: nat): real
  {
    f * Pow10(k) as real
  }

  /** Read back, the printed digits are `f` cut off after `|t|` places, and
      exactly `f` when the expansion ended before the limit. */
  lemma {:induction false} FractionDigits(f: real, n: nat)
    requires 0.0 <= f < 1.0
    ensures DigitsValue(FractionText(f, n)) as real <= Shifted(f, |FractionText(f, n)|)
    ensures Shifted(f, |FractionText(f, n)|) < (DigitsValue(FractionText(f, n)) + 1) as real
    ensures |FractionText(f, n)| < n ==> DigitsValue(FractionText(f, n)) as real == Shifted(f, |FractionText(f, n)|)
    decreases n
  {
    if f != 0.0 && n != 0 {
      var d := (f * 10.0).Floor;
      var digit: nat := d;
      var g := f * 10.0 - d as real;
      var rest := FractionText(g, n - 1);
      FractionDigits(g, n - 1);
      var c := DigitChar(digit);
      assert FractionText(f, n) == [c] + rest;
      DigitsValuePrepend(c, rest);
      FractionStep(f, g, digit, |rest|, DigitsValue(rest), |rest| < n - 1);
    }
  }

  /** A digit in front of a run of digits counts `10^|u|` times its value. */
  lemma {:induction false} DigitsValuePrepend(c: char, u: string)
    requires IsDigit(c) && AllDigits(u)
    ensures AllDigits([c] + u)
    ensures DigitsValue([c] + u) == DigitValue(c) * Pow10(|u|) + DigitsValue(u)
    decreases |u|
  {
    var w := [c] + u;
    assert forall k :: 0 <= k < |w| ==> IsDigit(w[k]);
    if |u| > 0 {
      assert w[..|w| - 1] == [c] + u[..|u| - 1];
      DigitsValuePrepend(c, u[..|u| - 1]);
      var p := Pow10(|u| - 1);
      assert Pow10(|u|) == 10 * p;
      assert DigitsValue(w) == (DigitValue(c) * p + DigitsValue(u[..|u| - 1])) * 10 + DigitValue(u[|u| - 1]);
      assert DigitsValue(u) == DigitsValue(u[..|u| - 1]) * 10 + DigitValue(u[|u| - 1]);
      assert (DigitValue(c) * p) * 10 == DigitValue(c) * (10 * p);
    }
  }

  /** The step of `FractionDigits`: the bounds for the rest give the bounds for the whole. */
  lemma FractionStep(f: real, rest: real, d: nat, k: nat, v: nat, exact: bool)
    requires rest == f * 10.0 - d as real
    requires v as real <= Shifted(rest, k) < (v + 1) as real
    requires exact ==> v as real == Shifted(rest, k)
    ensures (d * Pow10(k) + v) as real <= Shifted(f, k + 1) < (d * Pow10(k) + v + 1) as real
    ensures exact ==> (d * Pow10(k) + v) as real == Shifted(f, k + 1)
  {
    var p := Pow10(k);
    assert Pow10(k + 1) == 10 * p;
    CastProduct(d, p);
    assert (10 * p) as real == 10.0 * p as real;
    assert f * (10.0 * p as real) == rest * p as real + d as real * p as real;
  }

  lemma CastProduct(a: nat, b: nat)
    ensures (a * b) as real == a as real * b as real
  {
  }

  function MagnitudeText(r: real): string
    requires r >= 0.0
  {
    var whole := r.Floor;
    IntText(whole as nat) + (if r == whole as real then "" else "." + FractionText(r - whole as real, MaxFractionDigits))
  }

  /** `String(n)` for a number: a sign for negative numbers, and a point exactly
      when the number is not an integer. */
  function NumberText(r: real): (t: string)
    ensures |t| > 0 && (t[0] == '-' <==> r < 0.0)
    ensures '.' in t <==> r != r.Floor as real
  {
    var m := if r < 0.0 then -r else r;
    assert m.Floor as real == m <==> r.Floor as real == r by {
      if r < 0.0 { NegatedFloor(r); }
    }
    var text := MagnitudeText(m);
    assert '.' !in IntText(m.Floor as nat);
    if r < 0.0 then "-" + text else text
  }

  /** A number prints with digits, a leading sign and a point only. */
  lemma NumberTextAlphabet(r: real)
    ensures forall c | c in NumberText(r) :: IsDigit(c) || c == '-' || c == '.'
  {
    var m := if r < 0.0 then -r else r;
    var whole := m.Floor;
    var w := IntText(whole as nat);
    assert forall c | c in w :: IsDigit(c);
    if m != whole as real {
      var f := FractionText(m - whole as real, MaxFractionDigits);
      assert forall c | c in f :: IsDigit(c);
      assert forall c | c in w + "." + f :: c in w || c == '.' || c in f;
    }
  }

  /** Negating keeps a number integral or not. */
  lemma NegatedFloor(r: real)
    ensures (-r).Floor as real == -r <==> r.Floor as real == r
  {
    if r.Floor as real == r {
      assert (-r).Floor == -(r.Floor);
    }
    if (-r).Floor as real == -r {
      assert r.Floor == -((-r).Floor);
    }
  }

  /** A non-integral number prints its whole part and its fraction digits, and
      the number literal rule reads the text back as the number, to within the
      last digit printed (exactly when fewer than `MaxFractionDigits` are needed). */
  lemma NumberTextReadBack(r: real)
    requires r >= 0.0 && r != r.Floor as real
    ensures var w, frac := r.Floor as nat, FractionText(r - r.Floor as real, MaxFractionDigits);
      NumberText(r) == IntText(w) + "." + frac
      && LiteralValue(false, IntText(w), frac) <= r < LiteralValue(false, IntText(w), frac) + 1.0 / Pow10(|frac|) as real
      && (|frac| < MaxFractionDigits ==> LiteralValue(false, IntText(w), frac) == r)
  {
    var w := r.Floor as nat;
    var f := r - r.Floor as real;
    assert w as real + f == r;
    FractionPrinted(r);
    FractionLiteral(w, f);
  }

  lemma FractionPrinted(r: real)
    requires r >= 0.0 && r != r.Floor as real
    ensures NumberText(r) == IntText(r.Floor as nat) + "." + FractionText(r - r.Floor as real, MaxFractionDigits)
  {
    var w := r.Floor as nat;
    var frac := FractionText(r - w as real, MaxFractionDigits);
    NonNegativeText(r);
    MagnitudeOfFraction(r);
    assert IntText(w) + ("." + frac) == IntText(w) + "." + frac;
  }

  lemma NonNegativeText(r: real)
    requires r >= 0.0
    ensures NumberText(r) == MagnitudeText(r)
  {
  }

  lemma MagnitudeOfFraction(r: real)
    requires r >= 0.0 && r != r.Floor as real
    ensures MagnitudeText(r) == IntText(r.Floor as nat) + ("." + FractionText(r - r.Floor as real, MaxFractionDigits))
  {
  }

  /** The whole digits and the fraction digits read back as `w + f`, to within the last digit. */
  lemma FractionLiteral(w: nat, f: real)
    requires 0.0 <= f < 1.0
    ensures var frac := FractionText(f, MaxFractionDigits);
      LiteralValue(false, IntText(w), frac) <= w as real + f < LiteralValue(false, IntText(w), frac) + 1.0 / Pow10(|frac|) as real
      && (|frac| < MaxFractionDigits ==> LiteralValue(false, IntText(w), frac) == w as real + f)
  {
    var frac := FractionText(f, MaxFractionDigits);
    IntTextRoundTrip(w);
    FractionDigits(f, MaxFractionDigits);
    DivideBounds(f, |frac|, DigitsValue(frac) as real);
    var q := DigitsValue(frac) as real / Pow10(|frac|) as real;
    assert LiteralValue(false, IntText(w), frac) == w as real + q;
  }

  lemma DivideBounds(f: real, k: nat, v: real)
    requires v <= Shifted(f, k) < v + 1.0
    ensures v / Pow10(k) as real <= f < v / Pow10(k) as real + 1.0 / Pow10(k) as real
    ensures v == Shifted(f, k) ==> v / Pow10(k) as real == f
  {
    var p := Pow10(k) as real;
    assert (v + 1.0) / p == v / p + 1.0 / p;
  }

  /** An integer prints as its sign and its digits, and the digits read back as the number. */
  lemma IntegerText(n: int)
    ensures NumberText(n as real) == if n < 0 then "-" + IntText(-n) else IntText(n)
    ensures n >= 0 ==> LiteralValue(false, NumberText(n as real), "") == n as real
    ensures n < 0 ==> LiteralValue(true, NumberText(n as real)[1..], "") == n as real
  {
    var m: nat := if n < 0 then -n else n;
    IntTextRoundTrip(m);
    if n < 0 {
      NegativeText(n);
    } else {
      NonNegativeText(n as real);
      MagnitudeOfNat(m);
    }
  }

  lemma NegativeText(n: int)
    requires n < 0
    ensures NumberText(n as real) == "-" + IntText(-n)
  {
    var m: nat := -n;
    assert -(n as real) == m as real;
    MagnitudeOfNat(m);
  }

  lemma MagnitudeOfNat(m: nat)
    ensures MagnitudeText(m as real) == IntText(m)
  {
    assert (m as real).Floor == m;
  }

  /** `String(v)`: strings are themselves, booleans their names, numbers their digits. */
  function ToString(v: Value): (t: string)
    ensures v.Str? ==> t == v.s
    ensures v.Bool? ==> (t == "true" <==> v.b) && (t == "false" <==> !v.b)
    ensures v.Num? ==> t == NumberText(v.n)
  {
    match v
    case Num(n) => NumberText(n)
    case Str(s) => s
    case Bool(b) => if b then "true" else "false"
  }

  /** `Number(v)` for the values whose conversion the model follows (not strings). */
  function ToNumber(v: Value): (r: real)
    requires !v.Str?
    ensures v.Num? ==> r == v.n
    ensures v.Bool? ==> r == if v.b then 1.0 else 0.0
  {
    match v
    case Num(n) => n
    case Bool(b) => if b then 1.0 else 0.0
  }

  /** JavaScript truthiness (`pred ? a : b`). */
  predicate Truthy(v: Value)
    // the falsy values among those modelled (NaN is not modelled)
    ensures Truthy(v) <==> v != Num(0.0) && v != Str("") && v != Bool(false)
  {
    match v
    case Num(n) => n != 0.0
    case Str(s) => s != ""
    case Bool(b) => b
  }

  /** JavaScript `a + b`: concatenation of the string forms when either side is a
      string, numeric addition otherwise. */
  function JsAdd(a: Value, b: Value): (r: Value)
    ensures a.Str? || b.Str? ==> r == Str(ToString(a) + ToString(b))
    ensures a.Num? && b.Num? ==> r == Num(a.n + b.n)
  {
    if a.Str? || b.Str? then Str(ToString(a) + ToString(b)) else Num(ToNumber(a) + ToNumber(b))
  }

  /** JavaScript `<` on strings: lexicographic order of the characters. */
  predicate StringLess(a: string, b: string)
  {
    if |a| == 0 then |b| > 0
    else if |b| == 0 then false
    else if a[0] != b[0] then a[0] < b[0]
    else StringLess(a[1..], b[1..])
  }

  /** `StringLess` is a strict order: irreflexive and asymmetric. */
  lemma {:induction false} StringLessStrict(a: string, b: string)
    ensures !StringLess(a, a)
    ensures StringLess(a, b) ==> !StringLess(b, a)
  {
    if |a| > 0 {
      StringLessStrict(a[1..], a[1..]);
      if |b| > 0 && a[0] == b[0] {
        StringLessStrict(a[1..], b[1..]);
      }
    }
  }

  /** `StringLess` is total: two different strings are ordered one way or the other. */
  lemma {:induction false} StringLessTotal(a: string, b: string)
    requires a != b
    ensures StringLess(a, b) || StringLess(b, a)
  {
    if |a| > 0 && |b| > 0 && a[0] == b[0] {
      assert a == [a[0]] + a[1..] && b == [b[0]] + b[1..];
      StringLessTotal(a[1..], b[1..]);
    }
  }

  /** Exactly one of `a < b`, `a == b` and `b < a` holds. */
  lemma StringTrichotomy(a: string, b: string)
    ensures a != b <==> StringLess(a, b) || StringLess(b, a)
    ensures !(StringLess(a, b) && StringLess(b, a))
  {
    StringLessStrict(a, b);
    if a != b {
      StringLessTotal(a, b);
    }
  }

  /** `StringLess` is transitive. */
  lemma {:induction false} StringLessTransitive(a: string, b: string, c: string)
    requires StringLess(a, b) && StringLess(b, c)
    ensures StringLess(a, c)
  {
    if |a| > 0 && a[0] == b[0] && b[0] == c[0] {
      StringLessTransitive(a[1..], b[1..], c[1..]);
    }
  }

  /** JavaScript `Array.prototype.join(sep)` on strings. */
  function JoinWith(parts: seq<string>, sep: string): (r: string)
    ensures |parts| == 0 ==> r == ""
    ensures |parts| == 1 ==> r == parts[0]
  {
    if |parts| == 0 then ""
    else if |parts| == 1 then parts[0]
    else parts[0] + sep + JoinWith(parts[1..], sep)
  }

  /** Joining keeps the parts in order, with the separator between neighbours. */
  lemma {:induction false} JoinWithConcat(a: seq<string>, b: seq<string>, sep: string)
    requires |a| > 0 && |b| > 0
    ensures JoinWith(a + b, sep) == JoinWith(a, sep) + sep + JoinWith(b, sep)
  {
    if |a| == 1 {
      assert (a + b)[1..] == b;
    } else {
      assert (a + b)[1..] == a[1..] + b;
      JoinWithConcat(a[1..], b, sep);
    }
  }

  function MapToString(vs: seq<Value>): (r: seq<string>)
    ensures |r| == |vs|
    ensures forall k :: 0 <= k < |vs| ==> r[k] == ToString(vs[k])
  {
    if |vs| == 0 then [] else [ToString(vs[0])] + MapToString(vs[1..])
  }
}
