/** Numbers printed with a suffix for their magnitude and read back, with numbers as
    exact reals. */
module HumanNumbers {
  import opened Reals
  import opened Numerals
  import opened Options

  /** A suffix and the divisor it stands for. */
  datatype Div = Div(s: string, d: real)

  type Table = seq<Div>

  // --------------------------------------------------------------- the tables

  ghost predicate Sorted(t: Table) {
    forall i, j :: 0 <= i < j < |t| ==> t[i].d <= t[j].d
  }

  /** Divisors are positive; suffixes are distinct single capitals. */
  ghost predicate Readable(t: Table) {
    && (forall i :: 0 <= i < |t| ==> t[i].d > 0.0 && |t[i].s| == 1 && 'A' <= t[i].s[0] <= 'Z')
    && forall i, j :: 0 <= i < j < |t| ==> t[i].s != t[j].s
  }

  /** The two tables shared by all numbers. */
  class HumanTables {
    var div2: Table
    var div10: Table

    /** The prefixes every program starts with. */
    constructor ()
      ensures div2 == BINARY && div10 == DECIMAL
    {
      div2, div10 := [], [];
      new;
      Prefixes(true);
      Prefixes(false);
      AddFour(true, BINARY);
      AddFour(false, DECIMAL);
      assert BINARY[..4] == BINARY && DECIMAL[..4] == DECIMAL;
    }

    /** Registers four prefixes, smallest first, in an empty table. */
    method AddFour(binary: bool, t: Table)
      requires |t| == 4 && Sorted(t) && t[0].d >= 0.0
      requires Sorted(div2) && Sorted(div10) && (if binary then div2 else div10) == []
      modifies this
      ensures if binary then div2 == t[..4] && div10 == old(div10) else div10 == t[..4] && div2 == old(div2)
    {
      assert t[..0] == [];
      AddNext(binary, t, 0);
      AddNext(binary, t, 1);
      AddNext(binary, t, 2);
      AddNext(binary, t, 3);
    }

    method AddNext(binary: bool, t: Table, i: nat)
      requires i < |t| && Sorted(t) && t[i].d >= 0.0
      requires Sorted(div2) && Sorted(div10) && (if binary then div2 else div10) == t[..i]
      modifies this
      ensures Sorted(div2) && Sorted(div10)
      ensures if binary then div2 == t[..i + 1] && div10 == old(div10) else div10 == t[..i + 1] && div2 == old(div2)
    {
      Grows(t, i);
      Add(binary, t[i].s, t[i].d);
    }

    /** Adds a suffix and keeps its table sorted by divisor. */
    method Add(binary: bool, suffix: string, divisor: real)
      requires Sorted(div2) && Sorted(div10)
      modifies this
      ensures Sorted(div2) && Sorted(div10)
      ensures binary ==> div2 == InsertSorted(old(div2), Div(suffix, Abs(divisor)))
      ensures !binary ==> div10 == InsertSorted(old(div10), Div(suffix, Abs(divisor)))
      ensures binary ==> div10 == old(div10)
      ensures !binary ==> div2 == old(div2)
    {
      var was, e := if binary then div2 else div10, Div(suffix, Abs(divisor));
      var divs := InsertSorted(was, e);
      InsertKeeps(was, e);
      if binary {
        div2 := divs;
      } else {
        div10 := divs;
      }
    }
  }

  /** A table with one more entry, which comes before the first with a greater divisor. */
  function InsertSorted(t: Table, e: Div): (r: Table)
    ensures |r| == |t| + 1 && (r[0] == e || (t != [] && r[0] == t[0]))
  {
    if t == [] || e.d < t[0].d then [e] + t else [t[0]] + InsertSorted(t[1..], e)
  }

  /** A sorted table stays sorted, and gains just the entry. */
  lemma {:induction false} InsertKeeps(t: Table, e: Div)
    requires Sorted(t)
    ensures Sorted(InsertSorted(t, e))
    ensures multiset(InsertSorted(t, e)) == multiset(t) + multiset{e}
  {
    if t == [] || e.d < t[0].d {
      SortedCons(e, t);
    } else {
      InsertKeeps(t[1..], e);
      SortedCons(t[0], InsertSorted(t[1..], e));
      assert t == [t[0]] + t[1..];
    }
  }

  lemma {:induction false} InsertLast(t: Table, e: Div)
    requires Sorted(t) && forall i :: 0 <= i < |t| ==> t[i].d <= e.d
    ensures InsertSorted(t, e) == t + [e]
  {
    if t == [] {
    } else {
      InsertLast(t[1..], e);
      assert t == [t[0]] + t[1..];
    }
  }

  lemma Grows(t: Table, n: nat)
    requires Sorted(t) && n < |t|
    ensures InsertSorted(t[..n], t[n]) == t[..n + 1]
  {
    InsertLast(t[..n], t[n]);
    assert t[..n] + [t[n]] == t[..n + 1];
  }

  lemma SortedCons(x: Div, t: Table)
    requires Sorted(t) && (t == [] || x.d <= t[0].d)
    ensures Sorted([x] + t)
  {
  }

  // ----------------------------------------------------------------- printing

  function Pow10(f: nat): (r: real)
    ensures r >= 1.0
  {
    if f == 0 then 1.0 else 10.0 * Pow10(f - 1)
  }

  const TOO_BIG: real := 1000000000000000000000.0

  /** The outcome of toFixed: it throws for a digit count out of range, from 10^21 on it
      leaves fixed notation, and after a division by 0 there is no number to print. */
  datatype Fixed = RangeError | Exponent | Text(text: string) | NotFinite

  /** The integer nearest to `x`, the larger of two. */
  function Nearest(x: real): (n: nat)
    requires x >= 0.0
    ensures -0.5 < n as real - x <= 0.5
  {
    (x + 0.5).Floor
  }

  /** `x` as a whole number of units in the last of `f` digits. */
  function Units(x: real, f: nat): nat
    requires x >= 0.0
  {
    TimesNonNeg(x, Pow10(f));
    Nearest(Times(x, Pow10(f)))
  }

  /** The digits of `n`, padded so that at least one stands before the point. */
  function Padded(n: nat, f: nat): (z: string)
    ensures |z| > f && IsNumeral(z) && Value(z) == n
  {
    var m := NatText(n);
    NatTextValue(n);
    if |m| <= f then
      PaddedValue(f + 1 - |m|, m);
      Zeros(f + 1 - |m|) + m
    else m
  }

  /** Puts the point before the last `f` digits. */
  function WithPoint(z: string, f: nat): string
    requires f < |z|
  {
    z[..|z| - f] + "." + z[|z| - f..]
  }

  /** `n` in fixed notation with `f` digits after the point. */
  function PointText(n: nat, f: nat): string {
    if f == 0 then NatText(n) else WithPoint(Padded(n, f), f)
  }

  function WithSign(negative: bool, u: string): string {
    if negative then "-" + u else u
  }

  /** toFixed, section 15.7.4.5 of ECMA-262 edition 5.1. */
  function ToFixed(x: real, digits: int): Fixed {
    if digits < 0 || digits > 20 then RangeError
    else if Abs(x) >= TOO_BIG then Exponent
    else
      Text(WithSign(x < 0.0, PointText(Units(Abs(x), digits), digits)))
  }

  /** The last of the first `n` entries whose divisor is not above `a`, by index. */
  function Choose(t: Table, n: nat, a: real): (c: Option<nat>)
    requires n <= |t|
    ensures c.Some? ==> c.value < n && a >= t[c.value].d
    ensures forall i :: 0 <= i < n && (c.Some? ==> i > c.value) ==> a < t[i].d
  {
    if n == 0 then None else if a >= t[n - 1].d then Some(n - 1) else Choose(t, n - 1, a)
  }

  function DivisorOf(t: Table, x: real): real {
    match Choose(t, |t|, Abs(x)) case None => 1.0 case Some(i) => t[i].d
  }

  function SuffixOf(t: Table, x: real): string {
    match Choose(t, |t|, Abs(x)) case None => "" case Some(i) => t[i].s
  }

  function HumanText(x: real, digits: int, t: Table): Fixed {
    Printed(x, digits, DivisorOf(t, x), SuffixOf(t, x))
  }

  /** The number over the divisor in fixed notation, and the suffix. */
  function Printed(x: real, digits: int, d: real, s: string): Fixed {
    if d == 0.0 then ToFixedOver0(digits) else Suffixed(ToFixed(Over(x, d), digits), s)
  }

  function Suffixed(fixed: Fixed, s: string): Fixed {
    if fixed.Text? then Text(fixed.text + s) else fixed
  }

  /** toFixed of an infinity or of NaN. */
  function ToFixedOver0(digits: int): Fixed {
    if digits < 0 || digits > 20 then RangeError else NotFinite
  }

  function Scaled(t: Table, x: real): real
    requires DivisorOf(t, x) != 0.0
  {
    Over(x, DivisorOf(t, x))
  }

  /** Chooses the divisor and prints. */
  method Human(x: real, digits: int, divs: Table) returns (r: Fixed)
    ensures r == HumanText(x, digits, divs)
  {
    var n, d, s := Abs(x), 1.0, "";
    var i := |divs|;
    while i > 0
      invariant 0 <= i <= |divs|
      invariant d == 1.0 && s == ""
      invariant Choose(divs, |divs|, n) == Choose(divs, i, n)
    {
      i := i - 1;
      if n >= divs[i].d {
        d, s := divs[i].d, divs[i].s;
        break;
      }
    }
    assert d == DivisorOf(divs, x) && s == SuffixOf(divs, x);
    if d == 0.0 {
      return ToFixedOver0(digits);
    }
    var fixed := ToFixed(Over(x, d), digits);
    r := if fixed.Text? then Text(fixed.text + s) else fixed;
  }

  // ------------------------------------------------------------------ reading

  /** A decimal numeral: its digits as one number, and how many follow the point. */
  datatype Fraction = Fraction(digits: nat, scale: nat)

  function ValueOf(q: Fraction): real { Over(q.digits as real, Pow10(q.scale)) }

  /** The value of `[-+]?\d+\.?\d*`, None when the text has another form. */
  function Decimal(s: string): Option<real> {
    var signed := At(s, 0, '-') || At(s, 0, '+');
    var u := Unsigned(if signed then s[1..] else s);
    if u.None? then None else Some(Negated(At(s, 0, '-'), ValueOf(u.value)))
  }

  function Negated(negative: bool, x: real): real { if negative then -x else x }

  function Unsigned(u: string): Option<Fraction> {
    var k := SkipDigits(u, 0);
    if k == 0 then None
    else if k == |u| then Some(Fraction(Value(u), 0))
    else if u[k] == '.' && SkipDigits(u, k + 1) == |u| then
      var frac := u[k + 1..];
      Some(Fraction(Value(u[..k] + frac), |frac|))
    else None
  }

  predicate IsCapital(c: char) { 'A' <= c <= 'Z' }

  function Lookup(t: Table, s: string): Option<real> {
    if t == [] then None else if t[0].s == s then Some(t[0].d) else Lookup(t[1..], s)
  }

  /** None is NaN. */
  function FromHuman(v: string, t: Table): Option<real> {
    if v != "" && IsCapital(v[|v| - 1]) then
      match Decimal(v[..|v| - 1])
      case None => None
      case Some(x) =>
        match Lookup(t, v[|v| - 1..])
        case None => None
        case Some(d) => Some(Times(x, d))
    else Decimal(v)
  }

  method ReadHuman(v: string, divs: Table) returns (r: Option<real>)
    ensures r == FromHuman(v, divs)
  {
    var capital := v != "" && IsCapital(v[|v| - 1]);
    var m := Decimal(if capital then v[..|v| - 1] else v);
    if m.None? {
      return None;
    }
    if !capital {
      return m;
    }
    for i := 0 to |divs|
      invariant Lookup(divs, v[|v| - 1..]) == Lookup(divs[i..], v[|v| - 1..])
    {
      assert divs[i..][0] == divs[i] && divs[i..][1..] == divs[i + 1..];
      if divs[i].s == v[|v| - 1..] {
        return Some(Times(m.value, divs[i].d));
      }
    }
    return None;
  }

  // --------------------------------------------------------------- round trip

  /** A digit string is skipped whole. */
  lemma {:induction false} FracSkips(u: string, i: nat)
    requires i <= |u| && IsNumeral(u[i..])
    ensures SkipDigits(u, i) == |u|
    decreases |u| - i
  {
    if i >= |u| {
    } else {
      assert IsDigit(u[i..][0]);
      assert u[i + 1..] == u[i..][1..];
      FracSkips(u, i + 1);
    }
  }

  /** A numeral with a point in it denotes the numeral without, shifted. */
  lemma PointReads(whole: string, frac: string)
    requires IsNumeral(whole) && IsNumeral(frac) && whole != ""
    ensures Unsigned(whole + "." + frac) == Some(Fraction(Value(whole + frac), |frac|))
  {
    var u := whole + "." + frac;
    var k := |whole|;
    SkipNumeral(whole, "." + frac, 0);
    assert whole + ("." + frac) == u;
    assert u[..k] == whole && u[k + 1..] == frac && u[k] == '.';
    FracSkips(u, k + 1);
  }

  /** `u` is an unsigned numeral, digits at both ends, for exactly `q`. */
  predicate Denotes(u: string, q: Fraction) {
    u != "" && IsDigit(u[0]) && IsDigit(u[|u| - 1]) && Unsigned(u) == Some(q)
  }

  lemma WholeReads(m: string)
    requires IsNumeral(m) && m != ""
    ensures Denotes(m, Fraction(Value(m), 0))
  {
    SkipNumeral(m, "", 0);
    assert m + "" == m;
  }

  lemma SplitReads(z: string, f: nat)
    requires IsNumeral(z) && 0 < f < |z|
    ensures Denotes(WithPoint(z, f), Fraction(Value(z), f))
  {
    var k := |z| - f;
    assert z[..k] + z[k..] == z;
    PointReads(z[..k], z[k..]);
  }

  lemma WholeTextReads(n: nat)
    ensures Denotes(PointText(n, 0), Fraction(n, 0))
  {
    NatTextValue(n);
    WholeReads(NatText(n));
  }

  lemma PointedTextReads(n: nat, f: nat)
    requires f > 0
    ensures Denotes(PointText(n, f), Fraction(n, f))
  {
    SplitReads(Padded(n, f), f);
  }

  /** A printed fixed-point text denotes exactly the integer it was made from,
      shifted by the digits after the point. */
  lemma PointTextReads(n: nat, f: nat)
    ensures Denotes(PointText(n, f), Fraction(n, f))
  {
    if f == 0 {
      WholeTextReads(n);
    } else {
      PointedTextReads(n, f);
    }
  }

  /** A sign in front only changes the sign of what is read. */
  lemma SignReads(u: string, q: Fraction, negative: bool)
    requires Denotes(u, q)
    ensures Decimal(WithSign(negative, u)) == Some(Negated(negative, ValueOf(q)))
    ensures EndsInDigit(WithSign(negative, u))
  {
    if negative {
      assert ("-" + u)[0] == '-' && ("-" + u)[1..] == u;
    }
  }

  /** The parts of a decimal numeral: a sign, digits, a point, and digits after it. */
  predicate DecimalParts(s: string, sign: string, whole: string, point: string, frac: string) {
    && (sign == "" || sign == "+" || sign == "-")
    && whole != "" && IsNumeral(whole)
    && (point == "" || point == ".") && IsNumeral(frac) && (point == "" ==> frac == "")
    && s == sign + whole + point + frac
  }

  lemma UnsignedForms(whole: string, point: string, frac: string)
    requires whole != "" && IsNumeral(whole)
    requires (point == "" || point == ".") && IsNumeral(frac) && (point == "" ==> frac == "")
    ensures Unsigned(whole + point + frac) == Some(Fraction(Value(whole + frac), |frac|))
  {
    if point == "" {
      assert whole + point + frac == whole && whole + frac == whole;
      WholeReads(whole);
    } else {
      PointReads(whole, frac);
    }
  }

  lemma UnsignedParts(u: string) returns (whole: string, point: string, frac: string)
    requires Unsigned(u).Some?
    ensures DecimalParts(u, "", whole, point, frac)
  {
    var k := SkipDigits(u, 0);
    whole, point, frac := u[..k], u[k..], "";
    if k < |u| {
      point, frac := ".", u[k + 1..];
    }
    assert u == "" + whole + point + frac;
  }

  lemma Signed(sign: string, u: string)
    requires sign == "" || sign == "+" || sign == "-"
    requires u != "" && IsDigit(u[0])
    ensures Decimal(sign + u) ==
      if Unsigned(u).None? then None else Some(if sign == "-" then -ValueOf(Unsigned(u).value) else ValueOf(Unsigned(u).value))
  {
    var s := sign + u;
    if sign == "" {
      assert s == u;
    } else {
      assert s[0] == sign[0] && s[1..] == u;
    }
  }

  /** A sign in front, plus or minus, is read for what it says, wherever the point is. */
  lemma DecimalValue(s: string, sign: string, whole: string, point: string, frac: string)
    requires DecimalParts(s, sign, whole, point, frac)
    ensures var v := Over(Value(whole + frac) as real, Pow10(|frac|));
      Decimal(s) == Some(if sign == "-" then -v else v)
  {
    var u := whole + point + frac;
    UnsignedForms(whole, point, frac);
    assert u[0] == whole[0];
    Signed(sign, u);
    SignFirst(sign, whole, point, frac);
  }

  lemma SignFirst(sign: string, whole: string, point: string, frac: string)
    ensures sign + whole + point + frac == sign + (whole + point + frac)
  {
  }

  lemma SignSplits(s: string) returns (sign: string, u: string)
    requires Decimal(s).Some?
    ensures (sign == "" || sign == "+" || sign == "-") && s == sign + u && Unsigned(u).Some?
  {
    sign, u := "", s;
    if At(s, 0, '-') {
      sign, u := "-", s[1..];
    } else if At(s, 0, '+') {
      sign, u := "+", s[1..];
    }
  }

  lemma DecimalSplits(s: string) returns (sign: string, whole: string, point: string, frac: string)
    requires Decimal(s).Some?
    ensures DecimalParts(s, sign, whole, point, frac)
  {
    var u;
    sign, u := SignSplits(s);
    whole, point, frac := UnsignedParts(u);
    SignFirst(sign, whole, point, frac);
    assert u == whole + point + frac by { SignFirst("", whole, point, frac); }
  }

  /** And no other texts are read. */
  lemma DecimalTexts(s: string)
    ensures Decimal(s).Some? <==>
      exists sign, whole, point, frac :: DecimalParts(s, sign, whole, point, frac)
  {
    if Decimal(s).Some? {
      var sign, whole, point, frac := DecimalSplits(s);
    }
    if sign, whole, point, frac :| DecimalParts(s, sign, whole, point, frac) {
      DecimalValue(s, sign, whole, point, frac);
    }
  }

  /** Half a unit in the last of `f` digits. */
  function HalfUnit(f: nat): real { Over(0.5, Pow10(f)) }

  lemma UnitsClose(x: real, f: nat)
    requires x >= 0.0
    ensures Abs(ValueOf(Fraction(Units(x, f), f)) - x) <= HalfUnit(f)
  {
    var q, n := Pow10(f), Units(x, f) as real;
    OverTimes(n, q);
    OverTimes(0.5, q);
    TimesNonNeg(x, q);
    Scales(Over(n, q), x, HalfUnit(f), q);
  }

  /** `text` reads as a number no further than `e` from `x`. */
  predicate ReadsNear(text: string, x: real, e: real) {
    Decimal(text).Some? && Abs(Decimal(text).value - x) <= e
  }

  predicate EndsInDigit(text: string) { text != "" && IsDigit(text[|text| - 1]) }

  /** A fixed-notation text reads back within half a unit in its last digit. */
  lemma FixedReads(x: real, digits: nat)
    requires digits <= 20 && Abs(x) < TOO_BIG
    ensures ToFixed(x, digits).Text?
    ensures ReadsNear(ToFixed(x, digits).text, x, HalfUnit(digits))
    ensures EndsInDigit(ToFixed(x, digits).text)
  {
    SignedReads(x, digits);
  }

  /** The digits printed are those of the nearest integer to the number, times ten for each
      digit after the point; of the larger one, if two are as near. */
  lemma NearestPrinted(x: real, digits: nat)
    requires digits <= 20 && 0.0 <= x < 1000000000000000000000.0
    ensures ToFixed(x, digits).Text?
    ensures var q := Unsigned(ToFixed(x, digits).text);
      && q.Some? && q.value.scale == digits
      && -0.5 < q.value.digits as real - Times(x, Pow10(digits)) <= 0.5
  {
    PointTextReads(Units(x, digits), digits);
  }

  /** As 2560, which is 2.5K and printed as 3K. */
  lemma TieUp()
    ensures HumanText(2560.0, 0, BINARY) == Text("3K")
  {
    assert Choose(BINARY, 1, 2560.0) == Some(0);
    assert Choose(BINARY, 2, 2560.0) == Some(0);
    assert Choose(BINARY, 3, 2560.0) == Some(0);
    assert Choose(BINARY, 4, 2560.0) == Some(0);
    assert Over(2560.0, 1024.0) == 2.5;
    assert Times(2.5, 1.0) == 2.5 && Nearest(2.5) == 3;
    assert Units(2.5, 0) == 3;
    assert ToFixed(2.5, 0) == Text("3");
  }

  /** No other digit counts than 0 to 20 are taken. */
  lemma DigitsTaken(x: real, digits: int, t: Table)
    ensures HumanText(x, digits, t).RangeError? <==> digits < 0 || digits > 20
  {
  }

  lemma NegatedClose(v: real, x: real, e: real)
    requires Abs(v - Abs(x)) <= e
    ensures Abs(Negated(x < 0.0, v) - x) <= e
  {
  }

  lemma SignedReads(x: real, f: nat)
    ensures ReadsNear(WithSign(x < 0.0, PointText(Units(Abs(x), f), f)), x, HalfUnit(f))
    ensures EndsInDigit(WithSign(x < 0.0, PointText(Units(Abs(x), f), f)))
  {
    var q := Fraction(Units(Abs(x), f), f);
    PointTextReads(q.digits, f);
    UnitsClose(Abs(x), f);
    SignReads(PointText(q.digits, f), q, x < 0.0);
    NegatedClose(ValueOf(q), x, HalfUnit(f));
  }

  lemma {:induction false} LookupFinds(t: Table, i: nat)
    requires i < |t| && forall j, k :: 0 <= j < k < |t| ==> t[j].s != t[k].s
    ensures Lookup(t, t[i].s) == Some(t[i].d)
    decreases |t|
  {
    if i == 0 {
    } else {
      assert t[0].s != t[i].s;
      LookupFinds(t[1..], i - 1);
    }
  }

  lemma SuffixedReads(text: string, s: string, t: Table)
    requires text != "" && |s| == 1 && IsCapital(s[0])
    requires Decimal(text).Some? && Lookup(t, s).Some?
    ensures FromHuman(text + s, t) == Some(Times(Decimal(text).value, Lookup(t, s).value))
  {
    var v := text + s;
    assert v[..|v| - 1] == text && v[|v| - 1..] == s && v[|v| - 1] == s[0];
  }

  lemma PlainReads(text: string, t: Table)
    requires text != "" && IsDigit(text[|text| - 1])
    ensures FromHuman(text + "", t) == Decimal(text)
  {
    assert text + "" == text;
  }

  /** `x` survives printing and reading within `e`. */
  predicate Survives(x: real, digits: int, t: Table, e: real) {
    var h := HumanText(x, digits, t);
    && h.Text?
    && var r := FromHuman(h.text, t);
       r.Some? && Abs(r.value - x) <= e
  }

  lemma SurvivesBy(x: real, digits: int, t: Table, e: real, text: string, v: real)
    requires HumanText(x, digits, t) == Text(text) && FromHuman(text, t) == Some(v) && Abs(v - x) <= e
    ensures Survives(x, digits, t, e)
  {
  }

  lemma PlainSurvives(x: real, digits: nat, t: Table)
    requires digits <= 20 && DivisorOf(t, x) == 1.0 && SuffixOf(t, x) == "" && Abs(x) < TOO_BIG
    ensures Survives(x, digits, t, HalfUnit(digits))
  {
    One(x);
    FixedReads(x, digits);
    var text := ToFixed(x, digits).text;
    PlainReads(text, t);
    SurvivesBy(x, digits, t, HalfUnit(digits), text + "", Decimal(text).value);
  }

  lemma SuffixedReal(text: string, x: real, digits: nat, t: Table, i: nat)
    requires Readable(t) && i < |t| && ReadsNear(text, Over(x, t[i].d), HalfUnit(digits)) && text != ""
    ensures FromHuman(text + t[i].s, t) == Some(Times(Decimal(text).value, t[i].d))
    ensures Abs(Times(Decimal(text).value, t[i].d) - x) <= Times(HalfUnit(digits), t[i].d)
  {
    LookupFinds(t, i);
    SuffixedReads(text, t[i].s, t);
    OverTimes(x, t[i].d);
    Scales(Decimal(text).value, Over(x, t[i].d), HalfUnit(digits), t[i].d);
  }

  lemma SuffixedSurvives(x: real, digits: nat, t: Table, i: nat)
    requires Readable(t) && digits <= 20 && i < |t|
    requires DivisorOf(t, x) == t[i].d && SuffixOf(t, x) == t[i].s
    requires Abs(Over(x, t[i].d)) < TOO_BIG
    ensures Survives(x, digits, t, Times(HalfUnit(digits), t[i].d))
  {
    FixedReads(Over(x, t[i].d), digits);
    var text := ToFixed(Over(x, t[i].d), digits).text;
    SuffixedReal(text, x, digits, t, i);
    SurvivesBy(x, digits, t, Times(HalfUnit(digits), t[i].d), text + t[i].s, Times(Decimal(text).value, t[i].d));
  }

  /** Printing and reading back loses at most half a unit in the last printed digit,
      times the divisor chosen. */
  lemma HumanRoundTrip(x: real, digits: nat, t: Table)
    requires Readable(t) && digits <= 20 && Abs(Scaled(t, x)) < TOO_BIG
    ensures Survives(x, digits, t, Times(HalfUnit(digits), DivisorOf(t, x)))
  {
    var c := Choose(t, |t|, Abs(x));
    if c.None? {
      One(x);
      One(HalfUnit(digits));
      PlainSurvives(x, digits, t);
    } else {
      SuffixedSurvives(x, digits, t, c.value);
    }
  }

  /** In a sorted table the chosen divisor is the largest one not above |x|; none is
      chosen exactly when all are above. */
  lemma LargestChosen(t: Table, x: real)
    requires Sorted(t)
    ensures var c := Choose(t, |t|, Abs(x));
      && (c.None? <==> forall i :: 0 <= i < |t| ==> t[i].d > Abs(x))
      && (c.Some? ==> t[c.value].d <= Abs(x))
      && (c.Some? ==> forall i :: 0 <= i < |t| && t[i].d <= Abs(x) ==> t[i].d <= t[c.value].d)
  {
  }

  /** A divisor of 0 spoils just the numbers below every positive divisor: in a sorted
      table with no negative ones these have no text, and all others have one or leave
      fixed notation. */
  lemma ZeroDivisor(x: real, digits: nat, t: Table)
    requires Sorted(t) && digits <= 20 && forall i :: 0 <= i < |t| ==> t[i].d >= 0.0
    ensures HumanText(x, digits, t).NotFinite? <==>
      && (exists i :: 0 <= i < |t| && t[i].d == 0.0)
      && (forall i :: 0 <= i < |t| && t[i].d > 0.0 ==> t[i].d > Abs(x))
  {
    LargestChosen(t, x);
    ZeroChosen(t, x);
  }

  /** As the number 1 in a table of nothing but 0. */
  lemma ZeroAdded()
    ensures HumanText(1.0, 0, [Div("Z", 0.0)]) == NotFinite
  {
  }

  lemma ZeroChosen(t: Table, x: real)
    requires Sorted(t) && forall i :: 0 <= i < |t| ==> t[i].d >= 0.0
    ensures DivisorOf(t, x) == 0.0 <==>
      && (exists i :: 0 <= i < |t| && t[i].d == 0.0)
      && (forall i :: 0 <= i < |t| && t[i].d > 0.0 ==> t[i].d > Abs(x))
  {
    var c := Choose(t, |t|, Abs(x));
    if c.Some? && t[c.value].d > 0.0 {
      assert t[c.value].d <= Abs(x);
    }
  }

  // ------------------------------------------------------------ the two tables

  const BINARY: Table := [
    Div("K", 1024.0), Div("M", 1048576.0), Div("G", 1073741824.0), Div("T", 1099511627776.0)]

  const DECIMAL: Table := [
    Div("K", 1000.0), Div("M", 1000000.0), Div("G", 1000000000.0), Div("T", 1000000000000.0)]

  /** Both tables of prefixes meet what the round trip asks of a table. */
  lemma Prefixes(binary: bool)
    ensures var t := if binary then BINARY else DECIMAL; Sorted(t) && Readable(t) && Dense(t)
  {
    if binary {
      FourPrefixes(BINARY, 1024.0);
    } else {
      FourPrefixes(DECIMAL, 1000.0);
    }
  }

  lemma FourPrefixes(t: Table, k: real)
    requires |t| == 4 && t[0].s == "K" && t[1].s == "M" && t[2].s == "G" && t[3].s == "T"
    requires 1.0 < t[0].d < t[1].d < t[2].d < t[3].d && t[0].d == k <= TOO_BIG
    requires t[1].d == Times(k, t[0].d) && t[2].d == Times(k, t[1].d) && t[3].d == Times(k, t[2].d)
    ensures Sorted(t) && Readable(t) && Dense(t)
  {
    Below(k, TOO_BIG, t[0].d);
    Below(k, TOO_BIG, t[1].d);
    Below(k, TOO_BIG, t[2].d);
    assert t[0].s[0] == 'K' && t[1].s[0] == 'M' && t[2].s[0] == 'G' && t[3].s[0] == 'T';
  }

  /** No gap between neighbouring divisors, or below the first, is wider than 10^21. */
  ghost predicate Dense(t: Table) {
    && t != []
    && t[0].d <= TOO_BIG
    && forall i :: 0 < i < |t| ==> t[i].d <= Times(TOO_BIG, t[i - 1].d)
  }

  lemma QuotientBelow(x: real, d: real)
    requires d > 0.0
    ensures Abs(Over(x, d)) < TOO_BIG <==> Abs(x) < Times(TOO_BIG, d)
  {
    OverTimes(x, d);
    AbsTimes(Over(x, d), d);
    Below(TOO_BIG, Abs(Over(x, d)), d);
  }

  /** Fixed notation is left exactly from 10^21 times the top divisor on. */
  lemma BelowTop(x: real, t: Table)
    requires Sorted(t) && Readable(t) && Dense(t)
    ensures Abs(Scaled(t, x)) < TOO_BIG <==> Abs(x) < Times(TOO_BIG, t[|t| - 1].d)
  {
    var top := t[|t| - 1].d;
    var c := Choose(t, |t|, Abs(x));
    QuotientBelow(x, DivisorOf(t, x));
    One(Abs(x));
    One(TOO_BIG);
    if c.None? {
      Below(1.0, TOO_BIG, top);
      One(top);
    } else if c.value < |t| - 1 {
      assert Abs(x) < t[c.value + 1].d;
      Below(1.0, TOO_BIG, top);
      One(top);
    }
  }

  /** Every number below 10^21 times the top divisor survives the trip; from there on
      none is printed in fixed notation. */
  lemma BelowTopReads(x: real, digits: nat, t: Table)
    requires Sorted(t) && Readable(t) && Dense(t) && digits <= 20
    ensures (if Abs(x) < Times(TOO_BIG, t[|t| - 1].d)
             then Survives(x, digits, t, Times(HalfUnit(digits), DivisorOf(t, x)))
             else HumanText(x, digits, t).Exponent?)
  {
    BelowTop(x, t);
    if Abs(x) < Times(TOO_BIG, t[|t| - 1].d) {
      HumanRoundTrip(x, digits, t);
    }
  }
}
