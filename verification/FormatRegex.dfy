/** The regular expression that finds conversion specifications in a format,
      %%|%(?:(\d+)[\$#])?([+-])?('.|0| )?(\d*)(?:\.(\d+))?([bcdfosuxXhH])
    read twice: with the backtracking of ECMA-262 (section 15.10.2), as the list of
    all ways to match in order of preference, and as a left-to-right scan without
    backtracking. Both find the same match. */
module FormatRegex {
  import opened Texts
  import opened Numerals
  import opened Options

  /** A match of the second alternative. A group that took no part reads as "". */
  datatype Spec = Spec(len: nat, idx: string, sign: string, pad: string, width: string, prec: string, kind: char)

  predicate IsKind(c: char) {
    c == 'b' || c == 'c' || c == 'd' || c == 'f' || c == 'o' || c == 's' || c == 'u' || c == 'x' || c == 'X'
    || c == 'h' || c == 'H'
  }
  // ------------------------------------------------------------- backtracking

  /** The final group. */
  function Kinds(s: string, i: nat, p: Spec): seq<Spec> {
    if i < |s| && IsKind(s[i]) then [p.(len := i + 1, kind := s[i])] else []
  }

  /** `\d+` after the point, longest first, each way continued to the end. */
  function PrecDigits(s: string, from: nat, k: nat, p: Spec): seq<Spec>
    requires from <= k <= |s|
    decreases k
  {
    if k == from then []
    else Kinds(s, k, p.(prec := s[from..k])) + PrecDigits(s, from, k - 1, p)
  }

  /** The optional precision: first taken, then left out. */
  function Precs(s: string, i: nat, p: Spec): seq<Spec> {
    (if At(s, i, '.') then PrecDigits(s, i + 1, SkipDigits(s, i + 1), p) else []) + Kinds(s, i, p)
  }

  /** The width `\d*`, longest first. */
  function WidthDigits(s: string, from: nat, k: nat, p: Spec): seq<Spec>
    requires from <= k <= |s|
    decreases k
  {
    Precs(s, k, p.(width := s[from..k])) + if k == from then [] else WidthDigits(s, from, k - 1, p)
  }

  function Widths(s: string, i: nat, p: Spec): seq<Spec>
    requires i <= |s|
  {
    WidthDigits(s, i, SkipDigits(s, i), p)
  }

  /** The optional padding: a quoted character, `0`, a blank, or left out. */
  function Pads(s: string, i: nat, p: Spec): seq<Spec>
    requires i <= |s|
  {
    QuotedPads(s, i, p) + PlainPads(s, i, p) + Widths(s, i, p)
  }

  function QuotedPads(s: string, i: nat, p: Spec): seq<Spec> {
    if At(s, i, '\'') && i + 1 < |s| && !IsBreak(s[i + 1]) then Widths(s, i + 2, p.(pad := s[i..i + 2])) else []
  }

  function PlainPads(s: string, i: nat, p: Spec): seq<Spec> {
    if At(s, i, '0') || At(s, i, ' ') then Widths(s, i + 1, p.(pad := s[i..i + 1])) else []
  }

  function Signs(s: string, i: nat, p: Spec): seq<Spec>
    requires i <= |s|
  {
    (if At(s, i, '+') || At(s, i, '-') then Pads(s, i + 1, p.(sign := s[i..i + 1])) else []) + Pads(s, i, p)
  }

  predicate MarkAt(s: string, i: nat) { At(s, i, '$') || At(s, i, '#') }

  /** The index `\d+` with its mark, longest first. */
  function IdxDigits(s: string, from: nat, k: nat, p: Spec): seq<Spec>
    requires from <= k <= |s|
    decreases k
  {
    if k == from then []
    else (if MarkAt(s, k) then Signs(s, k + 1, p.(idx := s[from..k])) else []) + IdxDigits(s, from, k - 1, p)
  }

  const BLANK := Spec(0, "", "", "", "", "", 'x')

  /** All ways to match the second alternative at the start of `s`, best first. */
  function Matches(s: string): seq<Spec> {
    if !At(s, 0, '%') then []
    else IdxDigits(s, 1, SkipDigits(s, 1), BLANK) + Signs(s, 1, BLANK)
  }

  // ------------------------------------------------------------------ scanning

  function IdxEnd(s: string): (k: nat)
    requires At(s, 0, '%')
    ensures 1 <= k <= |s|
    ensures forall j :: 1 <= j < k ==> IsDigit(s[j]) || s[j] == '$' || s[j] == '#'
  {
    var k := SkipDigits(s, 1);
    if k > 1 && MarkAt(s, k) then k + 1 else 1
  }

  function SignEnd(s: string, i: nat): (k: nat)
    requires i <= |s|
    ensures i <= k <= |s|
    ensures k == i || (k == i + 1 && (s[i] == '+' || s[i] == '-'))
  {
    if At(s, i, '+') || At(s, i, '-') then i + 1 else i
  }

  function PadEnd(s: string, i: nat): (k: nat)
    requires i <= |s|
    ensures i <= k <= |s|
    ensures k == i || (k == i + 1 && (s[i] == '0' || s[i] == ' ')) || (k == i + 2 && s[i] == '\'')
  {
    if At(s, i, '\'') && i + 1 < |s| && !IsBreak(s[i + 1]) then i + 2
    else if At(s, i, '0') || At(s, i, ' ') then i + 1
    else i
  }

  function PrecEnd(s: string, i: nat): (k: nat)
    requires i <= |s|
    ensures i <= k <= |s|
    ensures forall j :: i <= j < k ==> IsDigit(s[j]) || s[j] == '.'
  {
    if At(s, i, '.') then
      var k := SkipDigits(s, i + 1);
      if k > i + 1 then k else i
    else i
  }

  function PadStart(s: string): (b: nat)
    requires At(s, 0, '%')
    ensures 1 <= b <= |s|
  {
    SignEnd(s, IdxEnd(s))
  }

  /** The rest of a match once index, sign and padding are known: width, precision
      and kind, from position `i`. */
  function Complete(s: string, i: nat, p: Spec): Option<Spec>
    requires i <= |s|
  {
    var d := SkipDigits(s, i);
    var e := PrecEnd(s, d);
    if e < |s| && IsKind(s[e])
    then Some(p.(width := s[i..d], prec := if e > d then s[d + 1..e] else p.prec, len := e + 1, kind := s[e]))
    else None
  }

  function Head(s: string, a: nat, b: nat, c: nat): Spec
    requires 1 <= a <= b <= c <= |s|
  {
    BLANK.(idx := if a > 1 then s[1..a - 1] else "", sign := s[a..b], pad := s[b..c])
  }

  /** The match found without backtracking. */
  function Scan(s: string): Option<Spec> {
    if !At(s, 0, '%') then None
    else
      var a := IdxEnd(s);
      var b := SignEnd(s, a);
      var c := PadEnd(s, b);
      Complete(s, c, Head(s, a, b, c))
  }

  function First<T>(xs: seq<T>): Option<T> {
    if xs == [] then None else Some(xs[0])
  }

  // ---------------------------------------------------------------- agreement

  lemma {:induction false} PrecDigitsLongest(s: string, from: nat, k: nat, p: Spec)
    requires from <= k <= |s| && forall j :: from <= j < k ==> IsDigit(s[j])
    ensures PrecDigits(s, from, k, p) == if k == from then [] else Kinds(s, k, p.(prec := s[from..k]))
    decreases k
  {
    if k == from {
    } else {
      PrecDigitsLongest(s, from, k - 1, p);
    }
  }

  lemma PrecsScan(s: string, i: nat, p: Spec)
    requires i <= |s|
    ensures Precs(s, i, p) ==
      Kinds(s, PrecEnd(s, i), p.(prec := if PrecEnd(s, i) > i then s[i + 1..PrecEnd(s, i)] else p.prec))
    ensures DigitAt(s, i) ==> Precs(s, i, p) == []
  {
    if At(s, i, '.') {
      PrecDigitsLongest(s, i + 1, SkipDigits(s, i + 1), p);
    }
  }

  lemma {:induction false} WidthDigitsLongest(s: string, from: nat, k: nat, p: Spec)
    requires from <= k <= |s| && forall j :: from <= j < k ==> IsDigit(s[j])
    ensures WidthDigits(s, from, k, p) == Precs(s, k, p.(width := s[from..k]))
    decreases k
  {
    if k == from {
    } else {
      WidthDigitsLongest(s, from, k - 1, p);
      PrecsScan(s, k - 1, p.(width := s[from..k - 1]));
    }
  }

  /** From the width on there is at most one way to match. */
  function Tail(s: string, i: nat, p: Spec): seq<Spec>
    requires i <= |s|
  {
    var d := SkipDigits(s, i);
    var e := PrecEnd(s, d);
    Kinds(s, e, p.(width := s[i..d], prec := if e > d then s[d + 1..e] else p.prec))
  }

  lemma WidthsScan(s: string, i: nat, p: Spec)
    requires i <= |s|
    ensures Widths(s, i, p) == Tail(s, i, p)
  {
    var d := SkipDigits(s, i);
    WidthDigitsLongest(s, i, d, p);
    PrecsScan(s, d, p.(width := s[i..d]));
  }

  /** A character that can only be consumed by an earlier group blocks the tail. */
  lemma TailBlocked(s: string, i: nat, p: Spec)
    requires i < |s| && !IsDigit(s[i]) && s[i] != '.' && !IsKind(s[i])
    ensures Tail(s, i, p) == []
  {
  }

  /** A leading zero is padding if it can be, and changes nothing else. */
  lemma ZeroTails(s: string, i: nat, p: Spec, q: Spec)
    requires At(s, i, '0')
    ensures Tail(s, i, p) == [] <==> Tail(s, i + 1, q) == []
  {
    assert SkipDigits(s, i) == SkipDigits(s, i + 1);
  }

  lemma FirstOfTwo<T>(a: seq<T>, b: seq<T>)
    requires a == [] ==> b == []
    ensures First(a + b) == First(a)
  {
  }

  lemma PadsTaken(s: string, i: nat, p: Spec, c: nat)
    requires i < c <= |s| && c == PadEnd(s, i) && p.pad == ""
    ensures Pads(s, i, p) == Widths(s, c, p.(pad := s[i..c])) + Widths(s, i, p)
  {
    var taken := Widths(s, c, p.(pad := s[i..c]));
    if At(s, i, '\'') {
      assert QuotedPads(s, i, p) == taken && PlainPads(s, i, p) == [];
      assert taken + [] == taken;
    } else {
      assert QuotedPads(s, i, p) == [] && PlainPads(s, i, p) == taken;
      assert [] + taken == taken;
    }
  }

  lemma PadsScan(s: string, i: nat, p: Spec)
    requires i <= |s| && p.pad == ""
    ensures First(Pads(s, i, p)) == First(Tail(s, PadEnd(s, i), p.(pad := s[i..PadEnd(s, i)])))
  {
    var c := PadEnd(s, i);
    var q := p.(pad := s[i..c]);
    if c == i {
      assert q == p;
      assert Pads(s, i, p) == Widths(s, i, p);
      WidthsScan(s, i, p);
    } else {
      PadsTaken(s, i, p, c);
      FirstOfTwo(Widths(s, c, q), Widths(s, i, p)) by {
        WidthsScan(s, c, q);
        WidthsScan(s, i, p);
        if At(s, i, '0') {
          ZeroTails(s, i, p, q);
        } else {
          TailBlocked(s, i, p);
        }
      }
      WidthsScan(s, c, q);
    }
  }

  lemma PadsBlocked(s: string, i: nat, p: Spec)
    requires i < |s| && p.pad == ""
    requires s[i] != '\'' && s[i] != '0' && s[i] != ' ' && !IsDigit(s[i]) && s[i] != '.' && !IsKind(s[i])
    ensures Pads(s, i, p) == []
  {
    WidthsScan(s, i, p);
    TailBlocked(s, i, p);
  }

  function SignTail(s: string, i: nat, p: Spec): seq<Spec>
    requires i <= |s|
  {
    var b := SignEnd(s, i);
    var c := PadEnd(s, b);
    Tail(s, c, p.(sign := s[i..b], pad := s[b..c]))
  }

  lemma SignsScan(s: string, i: nat, p: Spec)
    requires i <= |s| && p.pad == "" && p.sign == ""
    ensures First(Signs(s, i, p)) == First(SignTail(s, i, p))
  {
    var b := SignEnd(s, i);
    PadsScan(s, b, p.(sign := s[i..b]));
    if b > i {
      PadsBlocked(s, i, p);
    } else {
      assert p.(sign := s[i..i]) == p;
    }
  }

  lemma {:induction false} IdxDigitsLongest(s: string, from: nat, k: nat, p: Spec)
    requires from <= k <= |s| && forall j :: from <= j < k ==> IsDigit(s[j])
    ensures IdxDigits(s, from, k, p) ==
      if k > from && MarkAt(s, k) then Signs(s, k + 1, p.(idx := s[from..k])) else []
    decreases k
  {
    if k == from {
    } else {
      IdxDigitsLongest(s, from, k - 1, p);
      assert k - 1 > from ==> IsDigit(s[k - 1]) && !MarkAt(s, k - 1);
      assert IdxDigits(s, from, k - 1, p) == [];
    }
  }

  /** A run of digits that ends in an index mark cannot be read as a width. */
  lemma MarkBlocks(s: string, p: Spec)
    requires At(s, 0, '%') && SkipDigits(s, 1) > 1 && MarkAt(s, SkipDigits(s, 1))
    requires p.pad == "" && p.sign == ""
    ensures Signs(s, 1, p) == []
  {
    assert DigitAt(s, 1);
    WidthsScan(s, 1, p);
    if At(s, 1, '0') {
      WidthsScan(s, 2, p.(pad := s[1..2]));
    }
  }

  /** The match that backtracking prefers is the one the scan finds, and there is
      none exactly when the scan finds none. */
  lemma ScanIsFirstMatch(s: string)
    ensures First(Matches(s)) == Scan(s)
  {
    if At(s, 0, '%') {
      var k := SkipDigits(s, 1);
      IdxDigitsLongest(s, 1, k, BLANK);
      if k > 1 && MarkAt(s, k) {
        MarkBlocks(s, BLANK);
        assert Matches(s) == Signs(s, k + 1, BLANK.(idx := s[1..k]));
        ScanFrom(s, k + 1, s[1..k]);
      } else {
        assert Matches(s) == Signs(s, 1, BLANK);
        ScanFrom(s, 1, "");
      }
    }
  }

  lemma ScanFrom(s: string, a: nat, idx: string)
    requires At(s, 0, '%') && a == IdxEnd(s) && idx == if a > 1 then s[1..a - 1] else ""
    ensures First(Signs(s, a, BLANK.(idx := idx))) == Scan(s)
  {
    var b := SignEnd(s, a);
    var c := PadEnd(s, b);
    SignsScan(s, a, BLANK.(idx := idx));
    assert BLANK.(idx := idx).(sign := s[a..b], pad := s[b..c]) == Head(s, a, b, c);
    TailComplete(s, c, Head(s, a, b, c));
  }

  lemma TailComplete(s: string, i: nat, p: Spec)
    requires i <= |s|
    ensures First(Tail(s, i, p)) == Complete(s, i, p)
  {
  }
}
