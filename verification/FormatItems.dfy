/** What formats say, item by item, apart from the expression that cuts them. */
module FormatItems {
  import opened Numerals
  import opened Options
  import opened FormatRegex
  import opened FormatTokens
  import opened FormatCompiler

  /** A conversion specification by its parts; `""` for a part left out. `mark` stands
      after the index, if there is one. */
  datatype Parts = Parts(idx: string, mark: char, sign: string, pad: string, width: string, prec: string, kind: char)

  datatype Item = Char(c: char) | PercentSign | Specification(p: Parts)

  predicate WellFormed(p: Parts) {
    && IsNumeral(p.idx) && (p.mark == '$' || p.mark == '#')
    && (p.sign == "" || p.sign == "+" || p.sign == "-")
    && (p.pad == "" || p.pad == "0" || p.pad == " "
        || (|p.pad| == 2 && p.pad[0] == '\'' && p.pad[1] !in "\n\r\U{2028}\U{2029}"))
    && IsNumeral(p.width) && (p.pad == "" ==> !At(p.width, 0, '0'))
    && IsNumeral(p.prec)
    && p.kind in "bcdfosuxXhH"
  }

  function IdxText(p: Parts): string { if p.idx == "" then "" else p.idx + [p.mark] }

  function PrecText(p: Parts): string { if p.prec == "" then "" else "." + p.prec }

  function SpecText(p: Parts): string {
    "%" + IdxText(p) + p.sign + p.pad + p.width + PrecText(p) + [p.kind]
  }

  function Written(items: seq<Item>): string {
    if items == [] then "" else ItemText(items[0]) + Written(items[1..])
  }

  function ItemText(item: Item): string {
    match item
    case Char(c) => [c]
    case PercentSign => "%%"
    case Specification(p) => SpecText(p)
  }

  /** A `%` before `rest` that begins nothing. */
  ghost predicate Lone(rest: string) {
    !At(rest, 0, '%') && forall p, tail :: WellFormed(p) ==> "%" + rest != SpecText(p) + tail
  }

  /** The items are what their text reads as. */
  ghost predicate Reads(items: seq<Item>) {
    items == [] || (Reads(items[1..]) && ItemReads(items[0], Written(items[1..])))
  }

  ghost predicate ItemReads(item: Item, rest: string) {
    match item
    case Char(c) => c == '%' ==> Lone(rest)
    case PercentSign => true
    case Specification(p) => WellFormed(p)
  }

  // ------------------------------------------------------- reading one specification

  predicate Holds(s: string, i: nat, t: string) {
    i + |t| <= |s| && forall j :: 0 <= j < |t| ==> s[i + j] == t[j]
  }

  lemma HeldSlice(s: string, i: nat, t: string)
    requires Holds(s, i, t)
    ensures s[i..i + |t|] == t
  {
  }

  // Where the parts of a specification end.
  function IdxTo(p: Parts): nat { 1 + |IdxText(p)| }
  function SignTo(p: Parts): nat { IdxTo(p) + |p.sign| }
  function PadTo(p: Parts): nat { SignTo(p) + |p.pad| }
  function WidthTo(p: Parts): nat { PadTo(p) + |p.width| }
  function PrecTo(p: Parts): nat { WidthTo(p) + |PrecText(p)| }

  /** The text starts with the parts. */
  predicate Laid(s: string, p: Parts) {
    && At(s, 0, '%') && Holds(s, 1, IdxText(p)) && Holds(s, IdxTo(p), p.sign) && Holds(s, SignTo(p), p.pad)
    && Holds(s, PadTo(p), p.width) && Holds(s, WidthTo(p), PrecText(p)) && At(s, PrecTo(p), p.kind)
  }

  lemma HoldsMiddle(pre: string, t: string, rest: string)
    ensures pre + (t + rest) == (pre + t) + rest && Holds(pre + (t + rest), |pre|, t)
  {
  }

  lemma Regroup(a: string, b: string, c: string, d: string, e: string, f: string, g: string, tail: string)
    ensures a + b + c + d + e + f + g + tail == a + (b + (c + (d + (e + (f + (g + tail))))))
  {
  }

  lemma LaidWritten(p: Parts, tail: string)
    ensures Laid(SpecText(p) + tail, p) && |SpecText(p)| == PrecTo(p) + 1
  {
    var k := [p.kind] + tail;
    var f := PrecText(p) + k;
    var w := p.width + f;
    var d := p.pad + w;
    var g := p.sign + d;
    Regroup("%", IdxText(p), p.sign, p.pad, p.width, PrecText(p), [p.kind], tail);
    HoldsMiddle("%", IdxText(p), g);
    var t := "%" + IdxText(p);
    HoldsMiddle(t, p.sign, d);
    HoldsMiddle(t + p.sign, p.pad, w);
    HoldsMiddle(t + p.sign + p.pad, p.width, f);
    HoldsMiddle(t + p.sign + p.pad + p.width, PrecText(p), k);
  }

  lemma {:induction false} SkipTo(s: string, i: nat, k: nat)
    requires i <= k <= |s| && (forall j :: i <= j < k ==> IsDigit(s[j])) && !DigitAt(s, k)
    ensures SkipDigits(s, i) == k
    decreases k - i
  {
    if i < k {
      SkipTo(s, i + 1, k);
    }
  }

  lemma SkipHeld(s: string, i: nat, t: string)
    requires Holds(s, i, t) && IsNumeral(t) && !DigitAt(s, i + |t|)
    ensures SkipDigits(s, i) == i + |t|
  {
    forall j | i <= j < i + |t| ensures IsDigit(s[j]) {
      HeldAt(s, i, t, j - i);
    }
    SkipTo(s, i, i + |t|);
  }

  lemma HeldAt(s: string, i: nat, t: string, j: nat)
    requires Holds(s, i, t) && j < |t|
    ensures s[i + j] == t[j]
  {
  }

  lemma HeldRest(s: string, i: nat, c: char, t: string)
    requires Holds(s, i, [c] + t)
    ensures s[i] == c && Holds(s, i + 1, t)
  {
    assert ([c] + t)[0] == c;
    forall j | 0 <= j < |t| ensures s[i + 1 + j] == t[j] {
      assert ([c] + t)[1 + j] == t[j];
    }
  }

  lemma HeldFront(s: string, i: nat, t: string, c: char)
    requires Holds(s, i, t + [c])
    ensures s[i + |t|] == c && Holds(s, i, t)
  {
    assert (t + [c])[|t|] == c;
    forall j | 0 <= j < |t| ensures s[i + j] == t[j] {
      assert (t + [c])[j] == t[j];
    }
  }

  lemma KindChars(c: char)
    requires c in "bcdfosuxXhH"
    ensures IsKind(c) && !IsDigit(c) && c != '.' && c != '$' && c != '#' && c != '+' && c != '-'
    ensures c != '\'' && c != ' ' && c != '%' && !IsEscaped(c)
  {
  }

  /** The point, or the kind. */
  lemma PrecFirst(s: string, p: Parts)
    requires WellFormed(p) && Laid(s, p)
    ensures WidthTo(p) < |s| && s[WidthTo(p)] == if p.prec == "" then p.kind else '.'
  {
    if p.prec != "" {
      HeldAt(s, WidthTo(p), PrecText(p), 0);
    }
  }

  lemma PrecAt(s: string, p: Parts)
    requires WellFormed(p) && Laid(s, p)
    ensures PrecEnd(s, WidthTo(p)) == PrecTo(p)
    ensures p.prec != "" ==> s[WidthTo(p) + 1..PrecTo(p)] == p.prec
  {
    PrecFirst(s, p);
    KindChars(p.kind);
    if p.prec != "" {
      HeldRest(s, WidthTo(p), '.', p.prec);
      SkipHeld(s, WidthTo(p) + 1, p.prec);
      HeldSlice(s, WidthTo(p) + 1, p.prec);
    }
  }

  lemma WidthAt(s: string, p: Parts)
    requires WellFormed(p) && Laid(s, p)
    ensures SkipDigits(s, PadTo(p)) == WidthTo(p)
  {
    PrecFirst(s, p);
    KindChars(p.kind);
    SkipHeld(s, PadTo(p), p.width);
  }

  lemma WidthFirst(s: string, p: Parts)
    requires WellFormed(p) && Laid(s, p)
    ensures PadTo(p) < |s|
    ensures var c := s[PadTo(p)]; if p.width == "" then c == '.' || c == p.kind else c == p.width[0]
  {
    PrecFirst(s, p);
    if p.width != "" {
      HeldAt(s, PadTo(p), p.width, 0);
    }
  }

  lemma PadAt(s: string, p: Parts)
    requires WellFormed(p) && Laid(s, p)
    ensures PadEnd(s, SignTo(p)) == PadTo(p)
  {
    WidthFirst(s, p);
    KindChars(p.kind);
    if p.pad != "" {
      HeldAt(s, SignTo(p), p.pad, 0);
      if |p.pad| == 2 {
        HeldAt(s, SignTo(p), p.pad, 1);
      }
    }
  }

  lemma PadFirst(s: string, p: Parts)
    requires WellFormed(p) && Laid(s, p)
    ensures SignTo(p) < |s|
    ensures var c := s[SignTo(p)];
      c != '+' && c != '-' && c != '%' && c != '$' && c != '#' && (p.pad != "" ==> c == p.pad[0])
  {
    if p.pad == "" {
      WidthFirst(s, p);
      KindChars(p.kind);
    } else {
      HeldAt(s, SignTo(p), p.pad, 0);
    }
  }

  lemma SignAt(s: string, p: Parts)
    requires WellFormed(p) && Laid(s, p)
    ensures SignEnd(s, IdxTo(p)) == SignTo(p)
  {
    PadFirst(s, p);
    if p.sign != "" {
      HeldAt(s, IdxTo(p), p.sign, 0);
    }
  }

  /** Digits up front that are no index do not end in a mark. */
  lemma NoMark(s: string, p: Parts)
    requires WellFormed(p) && Laid(s, p) && p.idx == ""
    ensures var k := SkipDigits(s, 1); k > 1 ==> !MarkAt(s, k)
  {
    PadFirst(s, p);
    if p.sign != "" {
      HeldAt(s, IdxTo(p), p.sign, 0);
    } else if p.pad == "0" {
      WidthAt(s, p);
      assert DigitAt(s, 1);
      assert SkipDigits(s, 1) == SkipDigits(s, 2);
      PrecFirst(s, p);
      KindChars(p.kind);
    } else if p.pad == "" {
      WidthAt(s, p);
      PrecFirst(s, p);
      KindChars(p.kind);
    }
  }

  lemma IdxAt(s: string, p: Parts)
    requires WellFormed(p) && Laid(s, p)
    ensures IdxEnd(s) == IdxTo(p) && (p.idx != "" ==> s[1..IdxTo(p) - 1] == p.idx && s[IdxTo(p) - 1] == p.mark)
  {
    if p.idx == "" {
      NoMark(s, p);
    } else {
      HeldFront(s, 1, p.idx, p.mark);
      HeldSlice(s, 1, p.idx);
      SkipHeld(s, 1, p.idx);
    }
  }

  function SpecOf(p: Parts): Spec {
    Spec(|SpecText(p)|, p.idx, p.sign, p.pad, p.width, p.prec, p.kind)
  }

  lemma EndsLaid(s: string, p: Parts)
    requires WellFormed(p) && Laid(s, p)
    ensures IdxEnd(s) == IdxTo(p) && SignEnd(s, IdxTo(p)) == SignTo(p) && PadEnd(s, SignTo(p)) == PadTo(p)
    ensures SkipDigits(s, PadTo(p)) == WidthTo(p) && PrecEnd(s, WidthTo(p)) == PrecTo(p) && IsKind(s[PrecTo(p)])
  {
    IdxAt(s, p);
    SignAt(s, p);
    PadAt(s, p);
    WidthAt(s, p);
    PrecAt(s, p);
    KindChars(p.kind);
  }

  lemma HeadLaid(s: string, p: Parts)
    requires WellFormed(p) && Laid(s, p)
    ensures Head(s, IdxTo(p), SignTo(p), PadTo(p)) == Spec(0, p.idx, p.sign, p.pad, "", "", 'x')
  {
    HeldSlice(s, IdxTo(p), p.sign);
    HeldSlice(s, SignTo(p), p.pad);
    if p.idx != "" {
      IdxAt(s, p);
    }
  }

  /** The last three groups, from where the first three end. */
  lemma LastGroups(s: string, p: Parts)
    requires WellFormed(p) && Laid(s, p)
    ensures SkipDigits(s, PadTo(p)) == WidthTo(p) && PrecEnd(s, WidthTo(p)) == PrecTo(p)
    ensures s[PadTo(p)..WidthTo(p)] == p.width && s[PrecTo(p)] == p.kind && IsKind(p.kind)
    ensures (if PrecTo(p) > WidthTo(p) then s[WidthTo(p) + 1..PrecTo(p)] else "") == p.prec
  {
    WidthAt(s, p);
    PrecAt(s, p);
    HeldSlice(s, PadTo(p), p.width);
    KindChars(p.kind);
  }

  lemma CompleteBy(s: string, p: Parts, i: nat, d: nat, e: nat, head: Spec)
    requires i <= |s| && d == SkipDigits(s, i) && e == PrecEnd(s, d) && e < |s| && IsKind(s[e])
    requires head == Spec(0, p.idx, p.sign, p.pad, "", "", 'x')
    requires s[i..d] == p.width && (if e > d then s[d + 1..e] else "") == p.prec && s[e] == p.kind
    ensures Complete(s, i, head) == Some(Spec(e + 1, p.idx, p.sign, p.pad, p.width, p.prec, p.kind))
  {
  }

  lemma CompleteLaid(s: string, p: Parts, head: Spec)
    requires WellFormed(p) && Laid(s, p) && head == Spec(0, p.idx, p.sign, p.pad, "", "", 'x')
    ensures Complete(s, PadTo(p), head) == Some(Spec(PrecTo(p) + 1, p.idx, p.sign, p.pad, p.width, p.prec, p.kind))
  {
    LastGroups(s, p);
    CompleteBy(s, p, PadTo(p), WidthTo(p), PrecTo(p), head);
  }

  lemma LaidScans(s: string, p: Parts)
    requires WellFormed(p) && Laid(s, p) && |SpecText(p)| == PrecTo(p) + 1
    ensures Scan(s) == Some(SpecOf(p))
  {
    EndsLaid(s, p);
    HeadLaid(s, p);
    CompleteLaid(s, p, Head(s, IdxTo(p), SignTo(p), PadTo(p)));
  }

  /** A specification written by its parts is matched as these parts, whatever follows. */
  lemma PartsMatch(p: Parts, tail: string)
    requires WellFormed(p)
    ensures First(Matches(SpecText(p) + tail)) == Scan(SpecText(p) + tail) == Some(SpecOf(p))
  {
    ScanIsFirstMatch(SpecText(p) + tail);
    LaidWritten(p, tail);
    LaidScans(SpecText(p) + tail, p);
  }

  /** The parts a match is made of. */
  function PartsOf(m: Spec, mark: char): Parts {
    Parts(m.idx, mark, m.sign, m.pad, m.width, m.prec, m.kind)
  }

  lemma IdxParts(s: string)
    requires At(s, 0, '%')
    ensures var a := IdxEnd(s); a > 1 ==>
      IsNumeral(s[1..a - 1]) && s[1..a - 1] != "" && (s[a - 1] == '$' || s[a - 1] == '#')
      && s[1..a] == s[1..a - 1] + [s[a - 1]]
  {
  }

  lemma PadParts(s: string, i: nat)
    requires i <= |s|
    ensures var c := PadEnd(s, i); var pad := s[i..c];
      && (pad == "" || pad == "0" || pad == " "
          || (|pad| == 2 && pad[0] == '\'' && pad[1] !in "\n\r\U{2028}\U{2029}"))
      && (pad == "" ==> !At(s, i, '0'))
  {
  }

  lemma PrecParts(s: string, d: nat)
    requires d <= |s|
    ensures var e := PrecEnd(s, d);
      e > d ==> IsNumeral(s[d + 1..e]) && s[d + 1..e] != "" && s[d..e] == "." + s[d + 1..e]
  {
  }

  lemma KindParts(c: char)
    requires IsKind(c)
    ensures c in "bcdfosuxXhH"
  {
    var kinds := "bcdfosuxXhH";
    assert kinds[0] == 'b' && kinds[1] == 'c' && kinds[2] == 'd' && kinds[3] == 'f' && kinds[4] == 'o' && kinds[5] == 's';
    assert kinds[6] == 'u' && kinds[7] == 'x' && kinds[8] == 'X' && kinds[9] == 'h' && kinds[10] == 'H';
  }

  lemma HeadTexts(s: string, m: Spec, mark: char, a: nat, b: nat, c: nat, d: nat, e: nat)
    requires At(s, 0, '%') && a == IdxEnd(s) && b == SignEnd(s, a) && c == PadEnd(s, b)
    requires d == SkipDigits(s, c) && e == PrecEnd(s, d) && e < |s| && IsKind(s[e])
    requires m == Complete(s, c, Head(s, a, b, c)).value && mark == (if a > 1 then s[a - 1] else '$')
    ensures m.sign == s[a..b] && m.pad == s[b..c] && m.width == s[c..d] && m.kind == s[e] && m.len == e + 1
    ensures m.idx == (if a > 1 then s[1..a - 1] else "") && m.prec == (if e > d then s[d + 1..e] else "")
  {
  }

  lemma HeadParts(s: string, m: Spec, mark: char, a: nat, b: nat, c: nat, d: nat, e: nat)
    requires At(s, 0, '%') && a == IdxEnd(s) && b == SignEnd(s, a) && c == PadEnd(s, b)
    requires d == SkipDigits(s, c) && e == PrecEnd(s, d) && e < |s| && IsKind(s[e])
    requires m == Complete(s, c, Head(s, a, b, c)).value && mark == (if a > 1 then s[a - 1] else '$')
    ensures WellFormed(PartsOf(m, mark)) && m.len == e + 1
    ensures var p := PartsOf(m, mark);
      && IdxText(p) == s[1..a] && p.sign == s[a..b] && p.pad == s[b..c] && p.width == s[c..d]
      && PrecText(p) == s[d..e] && p.kind == s[e]
  {
    HeadTexts(s, m, mark, a, b, c, d, e);
    IdxParts(s);
    PadParts(s, b);
    PrecParts(s, d);
    KindParts(s[e]);
    SignParts(s, a, b);
    WidthParts(s, b, c, d);
  }

  lemma WidthParts(s: string, b: nat, c: nat, d: nat)
    requires b <= |s| && c == PadEnd(s, b) && d == SkipDigits(s, c)
    ensures IsNumeral(s[c..d]) && (s[b..c] == "" ==> !At(s[c..d], 0, '0'))
  {
    if c == b && d > c {
      assert s[c..d][0] == s[c];
    }
  }

  lemma SignParts(s: string, a: nat, b: nat)
    requires a <= |s| && b == SignEnd(s, a)
    ensures s[a..b] == "" || s[a..b] == "+" || s[a..b] == "-"
  {
  }

  lemma Glued(s: string, a: nat, b: nat, c: nat, d: nat, e: nat)
    requires 1 <= a <= b <= c <= d <= e < |s| && s[0] == '%'
    ensures "%" + s[1..a] + s[a..b] + s[b..c] + s[c..d] + s[d..e] + [s[e]] == s[..e + 1]
  {
  }

  lemma MatchText(s: string, p: Parts, a: nat, b: nat, c: nat, d: nat, e: nat)
    requires 1 <= a <= b <= c <= d <= e < |s| && s[0] == '%'
    requires IdxText(p) == s[1..a] && p.sign == s[a..b] && p.pad == s[b..c] && p.width == s[c..d]
    requires PrecText(p) == s[d..e] && p.kind == s[e]
    ensures SpecText(p) == s[..e + 1] && |SpecText(p)| == e + 1
  {
    Glued(s, a, b, c, d, e);
  }

  /** And whatever is matched is a specification written by its parts. */
  lemma MatchParts(s: string) returns (p: Parts)
    requires Scan(s).Some?
    ensures WellFormed(p) && Scan(s).value == SpecOf(p) && |SpecText(p)| <= |s| && SpecText(p) == s[..|SpecText(p)|]
  {
    var a := IdxEnd(s);
    var b := SignEnd(s, a);
    var c := PadEnd(s, b);
    var d := SkipDigits(s, c);
    var e := PrecEnd(s, d);
    var m := Scan(s).value;
    p := PartsOf(m, if a > 1 then s[a - 1] else '$');
    HeadParts(s, m, p.mark, a, b, c, d, e);
    MatchText(s, p, a, b, c, d, e);
  }

  lemma LoneMatches(rest: string)
    ensures Lone(rest) <==> !At(rest, 0, '%') && Scan("%" + rest) == None
  {
    var s := "%" + rest;
    if Scan(s).Some? {
      var p := MatchParts(s);
      assert s == SpecText(p) + s[|SpecText(p)|..];
    } else if p, tail :| WellFormed(p) && s == SpecText(p) + tail {
      PartsMatch(p, tail);
    }
  }

  lemma WrittenCons(item: Item, rest: seq<Item>)
    requires Reads(rest) && ItemReads(item, Written(rest))
    ensures Reads([item] + rest) && Written([item] + rest) == ItemText(item) + Written(rest)
  {
    assert ([item] + rest)[1..] == rest;
  }

  /** The first item of a format. */
  lemma FirstItem(s: string) returns (item: Item, rest: string)
    requires s != ""
    ensures |rest| < |s| && ItemText(item) + rest == s && ItemReads(item, rest)
  {
    if At(s, 0, '%') && At(s, 1, '%') {
      item, rest := PercentSign, s[2..];
    } else if Scan(s).Some? {
      var p := MatchParts(s);
      TextPlain(s, 0);
      item, rest := Specification(p), s[|SpecText(p)|..];
    } else {
      item, rest := Char(s[0]), s[1..];
      assert [s[0]] + s[1..] == s;
      LoneMatches(s[1..]);
    }
  }

  /** Every format is the text of some items. */
  lemma {:induction false} EveryFormat(s: string) returns (items: seq<Item>)
    ensures Reads(items) && Written(items) == s
    decreases |s|
  {
    if s == "" {
      items := [];
    } else {
      var item, tail := FirstItem(s);
      var rest := EveryFormat(tail);
      items := [item] + rest;
      WrittenCons(item, rest);
    }
  }
}
