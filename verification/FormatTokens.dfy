/** Cutting a format into pieces with the shared regular expression, and why the
    escaping done before compilation does not disturb the cutting. */
module FormatTokens {
  import opened Numerals
  import opened Options
  import opened FormatRegex

  datatype Piece = Chr(c: char) | Percent | Conv(spec: Spec, text: string)

  predicate IsEscaped(c: char) { c == '\\' || c == '"' }

  /** The padding character is quoted and is `"` or `\`. */
  predicate EscapedPad(m: Spec) {
    |m.pad| == 2 && IsEscaped(m.pad[1])
  }

  /** The pieces of a format. With `strict`, specifications whose padding character
      escaping would double are not recognised. */
  function Pieces(s: string, strict: bool): seq<Piece>
    decreases |s|
  {
    if s == "" then []
    else if At(s, 0, '%') && At(s, 1, '%') then [Percent] + Pieces(s[2..], strict)
    else
      match Scan(s)
      case Some(m) =>
        if strict && EscapedPad(m) then [Chr(s[0])] + Pieces(s[1..], strict)
        else [Conv(m, s[..m.len])] + Pieces(s[m.len..], strict)
      case None => [Chr(s[0])] + Pieces(s[1..], strict)
  }

  /** Replaces every `\` and `"` by itself preceded by `\`. */
  function Escape(s: string): string {
    if s == "" then "" else (if IsEscaped(s[0]) then ['\\', s[0]] else [s[0]]) + Escape(s[1..])
  }

  function EscapePieces(ps: seq<Piece>): seq<Piece> {
    if ps == [] then []
    else (if ps[0].Chr? && IsEscaped(ps[0].c) then [Chr('\\'), ps[0]] else [ps[0]]) + EscapePieces(ps[1..])
  }

  // ------------------------------------------------------- the text of a match

  /** The characters a specification is made of, its quoted padding aside. */
  predicate IsPlain(c: char) {
    IsDigit(c) || IsKind(c) || c == '$' || c == '#' || c == '+' || c == '-' || c == '\'' || c == ' ' || c == '.'
  }

  lemma EndsPlain(s: string, a: nat, b: nat, c: nat, d: nat, e: nat, j: nat)
    requires At(s, 0, '%') && a == IdxEnd(s) && b == SignEnd(s, a) && c == PadEnd(s, b)
    requires d == SkipDigits(s, c) && e == PrecEnd(s, d) && e < |s| && IsKind(s[e])
    ensures 1 <= j <= e ==> IsPlain(s[j]) || (j == b + 1 && c == j + 1)
  {
    if a <= j < b {
      assert j == a;
    } else if b <= j < c {
      assert j == b || j == b + 1;
    } else if d <= j < e {
      assert IsDigit(s[j]) || s[j] == '.';
    }
  }

  lemma TextPlain(s: string, j: nat)
    requires Scan(s).Some?
    ensures PadEnd(s, PadStart(s)) < Scan(s).value.len <= |s|
    ensures 1 <= j < Scan(s).value.len ==>
      IsPlain(s[j]) || (j == PadStart(s) + 1 && PadEnd(s, PadStart(s)) == j + 1)
  {
    var a := IdxEnd(s);
    var b := SignEnd(s, a);
    var c := PadEnd(s, b);
    var d := SkipDigits(s, c);
    EndsPlain(s, a, b, c, d, PrecEnd(s, d), j);
  }

  lemma PadOf(s: string)
    requires Scan(s).Some?
    ensures var b := PadStart(s);
      && PadEnd(s, b) < Scan(s).value.len <= |s|
      && Scan(s).value.pad == s[b..PadEnd(s, b)]
  {
  }

  lemma {:induction false} SkipSame(s: string, t: string, n: nat, i: nat)
    requires i <= n <= |s| && n <= |t| && s[..n] == t[..n] && SkipDigits(s, i) < n
    ensures SkipDigits(t, i) == SkipDigits(s, i)
    decreases n - i
  {
    assert s[i] == s[..n][i] == t[i];
    if !DigitAt(s, i) {
    } else {
      SkipSame(s, t, n, i + 1);
    }
  }

  lemma SameIdxEnd(s: string, t: string, n: nat)
    requires n <= |s| && n <= |t| && t[..n] == s[..n] && At(s, 0, '%') && IdxEnd(s) < n
    requires SkipDigits(s, 1) < n
    ensures At(t, 0, '%') && IdxEnd(t) == IdxEnd(s)
  {
    assert forall j :: 0 <= j < n ==> s[j] == s[..n][j] == t[j];
    SkipSame(s, t, n, 1);
  }

  lemma SamePrecEnd(s: string, t: string, n: nat, i: nat)
    requires i <= n <= |s| && n <= |t| && t[..n] == s[..n] && PrecEnd(s, i) < n
    requires At(s, i, '.') ==> SkipDigits(s, i + 1) < n
    ensures PrecEnd(t, i) == PrecEnd(s, i)
  {
    assert forall j :: 0 <= j < n ==> s[j] == s[..n][j] == t[j];
    if At(s, i, '.') {
      SkipSame(s, t, n, i + 1);
    }
  }

  lemma SamePadEnd(s: string, t: string, n: nat, a: nat)
    requires a <= n <= |s| && n <= |t| && t[..n] == s[..n] && PadEnd(s, SignEnd(s, a)) < n
    requires PadEnd(s, SignEnd(s, a)) == SignEnd(s, a) ==> !At(s, SignEnd(s, a), '\'')
    ensures SignEnd(t, a) == SignEnd(s, a) && PadEnd(t, SignEnd(s, a)) == PadEnd(s, SignEnd(s, a))
  {
    assert forall j :: 0 <= j < n ==> s[j] == s[..n][j] == t[j];
  }

  /** The groups end at the same places in a text that starts with the match. */
  lemma SameEnds(s: string, t: string, n: nat)
    requires Scan(s).Some? && n == Scan(s).value.len <= |s|
    requires n <= |t| && t[..n] == s[..n]
    ensures At(t, 0, '%') && IdxEnd(t) == IdxEnd(s)
    ensures var a := IdxEnd(s);
      var b := SignEnd(s, a);
      var c := PadEnd(s, b);
      var d := SkipDigits(s, c);
      && SignEnd(t, a) == b && PadEnd(t, b) == c && SkipDigits(t, c) == d
      && PrecEnd(t, d) == PrecEnd(s, d) == n - 1
  {
    var a := IdxEnd(s);
    var b := SignEnd(s, a);
    var c := PadEnd(s, b);
    var d := SkipDigits(s, c);
    var e := PrecEnd(s, d);
    assert n == e + 1 && !IsDigit(s[e]);
    SameIdxEnd(s, t, n);
    SamePadEnd(s, t, n, a);
    SkipSame(s, t, n, c);
    SamePrecEnd(s, t, n, d);
  }

  /** A match does not depend on what follows it. */
  lemma ScanPrefix(s: string, t: string, n: nat)
    requires Scan(s).Some? && n == Scan(s).value.len <= |s|
    requires n <= |t| && t[..n] == s[..n]
    ensures Scan(t) == Scan(s)
  {
    var a := IdxEnd(s);
    var b := SignEnd(s, a);
    var c := PadEnd(s, b);
    SameEnds(s, t, n);
    SameHead(s, t, a, b, c, n);
    var d := SkipDigits(s, c);
    assert t[n - 1] == t[..n][n - 1] == s[..n][n - 1] == s[n - 1];
    SameSlice(s, t, n, c, d);
    if n - 1 > d {
      SameSlice(s, t, n, d + 1, n - 1);
    }
    SameComplete(s, t, c, d, n - 1, Head(s, a, b, c));
  }

  lemma SameSlice(s: string, t: string, n: nat, i: nat, j: nat)
    requires i <= j <= n <= |s| && n <= |t| && t[..n] == s[..n]
    ensures s[i..j] == t[i..j]
  {
    assert s[i..j] == s[..n][i..j] == t[..n][i..j] == t[i..j];
  }

  lemma SameHead(s: string, t: string, a: nat, b: nat, c: nat, n: nat)
    requires 1 <= a <= b <= c <= n <= |s| && n <= |t| && s[..n] == t[..n]
    ensures Head(s, a, b, c) == Head(t, a, b, c)
  {
    SameSlice(s, t, n, a, b);
    SameSlice(s, t, n, b, c);
    if a > 1 {
      SameSlice(s, t, n, 1, a - 1);
    }
  }

  lemma SameComplete(s: string, t: string, c: nat, d: nat, e: nat, p: Spec)
    requires c <= |s| && c <= |t| && SkipDigits(s, c) == d == SkipDigits(t, c)
    requires PrecEnd(s, d) == e == PrecEnd(t, d) && e < |s| && e < |t|
    requires s[e] == t[e] && s[c..d] == t[c..d] && (e > d ==> s[d + 1..e] == t[d + 1..e])
    ensures Complete(s, c, p) == Complete(t, c, p)
  {
  }

  // ------------------------------------------------------------------ escaping

  lemma {:induction false} EscapeAppend(a: string, b: string)
    ensures Escape(a + b) == Escape(a) + Escape(b)
    decreases |a|
  {
    if a == "" {
      assert a + b == b;
    } else {
      assert (a + b)[1..] == a[1..] + b;
      EscapeAppend(a[1..], b);
    }
  }

  lemma {:induction false} EscapeNothing(s: string)
    requires forall j :: 0 <= j < |s| ==> !IsEscaped(s[j])
    ensures Escape(s) == s
    decreases |s|
  {
    if s == "" {
    } else {
      EscapeNothing(s[1..]);
    }
  }

  /** As long as an escaped text shows no escaped character, it is the text itself. */
  lemma {:induction false} EscapeUntouched(s: string, n: nat)
    requires n <= |Escape(s)| && forall j :: 0 <= j < n ==> !IsEscaped(Escape(s)[j])
    ensures n <= |s| && Escape(s)[..n] == s[..n] && Escape(s)[n..] == Escape(s[n..])
    decreases n
  {
    if n == 0 {
    } else {
      assert Escape(s)[0] == s[0];
      assert Escape(s)[1..] == Escape(s[1..]);
      forall j | 0 <= j < n - 1 ensures !IsEscaped(Escape(s[1..])[j]) {
        assert Escape(s[1..])[j] == Escape(s)[j + 1];
      }
      EscapeUntouched(s[1..], n - 1);
      assert s[1..][n - 1..] == s[n..];
      assert Escape(s)[..n] == [s[0]] + Escape(s[1..])[..n - 1];
    }
  }

  lemma TextClean(s: string, j: nat)
    requires Scan(s).Some? && !EscapedPad(Scan(s).value) && j < Scan(s).value.len
    ensures Scan(s).value.len <= |s| && !IsEscaped(s[j])
  {
    PadOf(s);
    TextPlain(s, j);
    assert s[PadStart(s)..PadEnd(s, PadStart(s))] == Scan(s).value.pad;
  }

  lemma EscapeSplit(s: string, n: nat)
    requires n <= |s| && forall j :: 0 <= j < n ==> !IsEscaped(s[j])
    ensures Escape(s) == s[..n] + Escape(s[n..])
  {
    assert s == s[..n] + s[n..];
    EscapeAppend(s[..n], s[n..]);
    EscapeNothing(s[..n]);
  }

  lemma EscapeHit(s: string, n: nat)
    requires Scan(s).Some? && !EscapedPad(Scan(s).value) && n == Scan(s).value.len
    ensures n <= |s| && Escape(s) == s[..n] + Escape(s[n..])
  {
    TextPlain(s, 0);
    forall j | 0 <= j < n ensures !IsEscaped(s[j]) {
      TextClean(s, j);
    }
    EscapeSplit(s, n);
  }

  lemma ScanEscapedHit(s: string, n: nat)
    requires Scan(s).Some? && !EscapedPad(Scan(s).value) && n == Scan(s).value.len
    ensures n <= |s| && Scan(Escape(s)) == Scan(s)
    ensures Escape(s) == s[..n] + Escape(s[n..])
  {
    PadOf(s);
    EscapeHit(s, n);
    assert Escape(s)[..n] == s[..n];
    ScanPrefix(s, Escape(s), n);
  }

  /** The first escaped character of an escaped text is half of a pair. */
  lemma EscapeDoubles(s: string, j: nat)
    requires j < |Escape(s)| && forall i :: 0 <= i < j ==> !IsEscaped(Escape(s)[i])
    ensures IsEscaped(Escape(s)[j]) ==> j + 1 < |Escape(s)| && IsEscaped(Escape(s)[j + 1])
  {
    EscapeUntouched(s, j);
    var rest := Escape(s)[j..];
    assert rest == Escape(s[j..]) && rest[0] == Escape(s)[j];
    if IsEscaped(rest[0]) {
      assert rest[1] == Escape(s)[j + 1];
    }
  }

  /** The text of a match in an escaped format holds no escaped character: after
      `'` the first half of an escape would be the padding, and its second half
      cannot continue the specification. */
  lemma EscapedTextStep(s: string, j: nat)
    requires Scan(Escape(s)).Some? && 0 < j < Scan(Escape(s)).value.len <= |Escape(s)|
    requires forall i :: 0 <= i < j ==> !IsEscaped(Escape(s)[i])
    ensures !IsEscaped(Escape(s)[j])
  {
    TextPlain(Escape(s), j);
    TextPlain(Escape(s), j + 1);
    EscapeDoubles(s, j);
  }

  lemma {:induction false} EscapedTextClean(s: string, n: nat)
    requires Scan(Escape(s)).Some? && n <= Scan(Escape(s)).value.len <= |Escape(s)|
    ensures forall i :: 0 <= i < n ==> !IsEscaped(Escape(s)[i])
  {
    if n == 0 {
    } else {
      EscapedTextClean(s, n - 1);
      if n > 1 {
        EscapedTextStep(s, n - 1);
      }
    }
  }

  lemma ScanEscapedBack(s: string)
    requires Scan(Escape(s)).Some?
    ensures Scan(s) == Scan(Escape(s)) && !EscapedPad(Scan(s).value)
  {
    var e, m := Escape(s), Scan(Escape(s)).value;
    PadOf(e);
    EscapedTextClean(s, m.len);
    EscapeUntouched(s, m.len);
    ScanPrefix(e, s, m.len);
    var b := PadStart(e);
    assert forall i :: 0 <= i < |m.pad| ==> m.pad[i] == e[b + i];
  }

  lemma ScanEscapedMiss(s: string)
    requires Scan(s).None? || EscapedPad(Scan(s).value)
    ensures Scan(Escape(s)) == None
  {
    if Scan(Escape(s)).Some? {
      ScanEscapedBack(s);
    }
  }

  /** A character that starts no match is cut off alone. */
  lemma PiecesMiss(s: string)
    requires s != "" && Scan(s) == None && !(At(s, 0, '%') && At(s, 1, '%'))
    ensures Pieces(s, false) == [Chr(s[0])] + Pieces(s[1..], false)
  {
  }

  lemma EscapeHead(s: string)
    requires s != "" && (Scan(s).None? || EscapedPad(Scan(s).value))
    requires !IsEscaped(s[0]) && !(At(s, 0, '%') && At(s, 1, '%'))
    ensures Pieces(Escape(s), false) == [Chr(s[0])] + Pieces(Escape(s[1..]), false)
  {
    ScanEscapedMiss(s);
    assert Escape(s)[1..] == Escape(s[1..]) && Escape(s)[0] == s[0];
    if At(s, 0, '%') {
      SecondPercent(s);
    }
    PiecesMiss(Escape(s));
  }

  lemma EscapePair(c: char, rest: string)
    requires IsEscaped(c)
    ensures Pieces(['\\', c] + rest, false) == [Chr('\\'), Chr(c)] + Pieces(rest, false)
  {
    var e := ['\\', c] + rest;
    PiecesMiss(e);
    assert e[1..] == [c] + rest;
    PiecesMiss([c] + rest);
    assert ([c] + rest)[1..] == rest;
  }

  lemma SecondPercent(s: string)
    requires At(s, 0, '%')
    ensures At(Escape(s), 1, '%') <==> At(s, 1, '%')
  {
    assert Escape(s)[1..] == Escape(s[1..]);
    if |s| > 1 {
      assert Escape(s)[1] == Escape(s)[1..][0];
    }
  }

  lemma EscapePercent(s: string)
    requires At(s, 0, '%') && At(s, 1, '%')
    ensures Pieces(Escape(s), false) == [Percent] + Pieces(Escape(s[2..]), false)
  {
    assert s[1..][1..] == s[2..];
    assert Escape(s) == ['%', '%'] + Escape(s[2..]);
    assert Escape(s)[2..] == Escape(s[2..]);
  }

  lemma PiecesHit(s: string, n: nat, strict: bool)
    requires Scan(s).Some? && !EscapedPad(Scan(s).value) && n == Scan(s).value.len
    ensures n <= |s| && Pieces(s, strict) == [Conv(Scan(s).value, s[..n])] + Pieces(s[n..], strict)
  {
    PadOf(s);
    TextPlain(s, 1);
  }

  /** Escaping first and cutting then is cutting first and escaping then, but for
      the specifications whose padding character escaping doubles. */
  lemma {:induction false} EscapeCommutes(s: string)
    ensures Pieces(Escape(s), false) == EscapePieces(Pieces(s, true))
    decreases |s|
  {
    if s == "" {
    } else if At(s, 0, '%') && At(s, 1, '%') {
      EscapeCommutes(s[2..]);
      EscapePercent(s);
    } else if Scan(s).Some? && !EscapedPad(Scan(s).value) {
      var n := Scan(s).value.len;
      ScanEscapedHit(s, n);
      EscapeCommutes(s[n..]);
      PiecesHit(s, n, true);
      PiecesHit(Escape(s), n, false);
      assert Escape(s)[..n] == s[..n] && Escape(s)[n..] == Escape(s[n..]);
    } else {
      if IsEscaped(s[0]) {
        EscapePair(s[0], Escape(s[1..]));
      } else {
        EscapeHead(s);
      }
      EscapeCommutes(s[1..]);
      assert Pieces(s, true) == [Chr(s[0])] + Pieces(s[1..], true);
    }
  }
}
