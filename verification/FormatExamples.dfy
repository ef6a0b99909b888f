/** Formats that compilation spoils, with the calls that show it. */
module FormatExamples {
  import opened Texts
  import opened Options
  import opened Numerals
  import opened FormatRegex
  import opened FormatTokens
  import opened FormatCompiler
  import opened FormatTheorems
  import opened FormatExactness
  import opened FormatItems
  import opened FormatMeaning

  /** Handlers that show their argument as it is. */
  function Plain(): Handler<string> {
    (c, a: Option<string>, x) => Some(if a.Some? then a.value else "undefined")
  }

  lemma OnePiece(s: string, m: Spec)
    requires Scan(s) == Some(m) && m.len == |s| && s != "" && !At(s, 1, '%')
    ensures Pieces(s, false) == [Conv(m, s)]
  {
    assert s[..|s|] == s && s[|s|..] == "";
    assert Pieces("", false) == [];
  }

  lemma JoinOne(o: Option<string>)
    ensures JoinOutputs([o]) == o
  {
    assert [o][1..] == [];
    if o.Some? {
      assert o.value + "" == o.value;
    }
  }

  lemma OneShown(p: Piece, v: string, h: Handler<string>)
    requires p.Conv? ==> IsNumeral(p.spec.idx)
    ensures JoinOutputs(AllShown([p], v, h)) == Shown(p, v, h)
    ensures Indexed([p]) && JoinOutputs(AllCompiled([p], v, h)) == ShownCompiled(p, v, h)
  {
    assert AllShown([p], v, h) == [Shown(p, v, h)];
    assert AllCompiled([p], v, h) == [ShownCompiled(p, v, h)];
    JoinOne(Shown(p, v, h));
    JoinOne(ShownCompiled(p, v, h));
  }

  /** A format that is one specification with no index or an index of zero. */
  ghost predicate IsOneSpec(s: string, m: Spec) {
    && Scan(s) == Some(m) && m.len == |s| && s != "" && !HasBreak(s)
    && IsNumeral(m.idx) && Value(m.idx) == 0 && forall i :: 1 <= i < |s| ==> s[i] != '%'
  }

  /** Such a format, called with one argument. */
  lemma OneSpec(s: string, m: Spec)
    requires IsOneSpec(s, m)
    ensures Pieces(s, false) == [Conv(m, s)] && Indexed(Pieces(s, false))
    ensures Sprintf(s, ["a"], Plain()) == Some("a")
    ensures RunSource(Compile(s), ["a"], Plain()) == Ran(ShownCompiled(Conv(m, s), "a", Plain()))
  {
    OnePiece(s, m);
    StrictOne(s, m);
    OneNeeded(Conv(m, s));
    OneShown(Conv(m, s), "a", Plain());
    BothShow(s, ["a"], "a", Plain());
  }

  lemma OneNeeded(p: Piece)
    requires p.Conv? && IsNumeral(p.spec.idx) && Value(p.spec.idx) == 0
    ensures Indexed([p]) && Enough([p]) == 1
  {
    assert [p][1..] == [];
  }

  lemma {:induction false} NoSpecs(s: string)
    requires '%' !in s
    ensures Indexed(Pieces(s, true)) && Enough(Pieces(s, true)) == 0
  {
    if s == "" {
    } else {
      NoSpecs(s[1..]);
      assert s[0] in s && forall c :: c in s[1..] ==> c in s;
      assert Pieces(s, true)[1..] == Pieces(s[1..], true);
    }
  }

  lemma StrictOne(s: string, m: Spec)
    requires IsOneSpec(s, m)
    ensures Indexed(Pieces(s, true)) && Enough(Pieces(s, true)) <= 1
  {
    PiecesIndexed(s, true);
    if EscapedPad(m) {
      assert Pieces(s, true) == [Chr(s[0])] + Pieces(s[1..], true);
      NoSpecs(s[1..]);
      CharNeedsNone(s[0], Pieces(s[1..], true));
    } else {
      assert s[..|s|] == s && s[|s|..] == "";
      assert Pieces(s, true) == [Conv(m, s)];
      OneNeeded(Conv(m, s));
    }
  }

  lemma CharNeedsNone(c: char, ps: seq<Piece>)
    requires Indexed(ps)
    ensures Indexed([Chr(c)] + ps) && Enough([Chr(c)] + ps) == Enough(ps)
  {
    assert ([Chr(c)] + ps)[1..] == ps;
  }

  /** An explicit index of zero: `sprintf` takes the next argument, compiled code none. */
  lemma ZeroIndexFormat()
    ensures !Safe("%0$s")
    ensures Sprintf("%0$s", ["a"], Plain()) == Some("a")
    ensures RunSource(Compile("%0$s"), ["a"], Plain()) == Ran(Some("undefined"))
  {
    var s := "%0$s";
    assert SkipDigits(s, 1) == 2 && IdxEnd(s) == 3;
    assert s[1..2] == "0" && s[3..3] == "";
    var m := BLANK.(len := 4, idx := "0", kind := 's');
    assert Scan(s) == Some(m);
    assert "0"[..0] == "" && Value("0") == 0;
    OneSpec(s, m);
    assert ZeroIndex(Pieces(s, false)[0].spec);
  }

  /** A quoted padding character `"`: compiled code prints the specification. */
  lemma QuotedPadFormat()
    ensures !Safe("%'\"5s")
    ensures Sprintf("%'\"5s", ["a"], Plain()) == Some("a")
    ensures RunSource(Compile("%'\"5s"), ["a"], Plain()) == Ran(Some("%'\"5s"))
  {
    var s := "%'\"5s";
    assert SkipDigits(s, 1) == 1 && IdxEnd(s) == 1 && SignEnd(s, 1) == 1 && PadEnd(s, 1) == 3;
    assert SkipDigits(s, 3) == 4 && PrecEnd(s, 4) == 4;
    assert s[1..1] == "" && s[1..3] == "'\"" && s[3..4] == "5";
    var m := BLANK.(len := 5, pad := "'\"", width := "5", kind := 's');
    assert Scan(s) == Some(m);
    OneSpec(s, m);
    assert EscapedPad(Pieces(s, false)[0].spec);
  }

  /** A line terminator: the compiled text is a syntax error. */
  lemma LineBreakFormat()
    ensures !Safe("\n")
    ensures Sprintf("\n", ["a"], Plain()) == Some("\n")
    ensures RunSource(Compile("\n"), ["a"], Plain()) == SyntaxError
  {
    var s := "\n";
    assert IsBreak(s[0]);
    BreakDiffers(s, ["a"], Plain());
    PiecesIndexed(s, false);
    assert s[1..] == "" && Pieces("", false) == [];
    assert Pieces(s, false) == [Chr('\n')];
    assert [Chr('\n')][1..] == [];
    assert Outputs([Chr('\n')], 0, false, ["a"], Plain()) == [Some("\n")];
    JoinOne(Some("\n"));
  }

  const SECONDS := Parts("", '$', "", "", "", "", 'd')
  const MICROS := Parts("", '$', "", "0", "6", "", 'd')

  lemma TimeTexts()
    ensures SpecText(SECONDS) == "%d" && SpecText(MICROS) == "%06d"
  {
  }

  lemma TimeItems()
    ensures var items := [Specification(SECONDS)] + ([Char('.')] + ([Specification(MICROS)] + []));
      Reads(items) && Written(items) == "%d.%06d"
  {
    TimeTexts();
    WrittenCons(Specification(MICROS), []);
    WrittenCons(Char('.'), [Specification(MICROS)] + []);
    WrittenCons(Specification(SECONDS), [Char('.')] + ([Specification(MICROS)] + []));
  }

  lemma SpecMeans<V>(p: Parts, t: string, rest: seq<Item>, next: nat, args: seq<V>, h: Handler<V>)
    requires Reads([Specification(p)] + rest) && p.idx == "" && next < |args| && t == SpecText(p)
    ensures Reads(rest)
    ensures Meaning([Specification(p)] + rest, next, false, args, h) ==
      Then(h(p.kind, Some(args[next]), [t, "", p.sign, PadChar(p), p.width, p.prec, [p.kind]]),
           Meaning(rest, next + 1, false, args, h))
  {
    assert ([Specification(p)] + rest)[1..] == rest;
  }

  /** The page's format of a time: seconds, a point, and the microseconds in six places. */
  lemma TimeFormat<V>(sec: V, usec: V, h: Handler<V>)
    ensures Sprintf("%d.%06d", [sec, usec], h) ==
      Then(h('d', Some(sec), ["%d", "", "", " ", "", "", "d"]),
           Then(Some("."), Then(h('d', Some(usec), ["%06d", "", "", "0", "6", "", "d"]), Some(""))))
  {
    var args := [sec, usec];
    var last := [Specification(MICROS)] + [];
    TimeItems();
    SprintfMeans([Specification(SECONDS)] + ([Char('.')] + last), args, h);
    TimeTexts();
    SpecMeans(SECONDS, "%d", [Char('.')] + last, 0, args, h);
    assert ([Char('.')] + last)[1..] == last;
    SpecMeans(MICROS, "%06d", [], 1, args, h);
  }
}
