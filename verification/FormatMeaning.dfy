/** What `sprintf` and compiled code make of a format, item by item. */
module FormatMeaning {
  import opened Numerals
  import opened Options
  import opened FormatRegex
  import opened FormatTokens
  import opened FormatCompiler
  import opened FormatTheorems
  import opened FormatItems

  /** A quoted padding that escaping spoils. */
  predicate Spoiled(p: Parts) { p.pad == "'\"" || p.pad == "'\\" }

  predicate Explicit(p: Parts, compiled: bool)
    requires IsNumeral(p.idx)
  {
    if compiled then p.idx != "" else Value(p.idx) != 0
  }

  function PadChar(p: Parts): string { if p.pad == "" then " " else p.pad[|p.pad| - 1..] }

  function Then(a: Option<string>, b: Option<string>): Option<string> {
    if a.Some? && b.Some? then Some(a.value + b.value) else None
  }

  /** The text the items make of the arguments from `next` on. */
  ghost function Meaning<V>(items: seq<Item>, next: nat, compiled: bool, args: seq<V>, h: Handler<V>): Option<string>
    requires Reads(items)
  {
    if items == [] then Some("")
    else
      match items[0]
      case Char(c) => Then(Some([c]), Meaning(items[1..], next, compiled, args, h))
      case PercentSign => Then(Some("%"), Meaning(items[1..], next, compiled, args, h))
      case Specification(p) =>
        if compiled && Spoiled(p) then Then(Some(SpecText(p)), Meaning(items[1..], next, compiled, args, h))
        else if Explicit(p, compiled) then
          Then(Handled(p, SpecText(p), Value(p.idx) - 1, args, h), Meaning(items[1..], next, compiled, args, h))
        else Then(Handled(p, SpecText(p), next, args, h), Meaning(items[1..], next + 1, compiled, args, h))
  }

  /** What the handler makes of argument `i` and the specification written as `t`. */
  function Handled<V>(p: Parts, t: string, i: int, args: seq<V>, h: Handler<V>): Option<string> {
    h(p.kind, if 0 <= i < |args| then Some(args[i]) else None,
      [t, p.idx, p.sign, PadChar(p), p.width, p.prec, [p.kind]])
  }

  // -------------------------------------------------------------------- running

  /** A format, interpreted or compiled, from its pieces. */
  ghost function Runs<V>(s: string, next: nat, compiled: bool, args: seq<V>, h: Handler<V>): Option<string> {
    PiecesIndexed(s, compiled);
    JoinOutputs(Outputs(Pieces(s, compiled), next, compiled, args, h))
  }

  lemma ThenJoin(o: Option<string>, rest: seq<Option<string>>)
    ensures JoinOutputs([o] + rest) == Then(o, JoinOutputs(rest))
  {
    assert ([o] + rest)[1..] == rest;
  }

  /** The first piece and the rest. */
  lemma RunsFirst<V>(s: string, p: Piece, rest: string, next: nat, compiled: bool, args: seq<V>, h: Handler<V>)
    requires Pieces(s, compiled) == [p] + Pieces(rest, compiled)
    ensures p.Chr? ==> Runs(s, next, compiled, args, h) == Then(Some([p.c]), Runs(rest, next, compiled, args, h))
    ensures p.Percent? ==> Runs(s, next, compiled, args, h) == Then(Some("%"), Runs(rest, next, compiled, args, h))
    ensures p.Conv? ==> IsNumeral(p.spec.idx)
    ensures p.Conv? ==> (Runs(s, next, compiled, args, h) ==
      Then(h(p.spec.kind, ArgAt(args, ArgIndex(p.spec, next, compiled)), Fields(p.spec, p.text)),
           Runs(rest, NextIndex(p.spec, next, compiled), compiled, args, h)))
  {
    PiecesIndexed(s, compiled);
    PiecesIndexed(rest, compiled);
    var ps := Pieces(s, compiled);
    assert ps[0] == p && ps[1..] == Pieces(rest, compiled);
    var next' := if p.Conv? then NextIndex(p.spec, next, compiled) else next;
    var os := Outputs(ps, next, compiled, args, h);
    assert os == [os[0]] + Outputs(Pieces(rest, compiled), next', compiled, args, h);
    ThenJoin(os[0], Outputs(Pieces(rest, compiled), next', compiled, args, h));
  }

  lemma PiecesChar(c: char, rest: string, strict: bool)
    requires c == '%' ==> Lone(rest)
    ensures Pieces([c] + rest, strict) == [Chr(c)] + Pieces(rest, strict)
  {
    var s := [c] + rest;
    assert s[0] == c && s[1..] == rest;
    if c == '%' {
      LoneMatches(rest);
      assert s == "%" + rest;
      assert At(s, 1, '%') <==> At(rest, 0, '%');
    }
  }

  lemma PiecesPercent(rest: string, strict: bool)
    ensures Pieces("%%" + rest, strict) == [Percent] + Pieces(rest, strict)
  {
    var s := "%%" + rest;
    assert s[0] == '%' && s[1] == '%' && s[2..] == rest;
  }

  /** A match that is recognised, and one that escaping spoils. */
  lemma PiecesText(m: Spec, t: string, rest: string, strict: bool)
    requires Scan(t + rest) == Some(m) && m.len == |t|
    ensures !(strict && EscapedPad(m)) ==> Pieces(t + rest, strict) == [Conv(m, t)] + Pieces(rest, strict)
    ensures strict && EscapedPad(m) ==> t != "" && Pieces(t + rest, strict) == [Chr('%')] + Pieces(t[1..] + rest, strict)
  {
    var s := t + rest;
    TextPlain(s, 1);
    assert s[..|t|] == t && s[|t|..] == rest;
    assert t != "" ==> s[1..] == t[1..] + rest;
  }

  lemma TextPercent(m: Spec, t: string, rest: string)
    requires Scan(t + rest) == Some(m) && m.len == |t| && EscapedPad(m)
    ensures t != "" && t[0] == '%' && '%' !in t[1..]
  {
    var s := t + rest;
    PadOf(s);
    TextPlain(s, 0);
    assert s[0] == t[0];
    forall j | 1 <= j < |t| ensures t[j] != '%' {
      TextPlain(s, j);
      assert m.pad == s[PadStart(s)..PadEnd(s, PadStart(s))];
      assert s[j] == t[j];
    }
  }

  lemma PadSpoils(pad: string)
    requires |pad| == 2 ==> pad[0] == '\''
    ensures pad == "'\"" || pad == "'\\" <==> |pad| == 2 && IsEscaped(pad[1])
  {
    if |pad| == 2 {
      assert pad == ['\'', pad[1]];
    }
  }

  lemma {:induction false} CharsRun<V>(t: string, rest: string, next: nat, compiled: bool, args: seq<V>, h: Handler<V>)
    requires '%' !in t
    ensures Runs(t + rest, next, compiled, args, h) == Then(Some(t), Runs(rest, next, compiled, args, h))
    decreases |t|
  {
    if t == "" {
      assert t + rest == rest;
      NothingThen(Runs(rest, next, compiled, args, h));
    } else {
      var more := t[1..] + rest;
      assert t + rest == [t[0]] + more;
      PiecesChar(t[0], more, compiled);
      RunsFirst(t + rest, Chr(t[0]), more, next, compiled, args, h);
      CharsRun(t[1..], rest, next, compiled, args, h);
      ThenThen([t[0]], t[1..], Runs(rest, next, compiled, args, h));
      assert [t[0]] + t[1..] == t;
    }
  }

  lemma NothingThen(o: Option<string>)
    ensures Then(Some(""), o) == o
  {
    if o.Some? {
      assert "" + o.value == o.value;
    }
  }

  lemma ThenThen(a: string, b: string, o: Option<string>)
    ensures Then(Some(a), Then(Some(b), o)) == Then(Some(a + b), o)
  {
    if o.Some? {
      assert a + (b + o.value) == a + b + o.value;
    }
  }

  /** A specification that escaping spoils is its own text. */
  lemma SpoiledRuns<V>(m: Spec, t: string, rest: string, next: nat, args: seq<V>, h: Handler<V>)
    requires Scan(t + rest) == Some(m) && m.len == |t| && EscapedPad(m)
    ensures Runs(t + rest, next, true, args, h) == Then(Some(t), Runs(rest, next, true, args, h))
  {
    PiecesText(m, t, rest, true);
    TextPercent(m, t, rest);
    RunsFirst(t + rest, Chr('%'), t[1..] + rest, next, true, args, h);
    CharsRun(t[1..], rest, next, true, args, h);
    ThenThen(['%'], t[1..], Runs(rest, next, true, args, h));
    assert ['%'] + t[1..] == t;
  }

  lemma FieldsAre(p: Parts, t: string)
    ensures Fields(Spec(|t|, p.idx, p.sign, p.pad, p.width, p.prec, p.kind), t)
         == [t, p.idx, p.sign, PadChar(p), p.width, p.prec, [p.kind]]
  {
    assert p.pad != "" ==> p.pad[|p.pad| - 1..] == [p.pad[|p.pad| - 1]];
  }

  lemma ConvRuns<V>(p: Parts, m: Spec, t: string, rest: string, next: nat, compiled: bool, args: seq<V>, h: Handler<V>)
    requires IsNumeral(p.idx) && m == Spec(|t|, p.idx, p.sign, p.pad, p.width, p.prec, p.kind)
    requires Pieces(t + rest, compiled) == [Conv(m, t)] + Pieces(rest, compiled)
    ensures Runs(t + rest, next, compiled, args, h) ==
      if Explicit(p, compiled) then
        Then(Handled(p, t, Value(p.idx) - 1, args, h), Runs(rest, next, compiled, args, h))
      else Then(Handled(p, t, next, args, h), Runs(rest, next + 1, compiled, args, h))
  {
    FieldsAre(p, t);
    RunsFirst(t + rest, Conv(m, t), rest, next, compiled, args, h);
  }

  lemma SpoiledIs(p: Parts, m: Spec)
    requires WellFormed(p) && m.pad == p.pad
    ensures EscapedPad(m) <==> Spoiled(p)
  {
    PadSpoils(p.pad);
  }

  lemma TextRuns<V>(p: Parts, t: string, rest: string, next: nat, compiled: bool, args: seq<V>, h: Handler<V>)
    requires WellFormed(p) && Scan(t + rest) == Some(Spec(|t|, p.idx, p.sign, p.pad, p.width, p.prec, p.kind))
    ensures Runs(t + rest, next, compiled, args, h) ==
      if compiled && Spoiled(p) then Then(Some(t), Runs(rest, next, compiled, args, h))
      else if Explicit(p, compiled) then
        Then(Handled(p, t, Value(p.idx) - 1, args, h), Runs(rest, next, compiled, args, h))
      else Then(Handled(p, t, next, args, h), Runs(rest, next + 1, compiled, args, h))
  {
    var m := Spec(|t|, p.idx, p.sign, p.pad, p.width, p.prec, p.kind);
    SpoiledIs(p, m);
    if compiled && Spoiled(p) {
      SpoiledRuns(m, t, rest, next, args, h);
    } else {
      PiecesText(m, t, rest, compiled);
      ConvRuns(p, m, t, rest, next, compiled, args, h);
    }
  }

  /** The pieces mean what the items mean. */
  lemma {:induction false} ItemsRun<V>(items: seq<Item>, next: nat, compiled: bool, args: seq<V>, h: Handler<V>)
    requires Reads(items)
    ensures Runs(Written(items), next, compiled, args, h) == Meaning(items, next, compiled, args, h)
    decreases |items|
  {
    if items == [] {
      assert Pieces("", compiled) == [];
    } else {
      var rest := items[1..];
      var tail := Written(rest);
      match items[0] {
        case Char(c) =>
          ItemsRun(rest, next, compiled, args, h);
          PiecesChar(c, tail, compiled);
          RunsFirst([c] + tail, Chr(c), tail, next, compiled, args, h);
        case PercentSign =>
          ItemsRun(rest, next, compiled, args, h);
          PiecesPercent(tail, compiled);
          RunsFirst("%%" + tail, Percent, tail, next, compiled, args, h);
        case Specification(p) =>
          ItemsRun(rest, next, compiled, args, h);
          ItemsRun(rest, next + 1, compiled, args, h);
          PartsMatch(p, tail);
          TextRuns(p, SpecText(p), tail, next, compiled, args, h);
      }
    }
  }

  /** `sprintf` gives its items' meaning: a handler gets the specification's text, index,
      sign, last padding character or a blank, width, precision and kind, in this order. */
  lemma SprintfMeans<V>(items: seq<Item>, args: seq<V>, h: Handler<V>)
    requires Reads(items)
    ensures Sprintf(Written(items), args, h) == Meaning(items, 0, false, args, h)
  {
    ItemsRun(items, 0, false, args, h);
  }

  /** Compiled code gives the meaning that compilation leaves, unless a line terminator
      makes it a syntax error. */
  lemma CompiledMeans<V>(items: seq<Item>, args: seq<V>, h: Handler<V>)
    requires Reads(items)
    ensures RunSource(Compile(Written(items)), args, h) ==
      if HasBreak(Written(items)) then SyntaxError else Ran(Meaning(items, 0, true, args, h))
  {
    var s := Written(items);
    CompileReads(s);
    ProgramMeans(Pieces(s, true), 0, args, h);
    ItemsRun(items, 0, true, args, h);
  }
}
