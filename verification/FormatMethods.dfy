/** The two passes over a format as they run: a callback per match, with the running
    argument index held across the calls. */
module FormatMethods {
  import opened Numerals
  import opened Options
  import opened FormatRegex
  import opened FormatTokens
  import opened FormatCompiler
  import opened FormatItems
  import opened FormatMeaning
  import FormatSource

  /** What is finished, before what is still to come. */
  function Before(done: string, rest: Option<string>): Option<string> {
    if rest.None? then None else Some(done + rest.value)
  }

  lemma BeforeStep(done: string, o: Option<string>, rest: seq<Option<string>>)
    ensures o.None? ==> Before(done, JoinOutputs([o] + rest)) == None
    ensures o.Some? ==> Before(done, JoinOutputs([o] + rest)) == Before(done + o.value, JoinOutputs(rest))
  {
    assert ([o] + rest)[1..] == rest;
    if o.Some? && JoinOutputs(rest).Some? {
      assert done + (o.value + JoinOutputs(rest).value) == done + o.value + JoinOutputs(rest).value;
    }
  }

  lemma BeforeEmpty(r: Option<string>)
    ensures Before("", r) == r
  {
    if r.Some? {
      assert "" + r.value == r.value;
    }
  }

  /** Finds the next piece of a format. */
  method CutPiece(s: string) returns (p: Piece, after: string)
    requires s != ""
    ensures |after| < |s| && Pieces(s, false) == [p] + Pieces(after, false)
    ensures Indexed(Pieces(after, false)) && (p.Conv? ==> IsNumeral(p.spec.idx))
  {
    PiecesIndexed(s, false);
    if At(s, 0, '%') && At(s, 1, '%') {
      p, after := Percent, s[2..];
    } else {
      var found := Scan(s);
      if found.Some? {
        TextPlain(s, 0);
        p, after := Conv(found.value, s[..found.value.len]), s[found.value.len..];
        assert Pieces(s, false)[0] == p;
      } else {
        p, after := Chr(s[0]), s[1..];
      }
    }
    PiecesIndexed(after, false);
  }

  function PieceText<V>(p: Piece, next: nat, args: seq<V>, h: Handler<V>): Option<string>
    requires p.Conv? ==> IsNumeral(p.spec.idx)
  {
    match p
    case Chr(c) => Some([c])
    case Percent => Some("%")
    case Conv(m, text) => h(m.kind, ArgAt(args, ArgIndex(m, next, false)), Fields(m, text))
  }

  function PieceNext(p: Piece, next: nat, compiled: bool): nat
    requires p.Conv? ==> IsNumeral(p.spec.idx)
  {
    if p.Conv? then NextIndex(p.spec, next, compiled) else next
  }

  lemma OutputsCons<V>(p: Piece, ps: seq<Piece>, next: nat, args: seq<V>, h: Handler<V>)
    requires Indexed(ps) && (p.Conv? ==> IsNumeral(p.spec.idx))
    ensures Indexed([p] + ps)
    ensures Outputs([p] + ps, next, false, args, h) ==
      [PieceText(p, next, args, h)] + Outputs(ps, PieceNext(p, next, false), false, args, h)
  {
    assert ([p] + ps)[1..] == ps;
  }

  /** The replacement of one piece, and the argument index after it. */
  method ReplacePiece<V>(p: Piece, index: nat, args: seq<V>, h: Handler<V>) returns (text: Option<string>, next: nat)
    requires p.Conv? ==> IsNumeral(p.spec.idx)
    ensures text == PieceText(p, index, args, h) && next == PieceNext(p, index, false)
  {
    next := index;
    if p.Chr? {
      text := Some([p.c]);
    } else if p.Percent? {
      text := Some("%");
    } else {
      var explicit := Value(p.spec.idx);
      var ins := ArgAt(args, if explicit != 0 then explicit - 1 else index);
      if explicit == 0 {
        next := index + 1;
      }
      text := h(p.spec.kind, ins, Fields(p.spec, p.text));
    }
  }

  /** Interprets a format: matches are replaced by what their handlers return. */
  method RunSprintf<V>(format: string, args: seq<V>, h: Handler<V>) returns (r: Option<string>)
    ensures r == Sprintf(format, args, h)
    ensures forall items :: Reads(items) && Written(items) == format ==> r == Meaning(items, 0, false, args, h)
  {
    forall items | Reads(items) && Written(items) == format
      ensures Sprintf(format, args, h) == Meaning(items, 0, false, args, h)
    {
      SprintfMeans(items, args, h);
    }
    var output, rest, index := "", format, 0;
    PiecesIndexed(format, false);
    BeforeEmpty(Sprintf(format, args, h));
    while rest != ""
      invariant Indexed(Pieces(rest, false))
      invariant Before(output, JoinOutputs(Outputs(Pieces(rest, false), index, false, args, h))) == Sprintf(format, args, h)
      decreases |rest|
    {
      var p, after := CutPiece(rest);
      var text, next := ReplacePiece(p, index, args, h);
      OutputsCons(p, Pieces(after, false), index, args, h);
      BeforeStep(output, text, Outputs(Pieces(after, false), next, false, args, h));
      if text.None? {
        return None;
      }
      output, rest, index := output + text.value, after, next;
    }
    assert output + "" == output;
    return Some(output);
  }

  /** The first replacement: `\` goes before every `"` and `\`. */
  method RunEscape(s: string) returns (r: string)
    ensures r == Escape(s)
  {
    r := "";
    for i := 0 to |s|
      invariant r == Escape(s[..i])
    {
      assert s[..i + 1] == s[..i] + [s[i]];
      EscapeAppend(s[..i], [s[i]]);
      assert [s[i]][1..] == "";
      r := r + if IsEscaped(s[i]) then ['\\', s[i]] else [s[i]];
    }
    assert s[..|s|] == s;
  }

  function PieceEmit(p: Piece, next: nat): string
    requires p.Conv? ==> IsNumeral(p.spec.idx)
  {
    match p
    case Chr(c) => [c]
    case Percent => "%"
    case Conv(m, text) => "\", " + CallText(m.kind, ArgIndex(m, next, true), Fields(m, text)) + ", \""
  }

  lemma EmitCons(p: Piece, ps: seq<Piece>, next: nat)
    requires Indexed(ps) && (p.Conv? ==> IsNumeral(p.spec.idx))
    ensures Indexed([p] + ps)
    ensures Emit([p] + ps, next) == PieceEmit(p, next) + Emit(ps, PieceNext(p, next, true))
  {
    assert ([p] + ps)[1..] == ps;
  }

  lemma RegroupEmit(a: string, b: string, c: string)
    ensures a + (b + c) == a + b + c
  {
  }

  /** The text one piece is replaced by, and the argument index after it. */
  method EmitPiece(p: Piece, index: nat) returns (text: string, next: nat)
    requires p.Conv? ==> IsNumeral(p.spec.idx)
    ensures text == PieceEmit(p, index) && next == PieceNext(p, index, true)
  {
    next := index;
    if p.Chr? {
      text := [p.c];
    } else if p.Percent? {
      text := "%";
    } else {
      var ins := if p.spec.idx != "" then Value(p.spec.idx) - 1 else index;
      if p.spec.idx == "" {
        next := index + 1;
      }
      text := "\", " + CallText(p.spec.kind, ins, Fields(p.spec, p.text)) + ", \"";
    }
  }

  /** Compiles a format to the source text of a function. */
  method RunCompile(format: string) returns (src: string)
    ensures src == Compile(format)
    ensures forall items :: Reads(items) && Written(items) == format ==>
      src == "return [\"" + FormatSource.Source(items, 0) + "\"].join(\"\")"
  {
    forall items | Reads(items) && Written(items) == format
      ensures Compile(format) == "return [\"" + FormatSource.Source(items, 0) + "\"].join(\"\")"
    {
      FormatSource.CompileIs(items);
    }
    var rest := RunEscape(format);
    ghost var whole := rest;
    PiecesIndexed(whole, false);
    var result, index := "", 0;
    assert "" + Emit(Pieces(whole, false), 0) == Emit(Pieces(whole, false), 0);
    while rest != ""
      invariant Indexed(Pieces(rest, false))
      invariant result + Emit(Pieces(rest, false), index) == Emit(Pieces(whole, false), 0)
      decreases |rest|
    {
      var p, after := CutPiece(rest);
      var text, next := EmitPiece(p, index);
      EmitCons(p, Pieces(after, false), index);
      RegroupEmit(result, text, Emit(Pieces(after, false), next));
      result, rest, index := result + text, after, next;
    }
    assert result + "" == result;
    return OPEN + ("\"" + result + "\"") + CLOSE;
  }
}
