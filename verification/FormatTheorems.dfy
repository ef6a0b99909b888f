/** Compiling a format preserves its meaning, and exactly when. */
module FormatTheorems {
  import opened Texts
  import opened Numerals
  import opened Options
  import opened FormatRegex
  import opened FormatTokens
  import opened FormatCompiler

  // ---------------------------------------------------- literals read back

  predicate IsClean(s: string) {
    forall i :: 0 <= i < |s| ==> !IsEscaped(s[i]) && !IsBreak(s[i])
  }

  lemma {:induction false} LitReads(s: string, tail: string)
    requires IsClean(s)
    ensures ReadLit(s + "\"" + tail) == Some((s, tail))
    decreases |s|
  {
    var t := s + "\"" + tail;
    if s == "" {
      assert t[1..] == tail;
    } else {
      assert t[1..] == s[1..] + "\"" + tail;
      LitReads(s[1..], tail);
      assert [s[0]] + s[1..] == s;
    }
  }

  lemma StartsWith(p: string, rest: string)
    ensures Starts(p + rest, p) && (p + rest)[|p|..] == rest
  {
  }

  lemma {:induction false} LitsRead(parts: seq<string>, tail: string)
    requires parts != [] && (forall i :: 0 <= i < |parts| ==> IsClean(parts[i])) && !Starts(tail, ", ")
    ensures ReadLits("\"" + JoinText(parts, "\", \"") + "\"" + tail) == Some((parts, tail))
    decreases |parts|
  {
    var text := "\"" + JoinText(parts, "\", \"") + "\"" + tail;
    if |parts| == 1 {
      assert text[1..] == parts[0] + "\"" + tail;
      LitReads(parts[0], tail);
      assert [parts[0]] == parts;
    } else {
      var rest := parts[1..];
      var next := "\"" + JoinText(rest, "\", \"") + "\"" + tail;
      assert text[1..] == parts[0] + "\"" + (", " + next);
      LitReads(parts[0], ", " + next);
      StartsWith(", ", next);
      LitsRead(rest, tail);
      assert [parts[0]] + rest == parts;
    }
  }

  lemma NatReads(n: nat, tail: string)
    requires !DigitAt(tail, 0)
    ensures ReadNat(NatText(n) + tail) == Some((n, tail))
    ensures !At(NatText(n) + tail, 0, '-')
  {
    var t := NatText(n);
    NatTextValue(n);
    SkipNumeral(t, tail, 0);
    assert (t + tail)[0] == t[0];
    assert (t + tail)[..|t|] == t && (t + tail)[|t|..] == tail;
  }

  lemma IntReads(n: int, tail: string)
    requires !DigitAt(tail, 0)
    ensures ReadInt(IntText(n) + tail) == Some((n, tail))
  {
    if n < 0 {
      NatReads(-n, tail);
      var s := "-" + NatText(-n) + tail;
      assert s[0] == '-' && s[1..] == NatText(-n) + tail;
    } else {
      NatReads(n, tail);
    }
  }

  lemma ArgsRead(kind: char, arg: int, x: seq<string>, tail: string)
    requires x != [] && forall i :: 0 <= i < |x| ==> IsClean(x[i])
    ensures var lits := "\"" + JoinText(x, "\", \"") + "\"" + ("])" + tail);
      ReadArgs(kind, IntText(arg) + ("], [" + lits)) == Some((Call(kind, arg, x), tail))
  {
    var lits := "\"" + JoinText(x, "\", \"") + "\"" + ("])" + tail);
    IntReads(arg, "], [" + lits);
    StartsWith("], [", lits);
    LitsRead(x, "])" + tail);
    StartsWith("])", tail);
  }

  lemma CallBodyReads(kind: char, args: string)
    ensures ReadCall([kind] + (ARGUMENTS + args)) == ReadArgs(kind, args)
  {
    var body := [kind] + (ARGUMENTS + args);
    assert body[1..] == ARGUMENTS + args;
    StartsWith(ARGUMENTS, args);
    assert body[1 + |ARGUMENTS|..] == args;
  }

  lemma ElemCall(body: string)
    ensures ReadElem(CALL + body) == ReadCall(body)
  {
    StartsWith(CALL, body);
    assert (CALL + body)[0] == CALL[0] == 'S';
  }

  /** A printed call reads back as itself. */
  lemma CallReads(kind: char, arg: int, x: seq<string>, tail: string)
    requires x != [] && forall i :: 0 <= i < |x| ==> IsClean(x[i])
    ensures ReadElem(CallText(kind, arg, x) + tail) == Some((Call(kind, arg, x), tail))
  {
    var lits := "\"" + JoinText(x, "\", \"") + "\"" + ("])" + tail);
    var body := [kind] + (ARGUMENTS + (IntText(arg) + ("], [" + lits)));
    assert ReadCall(body) == Some((Call(kind, arg, x), tail)) by {
      CallBodyReads(kind, IntText(arg) + ("], [" + lits));
      ArgsRead(kind, arg, x, tail);
    }
    assert CallText(kind, arg, x) + tail == CALL + body by {
      CallTextIs(kind, arg, x, tail);
    }
    ElemCall(body);
  }

  lemma CallTextIs(kind: char, arg: int, x: seq<string>, tail: string)
    ensures CallText(kind, arg, x) + tail ==
      CALL + ([kind] + (ARGUMENTS + (IntText(arg) + ("], [" + ("\"" + JoinText(x, "\", \"") + "\"" + ("])" + tail))))))
  {
    RegroupCall(CALL, [kind], ARGUMENTS, IntText(arg), JoinText(x, "\", \""), tail);
  }

  lemma RegroupCall(a: string, b: string, c: string, d: string, e: string, tail: string)
    ensures a + b + c + d + "], [\"" + e + "\"])" + tail ==
      a + (b + (c + (d + ("], [" + ("\"" + e + "\"" + ("])" + tail))))))
  {
    assert "], [\"" == "], [" + "\"" && "\"])" == "\"" + "])";
  }

  // --------------------------------------------------- the program read back

  /** The array the compiled text denotes: literals with the calls between them. */
  function Program(ps: seq<Piece>, next: nat): (es: seq<Elem>)
    requires Indexed(ps)
    ensures es != [] && es[0].Lit?
  {
    if ps == [] then [Lit("")]
    else
      var rest := ps[1..];
      match ps[0]
      case Chr(c) => Glue(c, Program(rest, next))
      case Percent => Glue('%', Program(rest, next))
      case Conv(m, text) =>
        [Lit(""), Call(m.kind, ArgIndex(m, next, true), Fields(m, text))] + Program(rest, NextIndex(m, next, true))
  }

  function Glue(c: char, es: seq<Elem>): (r: seq<Elem>)
    requires es != [] && es[0].Lit?
    ensures r != [] && r[0].Lit?
  {
    [Lit([c] + es[0].s)] + es[1..]
  }

  ghost predicate CleanPieces(ps: seq<Piece>) {
    forall i :: 0 <= i < |ps| && ps[i].Conv? ==> CleanFields(Fields(ps[i].spec, ps[i].text))
  }

  ghost predicate CleanFields(x: seq<string>) {
    forall i :: 0 <= i < |x| ==> IsClean(x[i])
  }

  predicate Broken(ps: seq<Piece>) {
    exists i :: 0 <= i < |ps| && ps[i].Chr? && IsBreak(ps[i].c)
  }

  lemma {:induction false} EscapeIndexed(ps: seq<Piece>)
    requires Indexed(ps)
    ensures Indexed(EscapePieces(ps))
    decreases |ps|
  {
    if ps == [] {
    } else {
      EscapeIndexed(ps[1..]);
    }
  }

  /** The emitted text from a piece on, up to and past the closing quote. */
  function Body(ps: seq<Piece>, next: nat): string
    requires Indexed(ps)
  {
    EscapeIndexed(ps);
    Emit(EscapePieces(ps), next) + "\"" + CLOSE
  }

  lemma EmitChr(c: char, ps: seq<Piece>, next: nat)
    requires Indexed(ps)
    ensures Indexed([Chr(c)] + ps)
    ensures Emit([Chr(c)] + ps, next) == [c] + Emit(ps, next)
  {
    assert ([Chr(c)] + ps)[1..] == ps;
  }

  lemma EmitPair(c: char, ps: seq<Piece>, next: nat)
    requires Indexed(ps)
    ensures Indexed([Chr('\\'), Chr(c)] + ps)
    ensures Emit([Chr('\\'), Chr(c)] + ps, next) == ['\\', c] + Emit(ps, next)
  {
    var rest := [Chr(c)] + ps;
    EmitChr(c, ps, next);
    EmitChr('\\', rest, next);
    assert [Chr('\\'), Chr(c)] + ps == [Chr('\\')] + rest;
    assert ['\\', c] + Emit(ps, next) == ['\\'] + ([c] + Emit(ps, next));
  }

  lemma BodyChr(ps: seq<Piece>, next: nat)
    requires ps != [] && ps[0].Chr? && Indexed(ps)
    ensures Indexed(ps[1..])
    ensures Body(ps, next) == (if IsEscaped(ps[0].c) then ['\\', ps[0].c] else [ps[0].c]) + Body(ps[1..], next)
  {
    var e := EscapePieces(ps);
    EscapeIndexed(ps);
    EscapeIndexed(ps[1..]);
    if IsEscaped(ps[0].c) {
      assert e == [Chr('\\'), ps[0]] + EscapePieces(ps[1..]);
      assert e[1..] == [ps[0]] + EscapePieces(ps[1..]);
      assert e[1..][1..] == EscapePieces(ps[1..]);
      EmitPair(ps[0].c, EscapePieces(ps[1..]), next);
    } else {
      assert e[1..] == EscapePieces(ps[1..]);
    }
  }

  lemma BodyPercent(ps: seq<Piece>, next: nat)
    requires ps != [] && ps[0].Percent? && Indexed(ps)
    ensures Indexed(ps[1..])
    ensures Body(ps, next) == "%" + Body(ps[1..], next)
  {
    EscapeIndexed(ps);
    EscapeIndexed(ps[1..]);
    assert EscapePieces(ps)[1..] == EscapePieces(ps[1..]);
  }

  lemma BodyConv(ps: seq<Piece>, next: nat)
    requires ps != [] && ps[0].Conv? && Indexed(ps)
    ensures Indexed(ps[1..])
    ensures var m := ps[0].spec;
      var call := CallText(m.kind, ArgIndex(m, next, true), Fields(m, ps[0].text));
      Body(ps, next) == "\"" + (", " + (call + (", " + ("\"" + Body(ps[1..], NextIndex(m, next, true))))))
  {
    var m := ps[0].spec;
    EscapeIndexed(ps);
    EscapeIndexed(ps[1..]);
    assert EscapePieces(ps)[1..] == EscapePieces(ps[1..]);
    var call := CallText(m.kind, ArgIndex(m, next, true), Fields(m, ps[0].text));
    var rest := Emit(EscapePieces(ps[1..]), NextIndex(m, next, true));
    RegroupConv(call, rest);
  }

  lemma RegroupConv(call: string, rest: string)
    ensures "\", " + call + ", \"" + rest + "\"" + CLOSE
         == "\"" + (", " + (call + (", " + ("\"" + (rest + "\"" + CLOSE)))))
  {
    assert "\", " == "\"" + ", " && ", \"" == ", " + "\"";
  }

  lemma ElemsGlue(c: char, body: string, text: string)
    requires text == (if IsEscaped(c) then ['\\', c] else [c]) + body
    ensures IsBreak(c) ==> ReadElems("\"" + text) == None
    ensures !IsBreak(c) && ReadElems("\"" + body) == None ==> ReadElems("\"" + text) == None
    ensures !IsBreak(c) && ReadElems("\"" + body).Some? ==>
      var (es, end) := ReadElems("\"" + body).value;
      es != [] && es[0].Lit? && ReadElems("\"" + text) == Some((Glue(c, es), end))
  {
    assert ("\"" + body)[1..] == body && ("\"" + text)[1..] == text;
    if IsEscaped(c) {
      assert text[2..] == body;
    } else {
      assert text[1..] == body;
    }
    assert !IsBreak(c) ==> ReadLit(text) == Prepend(c, ReadLit(body));
    if !IsBreak(c) && ReadElems("\"" + body).Some? {
      var (v, rest) := ReadLit(body).value;
      assert ReadElem("\"" + text) == Some((Lit([c] + v), rest));
      if Starts(rest, ", ") {
        var es := ReadElems(rest[2..]).value.0;
        assert ([Lit(v)] + es)[1..] == es;
      } else {
        assert Glue(c, [Lit(v)]) == [Lit([c] + v)];
      }
    }
  }

  lemma ElemsConv(call: string, e: Elem, rest: string)
    requires ReadElem(call + (", " + rest)) == Some((e, ", " + rest))
    ensures ReadElems("\"" + ("\"" + (", " + (call + (", " + rest))))) ==
      match ReadElems(rest) case None => None case Some((es, end)) => Some(([Lit(""), e] + es, end))
  {
    var tail := call + (", " + rest);
    EmptyLit(", " + tail);
    StartsWith(", ", tail);
    StartsWith(", ", rest);
    match ReadElems(rest) {
      case None =>
      case Some((es, end)) => assert [Lit("")] + ([e] + es) == [Lit(""), e] + es;
    }
  }

  lemma EmptyLit(tail: string)
    ensures ReadElem("\"" + ("\"" + tail)) == Some((Lit(""), tail))
  {
    assert ("\"" + ("\"" + tail))[1..] == "\"" + tail;
    assert ("\"" + tail)[1..] == tail;
  }

  /** The compiled text is the program, unless a line terminator breaks a literal. */
  lemma {:induction false} BodyReads(ps: seq<Piece>, next: nat)
    requires Indexed(ps) && CleanPieces(ps)
    ensures ReadElems("\"" + Body(ps, next)) == if Broken(ps) then None else Some((Program(ps, next), CLOSE))
    decreases |ps|
  {
    if ps == [] {
      EscapeIndexed(ps);
      var s := "\"" + Body(ps, next);
      assert s[1..] == "\"" + CLOSE && s[1..][1..] == CLOSE;
      assert CLOSE[0] == ']';
    } else {
      var rest := ps[1..];
      BrokenCons(ps);
      match ps[0] {
        case Chr(c) =>
          BodyChr(ps, next);
          BodyReads(rest, next);
          ElemsGlue(c, Body(rest, next), Body(ps, next));
        case Percent =>
          BodyPercent(ps, next);
          BodyReads(rest, next);
          ElemsGlue('%', Body(rest, next), Body(ps, next));
        case Conv(m, text) =>
          BodyConv(ps, next);
          var next' := NextIndex(m, next, true);
          BodyReads(rest, next');
          var arg, x := ArgIndex(m, next, true), Fields(m, text);
          assert CleanFields(x);
          CallReads(m.kind, arg, x, ", " + ("\"" + Body(rest, next')));
          ElemsConv(CallText(m.kind, arg, x), Call(m.kind, arg, x), "\"" + Body(rest, next'));
      }
    }
  }

  lemma BrokenCons(ps: seq<Piece>)
    requires ps != []
    ensures Broken(ps) <==> (ps[0].Chr? && IsBreak(ps[0].c)) || Broken(ps[1..])
  {
    if i :| 0 <= i < |ps| && ps[i].Chr? && IsBreak(ps[i].c) {
      if i > 0 {
        assert ps[1..][i - 1] == ps[i];
      }
    }
    if i :| 0 <= i < |ps| - 1 && ps[1..][i].Chr? && IsBreak(ps[1..][i].c) {
      assert ps[i + 1] == ps[1..][i];
    }
  }

  // ------------------------------------------------- pieces of a real format

  lemma FieldsClean(s: string)
    requires Scan(s).Some? && !EscapedPad(Scan(s).value)
    ensures Scan(s).value.len <= |s|
    ensures CleanFields(Fields(Scan(s).value, s[..Scan(s).value.len]))
  {
    var m := Scan(s).value;
    var b := PadStart(s);
    TextPlain(s, 0);
    PadOf(s);
    forall j | 0 <= j < m.len ensures !IsEscaped(s[j]) && !IsBreak(s[j]) {
      TextClean(s, j);
      if j > 0 {
        TextPlain(s, j);
        QuotedNoBreak(s, b);
      }
    }
    CleanSlices(s, m.len);
    var c := PadEnd(s, b);
    var d := SkipDigits(s, c);
    var e := PrecEnd(s, d);
    assert m == Complete(s, c, Head(s, IdxEnd(s), b, c)).value && e < m.len;
    assert IsClean(s[..m.len]) && IsClean(s[0..m.len]);
    assert IsClean(m.idx) && IsClean(m.sign) && IsClean(m.pad) && IsClean(m.width) && IsClean(m.prec);
  }

  lemma QuotedNoBreak(s: string, b: nat)
    requires b <= |s|
    ensures PadEnd(s, b) == b + 2 ==> b + 1 < |s| && !IsBreak(s[b + 1])
  {
  }

  lemma CleanSlices(s: string, n: nat)
    requires n <= |s| && forall j :: 0 <= j < n ==> !IsEscaped(s[j]) && !IsBreak(s[j])
    ensures forall i, j {:trigger s[i..j]} :: 0 <= i <= j <= n ==> IsClean(s[i..j])
    ensures IsClean(s[..n])
  {
  }

  lemma {:induction false} PiecesClean(s: string)
    ensures CleanPieces(Pieces(s, true))
    decreases |s|
  {
    if s == "" {
    } else if At(s, 0, '%') && At(s, 1, '%') {
      PiecesClean(s[2..]);
    } else if Scan(s).Some? && !EscapedPad(Scan(s).value) {
      var n := Scan(s).value.len;
      FieldsClean(s);
      PiecesHit(s, n, true);
      PiecesClean(s[n..]);
    } else {
      PiecesClean(s[1..]);
      assert Pieces(s, true) == [Chr(s[0])] + Pieces(s[1..], true);
    }
  }

  /** Line terminators always end up in a literal. */
  predicate HasBreak(s: string) { exists i :: 0 <= i < |s| && IsBreak(s[i]) }

  lemma HasBreakSplit(s: string, n: nat)
    requires n <= |s|
    ensures HasBreak(s) <==> HasBreak(s[..n]) || HasBreak(s[n..])
  {
    if i :| 0 <= i < |s| && IsBreak(s[i]) {
      if i < n {
        assert s[..n][i] == s[i];
      } else {
        assert s[n..][i - n] == s[i];
      }
    }
    if i :| 0 <= i < n && IsBreak(s[..n][i]) {
      assert IsBreak(s[i]);
    }
    if i :| 0 <= i < |s| - n && IsBreak(s[n..][i]) {
      assert IsBreak(s[n + i]);
    }
  }

  lemma {:induction false} PiecesBroken(s: string)
    ensures Broken(Pieces(s, true)) <==> HasBreak(s)
    decreases |s|
  {
    if s == "" {
    } else if At(s, 0, '%') && At(s, 1, '%') {
      PiecesBroken(s[2..]);
      HasBreakSplit(s, 2);
      BrokenCons(Pieces(s, true));
    } else if Scan(s).Some? && !EscapedPad(Scan(s).value) {
      var n := Scan(s).value.len;
      FieldsClean(s);
      assert IsClean(Fields(Scan(s).value, s[..n])[0]);
      PiecesHit(s, n, true);
      PiecesBroken(s[n..]);
      HasBreakSplit(s, n);
      BrokenCons(Pieces(s, true));
    } else {
      PiecesBroken(s[1..]);
      HasBreakSplit(s, 1);
      assert Pieces(s, true) == [Chr(s[0])] + Pieces(s[1..], true);
      BrokenCons(Pieces(s, true));
      assert s[..1] == [s[0]];
      assert IsBreak(s[..1][0]) <==> IsBreak(s[0]);
    }
  }

  /** Reading the compiled source gives the program, or a syntax error exactly when
      the format holds a line terminator. */
  lemma CompileReads(s: string)
    ensures Indexed(Pieces(s, true))
    ensures ReadProgram(Compile(s)) == if HasBreak(s) then None else Some(Program(Pieces(s, true), 0))
  {
    var ps := Pieces(s, true);
    PiecesIndexed(s, true);
    PiecesClean(s);
    PiecesBroken(s);
    BodyReads(ps, 0);
    EscapeCommutes(s);
    EscapeIndexed(ps);
    PiecesIndexed(Escape(s), false);
    CompileText(s);
    StartsWith(OPEN, "\"" + Body(ps, 0));
  }

  lemma CompileText(s: string)
    requires Indexed(Pieces(s, true))
    ensures Compile(s) == OPEN + ("\"" + Body(Pieces(s, true), 0))
  {
    var ps := Pieces(s, true);
    EscapeCommutes(s);
    EscapeIndexed(ps);
    PiecesIndexed(Escape(s), false);
    var text := Emit(EscapePieces(ps), 0);
    assert OPEN + ("\"" + text + "\"") + CLOSE == OPEN + ("\"" + (text + "\"" + CLOSE));
  }

  // ------------------------------------------------------------------ meaning

  lemma GlueMeans<V>(c: char, es: seq<Elem>, args: seq<V>, h: Handler<V>)
    requires es != [] && es[0].Lit?
    ensures JoinOutputs(Evaluate(Glue(c, es), args, h)) == JoinOutputs([Some([c])] + Evaluate(es, args, h))
  {
    var outs := Evaluate(es, args, h);
    var glued := Evaluate(Glue(c, es), args, h);
    assert Glue(c, es)[1..] == es[1..];
    assert outs[1..] == Evaluate(es[1..], args, h) == glued[1..];
    assert ([Some([c])] + outs)[1..] == outs;
    assert glued[0] == Some([c] + es[0].s);
    if JoinOutputs(outs[1..]).Some? {
      var rest := JoinOutputs(outs[1..]).value;
      assert [c] + es[0].s + rest == [c] + (es[0].s + rest);
    }
  }

  lemma JoinCons(a: seq<Option<string>>, b: seq<Option<string>>, o: Option<string>)
    requires JoinOutputs(a) == JoinOutputs(b)
    ensures JoinOutputs([o] + a) == JoinOutputs([o] + b)
    ensures JoinOutputs([Some("")] + a) == JoinOutputs(a)
  {
    assert ([o] + a)[1..] == a && ([o] + b)[1..] == b && ([Some("")] + a)[1..] == a;
    if JoinOutputs(a).Some? {
      assert "" + JoinOutputs(a).value == JoinOutputs(a).value;
    }
  }

  /** The program gives what its pieces give one by one. */
  lemma {:induction false} ProgramMeans<V>(ps: seq<Piece>, next: nat, args: seq<V>, h: Handler<V>)
    requires Indexed(ps)
    ensures JoinOutputs(Evaluate(Program(ps, next), args, h)) == JoinOutputs(Outputs(ps, next, true, args, h))
    decreases |ps|
  {
    if ps == [] {
      assert Evaluate([Lit("")], args, h) == [Some("")] + [] by { assert [Lit("")][1..] == []; }
      JoinCons([], [], Some(""));
    } else {
      var rest := ps[1..];
      match ps[0] {
        case Chr(c) =>
          ProgramMeans(rest, next, args, h);
          GlueMeans(c, Program(rest, next), args, h);
          JoinCons(Evaluate(Program(rest, next), args, h), Outputs(rest, next, true, args, h), Some([c]));
        case Percent =>
          ProgramMeans(rest, next, args, h);
          GlueMeans('%', Program(rest, next), args, h);
          JoinCons(Evaluate(Program(rest, next), args, h), Outputs(rest, next, true, args, h), Some("%"));
        case Conv(m, text) =>
          var next', arg := NextIndex(m, next, true), ArgIndex(m, next, true);
          ProgramMeans(rest, next', args, h);
          var es := Program(rest, next');
          var call := Call(m.kind, arg, Fields(m, text));
          var o := h(m.kind, ArgAt(args, arg), Fields(m, text));
          assert ([Lit(""), call] + es)[1..] == [call] + es && ([call] + es)[1..] == es;
          assert Evaluate([call] + es, args, h) == [o] + Evaluate(es, args, h);
          JoinCons(Evaluate(es, args, h), Outputs(rest, next', true, args, h), o);
          JoinCons([o] + Evaluate(es, args, h), [o] + Evaluate(es, args, h), o);
      }
    }
  }

  /** An explicit index that denotes 0. */
  predicate ZeroIndex(m: Spec)
    requires IsNumeral(m.idx)
  {
    m.idx != "" && Value(m.idx) == 0
  }

  ghost predicate NoZeroIndex(ps: seq<Piece>)
    requires Indexed(ps)
  {
    forall i :: 0 <= i < |ps| && ps[i].Conv? ==> !ZeroIndex(ps[i].spec)
  }

  ghost predicate NoEscapedPad(ps: seq<Piece>) {
    forall i :: 0 <= i < |ps| && ps[i].Conv? ==> !EscapedPad(ps[i].spec)
  }

  lemma {:induction false} SameOutputs<V>(ps: seq<Piece>, next: nat, args: seq<V>, h: Handler<V>)
    requires Indexed(ps) && NoZeroIndex(ps)
    ensures Outputs(ps, next, true, args, h) == Outputs(ps, next, false, args, h)
    decreases |ps|
  {
    if ps == [] {
    } else {
      match ps[0] {
        case Chr(c) => SameOutputs(ps[1..], next, args, h);
        case Percent => SameOutputs(ps[1..], next, args, h);
        case Conv(m, text) => SameOutputs(ps[1..], NextIndex(m, next, true), args, h);
      }
    }
  }

  lemma {:induction false} SamePieces(s: string)
    requires NoEscapedPad(Pieces(s, false))
    ensures Pieces(s, true) == Pieces(s, false)
    decreases |s|
  {
    if s == "" {
    } else if At(s, 0, '%') && At(s, 1, '%') {
      assert Pieces(s, false)[1..] == Pieces(s[2..], false);
      SamePieces(s[2..]);
    } else if Scan(s).Some? {
      var n := Scan(s).value.len;
      TextPlain(s, 0);
      assert Pieces(s, false)[0] == Conv(Scan(s).value, s[..n]);
      assert Pieces(s, false)[1..] == Pieces(s[n..], false);
      SamePieces(s[n..]);
    } else {
      assert Pieces(s, false)[1..] == Pieces(s[1..], false);
      SamePieces(s[1..]);
    }
  }

  /** The formats compilation is made for: no line terminator, no quoted padding
      `"` or `\`, no explicit index 0. All three can be seen in the format. */
  ghost predicate Safe(s: string) {
    PiecesIndexed(s, false);
    !HasBreak(s) && NoEscapedPad(Pieces(s, false)) && NoZeroIndex(Pieces(s, false))
  }

  lemma SafeAgrees<V>(s: string, args: seq<V>, h: Handler<V>)
    requires Safe(s)
    ensures RunSource(Compile(s), args, h) == Ran(Sprintf(s, args, h))
  {
    PiecesIndexed(s, false);
    CompileReads(s);
    SamePieces(s);
    ProgramMeans(Pieces(s, true), 0, args, h);
    SameOutputs(Pieces(s, true), 0, args, h);
  }
}
