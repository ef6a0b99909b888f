/** `sprintf` interprets a format; `compile` turns it into the source text of a
    function. The text is read back here as the JavaScript it is: an array of string
    literals and handler calls, joined. */
module FormatCompiler {
  import opened Texts
  import opened Numerals
  import opened Options
  import opened FormatRegex
  import opened FormatTokens

  /** A type handler: kind, argument (None when undefined) and the seven fields of
      the specification. None means that it throws. */
  type Handler<!V> = (char, Option<V>, seq<string>) -> Option<string>

  function IntText(n: int): string {
    if n < 0 then "-" + NatText(-n) else NatText(n)
  }

  // ------------------------------------------------------------- interpreting

  /** What a handler sees of a specification; the padding is its last character. */
  function Fields(m: Spec, text: string): (x: seq<string>)
    ensures |x| == 7
  {
    [text, m.idx, m.sign, if m.pad == "" then " " else [m.pad[|m.pad| - 1]], m.width, m.prec, [m.kind]]
  }

  function ArgAt<V>(args: seq<V>, i: int): Option<V> {
    if 0 <= i < |args| then Some(args[i]) else None
  }

  /** Where a piece finds its argument: an explicit index counts from 1. The
      interpreter treats the index 0 like a missing one, compiled code does not. */
  function ArgIndex(m: Spec, next: nat, compiled: bool): int
    requires IsNumeral(m.idx)
  {
    if (if compiled then m.idx != "" else Value(m.idx) != 0) then Value(m.idx) - 1 else next
  }

  function NextIndex(m: Spec, next: nat, compiled: bool): nat
    requires IsNumeral(m.idx)
  {
    if (if compiled then m.idx != "" else Value(m.idx) != 0) then next else next + 1
  }

  /** Pieces cut from a format have an index of digits only. */
  ghost predicate Indexed(ps: seq<Piece>) {
    forall i :: 0 <= i < |ps| && ps[i].Conv? ==> IsNumeral(ps[i].spec.idx)
  }

  function Outputs<V>(ps: seq<Piece>, next: nat, compiled: bool, args: seq<V>, h: Handler<V>): seq<Option<string>>
    requires Indexed(ps)
  {
    if ps == [] then []
    else
      var rest := ps[1..];
      match ps[0]
      case Chr(c) => [Some([c])] + Outputs(rest, next, compiled, args, h)
      case Percent => [Some("%")] + Outputs(rest, next, compiled, args, h)
      case Conv(m, text) =>
        var i := ArgIndex(m, next, compiled);
        [h(m.kind, ArgAt(args, i), Fields(m, text))] + Outputs(rest, NextIndex(m, next, compiled), compiled, args, h)
  }

  /** Concatenation; one throw throws. */
  function JoinOutputs(outs: seq<Option<string>>): Option<string> {
    if outs == [] then Some("")
    else if outs[0].None? || JoinOutputs(outs[1..]).None? then None
    else Some(outs[0].value + JoinOutputs(outs[1..]).value)
  }

  lemma {:induction false} PiecesIndexed(s: string, strict: bool)
    ensures Indexed(Pieces(s, strict))
    decreases |s|
  {
    if s == "" {
    } else if At(s, 0, '%') && At(s, 1, '%') {
      PiecesIndexed(s[2..], strict);
    } else if Scan(s).Some? {
      ScanIndexed(s);
      TextPlain(s, 0);
      PiecesIndexed(s[Scan(s).value.len..], strict);
      PiecesIndexed(s[1..], strict);
    } else {
      PiecesIndexed(s[1..], strict);
    }
  }

  lemma ScanIndexed(s: string)
    requires Scan(s).Some?
    ensures IsNumeral(Scan(s).value.idx)
  {
    var k := SkipDigits(s, 1);
    if IdxEnd(s) > 1 {
      assert Scan(s).value.idx == s[1..k];
    }
  }

  function Sprintf<V>(s: string, args: seq<V>, h: Handler<V>): Option<string> {
    PiecesIndexed(s, false);
    JoinOutputs(Outputs(Pieces(s, false), 0, false, args, h))
  }

  // ---------------------------------------------------------------- compiling

  const CALL := "String.prototype.sprintf."
  const ARGUMENTS := "(arguments["
  const OPEN := "return ["
  const CLOSE := "].join(\"\")"

  function CallText(kind: char, arg: int, x: seq<string>): string {
    CALL + [kind] + ARGUMENTS + IntText(arg) + "], [\"" + JoinText(x, "\", \"") + "\"])"
  }

  /** The text a piece of the escaped format is replaced by. */
  function Emit(ps: seq<Piece>, next: nat): string
    requires Indexed(ps)
  {
    if ps == [] then ""
    else
      var rest := ps[1..];
      match ps[0]
      case Chr(c) => [c] + Emit(rest, next)
      case Percent => "%" + Emit(rest, next)
      case Conv(m, text) =>
        "\", " + CallText(m.kind, ArgIndex(m, next, true), Fields(m, text)) + ", \"" + Emit(rest, NextIndex(m, next, true))
  }

  /** The source text made from a format. */
  function Compile(s: string): string {
    PiecesIndexed(Escape(s), false);
    OPEN + ("\"" + Emit(Pieces(Escape(s), false), 0) + "\"") + CLOSE
  }

  // ------------------------------------------------------------------ reading

  datatype Elem = Lit(s: string) | Call(kind: char, arg: int, fields: seq<string>)

  predicate Starts(s: string, p: string) { |p| <= |s| && s[..|p|] == p }

  /** A string literal after its opening quote: its value and what follows. */
  function ReadLit(s: string): (r: Option<(string, string)>)
    ensures r.Some? ==> |r.value.1| < |s|
    decreases |s|
  {
    if s == "" || IsBreak(s[0]) then None
    else if s[0] == '"' then Some(("", s[1..]))
    else if s[0] == '\\' then
      if |s| > 1 && IsEscaped(s[1]) then Prepend(s[1], ReadLit(s[2..])) else None
    else Prepend(s[0], ReadLit(s[1..]))
  }

  function Prepend(c: char, r: Option<(string, string)>): Option<(string, string)> {
    match r
    case None => None
    case Some((v, rest)) => Some(([c] + v, rest))
  }

  /** Comma-separated string literals. */
  function ReadLits(s: string): (r: Option<(seq<string>, string)>)
    ensures r.Some? ==> |r.value.1| < |s|
    decreases |s|
  {
    if !Starts(s, "\"") then None
    else
      match ReadLit(s[1..])
      case None => None
      case Some((v, rest)) =>
        if Starts(rest, ", ") then
          match ReadLits(rest[2..])
          case None => None
          case Some((vs, end)) => Some(([v] + vs, end))
        else Some(([v], rest))
  }

  function ReadNat(s: string): (r: Option<(int, string)>)
    ensures r.Some? ==> |r.value.1| < |s|
  {
    var k := SkipDigits(s, 0);
    if k == 0 then None else Some((Value(s[..k]), s[k..]))
  }

  function ReadInt(s: string): (r: Option<(int, string)>)
    ensures r.Some? ==> |r.value.1| < |s|
  {
    if At(s, 0, '-') then
      match ReadNat(s[1..])
      case None => None
      case Some((n, rest)) => Some((-n, rest))
    else ReadNat(s)
  }

  /** The argument index and the field list of a call. */
  function ReadArgs(kind: char, s: string): (r: Option<(Elem, string)>)
    ensures r.Some? ==> |r.value.1| < |s|
  {
    match ReadInt(s)
    case None => None
    case Some((n, rest)) =>
      if !Starts(rest, "], [") then None
      else
        match ReadLits(rest[4..])
        case None => None
        case Some((x, end)) =>
          if Starts(end, "])") then Some((Call(kind, n, x), end[2..])) else None
  }

  function ReadCall(s: string): (r: Option<(Elem, string)>)
    ensures r.Some? ==> |r.value.1| < |s|
  {
    if s == "" || !Starts(s[1..], ARGUMENTS) then None else ReadArgs(s[0], s[1 + |ARGUMENTS|..])
  }

  function ReadElem(s: string): (r: Option<(Elem, string)>)
    ensures r.Some? ==> |r.value.1| < |s|
  {
    if Starts(s, "\"") then
      match ReadLit(s[1..])
      case None => None
      case Some((v, rest)) => Some((Lit(v), rest))
    else if Starts(s, CALL) then ReadCall(s[|CALL|..])
    else None
  }

  /** Comma-separated array elements. */
  function ReadElems(s: string): Option<(seq<Elem>, string)>
    decreases |s|
  {
    match ReadElem(s)
    case None => None
    case Some((e, rest)) =>
      if Starts(rest, ", ") then
        match ReadElems(rest[2..])
        case None => None
        case Some((es, end)) => Some(([e] + es, end))
      else Some(([e], rest))
  }

  /** The body of a compiled function. None is a syntax error. */
  function ReadProgram(src: string): Option<seq<Elem>> {
    if !Starts(src, OPEN) then None
    else
      match ReadElems(src[|OPEN|..])
      case None => None
      case Some((es, rest)) => if rest == CLOSE then Some(es) else None
  }

  function Evaluate<V>(es: seq<Elem>, args: seq<V>, h: Handler<V>): seq<Option<string>> {
    if es == [] then []
    else
      [match es[0]
       case Lit(s) => Some(s)
       case Call(kind, arg, x) => h(kind, ArgAt(args, arg), x)] + Evaluate(es[1..], args, h)
  }

  datatype Outcome = SyntaxError | Ran(result: Option<string>)

  /** Running a source text on arguments. */
  function RunSource<V>(src: string, args: seq<V>, h: Handler<V>): Outcome {
    match ReadProgram(src)
    case None => SyntaxError
    case Some(es) => Ran(JoinOutputs(Evaluate(es, args, h)))
  }
}
