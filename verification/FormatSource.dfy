/** The source text that compilation makes of a format, item by item. */
module FormatSource {
  import opened Texts
  import opened Numerals
  import opened Options
  import opened FormatRegex
  import opened FormatTokens
  import opened FormatCompiler
  import opened FormatTheorems
  import opened FormatItems
  import opened FormatMeaning

  /** The elements between the quotes that open and close the array. */
  ghost function Source(items: seq<Item>, next: nat): string
    requires Reads(items)
  {
    if items == [] then "" else ItemSource(items[0], next) + Source(items[1..], NextIndex(items[0], next))
  }

  predicate Numbered(item: Item) { item.Specification? ==> IsNumeral(item.p.idx) }

  function ItemSource(item: Item, next: nat): string
    requires Numbered(item)
  {
    match item
    case Char(c) => if c == '"' || c == '\\' then ['\\', c] else [c]
    case PercentSign => "%"
    case Specification(p) => if Spoiled(p) then SpoiledSource(p) else HandlerCall(p, SpecText(p), next)
  }

  /** The index of the next argument after an item. */
  function NextIndex(item: Item, next: nat): nat {
    if item.Specification? && !Spoiled(item.p) && item.p.idx == "" then next + 1 else next
  }

  function SpoiledSource(p: Parts): string
    requires Spoiled(p)
  {
    SpecText(p.(pad := ['\'', '\\', p.pad[1]]))
  }

  /** A call of the handler, between two string literals. */
  function HandlerCall(p: Parts, t: string, next: nat): string
    requires IsNumeral(p.idx)
  {
    "\", String.prototype.sprintf." + [p.kind] + "(arguments[" + ArgumentText(p, next) + "], [\""
    + t + "\", \"" + p.idx + "\", \"" + p.sign + "\", \"" + PadChar(p) + "\", \""
    + p.width + "\", \"" + p.prec + "\", \"" + [p.kind] + "\"]), \""
  }

  function ArgumentText(p: Parts, next: nat): string
    requires IsNumeral(p.idx)
  {
    if p.idx == "" then NatText(next) else if Value(p.idx) == 0 then "-1" else NatText(Value(p.idx) - 1)
  }

  lemma ArgumentIs(p: Parts, m: Spec, next: nat)
    requires IsNumeral(p.idx) && m.idx == p.idx
    ensures IntText(ArgIndex(m, next, true)) == ArgumentText(p, next)
  {
    assert NatText(1) == "1";
    assert "-" + "1" == "-1";
  }

  lemma SevenJoined(x: seq<string>, sep: string)
    requires |x| == 7
    ensures JoinText(x, sep)
      == x[0] + sep + (x[1] + sep + (x[2] + sep + (x[3] + sep + (x[4] + sep + (x[5] + sep + x[6])))))
  {
    assert x[1..][1..] == x[2..] && x[2..][1..] == x[3..] && x[3..][1..] == x[4..] && x[4..][1..] == x[5..];
    assert x[5..] == [x[5], x[6]] && x[5..][1..] == [x[6]];
    assert JoinText([x[6]], sep) == x[6];
    assert JoinText(x[5..], sep) == x[5] + sep + x[6];
    assert JoinText(x[4..], sep) == x[4] + sep + JoinText(x[5..], sep);
    assert JoinText(x[3..], sep) == x[3] + sep + JoinText(x[4..], sep);
    assert JoinText(x[2..], sep) == x[2] + sep + JoinText(x[3..], sep);
    assert JoinText(x[1..], sep) == x[1] + sep + JoinText(x[2..], sep);
  }

  lemma Flat(a: string, k: string, b: string, n: string, c: string, x: seq<string>, sep: string, d: string, rest: string)
    requires |x| == 7
    ensures a + k + b + n + c
        + (x[0] + sep + (x[1] + sep + (x[2] + sep + (x[3] + sep + (x[4] + sep + (x[5] + sep + x[6]))))))
        + d + rest
      == a + k + b + n + c + x[0] + sep + x[1] + sep + x[2] + sep + x[3] + sep + x[4] + sep + x[5] + sep + x[6]
        + d + rest
  {
  }

  lemma Around(q: string, cs: string, call: string, k: string, ar: string, n: string, mid: string, j: string,
               end: string, b: string)
    ensures q + (cs + ((call + k + ar + n + mid + j + end) + (cs + (q + b))))
         == (q + cs + call) + k + ar + n + mid + j + (end + cs + q) + b
  {
  }

  lemma CallIs(p: Parts, t: string, x: seq<string>, n: int, b: string)
    requires x == [t, p.idx, p.sign, PadChar(p), p.width, p.prec, [p.kind]]
    ensures "\"" + (", " + (CallText(p.kind, n, x) + (", " + ("\"" + b))))
      == "\", String.prototype.sprintf." + [p.kind] + "(arguments[" + IntText(n) + "], [\""
        + t + "\", \"" + p.idx + "\", \"" + p.sign + "\", \"" + PadChar(p) + "\", \""
        + p.width + "\", \"" + p.prec + "\", \"" + [p.kind] + "\"]), \"" + b
  {
    Opening();
    JoinedCall([p.kind], IntText(n), x, "\", \"", b);
  }

  lemma Opening()
    ensures "\"" + ", " + CALL == "\", String.prototype.sprintf." && "\"])" + ", " + "\"" == "\"]), \""
  {
  }

  lemma JoinedCall(k: string, n: string, x: seq<string>, sep: string, b: string)
    requires |x| == 7
    ensures "\"" + (", " + ((CALL + k + ARGUMENTS + n + "], [\"" + JoinText(x, sep) + "\"])") + (", " + ("\"" + b))))
      == ("\"" + ", " + CALL) + k + ARGUMENTS + n + "], [\""
        + x[0] + sep + x[1] + sep + x[2] + sep + x[3] + sep + x[4] + sep + x[5] + sep + x[6]
        + ("\"])" + ", " + "\"") + b
  {
    SevenJoined(x, sep);
    Around("\"", ", ", CALL, k, ARGUMENTS, n, "], [\"", JoinText(x, sep), "\"])", b);
    Flat("\"" + ", " + CALL, k, ARGUMENTS, n, "], [\"", x, sep, "\"])" + ", " + "\"", b);
  }

  // ------------------------------------------------------------------- emitting

  /** A format's text from its pieces on, up to and past the closing quote. */
  ghost function Emitted(s: string, next: nat): string {
    PiecesIndexed(s, true);
    Body(Pieces(s, true), next)
  }

  lemma EmittedFirst(s: string, p: Piece, rest: string, next: nat)
    requires Pieces(s, true) == [p] + Pieces(rest, true)
    ensures p.Chr? ==> Emitted(s, next) == (if IsEscaped(p.c) then ['\\', p.c] else [p.c]) + Emitted(rest, next)
    ensures p.Percent? ==> Emitted(s, next) == "%" + Emitted(rest, next)
    ensures p.Conv? ==> IsNumeral(p.spec.idx)
    ensures p.Conv? ==> (Emitted(s, next) ==
      "\"" + (", " + (CallText(p.spec.kind, ArgIndex(p.spec, next, true), Fields(p.spec, p.text))
             + (", " + ("\"" + Emitted(rest, FormatCompiler.NextIndex(p.spec, next, true)))))))
  {
    PiecesIndexed(s, true);
    PiecesIndexed(rest, true);
    var ps := Pieces(s, true);
    assert ps[0] == p && ps[1..] == Pieces(rest, true);
    if p.Chr? {
      BodyChr(ps, next);
    } else if p.Percent? {
      BodyPercent(ps, next);
    } else {
      BodyConv(ps, next);
    }
  }

  lemma EscapeCons(t: string, b: string)
    requires t != ""
    ensures Escape(t) + b == (if IsEscaped(t[0]) then ['\\', t[0]] else [t[0]]) + (Escape(t[1..]) + b)
  {
  }

  lemma {:induction false} CharsEmitted(t: string, rest: string, next: nat)
    requires '%' !in t
    ensures Emitted(t + rest, next) == Escape(t) + Emitted(rest, next)
    decreases |t|
  {
    if t == "" {
      assert t + rest == rest;
    } else {
      var more := t[1..] + rest;
      assert t + rest == [t[0]] + more;
      PiecesChar(t[0], more, true);
      EmittedFirst(t + rest, Chr(t[0]), more, next);
      CharsEmitted(t[1..], rest, next);
      EscapeCons(t, Emitted(rest, next));
    }
  }

  lemma SpoiledEmitted(m: Spec, t: string, rest: string, next: nat)
    requires Scan(t + rest) == Some(m) && m.len == |t| && EscapedPad(m)
    ensures Emitted(t + rest, next) == Escape(t) + Emitted(rest, next)
  {
    PiecesText(m, t, rest, true);
    TextPercent(m, t, rest);
    EmittedFirst(t + rest, Chr('%'), t[1..] + rest, next);
    CharsEmitted(t[1..], rest, next);
    EscapeCons(t, Emitted(rest, next));
  }

  lemma ConvEmitted(p: Parts, m: Spec, t: string, rest: string, next: nat)
    requires IsNumeral(p.idx) && m == Spec(|t|, p.idx, p.sign, p.pad, p.width, p.prec, p.kind)
    requires Pieces(t + rest, true) == [Conv(m, t)] + Pieces(rest, true)
    ensures Emitted(t + rest, next) == HandlerCall(p, t, next) + Emitted(rest, if p.idx == "" then next + 1 else next)
  {
    FieldsAre(p, t);
    ArgumentIs(p, m, next);
    EmittedFirst(t + rest, Conv(m, t), rest, next);
    CallIs(p, t, Fields(m, t), ArgIndex(m, next, true), Emitted(rest, FormatCompiler.NextIndex(m, next, true)));
  }

  lemma TextEmitted(p: Parts, t: string, rest: string, next: nat)
    requires WellFormed(p) && Scan(t + rest) == Some(Spec(|t|, p.idx, p.sign, p.pad, p.width, p.prec, p.kind))
    ensures Emitted(t + rest, next) ==
      if Spoiled(p) then Escape(t) + Emitted(rest, next)
      else HandlerCall(p, t, next) + Emitted(rest, if p.idx == "" then next + 1 else next)
  {
    var m := Spec(|t|, p.idx, p.sign, p.pad, p.width, p.prec, p.kind);
    SpoiledIs(p, m);
    if Spoiled(p) {
      SpoiledEmitted(m, t, rest, next);
    } else {
      PiecesText(m, t, rest, true);
      ConvEmitted(p, m, t, rest, next);
    }
  }

  lemma EscapeMiddle(pre: string, pad: string, post: string)
    requires forall i :: 0 <= i < |pre| ==> !IsEscaped(pre[i])
    requires forall i :: 0 <= i < |post| ==> !IsEscaped(post[i])
    requires |pad| == 2 && pad[0] == '\'' && IsEscaped(pad[1])
    ensures Escape(pre + pad + post) == pre + ['\'', '\\', pad[1]] + post
  {
    EscapeAppend(pre + pad, post);
    EscapeAppend(pre, pad);
    EscapeNothing(pre);
    EscapeNothing(post);
    EscapePad(pad);
  }

  lemma EscapePad(pad: string)
    requires |pad| == 2 && pad[0] == '\'' && IsEscaped(pad[1])
    ensures Escape(pad) == ['\'', '\\', pad[1]]
  {
    assert pad[1..][1..] == "" && pad[1..][0] == pad[1];
    assert Escape(pad[1..]) == ['\\', pad[1]] + "";
  }

  lemma FivePlain(a: string, b: string, c: string)
    requires forall i :: 0 <= i < |a| ==> !IsEscaped(a[i])
    requires forall i :: 0 <= i < |b| ==> !IsEscaped(b[i])
    requires forall i :: 0 <= i < |c| ==> !IsEscaped(c[i])
    ensures forall i :: 0 <= i < |a + b + c| ==> !IsEscaped((a + b + c)[i])
  {
  }

  lemma SpecAround(p: Parts, pad: string)
    ensures SpecText(p.(pad := pad)) == ("%" + IdxText(p) + p.sign) + pad + (p.width + PrecText(p) + [p.kind])
  {
  }

  /** Escaping doubles the quoted character, and nothing else of a specification. */
  lemma EscapeSpec(p: Parts)
    requires WellFormed(p) && Spoiled(p)
    ensures Escape(SpecText(p)) == SpecText(p.(pad := ['\'', '\\', p.pad[1]]))
  {
    var pre, post := "%" + IdxText(p) + p.sign, p.width + PrecText(p) + [p.kind];
    SpecAround(p, p.pad);
    SpecAround(p, ['\'', '\\', p.pad[1]]);
    assert p.(pad := p.pad) == p;
    KindChars(p.kind);
    FivePlain("%", IdxText(p), p.sign);
    FivePlain(p.width, PrecText(p), [p.kind]);
    EscapeMiddle(pre, p.pad, post);
  }

  lemma NothingEmitted(next: nat)
    ensures Emitted("", next) == "\"].join(\"\")"
  {
    assert Pieces("", true) == [];
    assert "\"" + CLOSE == "\"].join(\"\")";
  }

  lemma SpecEmitted(p: Parts, tail: string, next: nat)
    requires WellFormed(p)
    ensures Emitted(SpecText(p) + tail, next) ==
      if Spoiled(p) then SpoiledSource(p) + Emitted(tail, next)
      else HandlerCall(p, SpecText(p), next) + Emitted(tail, if p.idx == "" then next + 1 else next)
  {
    PartsMatch(p, tail);
    TextEmitted(p, SpecText(p), tail, next);
    if Spoiled(p) {
      EscapeSpec(p);
    }
  }

  lemma ItemEmitted(item: Item, tail: string, next: nat)
    requires ItemReads(item, tail)
    ensures Emitted(ItemText(item) + tail, next) == ItemSource(item, next) + Emitted(tail, NextIndex(item, next))
  {
    match item {
      case Char(c) =>
        PiecesChar(c, tail, true);
        EmittedFirst([c] + tail, Chr(c), tail, next);
      case PercentSign =>
        PiecesPercent(tail, true);
        EmittedFirst("%%" + tail, Percent, tail, next);
      case Specification(p) =>
        SpecEmitted(p, tail, next);
    }
  }

  lemma {:induction false} ItemsEmitted(items: seq<Item>, next: nat)
    requires Reads(items)
    ensures Emitted(Written(items), next) == Source(items, next) + "\"].join(\"\")"
    decreases |items|
  {
    if items == [] {
      NothingEmitted(next);
    } else {
      var rest, next' := items[1..], NextIndex(items[0], next);
      ItemEmitted(items[0], Written(rest), next);
      ItemsEmitted(rest, next');
      assert Source(items, next) == ItemSource(items[0], next) + Source(rest, next');
    }
  }

  /** What compilation makes of any format, to the letter. */
  lemma CompileIs(items: seq<Item>)
    requires Reads(items)
    ensures Compile(Written(items)) == "return [\"" + Source(items, 0) + "\"].join(\"\")"
  {
    CompileEmitted(Written(items));
    ItemsEmitted(items, 0);
    Quoted(Source(items, 0));
  }

  lemma CompileEmitted(s: string)
    ensures Compile(s) == OPEN + ("\"" + Emitted(s, 0))
  {
    PiecesIndexed(s, true);
    CompileText(s);
  }

  lemma Quoted(source: string)
    ensures OPEN + ("\"" + (source + "\"].join(\"\")")) == "return [\"" + source + "\"].join(\"\")"
  {
    assert OPEN + "\"" == "return [\"";
  }
}
