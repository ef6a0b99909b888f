/** The formats that compilation spoils, and for which handlers it shows. */
module FormatExactness {
  import opened Options
  import opened Numerals
  import opened FormatRegex
  import opened FormatTokens
  import opened FormatCompiler
  import opened FormatTheorems

  /** A format with a line terminator compiles to a syntax error: no arguments and no
      handlers make it agree. */
  lemma BreakDiffers<V>(s: string, args: seq<V>, h: Handler<V>)
    requires HasBreak(s)
    ensures RunSource(Compile(s), args, h) == SyntaxError
  {
    CompileReads(s);
  }

  // -------------------------------------------------- one argument for all conversions

  /** What the interpreter shows for a piece whose argument is `v`. */
  function Shown<V>(p: Piece, v: V, h: Handler<V>): Option<string> {
    match p
    case Chr(c) => Some([c])
    case Percent => Some("%")
    case Conv(m, text) => h(m.kind, Some(v), Fields(m, text))
  }

  /** What compiled code shows for it: the specification's own text where escaping spoils
      it, and what the handler makes of a missing argument for an explicit index 0. */
  function ShownCompiled<V>(p: Piece, v: V, h: Handler<V>): Option<string>
    requires p.Conv? ==> IsNumeral(p.spec.idx)
  {
    if p.Conv? && EscapedPad(p.spec) then Some(p.text)
    else if p.Conv? && ZeroIndex(p.spec) then h(p.spec.kind, None, Fields(p.spec, p.text))
    else Shown(p, v, h)
  }

  function AllShown<V>(ps: seq<Piece>, v: V, h: Handler<V>): (os: seq<Option<string>>)
    ensures |os| == |ps| && forall i :: 0 <= i < |ps| ==> os[i] == Shown(ps[i], v, h)
  {
    if ps == [] then [] else [Shown(ps[0], v, h)] + AllShown(ps[1..], v, h)
  }

  function AllCompiled<V>(ps: seq<Piece>, v: V, h: Handler<V>): (os: seq<Option<string>>)
    requires Indexed(ps)
    ensures |os| == |ps| && forall i :: 0 <= i < |ps| ==> os[i] == ShownCompiled(ps[i], v, h)
  {
    if ps == [] then [] else [ShownCompiled(ps[0], v, h)] + AllCompiled(ps[1..], v, h)
  }

  /** Enough arguments for every index in the pieces. */
  function Enough(ps: seq<Piece>): nat
    requires Indexed(ps)
  {
    if ps == [] then 0 else (if ps[0].Conv? then 1 + Value(ps[0].spec.idx) else 0) + Enough(ps[1..])
  }

  lemma {:induction false} InterpretedShows<V>(ps: seq<Piece>, next: nat, args: seq<V>, v: V, h: Handler<V>)
    requires Indexed(ps) && next + Enough(ps) <= |args| && forall i :: 0 <= i < |args| ==> args[i] == v
    ensures Outputs(ps, next, false, args, h) == AllShown(ps, v, h)
    decreases |ps|
  {
    if ps == [] {
    } else {
      InterpretedShows(ps[1..], if ps[0].Conv? then NextIndex(ps[0].spec, next, false) else next, args, v, h);
    }
  }

  lemma {:induction false} CompiledShows<V>(ps: seq<Piece>, next: nat, args: seq<V>, v: V, h: Handler<V>)
    requires Indexed(ps) && next + Enough(ps) <= |args| && forall i :: 0 <= i < |args| ==> args[i] == v
    requires NoEscapedPad(ps)
    ensures Outputs(ps, next, true, args, h) == AllCompiled(ps, v, h)
    decreases |ps|
  {
    if ps == [] {
    } else {
      NoEscapedPadCons(ps);
      CompiledShows(ps[1..], if ps[0].Conv? then NextIndex(ps[0].spec, next, true) else next, args, v, h);
    }
  }

  /** Specifications that escaping would spoil are not among the strict pieces. */
  lemma {:induction false} StrictPieces(s: string)
    ensures NoEscapedPad(Pieces(s, true))
    decreases |s|
  {
    if s == "" {
    } else {
      var ps := Pieces(s, true);
      NoEscapedPadCons(ps);
      if At(s, 0, '%') && At(s, 1, '%') {
        StrictPieces(s[2..]);
        assert ps[1..] == Pieces(s[2..], true);
      } else if Scan(s).Some? && !EscapedPad(Scan(s).value) {
        TextPlain(s, 0);
        StrictPieces(s[Scan(s).value.len..]);
        assert ps[1..] == Pieces(s[Scan(s).value.len..], true);
      } else {
        StrictPieces(s[1..]);
        assert ps[1..] == Pieces(s[1..], true);
      }
    }
  }

  // ---------------------------------------------------------- spoiled specifications

  function Prefixed(t: string, o: Option<string>): Option<string> {
    if o.None? then None else Some(t + o.value)
  }

  ghost function Compiles<V>(s: string, v: V, h: Handler<V>): Option<string> {
    PiecesIndexed(s, true);
    JoinOutputs(AllCompiled(Pieces(s, true), v, h))
  }

  lemma CharFirst<V>(s: string, v: V, h: Handler<V>)
    requires s != "" && Pieces(s, true) == [Chr(s[0])] + Pieces(s[1..], true)
    ensures Compiles(s, v, h) == Prefixed([s[0]], Compiles(s[1..], v, h))
  {
    PiecesIndexed(s, true);
    PiecesIndexed(s[1..], true);
    assert Pieces(s, true)[1..] == Pieces(s[1..], true);
    var os := AllCompiled(Pieces(s, true), v, h);
    assert os[1..] == AllCompiled(Pieces(s[1..], true), v, h);
  }

  /** Text without a `%` comes out as it is. */
  lemma {:induction false} PlainTail<V>(s: string, i: nat, n: nat, v: V, h: Handler<V>)
    requires i <= n <= |s| && forall j :: i <= j < n ==> s[j] != '%'
    ensures Compiles(s[i..], v, h) == Prefixed(s[i..n], Compiles(s[n..], v, h))
    decreases n - i
  {
    if i == n {
      PrefixedNothing(s[i..n], Compiles(s[n..], v, h));
    } else {
      PlainTail(s, i + 1, n, v, h);
      var t := s[i..];
      assert t[0] == s[i] && t[1..] == s[i + 1..];
      CharFirst(t, v, h);
      PrefixedTwice([s[i]], s[i + 1..n], Compiles(s[n..], v, h));
      assert [s[i]] + s[i + 1..n] == s[i..n];
    }
  }

  lemma PrefixedNothing(t: string, o: Option<string>)
    requires t == ""
    ensures Prefixed(t, o) == o
  {
    if o.Some? {
      assert t + o.value == o.value;
    }
  }

  lemma PrefixedTwice(a: string, b: string, o: Option<string>)
    ensures Prefixed(a, Prefixed(b, o)) == Prefixed(a + b, o)
  {
    if o.Some? {
      assert a + (b + o.value) == a + b + o.value;
    }
  }

  /** A specification that escaping spoils comes out as its own text. */
  lemma SpoiledText<V>(s: string, v: V, h: Handler<V>)
    requires Scan(s).Some? && EscapedPad(Scan(s).value) && !(At(s, 0, '%') && At(s, 1, '%'))
    ensures var n := Scan(s).value.len;
      0 < n <= |s| && Compiles(s, v, h) == Prefixed(s[..n], Compiles(s[n..], v, h))
  {
    var n := Scan(s).value.len;
    TextPlain(s, 0);
    PadOf(s);
    forall j | 1 <= j < n ensures s[j] != '%' {
      TextPlain(s, j);
      assert Scan(s).value.pad == s[PadStart(s)..PadEnd(s, PadStart(s))];
    }
    PlainTail(s, 1, n, v, h);
    CharFirst(s, v, h);
    PrefixedTwice([s[0]], s[1..n], Compiles(s[n..], v, h));
    assert [s[0]] + s[1..n] == s[..n];
  }

  /** So the compiled code shows what its pieces show one by one, whichever way the
      format is cut. */
  lemma {:induction false} CompilesPieces<V>(s: string, v: V, h: Handler<V>)
    ensures Indexed(Pieces(s, false))
    ensures Compiles(s, v, h) == JoinOutputs(AllCompiled(Pieces(s, false), v, h))
    decreases |s|
  {
    PiecesIndexed(s, false);
    PiecesIndexed(s, true);
    if s == "" {
    } else if At(s, 0, '%') && At(s, 1, '%') {
      SameFirst(s, s[2..], v, h);
    } else if Scan(s).Some? && EscapedPad(Scan(s).value) {
      var n := Scan(s).value.len;
      SpoiledText(s, v, h);
      CompilesPieces(s[n..], v, h);
      var ps := Pieces(s, false);
      assert ps[0] == Conv(Scan(s).value, s[..n]) && ps[1..] == Pieces(s[n..], false);
    } else if Scan(s).Some? {
      TextPlain(s, 0);
      SameFirst(s, s[Scan(s).value.len..], v, h);
    } else {
      SameFirst(s, s[1..], v, h);
    }
  }

  lemma SameFirst<V>(s: string, rest: string, v: V, h: Handler<V>)
    requires |rest| < |s| && Pieces(s, true) != [] && Pieces(s, false) != []
    requires Pieces(s, true)[1..] == Pieces(rest, true) && Pieces(s, false)[1..] == Pieces(rest, false)
    requires Pieces(s, true)[0] == Pieces(s, false)[0]
    ensures Indexed(Pieces(s, false))
    ensures Compiles(s, v, h) == JoinOutputs(AllCompiled(Pieces(s, false), v, h))
    decreases |s|, 0
  {
    PiecesIndexed(s, true);
    PiecesIndexed(s, false);
    CompilesPieces(rest, v, h);
  }

  // ---------------------------------------------------------------- telling them apart

  /** The handlers tell interpreter and compiled code apart: every specification shows
      something for `v`, and what compiled code shows is a throw, or for no piece longer
      (or for no piece shorter) and for some piece different. */
  ghost predicate Tells<V>(h: Handler<V>, v: V, ps: seq<Piece>)
    requires Indexed(ps)
  {
    AllSome(AllShown(ps, v, h)) && Apart(AllShown(ps, v, h), AllCompiled(ps, v, h))
  }

  ghost predicate Apart(xs: seq<Option<string>>, ys: seq<Option<string>>) {
    !AllSome(ys) || (xs != ys && (NoLonger(xs, ys) || NoLonger(ys, xs)))
  }

  ghost predicate AllSome(os: seq<Option<string>>) {
    forall i :: 0 <= i < |os| ==> os[i].Some?
  }

  ghost predicate NoLonger(xs: seq<Option<string>>, ys: seq<Option<string>>) {
    && AllSome(xs) && AllSome(ys) && |xs| == |ys|
    && forall i :: 0 <= i < |xs| ==> |xs[i].value| <= |ys[i].value|
  }

  lemma {:induction false} JoinSome(os: seq<Option<string>>)
    ensures JoinOutputs(os).Some? <==> AllSome(os)
  {
    if os == [] {
    } else {
      JoinSome(os[1..]);
      if AllSome(os[1..]) && os[0].Some? {
        forall i | 0 <= i < |os| ensures os[i].Some? {
          assert i > 0 ==> os[i] == os[1..][i - 1];
        }
      }
      if AllSome(os) {
        assert forall i :: 0 <= i < |os| - 1 ==> os[1..][i] == os[i + 1];
      }
    }
  }

  lemma SplitEqual(a: string, b: string, x: string, y: string)
    requires |a| <= |b| && |x| <= |y| && a + x == b + y
    ensures a == b && x == y
  {
    assert |a + x| == |a| + |x| && |b + y| == |b| + |y|;
    assert a == (a + x)[..|a|] && b == (b + y)[..|a|];
    assert x == (a + x)[|a|..] && y == (b + y)[|a|..];
  }

  lemma {:induction false} JoinedSame(xs: seq<Option<string>>, ys: seq<Option<string>>)
    requires NoLonger(xs, ys)
    ensures JoinOutputs(xs).Some? && JoinOutputs(ys).Some? && |JoinOutputs(xs).value| <= |JoinOutputs(ys).value|
    ensures JoinOutputs(xs) == JoinOutputs(ys) ==> xs == ys
  {
    if xs == [] {
    } else {
      JoinedSame(xs[1..], ys[1..]);
      if JoinOutputs(xs) == JoinOutputs(ys) {
        SplitEqual(xs[0].value, ys[0].value, JoinOutputs(xs[1..]).value, JoinOutputs(ys[1..]).value);
        assert xs == [xs[0]] + xs[1..] && ys == [ys[0]] + ys[1..];
      }
    }
  }

  lemma JoinsDiffer(xs: seq<Option<string>>, ys: seq<Option<string>>)
    requires AllSome(xs) && Apart(xs, ys)
    ensures JoinOutputs(xs) != JoinOutputs(ys)
  {
    JoinSome(xs);
    JoinSome(ys);
    if NoLonger(xs, ys) {
      JoinedSame(xs, ys);
    } else if NoLonger(ys, xs) {
      JoinedSame(ys, xs);
    }
  }

  /** With enough arguments, all of them `v`, both results are joined piece by piece. */
  lemma BothShow<V>(s: string, args: seq<V>, v: V, h: Handler<V>)
    requires !HasBreak(s) && Indexed(Pieces(s, false)) && Indexed(Pieces(s, true))
    requires Enough(Pieces(s, false)) <= |args| && Enough(Pieces(s, true)) <= |args|
    requires forall i :: 0 <= i < |args| ==> args[i] == v
    ensures Sprintf(s, args, h) == JoinOutputs(AllShown(Pieces(s, false), v, h))
    ensures RunSource(Compile(s), args, h) == Ran(JoinOutputs(AllCompiled(Pieces(s, false), v, h)))
  {
    var strict := Pieces(s, true);
    CompileReads(s);
    ProgramMeans(strict, 0, args, h);
    StrictPieces(s);
    CompiledShows(strict, 0, args, v, h);
    CompilesPieces(s, v, h);
    InterpretedShows(Pieces(s, false), 0, args, v, h);
  }

  /** Whatever the handlers, if they tell the two apart on `v`, calls with that argument
      throughout do so. */
  lemma TellingDiffers<V>(s: string, v: V, h: Handler<V>) returns (args: seq<V>)
    requires !HasBreak(s) && Indexed(Pieces(s, false)) && Tells(h, v, Pieces(s, false))
    ensures forall i :: 0 <= i < |args| ==> args[i] == v
    ensures RunSource(Compile(s), args, h) != Ran(Sprintf(s, args, h))
  {
    PiecesIndexed(s, true);
    var ps := Pieces(s, false);
    args := seq(Enough(ps) + Enough(Pieces(s, true)), _ => v);
    BothShow(s, args, v, h);
    JoinsDiffer(AllShown(ps, v, h), AllCompiled(ps, v, h));
  }

  lemma NoEscapedPadCons(ps: seq<Piece>)
    requires ps != []
    ensures NoEscapedPad(ps) <==> (ps[0].Conv? ==> !EscapedPad(ps[0].spec)) && NoEscapedPad(ps[1..])
  {
    if NoEscapedPad(ps[1..]) {
      forall i | 1 <= i < |ps| && ps[i].Conv? ensures !EscapedPad(ps[i].spec) {
        assert ps[1..][i - 1] == ps[i];
      }
    }
    if NoEscapedPad(ps) {
      forall i | 0 <= i < |ps| - 1 && ps[1..][i].Conv? ensures !EscapedPad(ps[1..][i].spec) {
        assert ps[1..][i] == ps[i + 1];
      }
    }
  }

  lemma OneDiffers(xs: seq<Option<string>>, ys: seq<Option<string>>, i: nat)
    requires |xs| == |ys| && i < |xs| && AllSome(xs)
    requires forall j :: 0 <= j < |xs| && j != i ==> ys[j] == xs[j]
    ensures Apart(xs, ys) <==> ys[i] != xs[i]
  {
    if ys[i] == xs[i] {
      assert xs == ys;
    } else if ys[i].Some? {
      assert AllSome(ys);
      assert if |xs[i].value| <= |ys[i].value| then NoLonger(xs, ys) else NoLonger(ys, xs);
    }
  }

  /** Where the two differ in one piece only, any difference tells. */
  lemma OnePieceTells<V>(h: Handler<V>, v: V, ps: seq<Piece>, i: nat)
    requires Indexed(ps) && i < |ps| && AllSome(AllShown(ps, v, h))
    requires forall j :: 0 <= j < |ps| && j != i ==> ShownCompiled(ps[j], v, h) == Shown(ps[j], v, h)
    ensures Tells(h, v, ps) <==> ShownCompiled(ps[i], v, h) != Shown(ps[i], v, h)
  {
    OneDiffers(AllShown(ps, v, h), AllCompiled(ps, v, h), i);
  }

  // -------------------------------------------------------------------- exactly when

  /** Handlers that show nothing without an argument and one character with one. */
  function Marking<V>(): Handler<V> { (c, a: Option<V>, x) => if a.None? then Some("") else Some("X") }

  /** Handlers that show nothing. */
  function Silent<V>(): Handler<V> { (c, a, x) => Some("") }

  /** The text of a specification is not empty. */
  lemma {:induction false} TextsFilled(s: string)
    ensures forall i :: 0 <= i < |Pieces(s, false)| && Pieces(s, false)[i].Conv? ==> Pieces(s, false)[i].text != ""
    decreases |s|
  {
    if s == "" {
    } else if At(s, 0, '%') && At(s, 1, '%') {
      TextsFilled(s[2..]);
    } else if Scan(s).Some? {
      TextPlain(s, 0);
      TextsFilled(s[Scan(s).value.len..]);
    } else {
      TextsFilled(s[1..]);
    }
  }

  lemma SilentTells<V>(s: string, v: V)
    requires Indexed(Pieces(s, false)) && !NoEscapedPad(Pieces(s, false))
    ensures Tells(Silent(), v, Pieces(s, false))
  {
    TextsFilled(s);
    var ps := Pieces(s, false);
    var xs, ys := AllShown(ps, v, Silent()), AllCompiled(ps, v, Silent());
    var i :| 0 <= i < |ps| && ps[i].Conv? && EscapedPad(ps[i].spec);
    assert xs[i] == Some("") && ys[i] == Some(ps[i].text);
    assert NoLonger(xs, ys);
  }

  lemma MarkingTells<V>(ps: seq<Piece>, v: V)
    requires Indexed(ps) && NoEscapedPad(ps) && !NoZeroIndex(ps)
    ensures Tells(Marking(), v, ps)
  {
    var xs, ys := AllShown(ps, v, Marking()), AllCompiled(ps, v, Marking());
    var i :| 0 <= i < |ps| && ps[i].Conv? && ZeroIndex(ps[i].spec);
    assert xs[i] == Some("X") && ys[i] == Some("");
    assert NoLonger(ys, xs);
  }

  /** An unsafe format is told apart by some arguments and handlers. */
  lemma UnsafeDiffers<V>(s: string, v: V) returns (args: seq<V>, h: Handler<V>)
    requires !Safe(s)
    ensures RunSource(Compile(s), args, h) != Ran(Sprintf(s, args, h))
  {
    PiecesIndexed(s, false);
    if HasBreak(s) {
      args, h := [], Silent();
      BreakDiffers(s, args, h);
    } else if !NoEscapedPad(Pieces(s, false)) {
      h := Silent();
      SilentTells(s, v);
      args := TellingDiffers(s, v, h);
    } else {
      h := Marking();
      MarkingTells(Pieces(s, false), v);
      args := TellingDiffers(s, v, h);
    }
  }

  /** The compiled function gives, for all arguments and all handlers, what
      `sprintf` gives. */
  ghost predicate CompilesFaithfully<V(!new)>(s: string) {
    forall args: seq<V>, h: Handler<V> :: RunSource(Compile(s), args, h) == Ran(Sprintf(s, args, h))
  }

  /** Compilation preserves the meaning of a format exactly when the format is safe. */
  lemma CompileCorrect<V(!new)>(s: string, v: V)
    ensures CompilesFaithfully<V>(s) <==> Safe(s)
  {
    if Safe(s) {
      forall args: seq<V>, h: Handler<V> ensures RunSource(Compile(s), args, h) == Ran(Sprintf(s, args, h)) {
        SafeAgrees(s, args, h);
      }
    } else {
      var args, h := UnsafeDiffers(s, v);
    }
  }
}
