/** Ranges of npm versions printed as Debian dependency alternatives, and read back. */
module DebianRelations {
  import opened Options
  import opened Numerals
  import opened Texts

  // ---------------------------------------------------------------------- printing

  /** What the replacement of a leading digit, of a strict comparison and of a
      non-strict one, in this order, make of a comparator. */
  function Rewrite(edge: string): string {
    SpaceAfterWeak(DoubleStrict(MarkExact(edge)))
  }

  function MarkExact(e: string): string {
    if DigitAt(e, 0) then "= " + e else e
  }

  function DoubleStrict(e: string): string {
    if (At(e, 0, '<') || At(e, 0, '>')) && DigitAt(e, 1) then [e[0], e[0]] + " " + e[1..] else e
  }

  function SpaceAfterWeak(e: string): string {
    if (At(e, 0, '<') || At(e, 0, '>')) && At(e, 1, '=') then e[..2] + " " + e[2..] else e
  }

  function Alternative(pkg: string, edge: string): string {
    if edge == "" then pkg else pkg + " (" + Rewrite(edge) + ")"
  }

  function Alternatives(pkg: string, edges: seq<string>): (r: seq<string>)
    ensures |r| == |edges| && forall i :: 0 <= i < |edges| ==> r[i] == Alternative(pkg, edges[i])
  {
    seq(|edges|, i requires 0 <= i < |edges| => Alternative(pkg, edges[i]))
  }

  /** A range: any of its lists, each of which demands all of its comparators. */
  type Range = seq<seq<string>>

  function Flatten(range: Range): seq<string> {
    if range == [] then [] else Flatten(range[..|range| - 1]) + range[|range| - 1]
  }

  const BAR := " | "

  /** None stands for no version given. */
  function Relation(pkg: string, ver: Option<Range>): string {
    if ver.None? then pkg else JoinText(Alternatives(pkg, Flatten(ver.value)), BAR)
  }

  method SemverToDebian(pkg: string, ver: Option<Range>) returns (text: string)
    ensures text == Relation(pkg, ver)
    ensures ver.None? ==> text == pkg
  {
    if ver.None? {
      return pkg;
    }
    var ranges, deps := ver.value, [];
    for i := 0 to |ranges|
      invariant deps == Alternatives(pkg, Flatten(ranges[..i]))
    {
      var range := ranges[i];
      assert ranges[..i + 1][..i] == ranges[..i];
      for j := 0 to |range|
        invariant deps == Alternatives(pkg, Flatten(ranges[..i]) + range[..j])
      {
        var edge := range[j];
        assert Flatten(ranges[..i]) + range[..j + 1] == Flatten(ranges[..i]) + range[..j] + [edge];
        if edge == "" {
          deps := deps + [pkg];
        } else {
          deps := deps + [pkg + " (" + Rewrite(edge) + ")"];
        }
      }
      assert range[..|range|] == range;
    }
    assert ranges[..|ranges|] == ranges;
    text := JoinText(deps, BAR);
  }

  // ----------------------------------------------------------------------- reading

  datatype Op = Earlier | EarlierOrSame | Same | LaterOrSame | Later

  /** What a comparator or a parenthesised relation asks of a version. */
  datatype Demand = Any | Demand(op: Op, version: string)

  predicate IsSpace(c: char) { c == ' ' || c == '\t' || c == '\n' || c == '\r' }

  function TrimLeft(s: string): string {
    if s != "" && IsSpace(s[0]) then TrimLeft(s[1..]) else s
  }

  function TrimRight(s: string): string {
    if s != "" && IsSpace(s[|s| - 1]) then TrimRight(s[..|s| - 1]) else s
  }

  function Trim(s: string): string { TrimRight(TrimLeft(s)) }

  /** The relation a text starts with and how long its name is. */
  function ReadOp(s: string): Option<(Op, nat)> {
    if At(s, 0, '<') && At(s, 1, '<') then Some((Earlier, 2))
    else if At(s, 0, '<') && At(s, 1, '=') then Some((EarlierOrSame, 2))
    else if At(s, 0, '>') && At(s, 1, '=') then Some((LaterOrSame, 2))
    else if At(s, 0, '>') && At(s, 1, '>') then Some((Later, 2))
    else if At(s, 0, '=') then Some((Same, 1))
    else None
  }

  /** A relation and a version, section 7.1 of the Debian Policy Manual; space around
      the two is not significant. */
  function ReadDemand(t: string): Option<Demand> {
    var s := Trim(t);
    var op := ReadOp(s);
    if op.Some? && op.value.1 <= |s| then Some(Demand(op.value.0, Trim(s[op.value.1..]))) else None
  }

  datatype Dependency = Dependency(name: string, demand: Demand)

  /** One alternative: a package name and at most one relation in parentheses. */
  function ReadAlternative(t: string): Option<Dependency> { ReadTrimmed(Trim(t)) }

  function ReadTrimmed(s: string): Option<Dependency> {
    var k := Find(s, '(');
    if k == |s| then Some(Dependency(s, Any))
    else if s[|s| - 1] != ')' || k + 1 == |s| then None
    else WithDemand(s[..k], ReadDemand(s[k + 1..|s| - 1]))
  }

  function WithDemand(name: string, d: Option<Demand>): Option<Dependency> {
    if d.None? then None else Some(Dependency(Trim(name), d.value))
  }

  /** Alternatives are separated by bars. */
  function ReadRelation(t: string): Option<seq<Dependency>>
    decreases |t|
  {
    var k := Find(t, '|');
    var first := ReadAlternative(t[..k]);
    if first.None? then None
    else if k == |t| then Some([first.value])
    else
      var rest := ReadRelation(t[k + 1..]);
      if rest.None? then None else Some([first.value] + rest.value)
  }

  // ------------------------------------------------------------------------ meaning

  ghost predicate TotalOrder(le: (string, string) -> bool) {
    && (forall a, b :: le(a, b) || le(b, a))
    && forall a, b, c :: le(a, b) && le(b, c) ==> le(a, c)
  }

  predicate Meets(le: (string, string) -> bool, d: Demand, v: string) {
    match d
    case Any => true
    case Demand(Earlier, w) => !le(w, v)
    case Demand(EarlierOrSame, w) => le(v, w)
    case Demand(Same, w) => le(v, w) && le(w, v)
    case Demand(LaterOrSame, w) => le(w, v)
    case Demand(Later, w) => !le(v, w)
  }

  /** A version of `pkg` satisfies a printed relation. */
  ghost predicate DebianAccepts(le: (string, string) -> bool, text: string, pkg: string, v: string) {
    var ds := ReadRelation(text);
    ds.Some? && exists i :: 0 <= i < |ds.value| && ds.value[i].name == pkg && Meets(le, ds.value[i].demand, v)
  }

  /** A version: it starts with a digit and has none of the marks that separate things. */
  predicate IsVersion(w: string) {
    DigitAt(w, 0) && forall i :: 0 <= i < |w| ==> !IsSpace(w[i]) && w[i] != '(' && w[i] != ')' && w[i] != '|'
  }

  predicate IsName(p: string) {
    p != "" && forall i :: 0 <= i < |p| ==> !IsSpace(p[i]) && p[i] != '(' && p[i] != '|'
  }

  /** How npm reads a comparator. */
  function NpmDemand(edge: string): Demand {
    if edge == "" then Any
    else if At(edge, 0, '<') && At(edge, 1, '=') then Demand(EarlierOrSame, edge[2..])
    else if At(edge, 0, '>') && At(edge, 1, '=') then Demand(LaterOrSame, edge[2..])
    else if edge[0] == '<' then Demand(Earlier, edge[1..])
    else if edge[0] == '>' then Demand(Later, edge[1..])
    else if edge[0] == '=' then Demand(Same, edge[1..])
    else Demand(Same, edge)
  }

  predicate IsComparator(edge: string) {
    NpmDemand(edge).Any? || IsVersion(NpmDemand(edge).version)
  }

  /** Some list has all its comparators met. */
  ghost predicate NpmAccepts(le: (string, string) -> bool, range: Range, v: string) {
    exists i :: 0 <= i < |range| && MeetsAll(le, range[i], v)
  }

  ghost predicate MeetsAll(le: (string, string) -> bool, edges: seq<string>, v: string) {
    forall j :: 0 <= j < |edges| ==> Meets(le, NpmDemand(edges[j]), v)
  }

  ghost predicate MeetsSome(le: (string, string) -> bool, edges: seq<string>, v: string) {
    exists j :: 0 <= j < |edges| && Meets(le, NpmDemand(edges[j]), v)
  }

  // ------------------------------------------------------------------ reading back

  lemma TrimNothing(s: string)
    requires s != "" ==> !IsSpace(s[0]) && !IsSpace(s[|s| - 1])
    ensures Trim(s) == s && Trim(" " + s) == s && Trim(s + " ") == s && Trim(" " + s + " ") == s
  {
    assert (" " + s)[1..] == s && (" " + s + " ")[1..] == s + " " && (s + " ")[..|s|] == s;
    if s == "" {
      assert " " + s + " " == "  " && "  "[1..] == " " && " "[1..] == "";
    }
  }

  /** A relation, perhaps a space, and a version are read as what they say. */
  lemma DemandReads(ops: string, gap: string, w: string, op: Op)
    requires IsVersion(w) && (gap == "" || gap == " ")
    requires ops != "" && !IsSpace(ops[0]) && ReadOp(ops + gap + w) == Some((op, |ops|))
    ensures ReadDemand(ops + gap + w) == Some(Demand(op, w))
  {
    var s := ops + gap + w;
    assert s[|s| - 1] == w[|w| - 1];
    TrimNothing(s);
    TrimNothing(w);
    assert s[|ops|..] == gap + w;
    assert "" + w == w;
  }

  /** What is printed in parentheses is read as the comparator's own demand. */
  lemma RewriteReads(edge: string)
    requires edge != "" && IsComparator(edge)
    ensures ReadDemand(Rewrite(edge)) == Some(NpmDemand(edge))
  {
    var w, c := NpmDemand(edge).version, edge[0];
    if DigitAt(edge, 0) {
      assert Rewrite(edge) == "=" + " " + w;
      DemandReads("=", " ", w, Same);
    } else if c == '=' {
      assert Rewrite(edge) == "=" + "" + w;
      DemandReads("=", "", w, Same);
    } else if DigitAt(edge, 1) {
      assert Rewrite(edge) == [c, c] + " " + w;
      DemandReads([c, c], " ", w, if c == '<' then Earlier else Later);
    } else {
      assert Rewrite(edge) == [c, '='] + " " + w;
      DemandReads([c, '='], " ", w, if c == '<' then EarlierOrSame else LaterOrSame);
    }
  }

  predicate Unmarked(s: string) {
    '(' !in s && ')' !in s && '|' !in s
  }

  lemma RewriteUnmarked(edge: string)
    requires edge != "" && IsComparator(edge)
    ensures Unmarked(Rewrite(edge))
  {
    assert Unmarked(edge) by {
      var w := NpmDemand(edge).version;
      assert Unmarked(w);
      var k := |edge| - |w|;
      assert forall i :: k <= i < |edge| ==> edge[i] == w[i - k];
    }
    var m := MarkExact(edge);
    assert Unmarked(m);
    assert Unmarked(DoubleStrict(m));
  }

  /** A text that stands by itself: neither empty, nor with space around it, nor with
      a bar in it. */
  predicate Solid(s: string) {
    s != "" && !IsSpace(s[0]) && !IsSpace(s[|s| - 1]) && '|' !in s
  }

  lemma DependencyReads(pkg: string, inner: string)
    requires IsName(pkg)
    ensures ReadTrimmed(pkg + " (" + inner + ")") == WithDemand(pkg + " ", ReadDemand(inner))
  {
    var name, rest := pkg + " ", inner + ")";
    var s := pkg + " (" + inner + ")";
    assert s == name + ['('] + rest;
    FindPast(name, '(', rest);
    assert s[..|name|] == name && s[|name| + 1..|s| - 1] == inner;
  }

  lemma SolidDependency(pkg: string, inner: string)
    requires IsName(pkg) && '|' !in inner
    ensures Solid(pkg + " (" + inner + ")")
  {
    assert '|' !in pkg;
  }

  lemma RelationOf(pkg: string, edge: string)
    requires IsName(pkg) && IsComparator(edge) && edge != ""
    ensures ReadTrimmed(pkg + " (" + Rewrite(edge) + ")") == Some(Dependency(pkg, NpmDemand(edge)))
  {
    RewriteReads(edge);
    DependencyReads(pkg, Rewrite(edge));
    TrimNothing(pkg);
  }

  lemma NameReads(pkg: string)
    requires IsName(pkg)
    ensures Solid(pkg) && ReadTrimmed(pkg) == Some(Dependency(pkg, Any))
  {
    assert '(' !in pkg && '|' !in pkg;
    FindPast(pkg, '(', "");
  }

  lemma AlternativeReads(pkg: string, edge: string)
    requires IsName(pkg) && IsComparator(edge)
    ensures Solid(Alternative(pkg, edge))
    ensures ReadTrimmed(Alternative(pkg, edge)) == Some(Dependency(pkg, NpmDemand(edge)))
  {
    if edge == "" {
      NameReads(pkg);
    } else {
      RewriteUnmarked(edge);
      SolidDependency(pkg, Rewrite(edge));
      RelationOf(pkg, edge);
    }
  }

  /** Space around an alternative does not matter. */
  lemma PaddedReads(s: string, lead: string, trail: string)
    requires Solid(s) && (lead == "" || lead == " ") && (trail == "" || trail == " ")
    ensures Trim(lead + s + trail) == s
  {
    TrimNothing(s);
    if lead == "" {
      assert lead + s + trail == s + trail;
      assert s + "" == s;
    } else {
      assert " " + s + "" == " " + s;
    }
  }

  function Demands(pkg: string, edges: seq<string>): (r: seq<Dependency>)
    ensures |r| == |edges| && forall i :: 0 <= i < |edges| ==> r[i] == Dependency(pkg, NpmDemand(edges[i]))
  {
    seq(|edges|, i requires 0 <= i < |edges| => Dependency(pkg, NpmDemand(edges[i])))
  }

  ghost predicate ReadsAs(text: string, deps: seq<Dependency>) { ReadRelation(text) == Some(deps) }

  lemma LastReads(s: string, lead: string, d: Dependency)
    requires Solid(s) && (lead == "" || lead == " ") && ReadTrimmed(s) == Some(d)
    ensures ReadsAs(lead + s, [d])
  {
    PaddedReads(s, lead, "");
    var t := lead + s;
    assert t + "" == t && t[..|t|] == t;
    assert '|' !in t;
    FindPast(t, '|', "");
  }

  lemma FirstReads(s: string, lead: string, rest: string, d: Dependency, ds: seq<Dependency>)
    requires Solid(s) && (lead == "" || lead == " ") && ReadTrimmed(s) == Some(d)
    requires ReadsAs(" " + rest, ds)
    ensures ReadsAs(lead + (s + BAR + rest), [d] + ds)
  {
    PaddedReads(s, lead, " ");
    NoBar(s, lead);
    CutReads(lead + s + " ", " " + rest, d, ds);
    RegroupBar(s, lead, rest);
  }

  lemma NoBar(s: string, lead: string)
    requires '|' !in s && '|' !in lead
    ensures '|' !in lead + s + " "
  {
  }

  lemma RegroupBar(s: string, lead: string, rest: string)
    ensures lead + (s + BAR + rest) == lead + s + " " + ['|'] + (" " + rest)
  {
    assert BAR == " " + ['|'] + " ";
  }

  lemma CutReads(piece: string, rest: string, d: Dependency, ds: seq<Dependency>)
    requires '|' !in piece && ReadAlternative(piece) == Some(d) && ReadsAs(rest, ds)
    ensures ReadsAs(piece + ['|'] + rest, [d] + ds)
  {
    var t := piece + ['|'] + rest;
    FindPast(piece, '|', rest);
    assert t[..|piece|] == piece && t[|piece| + 1..] == rest;
  }

  /** Joined alternatives are read one by one. */
  lemma {:induction false} JoinedReads(pkg: string, edges: seq<string>, lead: string)
    requires IsName(pkg) && edges != [] && (lead == "" || lead == " ")
    requires forall i :: 0 <= i < |edges| ==> IsComparator(edges[i])
    ensures ReadsAs(lead + JoinText(Alternatives(pkg, edges), BAR), Demands(pkg, edges))
    decreases |edges|
  {
    var s, d := Alternative(pkg, edges[0]), Dependency(pkg, NpmDemand(edges[0]));
    AlternativeReads(pkg, edges[0]);
    if |edges| == 1 {
      assert Alternatives(pkg, edges) == [s] && Demands(pkg, edges) == [d];
      LastReads(s, lead, d);
    } else {
      AlternativesSplit(pkg, edges);
      JoinedReads(pkg, edges[1..], " ");
      FirstReads(s, lead, JoinText(Alternatives(pkg, edges[1..]), BAR), d, Demands(pkg, edges[1..]));
    }
  }

  lemma AlternativesSplit(pkg: string, edges: seq<string>)
    requires |edges| > 1
    ensures JoinText(Alternatives(pkg, edges), BAR)
         == Alternative(pkg, edges[0]) + BAR + JoinText(Alternatives(pkg, edges[1..]), BAR)
    ensures Demands(pkg, edges) == [Dependency(pkg, NpmDemand(edges[0]))] + Demands(pkg, edges[1..])
  {
    var alts := Alternatives(pkg, edges);
    AlternativesFrom(pkg, edges);
    assert alts[0] == Alternative(pkg, edges[0]);
    assert JoinText(alts, BAR) == alts[0] + BAR + JoinText(alts[1..], BAR);
    DemandsFrom(pkg, edges);
  }

  lemma AlternativesFrom(pkg: string, edges: seq<string>)
    requires edges != []
    ensures Alternatives(pkg, edges)[1..] == Alternatives(pkg, edges[1..])
  {
  }

  lemma DemandsFrom(pkg: string, edges: seq<string>)
    requires edges != []
    ensures Demands(pkg, edges) == [Dependency(pkg, NpmDemand(edges[0]))] + Demands(pkg, edges[1..])
  {
  }

  /** The printed text reads back as one alternative for each comparator, in order. */
  lemma RelationReads(pkg: string, edges: seq<string>)
    requires IsName(pkg) && edges != [] && forall i :: 0 <= i < |edges| ==> IsComparator(edges[i])
    ensures ReadRelation(JoinText(Alternatives(pkg, edges), BAR)) == Some(Demands(pkg, edges))
  {
    JoinedReads(pkg, edges, "");
    assert "" + JoinText(Alternatives(pkg, edges), BAR) == JoinText(Alternatives(pkg, edges), BAR);
  }

  // ------------------------------------------------------------------- acceptance

  predicate Comparators(range: Range) {
    forall i, j :: 0 <= i < |range| && 0 <= j < |range[i]| ==> IsComparator(range[i][j])
  }

  lemma {:induction false} FlattenHas(range: Range, i: nat, j: nat) returns (k: nat)
    requires i < |range| && j < |range[i]|
    ensures k < |Flatten(range)| && Flatten(range)[k] == range[i][j]
  {
    var front := range[..|range| - 1];
    if i == |front| {
      k := |Flatten(front)| + j;
    } else {
      k := FlattenHas(front, i, j);
    }
  }

  lemma {:induction false} FlattenFrom(range: Range, k: nat) returns (i: nat, j: nat)
    requires k < |Flatten(range)|
    ensures i < |range| && j < |range[i]| && Flatten(range)[k] == range[i][j]
  {
    var front := range[..|range| - 1];
    if k < |Flatten(front)| {
      i, j := FlattenFrom(front, k);
    } else {
      i, j := |front|, k - |Flatten(front)|;
    }
  }

  lemma FlattenComparators(range: Range)
    requires Comparators(range)
    ensures forall k :: 0 <= k < |Flatten(range)| ==> IsComparator(Flatten(range)[k])
  {
    forall k | 0 <= k < |Flatten(range)| ensures IsComparator(Flatten(range)[k]) {
      var i, j := FlattenFrom(range, k);
    }
  }

  lemma FlattenMeets(le: (string, string) -> bool, range: Range, v: string)
    ensures MeetsSome(le, Flatten(range), v) <==> exists i :: 0 <= i < |range| && MeetsSome(le, range[i], v)
  {
    if MeetsSome(le, Flatten(range), v) {
      var k :| 0 <= k < |Flatten(range)| && Meets(le, NpmDemand(Flatten(range)[k]), v);
      var i, j := FlattenFrom(range, k);
      assert MeetsSome(le, range[i], v);
    }
    if i :| 0 <= i < |range| && MeetsSome(le, range[i], v) {
      var j :| 0 <= j < |range[i]| && Meets(le, NpmDemand(range[i][j]), v);
      var k := FlattenHas(range, i, j);
    }
  }

  lemma ListAccepts(le: (string, string) -> bool, pkg: string, edges: seq<string>, v: string)
    requires IsName(pkg) && edges != [] && forall i :: 0 <= i < |edges| ==> IsComparator(edges[i])
    ensures DebianAccepts(le, JoinText(Alternatives(pkg, edges), BAR), pkg, v) <==> MeetsSome(le, edges, v)
  {
    RelationReads(pkg, edges);
    var ds := Demands(pkg, edges);
    if MeetsSome(le, edges, v) {
      var j :| 0 <= j < |edges| && Meets(le, NpmDemand(edges[j]), v);
      assert ds[j].name == pkg && Meets(le, ds[j].demand, v);
    }
  }

  /** Debian's reading of the printed text accepts what any single comparator does. */
  lemma DebianIsAnyComparator(le: (string, string) -> bool, pkg: string, range: Range, v: string)
    requires IsName(pkg) && Comparators(range) && Flatten(range) != []
    ensures DebianAccepts(le, Relation(pkg, Some(range)), pkg, v)
       <==> exists i :: 0 <= i < |range| && MeetsSome(le, range[i], v)
  {
    FlattenComparators(range);
    ListAccepts(le, pkg, Flatten(range), v);
    FlattenMeets(le, range, v);
  }

  /** Lists as the range parser gives them: some, none of them empty. */
  predicate Filled(range: Range) {
    range != [] && forall i :: 0 <= i < |range| ==> range[i] != []
  }

  lemma FilledFlattens(range: Range)
    requires Filled(range)
    ensures Flatten(range) != []
  {
    var k := FlattenHas(range, 0, 0);
  }

  /** Every version npm accepts, Debian accepts. */
  lemma NothingRefused(le: (string, string) -> bool, pkg: string, range: Range, v: string)
    requires IsName(pkg) && Comparators(range) && Filled(range)
    requires NpmAccepts(le, range, v)
    ensures DebianAccepts(le, Relation(pkg, Some(range)), pkg, v)
  {
    FilledFlattens(range);
    DebianIsAnyComparator(le, pkg, range, v);
    var i :| 0 <= i < |range| && MeetsAll(le, range[i], v);
    assert Meets(le, NpmDemand(range[i][0]), v);
    assert MeetsSome(le, range[i], v);
  }

  // ------------------------------------------------------ exactly when nothing is added

  /** Whether a relation is met by a version that lies before (negative), at (0) or
      after (positive) the version it names. */
  predicate Wants(op: Op, side: int) {
    match op
    case Earlier => side < 0
    case EarlierOrSame => side <= 0
    case Same => side == 0
    case LaterOrSame => side >= 0
    case Later => side > 0
  }

  /** Whether a demand is met by a version that lies on the given side of each version. */
  predicate MetAt(d: Demand, side: string -> int) {
    d.Any? || Wants(d.op, side(d.version))
  }

  predicate SomeMet(edges: seq<string>, side: string -> int) {
    exists j :: 0 <= j < |edges| && MetAt(NpmDemand(edges[j]), side)
  }

  predicate AllMet(edges: seq<string>, side: string -> int) {
    forall j :: 0 <= j < |edges| ==> MetAt(NpmDemand(edges[j]), side)
  }

  /** From this place, if any comparator of any list is met, some list is met whole. */
  predicate CoveredAt(range: Range, side: string -> int) {
    (exists i :: 0 <= i < |range| && SomeMet(range[i], side))
    ==> exists i :: 0 <= i < |range| && AllMet(range[i], side)
  }

  /** The versions a range names. */
  function Versions(edges: seq<string>): (ws: seq<string>)
    ensures |ws| == |edges|
    ensures forall k :: 0 <= k < |edges| ==>
      ws[k] == if NpmDemand(edges[k]).Demand? then NpmDemand(edges[k]).version else ""
  {
    seq(|edges|, k requires 0 <= k < |edges| =>
      var d := NpmDemand(edges[k]); if d.Any? then "" else d.version)
  }

  function Placed(sides: map<string, int>): string -> int {
    w => if w in sides then sides[w] else 0
  }

  /** Tries a place before, at and after each of the versions `ws` not placed yet. */
  predicate CoveredFrom(range: Range, ws: seq<string>, sides: map<string, int>) {
    if ws == [] then CoveredAt(range, Placed(sides))
    else if ws[0] in sides then CoveredFrom(range, ws[1..], sides)
    else
      && CoveredFrom(range, ws[1..], sides[ws[0] := -1])
      && CoveredFrom(range, ws[1..], sides[ws[0] := 0])
      && CoveredFrom(range, ws[1..], sides[ws[0] := 1])
  }

  /** The lists of a range cover for each other: wherever a version may lie among those
      the range names, if one comparator is met then so is a whole list. */
  predicate Covered(range: Range) {
    CoveredFrom(range, Versions(Flatten(range)), map[])
  }

  function Sign(x: int): int { if x < 0 then -1 else if x == 0 then 0 else 1 }

  ghost predicate Agrees(side: string -> int, sides: map<string, int>) {
    forall w :: w in sides ==> Sign(side(w)) == sides[w]
  }

  ghost predicate NamesVersions(range: Range, ws: seq<string>, sides: map<string, int>) {
    forall i, j :: 0 <= i < |range| && 0 <= j < |range[i]| && NpmDemand(range[i][j]).Demand? ==>
      NpmDemand(range[i][j]).version in ws || NpmDemand(range[i][j]).version in sides
  }

  /** Only the signs of the versions named matter. */
  lemma SignsMatter(range: Range, f: string -> int, g: string -> int)
    requires forall i, j :: 0 <= i < |range| && 0 <= j < |range[i]| ==>
      (MetAt(NpmDemand(range[i][j]), f) <==> MetAt(NpmDemand(range[i][j]), g))
    ensures CoveredAt(range, f) <==> CoveredAt(range, g)
  {
    forall i | 0 <= i < |range|
      ensures SomeMet(range[i], f) <==> SomeMet(range[i], g)
      ensures AllMet(range[i], f) <==> AllMet(range[i], g)
    {
    }
  }

  lemma {:induction false} CoveredEverywhere(range: Range, ws: seq<string>, sides: map<string, int>, side: string -> int)
    requires NamesVersions(range, ws, sides) && Agrees(side, sides) && CoveredFrom(range, ws, sides)
    ensures CoveredAt(range, side)
    decreases |ws|
  {
    if ws == [] {
      SignsMatter(range, side, Placed(sides));
    } else if ws[0] in sides {
      CoveredEverywhere(range, ws[1..], sides, side);
    } else {
      CoveredEverywhere(range, ws[1..], sides[ws[0] := Sign(side(ws[0]))], side);
    }
  }

  lemma {:induction false} NotCovered(range: Range, ws: seq<string>, sides: map<string, int>) returns (side: string -> int)
    requires !CoveredFrom(range, ws, sides)
    ensures !CoveredAt(range, side)
    decreases |ws|
  {
    if ws == [] {
      side := Placed(sides);
    } else if ws[0] in sides {
      side := NotCovered(range, ws[1..], sides);
    } else {
      var s := if !CoveredFrom(range, ws[1..], sides[ws[0] := -1]) then -1
               else if !CoveredFrom(range, ws[1..], sides[ws[0] := 0]) then 0 else 1;
      side := NotCovered(range, ws[1..], sides[ws[0] := s]);
    }
  }

  lemma NamesAll(range: Range)
    ensures NamesVersions(range, Versions(Flatten(range)), map[])
  {
    forall i, j | 0 <= i < |range| && 0 <= j < |range[i]| && NpmDemand(range[i][j]).Demand?
      ensures NpmDemand(range[i][j]).version in Versions(Flatten(range))
    {
      var k := FlattenHas(range, i, j);
      assert Versions(Flatten(range))[k] == NpmDemand(range[i][j]).version;
    }
  }

  /** Trying the places is trying all of them. */
  lemma CoveredMeaning(range: Range)
    ensures Covered(range) <==> forall side :: CoveredAt(range, side)
  {
    var ws := Versions(Flatten(range));
    if Covered(range) {
      forall side ensures CoveredAt(range, side) {
        NamesAll(range);
        CoveredEverywhere(range, ws, map[], side);
      }
    } else {
      var side := NotCovered(range, ws, map[]);
    }
  }

  /** Where `v` lies relative to each version. */
  function SideIn(le: (string, string) -> bool, v: string): string -> int {
    w => if !le(w, v) then -1 else if le(v, w) then 0 else 1
  }

  lemma MeetsSide(le: (string, string) -> bool, d: Demand, v: string)
    requires TotalOrder(le)
    ensures Meets(le, d, v) <==> MetAt(d, SideIn(le, v))
  {
  }

  /** The order that puts `v` where `side` says. */
  function OrderAround(v: string, side: string -> int): (string, string) -> bool {
    (x, y) => Height(v, side, x) <= Height(v, side, y)
  }

  function Height(v: string, side: string -> int, x: string): int {
    if x == v then 0 else -side(x)
  }

  lemma AroundIsOrder(v: string, side: string -> int)
    ensures TotalOrder(OrderAround(v, side))
  {
  }

  lemma MeetsAround(v: string, side: string -> int, d: Demand)
    requires d.Demand? ==> d.version != v
    ensures Meets(OrderAround(v, side), d, v) <==> MetAt(d, side)
  {
  }

  /** A version other than all of `ws`. */
  function LongerThanAll(ws: seq<string>): (v: string)
    ensures forall k :: 0 <= k < |ws| ==> |ws[k]| < |v|
  {
    if ws == [] then "0" else LongerThanAll(ws[..|ws| - 1]) + ws[|ws| - 1]
  }

  /** Free of the marks that separate things, as versions are. */
  predicate Separate(w: string) {
    forall i :: 0 <= i < |w| ==> !IsSpace(w[i]) && w[i] != '(' && w[i] != ')' && w[i] != '|'
  }

  lemma SeparateJoined(a: string, b: string)
    requires Separate(a) && Separate(b)
    ensures Separate(a + b)
  {
  }

  lemma {:induction false} LongerIsVersion(ws: seq<string>)
    requires forall k :: 0 <= k < |ws| ==> Separate(ws[k])
    ensures IsVersion(LongerThanAll(ws))
  {
    if ws == [] {
    } else {
      LongerIsVersion(ws[..|ws| - 1]);
      SeparateJoined(LongerThanAll(ws[..|ws| - 1]), ws[|ws| - 1]);
      assert DigitAt(LongerThanAll(ws), 0);
    }
  }

  lemma VersionsSeparate(range: Range)
    requires Comparators(range)
    ensures forall k :: 0 <= k < |Versions(Flatten(range))| ==> Separate(Versions(Flatten(range))[k])
  {
    var edges := Flatten(range);
    forall k | 0 <= k < |edges| ensures Separate(Versions(edges)[k]) {
      var i, j := FlattenFrom(range, k);
      assert IsComparator(edges[k]);
    }
  }

  /** What the two accept, by comparators. */
  lemma AcceptsBy(le: (string, string) -> bool, pkg: string, range: Range, v: string, side: string -> int)
    requires IsName(pkg) && Comparators(range) && Filled(range)
    requires forall i, j :: 0 <= i < |range| && 0 <= j < |range[i]| ==>
      (Meets(le, NpmDemand(range[i][j]), v) <==> MetAt(NpmDemand(range[i][j]), side))
    ensures (DebianAccepts(le, Relation(pkg, Some(range)), pkg, v) <==> NpmAccepts(le, range, v)) <==> CoveredAt(range, side)
  {
    FilledFlattens(range);
    DebianIsAnyComparator(le, pkg, range, v);
    forall i | 0 <= i < |range|
      ensures SomeMet(range[i], side) <==> MeetsSome(le, range[i], v)
      ensures AllMet(range[i], side) <==> MeetsAll(le, range[i], v)
    {
    }
    if NpmAccepts(le, range, v) {
      NothingRefused(le, pkg, range, v);
    }
  }

  lemma CoveredAgrees(le: (string, string) -> bool, pkg: string, range: Range, v: string)
    requires IsName(pkg) && Comparators(range) && Filled(range) && Covered(range) && TotalOrder(le)
    ensures DebianAccepts(le, Relation(pkg, Some(range)), pkg, v) <==> NpmAccepts(le, range, v)
  {
    CoveredMeaning(range);
    forall i, j | 0 <= i < |range| && 0 <= j < |range[i]|
      ensures Meets(le, NpmDemand(range[i][j]), v) <==> MetAt(NpmDemand(range[i][j]), SideIn(le, v))
    {
      MeetsSide(le, NpmDemand(range[i][j]), v);
    }
    AcceptsBy(le, pkg, range, v, SideIn(le, v));
  }

  lemma NewVersion(range: Range) returns (v: string)
    requires Comparators(range)
    ensures IsVersion(v)
    ensures forall i, j :: 0 <= i < |range| && 0 <= j < |range[i]| && NpmDemand(range[i][j]).Demand? ==>
      NpmDemand(range[i][j]).version != v
  {
    var ws := Versions(Flatten(range));
    v := LongerThanAll(ws);
    VersionsSeparate(range);
    LongerIsVersion(ws);
    NamesAll(range);
  }

  lemma UncoveredDiffers(pkg: string, range: Range) returns (le: (string, string) -> bool, v: string)
    requires IsName(pkg) && Comparators(range) && Filled(range) && !Covered(range)
    ensures TotalOrder(le) && IsVersion(v)
    ensures DebianAccepts(le, Relation(pkg, Some(range)), pkg, v) && !NpmAccepts(le, range, v)
  {
    CoveredMeaning(range);
    var side :| !CoveredAt(range, side);
    v := NewVersion(range);
    le := OrderAround(v, side);
    AroundIsOrder(v, side);
    forall i, j | 0 <= i < |range| && 0 <= j < |range[i]|
      ensures Meets(le, NpmDemand(range[i][j]), v) <==> MetAt(NpmDemand(range[i][j]), side)
    {
      MeetsAround(v, side, NpmDemand(range[i][j]));
    }
    AcceptsBy(le, pkg, range, v, side);
    if NpmAccepts(le, range, v) {
      NothingRefused(le, pkg, range, v);
    }
  }

  /** The two accept the same versions, whatever order versions have. */
  ghost predicate SameVersions(pkg: string, range: Range) {
    forall le, v :: TotalOrder(le) && IsVersion(v) ==>
      (DebianAccepts(le, Relation(pkg, Some(range)), pkg, v) <==> NpmAccepts(le, range, v))
  }

  /** A range is printed without changing what it accepts, in every order of versions,
      exactly when its lists cover for each other. */
  lemma RangeExact(pkg: string, range: Range)
    requires IsName(pkg) && Comparators(range) && Filled(range)
    ensures Covered(range) <==> SameVersions(pkg, range)
  {
    if Covered(range) {
      forall le, v | TotalOrder(le) && IsVersion(v)
        ensures DebianAccepts(le, Relation(pkg, Some(range)), pkg, v) <==> NpmAccepts(le, range, v)
      {
        CoveredAgrees(le, pkg, range, v);
      }
    } else {
      var le, v := UncoveredDiffers(pkg, range);
    }
  }

  // ------------------------------------------------------------------- special cases

  /** Every list consists of one comparator, perhaps repeated. */
  predicate Single(range: Range) {
    forall i, j :: 0 <= i < |range| && 0 <= j < |range[i]| ==> NpmDemand(range[i][j]) == NpmDemand(range[i][0])
  }

  /** When each list has a single comparator the two accept the same versions. */
  lemma SingleExact(pkg: string, range: Range)
    requires IsName(pkg) && Comparators(range) && Filled(range) && Single(range)
    ensures SameVersions(pkg, range)
  {
    CoveredMeaning(range);
    forall side ensures CoveredAt(range, side) {
      if i :| 0 <= i < |range| && SomeMet(range[i], side) {
        assert AllMet(range[i], side);
      }
    }
    RangeExact(pkg, range);
  }

  /** A side on which a relation is met, and one on which it is not. */
  function Side(op: Op, met: bool): int {
    match op
    case Earlier => if met then -1 else 0
    case EarlierOrSame => if met then 0 else 1
    case Same => if met then 0 else 1
    case LaterOrSame => if met then 0 else -1
    case Later => if met then 1 else 0
  }

  /** A side on which exactly one of two relations is met. */
  function Between(p: Op, q: Op): int {
    if Wants(p, -1) != Wants(q, -1) then -1 else if Wants(p, 0) != Wants(q, 0) then 0 else 1
  }

  /** Different demands are told apart by some place. */
  lemma ToldApart(c: Demand, d: Demand) returns (side: string -> int)
    requires c != d
    ensures MetAt(c, side) != MetAt(d, side)
  {
    if c.Any? || d.Any? {
      var s := Side(if c.Any? then d.op else c.op, false);
      side := w => s;
    } else if c.version == d.version {
      var s := Between(c.op, d.op);
      side := w => s;
    } else {
      var s, t := Side(c.op, true), Side(d.op, false);
      side := w => if w == c.version then s else t;
    }
  }

  /** A range of one list keeps its meaning, in every order of versions, exactly when
      the list repeats a single comparator. */
  lemma OneListExact(pkg: string, edges: seq<string>)
    requires IsName(pkg) && Comparators([edges]) && edges != []
    ensures Single([edges]) <==> SameVersions(pkg, [edges])
  {
    if Single([edges]) {
      SingleExact(pkg, [edges]);
    } else {
      var j :| 0 <= j < |edges| && NpmDemand(edges[j]) != NpmDemand(edges[0]);
      var side := ToldApart(NpmDemand(edges[j]), NpmDemand(edges[0]));
      assert SomeMet([edges][0], side) && !AllMet([edges][0], side);
      assert !CoveredAt([edges], side);
      CoveredMeaning([edges]);
      RangeExact(pkg, [edges]);
    }
  }

  /** Lists of several comparators do no harm where other lists cover for them, as
      anything below `a` and anything from `a` on do for every interval. */
  lemma CoveringLists(pkg: string, a: string, b: string, c: string)
    requires IsName(pkg) && IsVersion(a) && IsVersion(b) && IsVersion(c)
    ensures SameVersions(pkg, [["<" + a], [">=" + a], [">=" + b, "<" + c]])
  {
    var range := [["<" + a], [">=" + a], [">=" + b, "<" + c]];
    IntervalDemands(a, a);
    IntervalDemands(b, c);
    forall side ensures CoveredAt(range, side) {
      assert AllMet(range[0], side) || AllMet(range[1], side);
    }
    CoveredMeaning(range);
    RangeExact(pkg, range);
  }

  lemma IntervalDemands(a: string, b: string)
    requires IsVersion(a) && IsVersion(b)
    ensures NpmDemand(">=" + a) == Demand(LaterOrSame, a) && NpmDemand("<" + b) == Demand(Earlier, b)
    ensures Comparators([[">=" + a, "<" + b]]) && Comparators([["<" + b], [">=" + a]])
  {
    assert (">=" + a)[2..] == a && ("<" + b)[1..] == b;
  }

  /** An interval loses both its ends: Debian accepts every version. */
  lemma IntervalAcceptsAll(le: (string, string) -> bool, pkg: string, a: string, b: string, v: string)
    requires IsName(pkg) && IsVersion(a) && IsVersion(b) && TotalOrder(le) && !le(b, a)
    ensures DebianAccepts(le, Relation(pkg, Some([[">=" + a, "<" + b]])), pkg, v)
    ensures !NpmAccepts(le, [[">=" + a, "<" + b]], b)
  {
    var edges := [">=" + a, "<" + b];
    IntervalDemands(a, b);
    var c, d := NpmDemand(edges[0]), NpmDemand(edges[1]);
    assert Meets(le, c, v) || Meets(le, d, v);
    assert MeetsSome(le, edges, v);
    OneListAccepts(le, pkg, edges, v);
    assert !Meets(le, d, b);
  }

  lemma OneListAccepts(le: (string, string) -> bool, pkg: string, edges: seq<string>, v: string)
    requires IsName(pkg) && Comparators([edges]) && MeetsSome(le, edges, v)
    ensures DebianAccepts(le, Relation(pkg, Some([edges])), pkg, v)
  {
    FilledFlattens([edges]);
    DebianIsAnyComparator(le, pkg, [edges], v);
    assert MeetsSome(le, [edges][0], v);
  }

  // ---------------------------------------------------------------- the texts themselves

  /** The bare name, printed for no version, is any version of the package. */
  lemma NoVersion(le: (string, string) -> bool, pkg: string, v: string)
    requires IsName(pkg)
    ensures DebianAccepts(le, pkg, pkg, v)
  {
    RelationReads(pkg, [""]);
    assert Alternatives(pkg, [""]) == [pkg];
    assert ReadRelation(pkg) == Some(Demands(pkg, [""]));
    assert Demands(pkg, [""])[0] == Dependency(pkg, Any);
  }

  lemma OneText(pkg: string, edge: string)
    ensures Relation(pkg, Some([[edge]])) == Alternative(pkg, edge)
  {
    assert [[edge]][..0] == [] && [] + [edge] == [edge];
    assert Flatten([[edge]]) == [edge];
    assert Alternatives(pkg, [edge]) == [Alternative(pkg, edge)];
  }

  /** A version by itself, or after `=`. */
  lemma ExactText(pkg: string, w: string)
    requires DigitAt(w, 0)
    ensures Relation(pkg, Some([[w]])) == pkg + " (" + ("= " + w) + ")"
    ensures Relation(pkg, Some([["=" + w]])) == pkg + " (" + ("=" + w) + ")"
  {
    OneText(pkg, w);
    OneText(pkg, "=" + w);
    ExactEdge(w);
  }

  lemma ExactEdge(w: string)
    requires DigitAt(w, 0)
    ensures Rewrite(w) == "= " + w && Rewrite("=" + w) == "=" + w
  {
    assert ("=" + w)[0] == '=';
  }

  /** `<` and `>` are doubled before a version. */
  lemma StrictText(pkg: string, op: string, w: string)
    requires DigitAt(w, 0) && (op == "<" || op == ">")
    ensures Relation(pkg, Some([[op + w]])) == pkg + " (" + (op + op + " " + w) + ")"
  {
    OneText(pkg, op + w);
    StrictEdge(op[0], op + w, w);
  }

  lemma StrictEdge(c: char, e: string, w: string)
    requires DigitAt(w, 0) && (c == '<' || c == '>') && e == [c] + w
    ensures Rewrite(e) == [c] + [c] + " " + w
  {
    assert e[0] == c && e[1] == w[0] && e[1..] == w;
    assert MarkExact(e) == e;
    assert DoubleStrict(e) == [c, c] + " " + w;
  }

  /** `<=` and `>=` are not. */
  lemma WeakText(pkg: string, op: string, w: string)
    requires op == "<=" || op == ">="
    ensures Relation(pkg, Some([[op + w]])) == pkg + " (" + (op + " " + w) + ")"
  {
    OneText(pkg, op + w);
    WeakEdge(op, op + w, w);
  }

  lemma WeakEdge(op: string, e: string, w: string)
    requires (op == "<=" || op == ">=") && e == op + w
    ensures Rewrite(e) == op + " " + w
  {
    assert e[0] == op[0] && e[1] == '=' && e[..2] == op && e[2..] == w;
  }
}
