/** The text of the generated build file, and how a reader of makefiles takes it
    apart again: into lines, rule headers, targets and prerequisites. */
module MakefileText {
  import opened Texts

  // ------------------------------------------------------------------ reading

  /** The text between newlines. */
  function Lines(s: string): (r: seq<string>)
    ensures |r| > 0
  {
    if s == "" then [""]
    else
      var rest := Lines(s[1..]);
      if s[0] == '\n' then [""] + rest else [[s[0]] + rest[0]] + rest[1..]
  }

  /** The non-empty stretches between blanks. */
  function Words(s: string): seq<string>
    decreases |s|
  {
    if s == "" then []
    else if s[0] == ' ' then Words(s[1..])
    else
      var n := Find(s, ' ');
      [s[..n]] + Words(s[n..])
  }

  datatype Header = Header(target: string, prereqs: seq<string>)

  /** Rule headers are the lines with a colon that do not start with a tab. */
  predicate IsHeader(line: string) {
    line != "" && line[0] != '\t' && ':' in line
  }

  function ReadHeader(line: string): Header
    requires IsHeader(line)
  {
    var i := Find(line, ':');
    Header(line[..i], Words(line[i + 1..]))
  }

  function HeaderOf(line: string): seq<Header> {
    if IsHeader(line) then [ReadHeader(line)] else []
  }

  function FlatMap<A, B>(f: A -> seq<B>, xs: seq<A>): seq<B> {
    if xs == [] then [] else f(xs[0]) + FlatMap(f, xs[1..])
  }

  function Headers(lines: seq<string>): seq<Header> {
    FlatMap(HeaderOf, lines)
  }

  function ReadMakefile(text: string): seq<Header> {
    Headers(Lines(text))
  }

  /** The package a removal command names. */
  function RemovalOf(line: string): seq<string> {
    if |REMOVE| <= |line| && line[..|REMOVE|] == REMOVE then [line[|REMOVE|..]] else []
  }

  /** The packages that the removal commands of a file name, in order. */
  function ReadRemovals(text: string): seq<string> {
    FlatMap(RemovalOf, Lines(text))
  }

  /** Every prerequisite in the file is the target of some rule in the file. */
  ghost predicate Closed(headers: seq<Header>) {
    forall h, p :: h in headers && p in h.prereqs ==> Defines(headers, p)
  }

  ghost predicate Defines(headers: seq<Header>, target: string) {
    exists h :: h in headers && h.target == target
  }

  // ------------------------------------------------------------------ writing

  datatype Rule = Rule(name: string, logical: string, dir: string, archive: string, deps: seq<string>)

  function Unlines(lines: seq<string>): string {
    if lines == [] then "" else lines[0] + "\n" + Unlines(lines[1..])
  }

  const SUFFIX := ".deb"
  const PHONY := ".PHONY"
  const ALL := "all"
  const UNINSTALL := "uninstall"

  function HeaderLine(r: Rule): string {
    r.archive + SUFFIX + ": " + if |r.deps| > 0 then JoinText(r.deps, SUFFIX + " ") + SUFFIX else ""
  }

  function EchoLine(r: Rule): string { "\t@echo Building package " + r.name }

  function BuildLine(r: Rule): string { "\tcd ./" + r.dir + "; dpkg-buildpackage" + " -b -k37FC6E55" + " -d -rfakeroot" }

  function InstallLine(): string { "\tsudo dpkg -i ${@}" }

  function RuleLines(r: Rule): seq<string> {
    [HeaderLine(r), EchoLine(r), BuildLine(r), InstallLine(), ""]
  }

  /** The loop `while (pkgname = uninstall.pop())`: it ends at the first empty name. */
  function PopNames(stack: seq<string>): seq<string> {
    if stack == [] || stack[|stack| - 1] == "" then []
    else [stack[|stack| - 1]] + PopNames(stack[..|stack| - 1])
  }

  const REMOVE := "\t-sudo dpkg -r "

  function RemoveLine(name: string): string { REMOVE + name }

  function RemoveLines(names: seq<string>): (r: seq<string>)
    ensures |r| == |names|
    ensures forall i :: 0 <= i < |r| ==> r[i] == RemoveLine(names[i])
  {
    if names == [] then [] else [RemoveLine(names[0])] + RemoveLines(names[1..])
  }

  function Logicals(rules: seq<Rule>): (r: seq<string>)
    ensures |r| == |rules|
  {
    seq(|rules|, i requires 0 <= i < |rules| => rules[i].logical)
  }

  function AllLine(first: string): string { ALL + ":" + " " + first + SUFFIX }

  function Preamble(first: string): seq<string> {
    [PHONY + ":" + (" " + (ALL + " " + UNINSTALL)), "", AllLine(first), ""]
  }

  function RulesLines(rules: seq<Rule>): seq<string> {
    if rules == [] then [] else RulesLines(rules[..|rules| - 1]) + RuleLines(rules[|rules| - 1])
  }

  /** The lines of the whole file: `first` is the archive that `all` asks for. */
  function FileLines(first: string, rules: seq<Rule>): seq<string> {
    Preamble(first) + RulesLines(rules) + [UNINSTALL + ":"] + RemoveLines(PopNames(Logicals(rules)))
  }

  // ------------------------------------------------- reading back what was written

  predicate OneLine(s: string) { '\n' !in s }

  /** A name that survives as one word of a rule header. */
  predicate OneWord(s: string) {
    '\n' !in s && ' ' !in s && ':' !in s && '\t' !in s
  }

  lemma {:induction false} LinesCons(l: string, rest: string)
    requires OneLine(l)
    ensures Lines(l + "\n" + rest) == [l] + Lines(rest)
    decreases |l|
  {
    var s := l + "\n" + rest;
    if l == "" {
      assert s[1..] == rest;
    } else {
      assert s[1..] == l[1..] + "\n" + rest;
      LinesCons(l[1..], rest);
      assert [l[0]] + l[1..] == l;
    }
  }

  lemma {:induction false} LinesUnlines(lines: seq<string>)
    requires forall l :: l in lines ==> OneLine(l)
    ensures Lines(Unlines(lines)) == lines + [""]
    decreases |lines|
  {
    if lines == [] {
    } else {
      LinesCons(lines[0], Unlines(lines[1..]));
      LinesUnlines(lines[1..]);
    }
  }

  lemma {:induction false} UnlinesAppend(a: seq<string>, b: seq<string>)
    ensures Unlines(a + b) == Unlines(a) + Unlines(b)
    decreases |a|
  {
    if a == [] {
      assert a + b == b;
    } else {
      UnlinesAppend(a[1..], b);
      assert (a + b)[1..] == a[1..] + b;
    }
  }

  lemma {:induction false} FlatMapAppend<A, B>(f: A -> seq<B>, a: seq<A>, b: seq<A>)
    ensures FlatMap(f, a + b) == FlatMap(f, a) + FlatMap(f, b)
    decreases |a|
  {
    if a == [] {
      assert a + b == b;
    } else {
      FlatMapAppend(f, a[1..], b);
      assert (a + b)[1..] == a[1..] + b;
    }
  }

  lemma WordsCons(w: string, rest: string)
    requires w != "" && ' ' !in w
    ensures Words(w + " " + rest) == [w] + Words(rest)
    ensures Words(w) == [w]
  {
    var s := w + " " + rest;
    FindPast(w, ' ', rest);
    assert w + [' '] + rest == s;
    assert s[..|w|] == w && s[|w|..] == " " + rest;
    assert (" " + rest)[1..] == rest;
    assert w[..|w|] == w && w[|w|..] == "";
  }

  function Debs(archives: seq<string>): (r: seq<string>)
    ensures |r| == |archives|
    ensures forall i :: 0 <= i < |r| ==> r[i] == archives[i] + SUFFIX
  {
    if archives == [] then [] else [archives[0] + SUFFIX] + Debs(archives[1..])
  }

  lemma DebIsWord(a: string)
    requires OneWord(a)
    ensures OneWord(a + SUFFIX)
  {
    assert SUFFIX == ['.', 'd', 'e', 'b'];
    assert forall c :: c in a + SUFFIX ==> c in a || c in SUFFIX;
  }

  lemma {:induction false} WordsJoin(archives: seq<string>)
    requires archives != [] && forall a :: a in archives ==> OneWord(a)
    ensures Words(JoinText(archives, SUFFIX + " ") + SUFFIX) == Debs(archives)
    decreases |archives|
  {
    var w, rest := archives[0] + SUFFIX, archives[1..];
    DebIsWord(archives[0]);
    if rest == [] {
      assert JoinText(archives, SUFFIX + " ") + SUFFIX == w;
      WordsCons(w, "");
    } else {
      var tail := JoinText(rest, SUFFIX + " ") + SUFFIX;
      assert JoinText(archives, SUFFIX + " ") + SUFFIX == w + " " + tail;
      WordsCons(w, tail);
      WordsJoin(rest);
    }
  }

  ghost predicate Clean(r: Rule) {
    && OneLine(r.name) && OneLine(r.logical) && OneLine(r.dir) && OneWord(r.archive)
    && forall a :: a in r.deps ==> OneWord(a)
  }

  /** The header of a rule reads back as its archive and, in order, the archives it
      depends on. */
  lemma HeaderReads(r: Rule)
    requires Clean(r)
    ensures IsHeader(HeaderLine(r))
    ensures ReadHeader(HeaderLine(r)) == Header(r.archive + SUFFIX, Debs(r.deps))
  {
    var target := r.archive + SUFFIX;
    var list := if |r.deps| > 0 then JoinText(r.deps, SUFFIX + " ") + SUFFIX else "";
    var line := HeaderLine(r);
    assert line == target + [':'] + (" " + list);
    FindPast(target, ':', " " + list);
    assert line[|target|] == ':';
    assert line[..|target|] == target && line[|target| + 1..] == " " + list;
    assert (" " + list)[1..] == list;
    assert line[0] != '\t';
    assert Words(" " + list) == Words(list);
    if |r.deps| > 0 {
      WordsJoin(r.deps);
    } else {
      assert Words(list) == [];
    }
  }

  lemma {:induction false} JoinOneLine(archives: seq<string>, sep: string)
    requires OneLine(sep) && forall a :: a in archives ==> OneWord(a)
    ensures OneLine(JoinText(archives, sep))
    decreases |archives|
  {
    if |archives| == 0 {
    } else {
      assert archives[0] in archives;
      JoinOneLine(archives[1..], sep);
    }
  }

  lemma NotHeader(line: string)
    requires line == "" || line[0] == '\t'
    ensures HeaderOf(line) == []
  {
  }

  lemma FiveHeaders(a: string, b: string, c: string, d: string, e: string)
    requires HeaderOf(b) == HeaderOf(c) == HeaderOf(d) == HeaderOf(e) == []
    ensures Headers([a, b, c, d, e]) == HeaderOf(a)
  {
    var ls := [a, b, c, d, e];
    assert ls == [a] + [b] + [c] + [d] + [e];
    FlatMapAppend(HeaderOf, [a] + [b] + [c] + [d], [e]);
    FlatMapAppend(HeaderOf, [a] + [b] + [c], [d]);
    FlatMapAppend(HeaderOf, [a] + [b], [c]);
    FlatMapAppend(HeaderOf, [a], [b]);
  }

  lemma RuleLinesHeaders(r: Rule)
    requires Clean(r)
    ensures Headers(RuleLines(r)) == [Header(r.archive + SUFFIX, Debs(r.deps))]
  {
    HeaderReads(r);
    NotHeader(EchoLine(r));
    NotHeader(BuildLine(r));
    NotHeader(InstallLine());
    NotHeader("");
    FiveHeaders(HeaderLine(r), EchoLine(r), BuildLine(r), InstallLine(), "");
  }

  function RuleHeaders(rules: seq<Rule>): (r: seq<Header>)
    ensures |r| == |rules|
    ensures forall i :: 0 <= i < |r| ==> r[i] == Header(rules[i].archive + SUFFIX, Debs(rules[i].deps))
  {
    seq(|rules|, i requires 0 <= i < |rules| => Header(rules[i].archive + SUFFIX, Debs(rules[i].deps)))
  }

  lemma {:induction false} RulesHeaders(rules: seq<Rule>)
    requires forall r :: r in rules ==> Clean(r)
    ensures Headers(RulesLines(rules)) == RuleHeaders(rules)
  {
    if rules == [] {
    } else {
      var front, last := rules[..|rules| - 1], rules[|rules| - 1];
      RulesHeaders(front);
      FlatMapAppend(HeaderOf, RulesLines(front), RuleLines(last));
      RuleLinesHeaders(last);
      assert RuleHeaders(rules) == RuleHeaders(front) + [Header(last.archive + SUFFIX, Debs(last.deps))];
    }
  }

  lemma {:induction false} RemoveHeaders(names: seq<string>)
    ensures Headers(RemoveLines(names)) == []
    decreases |names|
  {
    if names == [] {
    } else {
      NotHeader(RemoveLine(names[0]));
      RemoveHeaders(names[1..]);
    }
  }

  lemma PlainHeader(target: string, rest: string)
    requires target != "" && target[0] != '\t' && ':' !in target
    ensures HeaderOf(target + ":" + rest) == [Header(target, Words(rest))]
  {
    var line := target + [':'] + rest;
    assert line == target + ":" + rest;
    FindPast(target, ':', rest);
    assert line[|target|] == ':' && line[..|target|] == target && line[|target| + 1..] == rest;
  }

  lemma TwoPrereqs(target: string, a: string, b: string)
    requires target != "" && target[0] != '\t' && ':' !in target
    requires a != "" && ' ' !in a && b != "" && ' ' !in b
    ensures HeaderOf(target + ":" + (" " + (a + " " + b))) == [Header(target, [a, b])]
  {
    var list := a + " " + b;
    PlainHeader(target, " " + list);
    WordsCons(a, b);
    WordsCons(b, "");
    assert (" " + list)[1..] == list;
    assert Words(" " + list) == [a] + [b] == [a, b];
  }

  lemma AllHeader(first: string)
    requires OneWord(first)
    ensures HeaderOf(AllLine(first)) == [Header(ALL, [first + SUFFIX])]
  {
    DebIsWord(first);
    PlainHeader(ALL, " " + (first + SUFFIX));
    WordsCons(first + SUFFIX, "");
    assert (" " + (first + SUFFIX))[1..] == first + SUFFIX;
    assert AllLine(first) == ALL + ":" + (" " + (first + SUFFIX));
  }

  lemma FourHeaders(a: string, b: string)
    ensures Headers([a, "", b, ""]) == HeaderOf(a) + HeaderOf(b)
  {
    var ls := [a, "", b, ""];
    NotHeader("");
    assert ls == [a] + [""] + [b] + [""];
    FlatMapAppend(HeaderOf, [a] + [""] + [b], [""]);
    FlatMapAppend(HeaderOf, [a] + [""], [b]);
    FlatMapAppend(HeaderOf, [a], [""]);
  }

  lemma PreambleHeaders(first: string)
    requires OneWord(first)
    ensures Headers(Preamble(first)) == [Header(PHONY, [ALL, UNINSTALL])] + [Header(ALL, [first + SUFFIX])]
  {
    TwoPrereqs(PHONY, ALL, UNINSTALL);
    AllHeader(first);
    FourHeaders(PHONY + ":" + (" " + (ALL + " " + UNINSTALL)), AllLine(first));
  }

  lemma UninstallHeader()
    ensures Headers([UNINSTALL + ":"]) == [Header(UNINSTALL, [])]
  {
    PlainHeader(UNINSTALL, "");
    var line := UNINSTALL + ":";
    assert line == UNINSTALL + ":" + "";
    assert Words("") == [];
    assert HeaderOf(line) == [Header(UNINSTALL, [])];
    assert [line][1..] == [];
    assert Headers([line]) == HeaderOf(line) + FlatMap(HeaderOf, []);
  }

  lemma FlatMapFour<A, B>(f: A -> seq<B>, a: seq<A>, b: seq<A>, c: seq<A>, d: seq<A>)
    ensures FlatMap(f, a + b + c + d) == FlatMap(f, a) + FlatMap(f, b) + FlatMap(f, c) + FlatMap(f, d)
  {
    FlatMapAppend(f, a + b + c, d);
    FlatMapAppend(f, a + b, c);
    FlatMapAppend(f, a, b);
  }

  /** The headers a reader should find: the two fixed ones, one per rule, and `uninstall`. */
  function AllHeaders(first: string, rules: seq<Rule>): seq<Header> {
    [Header(PHONY, [ALL, UNINSTALL])] + [Header(ALL, [first + SUFFIX])] + RuleHeaders(rules) + [Header(UNINSTALL, [])]
  }

  /** The rule headers of the file, read back from its lines. */
  lemma FileHeaders(first: string, rules: seq<Rule>)
    requires OneWord(first) && forall r :: r in rules ==> Clean(r)
    ensures Headers(FileLines(first, rules)) == AllHeaders(first, rules)
  {
    var removed := PopNames(Logicals(rules));
    FlatMapFour(HeaderOf, Preamble(first), RulesLines(rules), [UNINSTALL + ":"], RemoveLines(removed));
    PreambleHeaders(first);
    RulesHeaders(rules);
    UninstallHeader();
    RemoveHeaders(removed);
  }

  // ------------------------------------------------------------- removal commands

  lemma {:induction false} NoneRemoved(lines: seq<string>)
    requires forall l :: l in lines ==> RemovalOf(l) == []
    ensures FlatMap(RemovalOf, lines) == []
  {
    if lines == [] {
    } else {
      assert lines[0] in lines;
      NoneRemoved(lines[1..]);
    }
  }

  lemma {:induction false} RemovalsRead(names: seq<string>)
    ensures FlatMap(RemovalOf, RemoveLines(names)) == names
  {
    if names == [] {
    } else {
      RemovalsRead(names[1..]);
      var line := RemoveLine(names[0]);
      assert line[..|REMOVE|] == REMOVE && line[|REMOVE|..] == names[0];
      assert RemoveLines(names)[1..] == RemoveLines(names[1..]);
    }
  }

  lemma NotRemoval(line: string)
    requires |line| < 2 || line[0] != '\t' || line[1] != '-'
    ensures RemovalOf(line) == []
  {
    assert REMOVE[0] == '\t' && REMOVE[1] == '-';
    if |REMOVE| <= |line| {
      assert line[..|REMOVE|][0] == line[0] && line[..|REMOVE|][1] == line[1];
    }
  }

  lemma RuleNotRemoval(r: Rule, l: string)
    requires Clean(r) && l in RuleLines(r)
    ensures RemovalOf(l) == []
  {
    NotRemoval(l);
  }

  lemma {:induction false} RulesNotRemoval(rules: seq<Rule>, l: string)
    requires l in RulesLines(rules) && forall r :: r in rules ==> Clean(r)
    ensures RemovalOf(l) == []
  {
    var front, last := rules[..|rules| - 1], rules[|rules| - 1];
    if l in RuleLines(last) {
      RuleNotRemoval(last, l);
    } else {
      RulesNotRemoval(front, l);
    }
  }

  /** The removal commands of a file name what was popped off its stack. */
  lemma FileRemovals(first: string, rules: seq<Rule>)
    requires OneWord(first) && forall r :: r in rules ==> Clean(r)
    ensures FlatMap(RemovalOf, FileLines(first, rules)) == PopNames(Logicals(rules))
  {
    var top, body, mark := Preamble(first), RulesLines(rules), [UNINSTALL + ":"];
    var tail := RemoveLines(PopNames(Logicals(rules)));
    FlatMapFour(RemovalOf, top, body, mark, tail);
    forall l | l in top ensures RemovalOf(l) == [] {
      NotRemoval(l);
    }
    NoneRemoved(top);
    forall l | l in body ensures RemovalOf(l) == [] {
      RulesNotRemoval(rules, l);
    }
    NoneRemoved(body);
    NotRemoval(UNINSTALL + ":");
    NoneRemoved(mark);
    RemovalsRead(PopNames(Logicals(rules)));
    assert [] + [] + [] + PopNames(Logicals(rules)) == PopNames(Logicals(rules));
  }
}
