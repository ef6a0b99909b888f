/** What the generated build file guarantees after a finished crawl, stated about
    its text as a makefile reader sees it. */
module BuildTheorems {
  import opened Options
  import opened Sequences
  import opened Packages
  import opened CrawlModel
  import opened CrawlTheorems
  import opened BuildOrder
  import opened MakefileText
  import opened BuildFile

  /** Names that can be printed into a build file and read back. */
  ghost predicate Printable(n: Name, p: PkgName) {
    && OneLine(n) && OneLine(p.logical) && OneLine(p.dir) && p.dir != ""
    && OneWord(p.archive) && p.archive != ""
  }

  ghost predicate Named(repo: Repo, root: Name, pkgNames: PkgNames) {
    forall n :: Reachable(repo, root, n) ==> n in pkgNames && Printable(n, pkgNames[n])
  }

  /** `s` is the state of a crawl that has ended. */
  ghost predicate Finished(repo: Repo, root: Name, s: State) {
    Serves(repo, root) && Inv(repo, root, s) && Quiescent(s) && !Reachable(repo, root, "")
  }

  lemma RunFinished(repo: Repo, root: Name, states: seq<State>, sched: seq<Request>)
    requires Serves(repo, root) && IsRun(repo, root, states, sched)
    requires Quiescent(states[|sched|]) && !Reachable(repo, root, "")
    ensures Finished(repo, root, states[|sched|])
  {
    RunInv(repo, root, states, sched, |sched|);
  }

  lemma FinishedWalk(repo: Repo, root: Name, s: State, n: Name)
    requires Finished(repo, root, s)
    ensures WalkTree(s.tree, s.maxDepth).missing == None
    ensures n in WalkTree(s.tree, s.maxDepth).names <==> n != "serve" && Reachable(repo, root, n)
  {
    VisitedExact(repo, root, s, "");
    VisitedExact(repo, root, s, n);
    BuildOrderIsReverse(repo, root, s);
    KeptExact(Reverse(Names(s.log)), n);
    ReverseSame(Names(s.log));
    var names := WalkTree(s.tree, s.maxDepth).names;
    assert n in names <==> multiset(names)[n] > 0;
    assert n in Names(s.log) <==> multiset(Names(s.log))[n] > 0;
  }

  // ------------------------------------------------------------ rule contents

  /** Every name listed in `alldeps` but `serve` has its archive in the result, and
      nothing else is there. */
  lemma {:induction false} ArchivesTotal(alldeps: Dict, pkgNames: PkgNames)
    requires forall k :: k in Keys(alldeps) ==> k in pkgNames
    ensures Archives(alldeps, pkgNames).Ok?
    ensures forall a :: a in Archives(alldeps, pkgNames).value ==>
      exists k :: k in Keys(alldeps) && k != "serve" && a == pkgNames[k].archive
    ensures forall k :: k in Keys(alldeps) && k != "serve" ==>
      pkgNames[k].archive in Archives(alldeps, pkgNames).value
  {
    if alldeps == [] {
    } else {
      var front, last := alldeps[..|alldeps| - 1], alldeps[|alldeps| - 1].0;
      assert Keys(alldeps) == Keys(front) + [last];
      ArchivesTotal(front, pkgNames);
    }
  }

  /** The rules of the named packages, in order. */
  ghost predicate RulesFor(rules: seq<Rule>, names: seq<Name>, records: Records, pkgNames: PkgNames) {
    && |rules| == |names|
    && forall i :: 0 <= i < |names| ==> IsRuleOf(rules[i], names[i], records, pkgNames)
  }

  ghost predicate IsRuleOf(r: Rule, n: Name, records: Records, pkgNames: PkgNames) {
    RuleOf(n, records, pkgNames) == Ok(r)
  }

  lemma {:induction false} RulesTotal(names: seq<Name>, records: Records, pkgNames: PkgNames)
    requires forall n :: n in names ==> RuleOf(n, records, pkgNames).Ok?
    ensures RulesOf(names, records, pkgNames).Ok?
    ensures RulesFor(RulesOf(names, records, pkgNames).value, names, records, pkgNames)
  {
    if names == [] {
    } else {
      RulesTotal(names[..|names| - 1], records, pkgNames);
    }
  }

  /** Some reachable package other than `serve` is built as `archive`. */
  ghost predicate Builds(repo: Repo, root: Name, pkgNames: PkgNames, archive: string) {
    exists n {:trigger Reachable(repo, root, n)} ::
      Reachable(repo, root, n) && n != "serve" && n in pkgNames && pkgNames[n].archive == archive
  }

  /** After a crawl every reachable package has a rule, made of its own record. */
  lemma RuleExists(repo: Repo, root: Name, s: State, pkgNames: PkgNames, n: Name)
    requires Finished(repo, root, s) && Named(repo, root, pkgNames) && Reachable(repo, root, n)
    ensures RuleOf(n, s.records, pkgNames).Ok?
    ensures var r := RuleOf(n, s.records, pkgNames).value;
      && Clean(r) && r.archive == pkgNames[n].archive
      && forall a :: a in r.deps ==> Builds(repo, root, pkgNames, a)
  {
    RecordsReachable(repo, root, s);
    assert n in ReachableSet(repo, root);
    var alldeps := s.records[n].alldeps;
    forall k | k in Keys(alldeps) ensures Reachable(repo, root, k) {
      ReachStep(repo, root, n, k);
    }
    ArchivesTotal(alldeps, pkgNames);
    forall a | a in Archives(alldeps, pkgNames).value ensures Builds(repo, root, pkgNames, a) {
      var k :| k in Keys(alldeps) && k != "serve" && a == pkgNames[k].archive;
      assert Reachable(repo, root, k);
    }
  }

  lemma TargetFirst(repo: Repo, root: Name, s: State)
    requires Finished(repo, root, s)
    ensures 0 in s.tree && s.tree[0] != [] && s.tree[0][0] == root
    ensures Reachable(repo, root, root)
  {
    ReachRoot(repo, root);
    VisitedExact(repo, root, s, root);
    LevelsContiguous(repo, root, s);
  }

  lemma WalkedRule(repo: Repo, root: Name, s: State, pkgNames: PkgNames, n: Name)
    requires Finished(repo, root, s) && Named(repo, root, pkgNames)
    requires n in WalkTree(s.tree, s.maxDepth).names
    ensures RuleOf(n, s.records, pkgNames).Ok? && Clean(RuleOf(n, s.records, pkgNames).value)
  {
    FinishedWalk(repo, root, s, n);
    RuleExists(repo, root, s, pkgNames, n);
  }

  lemma RulesClean(rules: seq<Rule>, names: seq<Name>, records: Records, pkgNames: PkgNames)
    requires RulesFor(rules, names, records, pkgNames)
    requires forall n :: n in names ==> RuleOf(n, records, pkgNames).Ok? && Clean(RuleOf(n, records, pkgNames).value)
    ensures forall r :: r in rules ==> Clean(r)
  {
    forall r | r in rules ensures Clean(r) {
      var i :| 0 <= i < |rules| && rules[i] == r;
      assert IsRuleOf(rules[i], names[i], records, pkgNames);
    }
  }

  /** The rules of a finished crawl, in build order. */
  lemma FinishedRules(repo: Repo, root: Name, s: State, pkgNames: PkgNames) returns (rules: seq<Rule>)
    requires Finished(repo, root, s) && Named(repo, root, pkgNames)
    ensures FileFor(s.tree, s.maxDepth, s.records, pkgNames) == Ok(FileLines(pkgNames[root].archive, rules))
    ensures RulesFor(rules, WalkTree(s.tree, s.maxDepth).names, s.records, pkgNames)
    ensures forall r :: r in rules ==> Clean(r)
  {
    var names := WalkTree(s.tree, s.maxDepth).names;
    TargetFirst(repo, root, s);
    FinishedWalk(repo, root, s, root);
    forall n | n in names ensures RuleOf(n, s.records, pkgNames).Ok? && Clean(RuleOf(n, s.records, pkgNames).value) {
      WalkedRule(repo, root, s, pkgNames, n);
    }
    RulesTotal(names, s.records, pkgNames);
    rules := RulesOf(names, s.records, pkgNames).value;
    RulesClean(rules, names, s.records, pkgNames);
  }

  // ----------------------------------------------------------------- the text

  lemma {:induction false} RulesLinesOne(rules: seq<Rule>, l: string)
    requires forall r :: r in rules ==> Clean(r)
    requires l in RulesLines(rules)
    ensures OneLine(l)
  {
    var front, last := rules[..|rules| - 1], rules[|rules| - 1];
    if l in RulesLines(front) {
      RulesLinesOne(front, l);
    } else {
      assert l in RuleLines(last);
      RuleLinesOne(last, l);
    }
  }

  lemma RuleLinesOne(r: Rule, l: string)
    requires Clean(r) && l in RuleLines(r)
    ensures OneLine(l)
  {
    if l == HeaderLine(r) {
      JoinOneLine(r.deps, SUFFIX + " ");
      assert OneLine(SUFFIX) && OneLine(": ");
    } else if l == EchoLine(r) {
      assert OneLine("\t@echo Building package ");
    } else if l == BuildLine(r) {
      assert OneLine("\tcd ./") && OneLine("; dpkg-buildpackage");
      assert OneLine(" -b -k37FC6E55") && OneLine(" -d -rfakeroot");
    }
  }

  lemma {:induction false} PopNamesSubset(stack: seq<string>, n: string)
    requires n in PopNames(stack)
    ensures n in stack
  {
    var front := stack[..|stack| - 1];
    if n !in PopNames(front) {
    } else {
      PopNamesSubset(front, n);
    }
  }

  lemma RemoveLinesOne(rules: seq<Rule>, l: string)
    requires forall r :: r in rules ==> Clean(r)
    requires l in RemoveLines(PopNames(Logicals(rules)))
    ensures OneLine(l)
  {
    var names := PopNames(Logicals(rules));
    var i :| 0 <= i < |names| && l == RemoveLine(names[i]);
    PopNamesSubset(Logicals(rules), names[i]);
    var j :| 0 <= j < |rules| && names[i] == rules[j].logical;
    assert Clean(rules[j]);
  }

  lemma FileLinesRead(first: string, rules: seq<Rule>)
    requires OneWord(first) && forall r :: r in rules ==> Clean(r)
    ensures Lines(Unlines(FileLines(first, rules))) == FileLines(first, rules) + [""]
  {
    var lines := FileLines(first, rules);
    forall l | l in lines ensures OneLine(l) {
      if l in RulesLines(rules) {
        RulesLinesOne(rules, l);
      } else if l in RemoveLines(PopNames(Logicals(rules))) {
        RemoveLinesOne(rules, l);
      }
    }
    LinesUnlines(lines);
  }

  /** Reading the text of the file gives back its rules, target by target and
      prerequisite by prerequisite, in order. */
  lemma FileReadsBack(first: string, rules: seq<Rule>)
    requires OneWord(first) && forall r :: r in rules ==> Clean(r)
    ensures ReadMakefile(Unlines(FileLines(first, rules))) == AllHeaders(first, rules)
  {
    var lines := FileLines(first, rules);
    FileLinesRead(first, rules);
    FlatMapAppend(HeaderOf, lines, [""]);
    NotHeader("");
    assert Headers([""]) == [] by { assert [""][1..] == []; }
    FileHeaders(first, rules);
  }

  // ---------------------------------------------------------------- closedness

  lemma DebInjective(a: string, b: string)
    requires a + SUFFIX == b + SUFFIX
    ensures a == b
  {
    assert (a + SUFFIX)[..|a|] == a && (b + SUFFIX)[..|b|] == b;
  }

  lemma HeaderAt(first: string, rules: seq<Rule>, j: nat)
    requires j < |rules| + 3
    ensures |AllHeaders(first, rules)| == |rules| + 3
    ensures AllHeaders(first, rules)[j] ==
      if j == 0 then Header(PHONY, [ALL, UNINSTALL])
      else if j == 1 then Header(ALL, [first + SUFFIX])
      else if j == |rules| + 2 then Header(UNINSTALL, [])
      else Header(rules[j - 2].archive + SUFFIX, Debs(rules[j - 2].deps))
  {
    if 2 <= j < |rules| + 2 {
      assert AllHeaders(first, rules)[j] == RuleHeaders(rules)[j - 2];
    }
  }

  lemma NotDeb(t: string, archive: string)
    requires t != "" && t[|t| - 1] != 'b'
    ensures archive + SUFFIX != t
  {
    assert (archive + SUFFIX)[|archive| + 3] == SUFFIX[3] == 'b';
  }

  /** A deb target is defined exactly when some rule builds that archive. */
  lemma DebDefined(first: string, rules: seq<Rule>, archive: string)
    ensures Defines(AllHeaders(first, rules), archive + SUFFIX) <==>
      exists i :: 0 <= i < |rules| && rules[i].archive == archive
  {
    var hs := AllHeaders(first, rules);
    HeaderAt(first, rules, 0);
    NotDeb(PHONY, archive);
    NotDeb(ALL, archive);
    NotDeb(UNINSTALL, archive);
    if Defines(hs, archive + SUFFIX) {
      var h :| h in hs && h.target == archive + SUFFIX;
      var j :| 0 <= j < |hs| && hs[j] == h;
      HeaderAt(first, rules, j);
      DebInjective(rules[j - 2].archive, archive);
    }
    if i :| 0 <= i < |rules| && rules[i].archive == archive {
      HeaderAt(first, rules, i + 2);
      assert hs[i + 2] in hs;
    }
  }

  /** Which archives the finished file builds. */
  lemma ArchiveBuilt(repo: Repo, root: Name, s: State, pkgNames: PkgNames, rules: seq<Rule>, archive: string)
    requires Finished(repo, root, s) && Named(repo, root, pkgNames)
    requires RulesFor(rules, WalkTree(s.tree, s.maxDepth).names, s.records, pkgNames)
    ensures (exists i :: 0 <= i < |rules| && rules[i].archive == archive)
       <==> Builds(repo, root, pkgNames, archive)
  {
    var names := WalkTree(s.tree, s.maxDepth).names;
    if i :| 0 <= i < |rules| && rules[i].archive == archive {
      assert IsRuleOf(rules[i], names[i], s.records, pkgNames);
      FinishedWalk(repo, root, s, names[i]);
      RuleExists(repo, root, s, pkgNames, names[i]);
    }
    if Builds(repo, root, pkgNames, archive) {
      var n :| Reachable(repo, root, n) && n != "serve" && n in pkgNames && pkgNames[n].archive == archive;
      FinishedWalk(repo, root, s, n);
      var i :| 0 <= i < |names| && names[i] == n;
      assert IsRuleOf(rules[i], n, s.records, pkgNames);
      RuleExists(repo, root, s, pkgNames, n);
    }
  }

  /** The written file exists, reads back rule by rule, and every prerequisite in
      it is the target of some rule in it, exactly when the target's own archive
      is built at all: always, unless the target is `serve`. */
  lemma MakefileClosed(repo: Repo, root: Name, s: State, pkgNames: PkgNames)
    requires Finished(repo, root, s) && Named(repo, root, pkgNames)
    ensures FileFor(s.tree, s.maxDepth, s.records, pkgNames).Ok?
    ensures var text := Unlines(FileFor(s.tree, s.maxDepth, s.records, pkgNames).value);
      Closed(ReadMakefile(text)) <==> Builds(repo, root, pkgNames, pkgNames[root].archive)
    ensures root != "serve" ==> Builds(repo, root, pkgNames, pkgNames[root].archive)
  {
    TargetFirst(repo, root, s);
    var rules := FinishedRules(repo, root, s, pkgNames);
    var first := pkgNames[root].archive;
    FileReadsBack(first, rules);
    if Builds(repo, root, pkgNames, first) {
      ClosedIfBuilt(repo, root, s, pkgNames, rules, first);
    } else {
      OpenIfNotBuilt(repo, root, s, pkgNames, rules, first);
    }
  }

  lemma ClosedFrom(first: string, rules: seq<Rule>)
    requires Defines(AllHeaders(first, rules), first + SUFFIX)
    requires forall i, p :: 0 <= i < |rules| && p in Debs(rules[i].deps) ==> Defines(AllHeaders(first, rules), p)
    ensures Closed(AllHeaders(first, rules))
  {
    var hs := AllHeaders(first, rules);
    FixedDefined(first, rules);
    forall h, p | h in hs && p in h.prereqs ensures Defines(hs, p) {
      var j :| 0 <= j < |hs| && hs[j] == h;
      HeaderAt(first, rules, j);
    }
  }

  lemma ClosedIfBuilt(repo: Repo, root: Name, s: State, pkgNames: PkgNames, rules: seq<Rule>, first: string)
    requires Finished(repo, root, s) && Named(repo, root, pkgNames)
    requires RulesFor(rules, WalkTree(s.tree, s.maxDepth).names, s.records, pkgNames)
    requires Builds(repo, root, pkgNames, first)
    ensures Closed(AllHeaders(first, rules))
  {
    ArchiveBuilt(repo, root, s, pkgNames, rules, first);
    DebDefined(first, rules, first);
    forall i, p | 0 <= i < |rules| && p in Debs(rules[i].deps) ensures Defines(AllHeaders(first, rules), p) {
      PrereqDefined(repo, root, s, pkgNames, rules, first, i, p);
    }
    ClosedFrom(first, rules);
  }

  lemma OpenIfNotBuilt(repo: Repo, root: Name, s: State, pkgNames: PkgNames, rules: seq<Rule>, first: string)
    requires Finished(repo, root, s) && Named(repo, root, pkgNames)
    requires RulesFor(rules, WalkTree(s.tree, s.maxDepth).names, s.records, pkgNames)
    requires !Builds(repo, root, pkgNames, first)
    ensures !Closed(AllHeaders(first, rules))
  {
    var hs := AllHeaders(first, rules);
    ArchiveBuilt(repo, root, s, pkgNames, rules, first);
    DebDefined(first, rules, first);
    HeaderAt(first, rules, 1);
    assert hs[1] in hs && first + SUFFIX in hs[1].prereqs;
  }

  lemma FixedDefined(first: string, rules: seq<Rule>)
    ensures Defines(AllHeaders(first, rules), ALL) && Defines(AllHeaders(first, rules), UNINSTALL)
  {
    var hs := AllHeaders(first, rules);
    HeaderAt(first, rules, 1);
    HeaderAt(first, rules, |rules| + 2);
    assert hs[1] in hs && hs[|rules| + 2] in hs;
  }

  lemma PrereqDefined(repo: Repo, root: Name, s: State, pkgNames: PkgNames, rules: seq<Rule>,
                      first: string, i: nat, p: string)
    requires Finished(repo, root, s) && Named(repo, root, pkgNames)
    requires RulesFor(rules, WalkTree(s.tree, s.maxDepth).names, s.records, pkgNames)
    requires i < |rules| && p in Debs(rules[i].deps)
    ensures Defines(AllHeaders(first, rules), p)
  {
    var names := WalkTree(s.tree, s.maxDepth).names;
    var d :| 0 <= d < |rules[i].deps| && p == rules[i].deps[d] + SUFFIX;
    assert IsRuleOf(rules[i], names[i], s.records, pkgNames);
    FinishedWalk(repo, root, s, names[i]);
    RuleExists(repo, root, s, pkgNames, names[i]);
    ArchiveBuilt(repo, root, s, pkgNames, rules, rules[i].deps[d]);
    DebDefined(first, rules, rules[i].deps[d]);
  }

  // -------------------------------------------------------- repeated targets

  function Archived(rules: seq<Rule>): (r: seq<string>)
    ensures |r| == |rules|
  {
    seq(|rules|, i requires 0 <= i < |rules| => rules[i].archive)
  }

  lemma ArchivesDistinct(rules: seq<Rule>, names: seq<Name>, records: Records, pkgNames: PkgNames)
    requires RulesFor(rules, names, records, pkgNames)
    requires forall m, n :: m in names && n in names && m != n && m in pkgNames && n in pkgNames ==>
      pkgNames[m].archive != pkgNames[n].archive
    ensures Distinct(Archived(rules)) <==> Distinct(names)
  {
    forall i | 0 <= i < |names| ensures names[i] in pkgNames && rules[i].archive == pkgNames[names[i]].archive {
      assert IsRuleOf(rules[i], names[i], records, pkgNames);
    }
    forall i, j | 0 <= i < j < |names| ensures Archived(rules)[i] != Archived(rules)[j] <==> names[i] != names[j] {
      assert names[i] in names && names[j] in names;
    }
  }

  /** How often a package is built. */
  ghost function TimesBuilt(repo: Repo, root: Name, n: Name): nat {
    if n == "serve" || !Reachable(repo, root, n) then 0 else if n == root && Wanted(repo, root, n) then 2 else 1
  }

  lemma WalkCount(repo: Repo, root: Name, s: State, n: Name)
    requires Finished(repo, root, s)
    ensures multiset(WalkTree(s.tree, s.maxDepth).names)[n] == TimesBuilt(repo, root, n)
  {
    VisitedExact(repo, root, s, "");
    BuildOrderIsReverse(repo, root, s);
    KeptExact(Reverse(Names(s.log)), n);
    ReverseSame(Names(s.log));
    VisitMultiplicity(repo, root, s, n);
    ReachableWanted(repo, root, n);
  }

  lemma WalkDistinct(repo: Repo, root: Name, s: State)
    requires Finished(repo, root, s)
    ensures Distinct(WalkTree(s.tree, s.maxDepth).names) <==> root == "serve" || !Wanted(repo, root, root)
  {
    var names := WalkTree(s.tree, s.maxDepth).names;
    WalkCount(repo, root, s, root);
    ReachRoot(repo, root);
    if Distinct(names) {
      CountedOnce(names, root);
    } else {
      var i: nat, j: nat :| i < j < |names| && names[i] == names[j];
      CountedTwice(names, i, j);
      WalkCount(repo, root, s, names[i]);
    }
  }

  /** Packages with different names having different archives, no target is built
      by two rules exactly when no reachable package lists the crawl's target
      (or the target is `serve`, which has no rule). */
  lemma TargetsUnique(repo: Repo, root: Name, s: State, pkgNames: PkgNames)
    requires Finished(repo, root, s) && Named(repo, root, pkgNames)
    requires forall m, n :: m in pkgNames && n in pkgNames && m != n ==> pkgNames[m].archive != pkgNames[n].archive
    ensures RulesOf(WalkTree(s.tree, s.maxDepth).names, s.records, pkgNames).Ok?
    ensures Distinct(Archived(RulesOf(WalkTree(s.tree, s.maxDepth).names, s.records, pkgNames).value)) <==>
      root == "serve" || !Wanted(repo, root, root)
  {
    var names := WalkTree(s.tree, s.maxDepth).names;
    forall n | n in names ensures RuleOf(n, s.records, pkgNames).Ok? {
      WalkedRule(repo, root, s, pkgNames, n);
    }
    RulesTotal(names, s.records, pkgNames);
    ArchivesDistinct(RulesOf(names, s.records, pkgNames).value, names, s.records, pkgNames);
    WalkDistinct(repo, root, s);
  }

  /** The stack pops backwards, exactly when no name in it is empty; otherwise the list
      is cut short. */
  lemma {:induction false} StackReversed(stack: seq<string>)
    ensures |PopNames(stack)| <= |stack|
    ensures PopNames(stack) == Reverse(stack) <==> "" !in stack
    ensures "" in stack ==> |PopNames(stack)| < |stack|
  {
    if stack == [] {
    } else {
      StackReversed(stack[..|stack| - 1]);
      assert stack == stack[..|stack| - 1] + [stack[|stack| - 1]];
    }
  }

  /** The removal commands read back from the text of a file name the packages of its
      rules in reverse, exactly when no rule's package has an empty name; otherwise some
      are missing. */
  lemma RemovalsReversed(first: string, rules: seq<Rule>)
    requires OneWord(first) && forall r :: r in rules ==> Clean(r)
    ensures var removed := ReadRemovals(Unlines(FileLines(first, rules)));
      && (removed == Reverse(Logicals(rules)) <==> "" !in Logicals(rules))
      && ("" in Logicals(rules) ==> |removed| < |rules|)
  {
    var lines := FileLines(first, rules);
    FileLinesRead(first, rules);
    FlatMapAppend(RemovalOf, lines, [""]);
    assert FlatMap(RemovalOf, [""]) == [] by { NotRemoval(""); NoneRemoved([""]); }
    FileRemovals(first, rules);
    assert PopNames(Logicals(rules)) + [] == PopNames(Logicals(rules));
    StackReversed(Logicals(rules));
  }

  /** The logical names of some packages, in order. */
  function LogicalNames(names: seq<Name>, pkgNames: PkgNames): (r: seq<string>)
    requires forall n :: n in names ==> n in pkgNames
    ensures |r| == |names| && forall i :: 0 <= i < |names| ==> r[i] == pkgNames[names[i]].logical
  {
    seq(|names|, i requires 0 <= i < |names| => pkgNames[names[i]].logical)
  }

  lemma LogicalsAre(rules: seq<Rule>, names: seq<Name>, records: Records, pkgNames: PkgNames)
    requires RulesFor(rules, names, records, pkgNames)
    ensures forall n :: n in names ==> n in pkgNames
    ensures Logicals(rules) == LogicalNames(names, pkgNames)
  {
    forall i | 0 <= i < |names| ensures names[i] in pkgNames && Logicals(rules)[i] == pkgNames[names[i]].logical {
      assert IsRuleOf(rules[i], names[i], records, pkgNames);
    }
  }

  /** After a finished crawl the file removes packages in the exact reverse of the order
      in which it builds them, if and only if every package built has a logical name. */
  lemma UninstallReversed(repo: Repo, root: Name, s: State, pkgNames: PkgNames)
    requires Finished(repo, root, s) && Named(repo, root, pkgNames)
    ensures FileFor(s.tree, s.maxDepth, s.records, pkgNames).Ok?
    ensures forall n :: n in WalkTree(s.tree, s.maxDepth).names ==> n in pkgNames
    ensures var text := Unlines(FileFor(s.tree, s.maxDepth, s.records, pkgNames).value);
      ReadRemovals(text) == Reverse(LogicalNames(WalkTree(s.tree, s.maxDepth).names, pkgNames))
      <==> forall n :: Reachable(repo, root, n) && n != "serve" ==> pkgNames[n].logical != ""
  {
    var names := WalkTree(s.tree, s.maxDepth).names;
    forall n ensures n in names <==> n != "serve" && Reachable(repo, root, n) {
      FinishedWalk(repo, root, s, n);
    }
    ReachRoot(repo, root);
    var rules := FinishedRules(repo, root, s, pkgNames);
    LogicalsAre(rules, names, s.records, pkgNames);
    RemovalsReversed(pkgNames[root].archive, rules);
    EmptyLogical(names, pkgNames);
  }

  lemma EmptyLogical(names: seq<Name>, pkgNames: PkgNames)
    requires forall n :: n in names ==> n in pkgNames
    ensures "" in LogicalNames(names, pkgNames) <==> exists n :: n in names && pkgNames[n].logical == ""
  {
    var logicals := LogicalNames(names, pkgNames);
    if n :| n in names && pkgNames[n].logical == "" {
      var i :| 0 <= i < |names| && names[i] == n;
      assert logicals[i] == "";
    }
  }
}
