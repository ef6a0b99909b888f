/** The consumers of a recorded tree: scheduling the package builds, naming the
    packages, and writing the build file. */
module BuildFile {
  import opened Texts
  import opened Options
  import opened Packages
  import opened BuildOrder
  import opened MakefileText

  /** The names a package has outside the registry. */
  datatype PkgName = PkgName(logical: string, dir: string, archive: string)

  datatype Error =
    | MissingLevel(level: nat)
    | NoTarget
    | UnknownPackage(name: Name)
    | NoRecord(name: Name)
    | BadNames(name: Name)

  datatype Result<T> = Ok(value: T) | Err(error: Error)

  type PkgNames = map<Name, PkgName>
  type Records = map<Name, Record>
  type Tree = map<nat, seq<Name>>

  // ------------------------------------------------------------------- rules

  /** The archives a package's rule depends on; `serve` is assumed installed. */
  function Archives(alldeps: Dict, pkgNames: PkgNames): Result<seq<string>> {
    if alldeps == [] then Ok([])
    else
      match Archives(alldeps[..|alldeps| - 1], pkgNames)
      case Err(e) => Err(e)
      case Ok(archives) =>
        var k := alldeps[|alldeps| - 1].0;
        if k == "serve" then Ok(archives)
        else if k !in pkgNames then Err(UnknownPackage(k))
        else Ok(archives + [pkgNames[k].archive])
  }

  function RuleOf(name: Name, records: Records, pkgNames: PkgNames): Result<Rule> {
    if name !in pkgNames then Err(UnknownPackage(name))
    else if name !in records then Err(NoRecord(name))
    else
      var p := pkgNames[name];
      match Archives(records[name].alldeps, pkgNames)
      case Err(e) => Err(e)
      case Ok(archives) =>
        if p.archive == "" || p.dir == "" then Err(BadNames(name))
        else Ok(Rule(name, p.logical, p.dir, p.archive, archives))
  }

  /** The rules of a list of packages; the first failure is the failure. */
  function RulesOf(names: seq<Name>, records: Records, pkgNames: PkgNames): Result<seq<Rule>> {
    if names == [] then Ok([])
    else
      match RulesOf(names[..|names| - 1], records, pkgNames)
      case Err(e) => Err(e)
      case Ok(rules) =>
        match RuleOf(names[|names| - 1], records, pkgNames)
        case Err(e) => Err(e)
        case Ok(r) => Ok(rules + [r])
  }

  /** The rules of a whole walk. A failing package comes before a missing level,
      because the walk meets it first. */
  function WalkRules(walk: Walk, records: Records, pkgNames: PkgNames): Result<seq<Rule>> {
    match RulesOf(walk.names, records, pkgNames)
    case Err(e) => Err(e)
    case Ok(rules) => if walk.missing.Some? then Err(MissingLevel(walk.missing.value)) else Ok(rules)
  }

  /** The build file for a tree, as the list of its lines. */
  function FileFor(tree: Tree, maxDepth: nat, records: Records, pkgNames: PkgNames): Result<seq<string>> {
    if 0 !in tree || tree[0] == [] || tree[0][0] !in pkgNames then Err(NoTarget)
    else
      match WalkRules(WalkTree(tree, maxDepth), records, pkgNames)
      case Err(e) => Err(e)
      case Ok(rules) => Ok(FileLines(pkgNames[tree[0][0]].archive, rules))
  }

  lemma RulesOfSnoc(names: seq<Name>, name: Name, records: Records, pkgNames: PkgNames)
    ensures RulesOf(names + [name], records, pkgNames) ==
      match RulesOf(names, records, pkgNames)
      case Err(e) => Err(e)
      case Ok(rules) =>
        match RuleOf(name, records, pkgNames)
        case Err(e) => Err(e)
        case Ok(r) => Ok(rules + [r])
  {
    assert (names + [name])[..|names|] == names;
  }

  lemma {:induction false} RulesOfFails(names: seq<Name>, more: seq<Name>, records: Records, pkgNames: PkgNames)
    requires RulesOf(names, records, pkgNames).Err?
    ensures RulesOf(names + more, records, pkgNames) == RulesOf(names, records, pkgNames)
    decreases |more|
  {
    if more == [] {
      assert names + more == names;
    } else {
      var m := |more| - 1;
      RulesOfFails(names, more[..m], records, pkgNames);
      RulesOfSnoc(names + more[..m], more[m], records, pkgNames);
      assert names + more == names + more[..m] + [more[m]];
    }
  }

  // ----------------------------------------------------------------- writing

  lemma FiveLines(a: string, b: string, c: string, d: string)
    ensures a + "\n" + (b + "\n") + (c + "\n") + (d + "\n" + "\n") == Unlines([a, b, c, d, ""])
  {
    assert [a, b, c, d, ""] == [a] + ([b] + ([c] + ([d] + [""])));
    UnlinesAppend([a], [b] + ([c] + ([d] + [""])));
    UnlinesAppend([b], [c] + ([d] + [""]));
    UnlinesAppend([c], [d] + [""]);
    UnlinesAppend([d], [""]);
    UnlinesOne(a);
    UnlinesOne(b);
    UnlinesOne(c);
    UnlinesOne(d);
    UnlinesOne("");
    RegroupRule(a + "\n", b + "\n", c + "\n", d + "\n", "\n");
  }

  lemma UnlinesOne(a: string)
    ensures Unlines([a]) == a + "\n"
  {
    assert [a][1..] == [];
  }

  lemma RegroupRule(a: string, b: string, c: string, d: string, e: string)
    ensures a + b + c + (d + e) == a + (b + (c + (d + e)))
  {
  }

  method WriteRule(name: Name, pkgname: string, pkgdir: string, ghost pkglogical: string, alldeps: seq<string>)
    returns (output: string)
    ensures output == Unlines(RuleLines(Rule(name, pkglogical, pkgdir, pkgname, alldeps)))
  {
    ghost var r := Rule(name, pkglogical, pkgdir, pkgname, alldeps);
    output := pkgname + SUFFIX + ": " + if |alldeps| > 0 then JoinText(alldeps, SUFFIX + " ") + SUFFIX + "\n" else "\n";
    assert output == HeaderLine(r) + "\n";
    var echo := "\t@echo Building package " + name;
    var build := "\tcd ./" + pkgdir + "; dpkg-buildpackage" + " -b -k37FC6E55" + " -d -rfakeroot";
    var install := "\tsudo dpkg -i ${@}";
    output := output + (echo + "\n") + (build + "\n") + (install + "\n" + "\n");
    FiveLines(HeaderLine(r), echo, build, install);
  }

  method CollectDeps(alldeps: Dict, pkgNames: PkgNames) returns (r: Result<seq<string>>)
    ensures r == Archives(alldeps, pkgNames)
  {
    var archives := [];
    for i := 0 to |alldeps|
      invariant Archives(alldeps[..i], pkgNames) == Ok(archives)
    {
      var k := alldeps[i].0;
      assert alldeps[..i + 1][..i] == alldeps[..i];
      if k == "serve" {
        continue;
      }
      if k !in pkgNames {
        ArchivesFail(alldeps, i + 1, pkgNames);
        return Err(UnknownPackage(k));
      }
      archives := archives + [pkgNames[k].archive];
    }
    assert alldeps[..|alldeps|] == alldeps;
    return Ok(archives);
  }

  lemma {:induction false} ArchivesFail(alldeps: Dict, i: nat, pkgNames: PkgNames)
    requires i <= |alldeps| && Archives(alldeps[..i], pkgNames).Err?
    ensures Archives(alldeps, pkgNames) == Archives(alldeps[..i], pkgNames)
    decreases |alldeps|
  {
    if i == |alldeps| {
      assert alldeps[..i] == alldeps;
    } else {
      var front := alldeps[..|alldeps| - 1];
      assert front[..i] == alldeps[..i];
      ArchivesFail(front, i, pkgNames);
    }
  }

  /** One package of the build file: its rule and its text. */
  method BuildRule(name: Name, records: Records, pkgNames: PkgNames) returns (r: Result<(string, string)>)
    ensures match RuleOf(name, records, pkgNames)
      case Err(e) => r == Err(e)
      case Ok(rule) => r == Ok((rule.logical, Unlines(RuleLines(rule))))
  {
    if name !in pkgNames {
      return Err(UnknownPackage(name));
    }
    var pkglogical, pkgname, pkgdir := pkgNames[name].logical, pkgNames[name].archive, pkgNames[name].dir;
    if name !in records {
      return Err(NoRecord(name));
    }
    var alldeps := CollectDeps(records[name].alldeps, pkgNames);
    if alldeps.Err? {
      return Err(alldeps.error);
    }
    if pkgname == "" || pkgdir == "" {
      return Err(BadNames(name));
    }
    var text := WriteRule(name, pkgname, pkgdir, pkglogical, alldeps.value);
    return Ok((pkglogical, text));
  }

  /** The text and the uninstall stack for the packages `done`. */
  ghost predicate Wrote(done: seq<Name>, records: Records, pkgNames: PkgNames, text: string, stack: seq<string>) {
    match RulesOf(done, records, pkgNames)
    case Err(_) => false
    case Ok(rules) => text == Unlines(RulesLines(rules)) && stack == Logicals(rules)
  }

  lemma WroteSnoc(done: seq<Name>, records: Records, pkgNames: PkgNames, text: string, stack: seq<string>, name: Name)
    requires Wrote(done, records, pkgNames, text, stack) && RuleOf(name, records, pkgNames).Ok?
    ensures var rule := RuleOf(name, records, pkgNames).value;
      Wrote(done + [name], records, pkgNames, text + Unlines(RuleLines(rule)), stack + [rule.logical])
  {
    var rules, rule := RulesOf(done, records, pkgNames).value, RuleOf(name, records, pkgNames).value;
    RulesOfSnoc(done, name, records, pkgNames);
    assert (rules + [rule])[..|rules|] == rules;
    UnlinesAppend(RulesLines(rules), RuleLines(rule));
  }

  lemma FailsEarly(done: seq<Name>, name: Name, more: seq<Name>, records: Records, pkgNames: PkgNames)
    requires RulesOf(done, records, pkgNames).Ok? && RuleOf(name, records, pkgNames).Err?
    ensures RulesOf(done + [name] + more, records, pkgNames) == Err(RuleOf(name, records, pkgNames).error)
  {
    RulesOfSnoc(done, name, records, pkgNames);
    RulesOfFails(done + [name], more, records, pkgNames);
  }

  /** The rules of one level, added to the text and to the uninstall stack. */
  method WriteLevel(level: seq<Name>, records: Records, pkgNames: PkgNames, ghost done: seq<Name>,
                    text: string, stack: seq<string>)
    returns (r: Result<(string, seq<string>)>)
    requires Wrote(done, records, pkgNames, text, stack)
    ensures r.Err? ==> RulesOf(done + PopLevel(level), records, pkgNames) == Err(r.error)
    ensures r.Ok? ==> Wrote(done + PopLevel(level), records, pkgNames, r.value.0, r.value.1)
  {
    var names, output, uninstall := level, text, stack;
    ghost var seen := done;
    while names != []
      invariant done + PopLevel(level) == seen + PopLevel(names)
      invariant Wrote(seen, records, pkgNames, output, uninstall)
      decreases |names|
    {
      var name := names[|names| - 1];
      names := names[..|names| - 1];
      if name == "" {
        break;
      }
      if name == "serve" {
        continue;
      }
      var rule := BuildRule(name, records, pkgNames);
      assert done + PopLevel(level) == seen + [name] + PopLevel(names);
      if rule.Err? {
        FailsEarly(seen, name, PopLevel(names), records, pkgNames);
        return Err(rule.error);
      }
      WroteSnoc(seen, records, pkgNames, output, uninstall, name);
      output := output + rule.value.1;
      uninstall := uninstall + [rule.value.0];
      seen := seen + [name];
    }
    assert done + PopLevel(level) == seen;
    return Ok((output, uninstall));
  }

  /** The text of the uninstall recipe. */
  method WriteUninstall(stack: seq<string>) returns (output: string)
    ensures output == Unlines(RemoveLines(PopNames(stack)))
  {
    var uninstall := stack;
    output := "";
    ghost var popped: seq<string> := [];
    while uninstall != []
      invariant popped + PopNames(uninstall) == PopNames(stack)
      invariant output == Unlines(RemoveLines(popped))
      decreases |uninstall|
    {
      var pkgname := uninstall[|uninstall| - 1];
      uninstall := uninstall[..|uninstall| - 1];
      if pkgname == "" {
        break;
      }
      RemoveLinesSnoc(popped, pkgname);
      output := output + (RemoveLine(pkgname) + "\n");
      popped := popped + [pkgname];
    }
    assert popped == PopNames(stack);
  }

  lemma RemoveLinesSnoc(names: seq<string>, name: string)
    ensures Unlines(RemoveLines(names + [name])) == Unlines(RemoveLines(names)) + (RemoveLine(name) + "\n")
  {
    assert RemoveLines(names + [name]) == RemoveLines(names) + [RemoveLine(name)];
    UnlinesAppend(RemoveLines(names), [RemoveLine(name)]);
    UnlinesOne(RemoveLine(name));
  }

  lemma FileText(first: string, rules: seq<Rule>)
    ensures Unlines(FileLines(first, rules)) ==
      Unlines(Preamble(first)) + Unlines(RulesLines(rules)) + (UNINSTALL + ":" + "\n")
      + Unlines(RemoveLines(PopNames(Logicals(rules))))
  {
    var a, b, c, d := Preamble(first), RulesLines(rules), [UNINSTALL + ":"], RemoveLines(PopNames(Logicals(rules)));
    UnlinesAppend(a + b + c, d);
    UnlinesAppend(a + b, c);
    UnlinesAppend(a, b);
    UnlinesOne(UNINSTALL + ":");
  }

  lemma PreambleText(first: string)
    ensures Unlines(Preamble(first)) ==
      PHONY + ":" + (" " + (ALL + " " + UNINSTALL)) + "\n" + "\n" + (AllLine(first) + "\n" + "\n")
  {
    var a, b := PHONY + ":" + (" " + (ALL + " " + UNINSTALL)), AllLine(first);
    assert Preamble(first) == [a] + ([""] + ([b] + [""]));
    UnlinesAppend([a], [""] + ([b] + [""]));
    UnlinesAppend([""], [b] + [""]);
    UnlinesAppend([b], [""]);
    UnlinesOne(a);
    UnlinesOne("");
    UnlinesOne(b);
  }

  /** With `levels` levels still to walk, the packages `done` have been written. */
  ghost predicate Progress(tree: Tree, maxDepth: nat, levels: nat, done: seq<Name>) {
    var walk, rest := WalkTree(tree, maxDepth), WalkDown(tree, levels);
    walk.names == done + rest.names && walk.missing == rest.missing
  }

  lemma ProgressStep(tree: Tree, maxDepth: nat, level: nat, done: seq<Name>)
    requires Progress(tree, maxDepth, level + 1, done) && level in tree
    ensures Progress(tree, maxDepth, level, done + PopLevel(tree[level]))
  {
    var rest := WalkDown(tree, level).names;
    assert done + (PopLevel(tree[level]) + rest) == done + PopLevel(tree[level]) + rest;
  }

  lemma ProgressFails(tree: Tree, maxDepth: nat, levels: nat, done: seq<Name>, records: Records, pkgNames: PkgNames)
    requires Progress(tree, maxDepth, levels, done)
    ensures RulesOf(done, records, pkgNames).Err? ==>
      WalkRules(WalkTree(tree, maxDepth), records, pkgNames) == Err(RulesOf(done, records, pkgNames).error)
    ensures RulesOf(done, records, pkgNames).Ok? && levels > 0 && levels - 1 !in tree ==>
      WalkRules(WalkTree(tree, maxDepth), records, pkgNames) == Err(MissingLevel(levels - 1))
  {
    if RulesOf(done, records, pkgNames).Err? {
      RulesOfFails(done, WalkDown(tree, levels).names, records, pkgNames);
    } else if levels > 0 && levels - 1 !in tree {
      assert done + [] == done;
    }
  }

  /** The rules of all levels, deepest first. */
  method WriteRules(tree: Tree, maxDepth: nat, records: Records, pkgNames: PkgNames)
    returns (r: Result<(string, seq<string>)>)
    ensures r.Err? ==> WalkRules(WalkTree(tree, maxDepth), records, pkgNames) == Err(r.error)
    ensures r.Ok? ==> WalkTree(tree, maxDepth).missing == None
    ensures r.Ok? ==> Wrote(WalkTree(tree, maxDepth).names, records, pkgNames, r.value.0, r.value.1)
  {
    ghost var done: seq<Name> := [];
    var body, uninstall: seq<string>, levels := "", [], maxDepth + 1;
    while levels > 0
      invariant 0 <= levels <= maxDepth + 1
      invariant Progress(tree, maxDepth, levels, done)
      invariant Wrote(done, records, pkgNames, body, uninstall)
    {
      var currentDepth := levels - 1;
      if currentDepth !in tree {
        ProgressFails(tree, maxDepth, levels, done, records, pkgNames);
        return Err(MissingLevel(currentDepth));
      }
      var level := WriteLevel(tree[currentDepth], records, pkgNames, done, body, uninstall);
      ProgressStep(tree, maxDepth, currentDepth, done);
      done := done + PopLevel(tree[currentDepth]);
      if level.Err? {
        ProgressFails(tree, maxDepth, currentDepth, done, records, pkgNames);
        return Err(level.error);
      }
      body, uninstall := level.value.0, level.value.1;
      levels := currentDepth;
    }
    assert done + [] == done;
    return Ok((body, uninstall));
  }

  /** Writes the build file of a tree. */
  method WriteMakefile(tree: Tree, maxDepth: nat, records: Records, pkgNames: PkgNames) returns (r: Result<string>)
    ensures match FileFor(tree, maxDepth, records, pkgNames)
      case Err(e) => r == Err(e)
      case Ok(lines) => r == Ok(Unlines(lines))
  {
    if 0 !in tree || tree[0] == [] || tree[0][0] !in pkgNames {
      return Err(NoTarget);
    }
    var first := pkgNames[tree[0][0]].archive;
    var output := PHONY + ":" + (" " + (ALL + " " + UNINSTALL)) + "\n" + "\n";
    output := output + (AllLine(first) + "\n" + "\n");
    PreambleText(first);
    var rules := WriteRules(tree, maxDepth, records, pkgNames);
    if rules.Err? {
      return Err(rules.error);
    }
    output := output + rules.value.0 + (UNINSTALL + ":" + "\n");
    var removal := WriteUninstall(rules.value.1);
    output := output + removal;
    FileText(first, RulesOf(WalkTree(tree, maxDepth).names, records, pkgNames).value);
    return Ok(output);
  }

  // ------------------------------------------------- the other two consumers

  /** One package build that has been started. */
  datatype Job = Job(name: Name, deps: Dict, devdeps: Dict)

  /** The jobs are those of the first |jobs| names, in order. */
  ghost predicate Started(jobs: seq<Job>, names: seq<Name>, records: Records) {
    && |jobs| <= |names|
    && forall i :: 0 <= i < |jobs| ==> StartedAt(jobs[i], names[i], records)
  }

  ghost predicate StartedAt(job: Job, name: Name, records: Records) {
    name in records && job == Job(name, records[name].deps, records[name].devdeps)
  }

  /** The jobs stop short at a package without a record. */
  ghost predicate Stopped(jobs: seq<Job>, names: seq<Name>, records: Records, failure: Option<Error>) {
    && Started(jobs, names, records) && |jobs| < |names|
    && names[|jobs|] !in records && failure == Some(NoRecord(names[|jobs|]))
  }

  method DebianizeLevel(level: seq<Name>, records: Records, started: seq<Job>, ghost done: seq<Name>)
    returns (jobs: seq<Job>, failure: Option<Error>)
    requires Started(started, done, records) && |started| == |done|
    ensures failure == None ==> Started(jobs, done + PopLevel(level), records) && |jobs| == |done + PopLevel(level)|
    ensures failure != None ==> Stopped(jobs, done + PopLevel(level), records, failure)
  {
    jobs, failure := started, None;
    var names := level;
    ghost var seen := done;
    while names != []
      invariant done + PopLevel(level) == seen + PopLevel(names)
      invariant Started(jobs, seen, records) && |jobs| == |seen|
      decreases |names|
    {
      var name := names[|names| - 1];
      names := names[..|names| - 1];
      if name == "" {
        break;
      }
      if name == "serve" {
        continue;
      }
      assert done + PopLevel(level) == seen + [name] + PopLevel(names);
      if name !in records {
        return jobs, Some(NoRecord(name));
      }
      jobs := jobs + [Job(name, records[name].deps, records[name].devdeps)];
      seen := seen + [name];
    }
    assert done + PopLevel(level) == seen;
  }

  /** Starts the build of every package of a tree. Builds already started when a
      package without a record, or a missing level, stops the loop stay started. */
  method DebianizeTree(tree: Tree, maxDepth: nat, records: Records) returns (jobs: seq<Job>, failure: Option<Error>)
    ensures var walk := WalkTree(tree, maxDepth);
      || Stopped(jobs, walk.names, records, failure)
      || (&& Started(jobs, walk.names, records) && |jobs| == |walk.names|
          && failure == match walk.missing case None => None case Some(l) => Some(MissingLevel(l)))
  {
    ghost var done: seq<Name> := [];
    var levels := maxDepth + 1;
    jobs, failure := [], None;
    while levels > 0
      invariant 0 <= levels <= maxDepth + 1
      invariant Progress(tree, maxDepth, levels, done)
      invariant failure == None && Started(jobs, done, records) && |jobs| == |done|
    {
      var currentDepth := levels - 1;
      if currentDepth !in tree {
        assert WalkTree(tree, maxDepth).names == done + [] == done;
        return jobs, Some(MissingLevel(currentDepth));
      }
      jobs, failure := DebianizeLevel(tree[currentDepth], records, jobs, done);
      ProgressStep(tree, maxDepth, currentDepth, done);
      done := done + PopLevel(tree[currentDepth]);
      if failure != None {
        StoppedEarly(jobs, done, WalkDown(tree, currentDepth).names, records, failure);
        return;
      }
      levels := currentDepth;
    }
    assert done + [] == done;
  }

  lemma StoppedEarly(jobs: seq<Job>, done: seq<Name>, rest: seq<Name>, records: Records, failure: Option<Error>)
    requires Stopped(jobs, done, records, failure)
    ensures Stopped(jobs, done + rest, records, failure)
  {
  }

  /** `keys` enumerates a table. */
  ghost predicate Enumerates(keys: seq<Name>, names: set<Name>) {
    (forall k :: k in keys <==> k in names) && forall i, j :: 0 <= i < j < |keys| ==> keys[i] != keys[j]
  }

  /** Looks up the outside names of every recorded package, in the order of the table's
      keys; the first one without fails it. */
  method UpdatePkgNames(records: Records, keys: seq<Name>, nameToPackageName: PkgNames) returns (r: Result<PkgNames>)
    requires Enumerates(keys, records.Keys)
    ensures r.Ok? <==> records.Keys <= nameToPackageName.Keys
    ensures r.Ok? ==> r.value.Keys == records.Keys
    ensures r.Ok? ==> forall k :: k in records ==> r.value[k] == nameToPackageName[k]
    ensures r.Err? ==> exists i :: FirstUnnamed(keys, nameToPackageName, i) && r == Err(UnknownPackage(keys[i]))
  {
    var pkgNames: PkgNames := map[];
    for i := 0 to |keys|
      invariant forall k :: k in pkgNames <==> k in keys[..i]
      invariant forall k :: k in pkgNames ==> k in nameToPackageName && pkgNames[k] == nameToPackageName[k]
    {
      var k := keys[i];
      assert keys[..i + 1] == keys[..i] + [k];
      if k !in nameToPackageName {
        assert forall j :: 0 <= j < i ==> keys[j] == keys[..i][j];
        assert FirstUnnamed(keys, nameToPackageName, i);
        return Err(UnknownPackage(k));
      }
      pkgNames := pkgNames[k := nameToPackageName[k]];
    }
    assert keys[..|keys|] == keys;
    return Ok(pkgNames);
  }

  ghost predicate FirstUnnamed(keys: seq<Name>, nameToPackageName: PkgNames, i: int) {
    && 0 <= i < |keys| && keys[i] !in nameToPackageName
    && forall j :: 0 <= j < i ==> keys[j] in nameToPackageName
  }
}
