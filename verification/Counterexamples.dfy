/** Inputs the code can be given for which a promise fails, one for each that holds
    only under a condition. */
module Counterexamples {
  import opened Options
  import opened Sequences
  import opened Packages
  import opened CrawlModel
  import opened CrawlTheorems
  import opened CrawlDepth
  import opened BuildOrder
  import opened MakefileText
  import opened BuildFile
  import opened BuildTheorems
  import opened Crawling
  import opened Naming
  import opened Execution

  // ------------------------------------------------------------------- package graphs

  /** What can be reached stays in any set that is closed under listing. */
  lemma {:induction false} ReachedWithin(repo: Repo, root: Name, n: Name, p: seq<Name>, within: set<Name>)
    requires Path(repo, root, n, p) && root in within
    requires forall m, k :: m in within && k in Deps(repo, m) ==> k in within
    ensures n in within
    decreases |p|
  {
    if |p| == 1 {
    } else {
      var q, m := p[..|p| - 1], p[|p| - 2];
      assert Path(repo, root, m, q);
      ReachedWithin(repo, root, m, q, within);
      assert p[|p| - 2 + 1] in Deps(repo, p[|p| - 2]);
    }
  }

  lemma OneReachable(repo: Repo, root: Name)
    requires forall k :: k in Deps(repo, root) ==> k == root
    ensures forall n :: Reachable(repo, root, n) <==> n == root
  {
    ReachRoot(repo, root);
    forall n | Reachable(repo, root, n) ensures n == root {
      var p :| Path(repo, root, n, p);
      ReachedWithin(repo, root, n, p, {root});
    }
  }

  /** A package that lists itself. */
  function Selfish(): Repo { map["r" := Record([("r", "")], [], [("r", "")])] }

  lemma SelfishFacts()
    ensures Serves(Selfish(), "r") && Wanted(Selfish(), "r", "r") && !Reachable(Selfish(), "r", "")
  {
    assert Keys([("r", "")]) == ["r"];
    assert Deps(Selfish(), "r") == ["r"];
    OneReachable(Selfish(), "r");
    assert Reachable(Selfish(), "r", "r");
  }

  /** The crawl of a package that lists itself records it twice, and the Makefile made
      from it has two rules for one target. */
  lemma ListedTargetTwice(names: PkgName) returns (states: seq<State>, sched: seq<Request>)
    requires Printable("r", names)
    ensures IsCrawl(Selfish(), "r", states, sched)
    ensures multiset(Names(states[|sched|].log))["r"] == 2
    ensures var s := states[|sched|];
      var rules := RulesOf(WalkTree(s.tree, s.maxDepth).names, s.records, map["r" := names]);
      rules.Ok? && !Distinct(Archived(rules.value))
  {
    SelfishFacts();
    OneReachable(Selfish(), "r");
    states, sched := SomeCrawl(Selfish(), "r");
    FetchedOnce(Selfish(), "r", states, sched, "r");
    RunFinished(Selfish(), "r", states, sched);
    TargetsUnique(Selfish(), "r", states[|sched|], map["r" := names]);
  }

  /** The package `serve`, which lists nothing. */
  function Alone(): Repo { map["serve" := Record([], [], [])] }

  /** The Makefile for the target `serve` asks for an archive that no rule builds. Its
      names can only come from disk or from outside: no build ever records one for `serve`. */
  lemma ServeNotBuilt(names: PkgName) returns (states: seq<State>, sched: seq<Request>)
    requires Printable("serve", names)
    ensures IsCrawl(Alone(), "serve", states, sched)
    ensures var s := states[|sched|];
      var file := FileFor(s.tree, s.maxDepth, s.records, map["serve" := names]);
      file.Ok? && !Closed(ReadMakefile(Unlines(file.value)))
  {
    assert Deps(Alone(), "serve") == [];
    OneReachable(Alone(), "serve");
    states, sched := SomeCrawl(Alone(), "serve");
    RunFinished(Alone(), "serve", states, sched);
    MakefileClosed(Alone(), "serve", states[|sched|], map["serve" := names]);
  }

  /** The packages `r`, which lists `serve`, and `serve`, as a registry has them. */
  function Serving(): Registry {
    map["r" := Desc("r", "1", map["1" := Manifest([("serve", "1")], [])]),
        "serve" := Desc("serve", "1", map["1" := Manifest([], [])])]
  }

  lemma ServingRecords()
    ensures RepoOf(Serving()).Keys == {"r", "serve"}
    ensures RepoOf(Serving())["r"].alldeps == [("serve", "1")] && RepoOf(Serving())["serve"].alldeps == []
  {
    assert Served(Serving(), "r") && Served(Serving(), "serve");
    var m := Manifest([("serve", "1")], []);
    assert m.dependencies[1..] == [];
    assert AllDeps(m) == PutAll(Put([], "serve", "1"), []);
  }

  lemma ServingFacts()
    ensures Serves(RepoOf(Serving()), "r") && !Reachable(RepoOf(Serving()), "r", "")
    ensures Reachable(RepoOf(Serving()), "r", "serve")
    ensures forall n :: Reachable(RepoOf(Serving()), "r", n) ==> n == "r" || n == "serve"
  {
    var repo := RepoOf(Serving());
    ServingRecords();
    assert Keys([("serve", "1")]) == ["serve"];
    assert Deps(repo, "r") == ["serve"] && Deps(repo, "serve") == [];
    ReachRoot(repo, "r");
    ReachStep(repo, "r", "r", "serve");
    forall n | Reachable(repo, "r", n) ensures n in {"r", "serve"} {
      var p :| Path(repo, "r", n, p);
      ReachedWithin(repo, "r", n, p, {"r", "serve"});
    }
  }

  /** A first run over a package that lists `serve` fails, whatever the order of the
      fetches and although no build does: it finds no name for `serve`. */
  method ServeBreaksRun(leftover: nat, prefix: string, cache: Cache) returns (r: Result<string>)
    requires "r" in cache
    ensures r == Err(UnknownPackage("serve"))
  {
    ServingFacts();
    var naming := FromBuilds(map[], prefix, cache);
    var dump, pkgNames, jobs;
    dump, pkgNames, jobs, r := Execute(Serving(), "r", leftover, naming, None, None);
    ServeUnnamed(RepoOf(Serving()), "r", dump, naming, pkgNames, jobs);
  }

  /** The package `r`, which lists nothing. */
  function JustR(): Repo { map["r" := Record([], [], [])] }

  /** With names from disk that give it no logical name, the file that builds `r` does not
      remove it. The names that builds record always have one. */
  lemma RemovalLost(names: PkgName) returns (states: seq<State>, sched: seq<Request>)
    requires Printable("r", names) && names.logical == ""
    ensures IsCrawl(JustR(), "r", states, sched)
    ensures var s := states[|sched|];
      var file := FileFor(s.tree, s.maxDepth, s.records, map["r" := names]);
      && WalkTree(s.tree, s.maxDepth).names == ["r"]
      && file.Ok? && ReadRemovals(Unlines(file.value)) == []
  {
    assert Deps(JustR(), "r") == [];
    OneReachable(JustR(), "r");
    states, sched := SomeCrawl(JustR(), "r");
    RunFinished(JustR(), "r", states, sched);
    var s := states[|sched|];
    OneBuilt(s);
    var rules := FinishedRules(JustR(), "r", s, map["r" := names]);
    assert IsRuleOf(rules[0], "r", s.records, map["r" := names]);
    assert Logicals(rules)[0] == "";
    RemovalsReversed(names.archive, rules);
  }

  lemma OneBuilt(s: State)
    requires Finished(JustR(), "r", s) && forall n :: Reachable(JustR(), "r", n) <==> n == "r"
    ensures WalkTree(s.tree, s.maxDepth).names == ["r"]
  {
    var names := WalkTree(s.tree, s.maxDepth).names;
    assert Deps(JustR(), "r") == [];
    assert !Wanted(JustR(), "r", "r");
    forall n ensures multiset(names)[n] == multiset{"r"}[n] {
      WalkCount(JustR(), "r", s, n);
    }
    assert multiset(names) == multiset{"r"};
    assert |multiset(names)| == 1;
    assert names[0] in multiset(names);
  }
}
