/** The whole pipeline: crawl, start the package builds, name the packages, write the
    build file; the first three are skipped as far as their results are on disk. */
module Execution {
  import opened Options
  import opened Sequences
  import opened Packages
  import opened CrawlModel
  import opened CrawlTheorems
  import opened Crawling
  import opened BuildOrder
  import opened MakefileText
  import opened BuildFile
  import opened BuildTheorems
  import opened Naming

  lemma NamedBy(repo: Repo, root: Name, s: State, lookup: PkgNames, pkgNames: PkgNames)
    requires Finished(repo, root, s) && Named(repo, root, lookup)
    requires pkgNames.Keys == s.records.Keys
    requires forall k :: k in pkgNames ==> k in lookup && pkgNames[k] == lookup[k]
    ensures Named(repo, root, pkgNames)
    ensures root in pkgNames
  {
    RecordsReachable(repo, root, s);
    ReachRoot(repo, root);
    assert root in ReachableSet(repo, root);
    forall n | Reachable(repo, root, n) ensures n in pkgNames && Printable(n, pkgNames[n]) {
      assert n in ReachableSet(repo, root);
    }
  }

  /** What a crawl leaves on disk; `keys` is the order in which its table enumerates. */
  datatype Dump = Dump(tree: Tree, maxDepth: nat, records: Records, keys: seq<Name>)

  ghost predicate Crawled(repo: Repo, root: Name, dump: Dump) {
    exists s :: CrawledTo(repo, root, dump, s)
  }

  ghost predicate CrawledTo(repo: Repo, root: Name, dump: Dump, s: State) {
    && Inv(repo, root, s) && Quiescent(s)
    && dump.tree == s.tree && dump.maxDepth == s.maxDepth && dump.records == s.records
  }

  /** The Makefile written from a dump and names. */
  function MakefileOf(dump: Dump, pkgNames: PkgNames): Result<string> {
    match FileFor(dump.tree, dump.maxDepth, dump.records, pkgNames)
    case Err(e) => Err(e)
    case Ok(lines) => Ok(Unlines(lines))
  }

  /** The builds of a whole walk were started, or those before its first failure. */
  ghost predicate Debianized(dump: Dump, jobs: seq<Job>, failure: Option<Error>) {
    var walk := WalkTree(dump.tree, dump.maxDepth);
    || Stopped(jobs, walk.names, dump.records, failure)
    || (&& Started(jobs, walk.names, dump.records) && |jobs| == |walk.names|
        && failure == match walk.missing case None => None case Some(l) => Some(MissingLevel(l)))
  }

  /** The records' keys in some order. */
  method Enumerate(records: Records) returns (keys: seq<Name>)
    ensures Enumerates(keys, records.Keys)
  {
    keys := [];
    var todo := records.Keys;
    while todo != {}
      invariant todo <= records.Keys
      invariant Enumerates(keys, records.Keys - todo)
      decreases |todo|
    {
      var k :| k in todo;
      todo, keys := todo - {k}, keys + [k];
    }
  }

  /** The first stage: what is on disk, or a crawl. */
  method TreeDependencies(registry: Registry, target: Name, leftover: nat, onDisk: Option<Dump>) returns (dump: Dump)
    requires onDisk.None? ==> Serves(RepoOf(registry), target)
    requires onDisk.Some? ==> Enumerates(onDisk.value.keys, onDisk.value.records.Keys)
    ensures onDisk.Some? ==> dump == onDisk.value
    ensures onDisk.None? ==> Crawled(RepoOf(registry), target, dump)
    ensures Enumerates(dump.keys, dump.records.Keys)
  {
    if onDisk.Some? {
      return onDisk.value;
    }
    var c := new Crawler(registry, target, leftover);
    ghost var states, sched := c.Crawl();
    RunInv(RepoOf(registry), target, states, sched, |sched|);
    var keys := Enumerate(c.dependencies);
    dump := Dump(c.tree, c.maxDepth, c.dependencies, keys);
    assert CrawledTo(RepoOf(registry), target, dump, c.Model());
  }

  /** The second stage: the names on disk, or those looked up once every build has been
      started and has ended. */
  method PackageNames(dump: Dump, naming: Naming, onDisk: Option<PkgNames>)
    returns (pkgNames: Result<PkgNames>, jobs: seq<Job>)
    requires Enumerates(dump.keys, dump.records.Keys)
    ensures onDisk.Some? ==> pkgNames == Ok(onDisk.value) && jobs == []
    ensures onDisk.None? ==> NamesLookedUp(dump, TableAfter(naming, jobs), pkgNames, jobs)
  {
    if onDisk.Some? {
      return Ok(onDisk.value), [];
    }
    var failure;
    jobs, failure := DebianizeTree(dump.tree, dump.maxDepth, dump.records);
    assert Debianized(dump, jobs, failure);
    if failure.Some? {
      return Err(failure.value), jobs;
    }
    var nameToPackageName := RunBuilds(jobs, naming);
    pkgNames := UpdatePkgNames(dump.records, dump.keys, nameToPackageName);
  }

  ghost predicate NamesLookedUp(dump: Dump, lookup: PkgNames, pkgNames: Result<PkgNames>, jobs: seq<Job>) {
    exists failure :: Debianized(dump, jobs, failure) && NamedAfter(dump, lookup, pkgNames, failure)
  }

  ghost predicate NamedAfter(dump: Dump, lookup: PkgNames, pkgNames: Result<PkgNames>, failure: Option<Error>) {
    if failure.Some? then pkgNames == Err(failure.value)
    else if pkgNames.Ok? then
      && pkgNames.value.Keys == dump.records.Keys <= lookup.Keys
      && forall k :: k in pkgNames.value ==> k in lookup && pkgNames.value[k] == lookup[k]
    else
      exists i :: FirstUnnamed(dump.keys, lookup, i) && pkgNames == Err(UnknownPackage(dump.keys[i]))
  }

  /** Runs the stages whose results are not on disk, whatever the order of the fetches,
      and writes the Makefile; the first failure is the outcome. */
  method Execute(registry: Registry, target: Name, leftover: nat, naming: Naming,
                 dumpOnDisk: Option<Dump>, namesOnDisk: Option<PkgNames>)
    returns (dump: Dump, pkgNames: Result<PkgNames>, jobs: seq<Job>, r: Result<string>)
    requires dumpOnDisk.None? ==> Serves(RepoOf(registry), target)
    requires dumpOnDisk.Some? ==> Enumerates(dumpOnDisk.value.keys, dumpOnDisk.value.records.Keys)
    ensures if dumpOnDisk.Some? then dump == dumpOnDisk.value else Crawled(RepoOf(registry), target, dump)
    ensures Enumerates(dump.keys, dump.records.Keys)
    ensures namesOnDisk.Some? ==> pkgNames == Ok(namesOnDisk.value) && jobs == []
    ensures namesOnDisk.None? ==> NamesLookedUp(dump, TableAfter(naming, jobs), pkgNames, jobs)
    ensures r == if pkgNames.Err? then Err(pkgNames.error) else MakefileOf(dump, pkgNames.value)
  {
    dump := TreeDependencies(registry, target, leftover, dumpOnDisk);
    pkgNames, jobs := PackageNames(dump, naming, namesOnDisk);
    if pkgNames.Err? {
      return dump, pkgNames, jobs, Err(pkgNames.error);
    }
    r := WriteMakefile(dump.tree, dump.maxDepth, dump.records, pkgNames.value);
  }

  // ------------------------------------------------------------------ which runs succeed

  /** From what a crawl recorded, a run that finds no names on disk starts the builds of
      exactly the reachable packages but `serve`, in the order of the walk, once each and
      twice for a listed target; and it gets past the names exactly when every reachable
      package, `serve` included, has one. */
  lemma NamesFound(repo: Repo, root: Name, dump: Dump, lookup: PkgNames, pkgNames: Result<PkgNames>, jobs: seq<Job>)
    requires Serves(repo, root) && !Reachable(repo, root, "") && Crawled(repo, root, dump)
    requires Enumerates(dump.keys, dump.records.Keys) && NamesLookedUp(dump, lookup, pkgNames, jobs)
    ensures JobNames(jobs) == WalkTree(dump.tree, dump.maxDepth).names
    ensures forall n :: multiset(JobNames(jobs))[n] == TimesBuilt(repo, root, n)
    ensures forall n :: n in JobNames(jobs) <==> Reachable(repo, root, n) && n != "serve"
    ensures pkgNames.Ok? <==> forall n :: Reachable(repo, root, n) ==> n in lookup
    ensures pkgNames.Err? ==> (
        && pkgNames.error.UnknownPackage?
        && Reachable(repo, root, pkgNames.error.name) && pkgNames.error.name !in lookup)
    ensures pkgNames.Ok? ==> Looked(pkgNames.value, dump.records.Keys, lookup)
  {
    var s :| CrawledTo(repo, root, dump, s);
    assert Finished(repo, root, s);
    var failure :| Debianized(dump, jobs, failure) && NamedAfter(dump, lookup, pkgNames, failure);
    AllStarted(repo, root, s, dump, jobs, failure);
    forall n ensures multiset(JobNames(jobs))[n] == TimesBuilt(repo, root, n) {
      WalkCount(repo, root, s, n);
    }
    forall n ensures n in JobNames(jobs) <==> Reachable(repo, root, n) && n != "serve" {
      FinishedWalk(repo, root, s, n);
    }
    RecordsReachable(repo, root, s);
    AllNamed(dump, lookup, pkgNames);
  }

  /** The names were looked up for just these packages. */
  ghost predicate Looked(pkgNames: PkgNames, names: set<Name>, lookup: PkgNames) {
    pkgNames.Keys == names && forall k :: k in pkgNames ==> k in lookup && pkgNames[k] == lookup[k]
  }

  lemma AllNamed(dump: Dump, lookup: PkgNames, pkgNames: Result<PkgNames>)
    requires Enumerates(dump.keys, dump.records.Keys) && NamedAfter(dump, lookup, pkgNames, None)
    ensures pkgNames.Ok? <==> dump.records.Keys <= lookup.Keys
    ensures pkgNames.Ok? ==> Looked(pkgNames.value, dump.records.Keys, lookup)
    ensures pkgNames.Err? ==> (
        && pkgNames.error.UnknownPackage?
        && pkgNames.error.name in dump.records && pkgNames.error.name !in lookup)
  {
    assert forall i :: 0 <= i < |dump.keys| ==> dump.keys[i] in dump.keys;
  }

  lemma AllStarted(repo: Repo, root: Name, s: State, dump: Dump, jobs: seq<Job>, failure: Option<Error>)
    requires Finished(repo, root, s) && CrawledTo(repo, root, dump, s) && Debianized(dump, jobs, failure)
    ensures failure == None && JobNames(jobs) == WalkTree(s.tree, s.maxDepth).names
  {
    var names := WalkTree(s.tree, s.maxDepth).names;
    FinishedWalk(repo, root, s, root);
    RecordsReachable(repo, root, s);
    forall n | n in names ensures n in s.records {
      FinishedWalk(repo, root, s, n);
      assert n in ReachableSet(repo, root);
    }
    if |jobs| == |names| {
      forall i | 0 <= i < |jobs| ensures jobs[i].name == names[i] {
        assert StartedAt(jobs[i], names[i], dump.records);
      }
    }
  }

  /** With a printable name for every reachable package the run fails nowhere, and the
      Makefile it writes is closed unless its target is never built. */
  lemma RunSucceeds(repo: Repo, root: Name, dump: Dump, lookup: PkgNames, pkgNames: Result<PkgNames>, jobs: seq<Job>)
    requires Serves(repo, root) && !Reachable(repo, root, "") && Crawled(repo, root, dump)
    requires Enumerates(dump.keys, dump.records.Keys) && NamesLookedUp(dump, lookup, pkgNames, jobs)
    requires Named(repo, root, lookup)
    ensures pkgNames.Ok? && MakefileOf(dump, pkgNames.value).Ok?
    ensures root in lookup && (Closed(ReadMakefile(MakefileOf(dump, pkgNames.value).value))
      <==> Builds(repo, root, lookup, lookup[root].archive))
  {
    var s :| CrawledTo(repo, root, dump, s);
    NamesFound(repo, root, dump, lookup, pkgNames, jobs);
    NamedBy(repo, root, s, lookup, pkgNames.value);
    MakefileClosed(repo, root, s, pkgNames.value);
    SameBuilds(repo, root, lookup, pkgNames.value);
  }

  lemma SameBuilds(repo: Repo, root: Name, lookup: PkgNames, pkgNames: PkgNames)
    requires Named(repo, root, lookup) && Named(repo, root, pkgNames)
    requires forall k :: k in pkgNames ==> k in lookup && pkgNames[k] == lookup[k]
    ensures root in lookup && root in pkgNames
    ensures Builds(repo, root, pkgNames, pkgNames[root].archive) <==> Builds(repo, root, lookup, lookup[root].archive)
  {
    ReachRoot(repo, root);
  }

  // ------------------------------------------------------- names recorded by the builds

  /** When the builds record the names, a run gets past the names exactly when every
      reachable package was named before, or is built, that is, is not `serve`, and does
      not fail to build. */
  lemma OwnNames(repo: Repo, root: Name, dump: Dump, naming: Naming, pkgNames: Result<PkgNames>, jobs: seq<Job>)
    requires Serves(repo, root) && !Reachable(repo, root, "") && Crawled(repo, root, dump) && naming.FromBuilds?
    requires Enumerates(dump.keys, dump.records.Keys)
    requires NamesLookedUp(dump, TableAfter(naming, jobs), pkgNames, jobs)
    ensures pkgNames.Ok? <==>
      forall n :: Reachable(repo, root, n) ==> n in naming.before || (n != "serve" && n in naming.cache)
    ensures pkgNames.Err? ==> (
        && pkgNames.error.UnknownPackage? && Reachable(repo, root, pkgNames.error.name)
        && pkgNames.error.name !in naming.before
        && (pkgNames.error.name == "serve" || pkgNames.error.name !in naming.cache))
  {
    var table := TableAfter(naming, jobs);
    NamesFound(repo, root, dump, table, pkgNames, jobs);
    forall n | Reachable(repo, root, n)
      ensures n in table <==> n in naming.before || (n != "serve" && n in naming.cache)
    {
    }
  }

  /** So in a program's first run, if no build fails, the package `serve` is what breaks
      it: the run fails, asking for the name of `serve`, exactly when `serve` is
      reachable. */
  lemma ServeUnnamed(repo: Repo, root: Name, dump: Dump, naming: Naming, pkgNames: Result<PkgNames>, jobs: seq<Job>)
    requires Serves(repo, root) && !Reachable(repo, root, "") && Crawled(repo, root, dump)
    requires Enumerates(dump.keys, dump.records.Keys)
    requires naming.FromBuilds? && naming.before == map[]
    requires forall n :: Reachable(repo, root, n) && n != "serve" ==> n in naming.cache
    requires NamesLookedUp(dump, TableAfter(naming, jobs), pkgNames, jobs)
    ensures pkgNames.Ok? <==> !Reachable(repo, root, "serve")
    ensures pkgNames.Err? ==> pkgNames.error == UnknownPackage("serve")
  {
    OwnNames(repo, root, dump, naming, pkgNames, jobs);
  }

  /** Prefix, packages and versions have no blanks, colons or line ends. */
  ghost predicate Worded(repo: Repo, root: Name, naming: Naming)
    requires naming.FromBuilds?
  {
    && OneWord(naming.prefix)
    && forall n :: Reachable(repo, root, n) ==> OneWord(n) && n in naming.cache && OneWord(naming.cache[n])
  }

  /** A first run whose builds do not fail, over packages and versions that are words and
      do not include `serve`, fails nowhere; its Makefile is closed; and the file removes
      packages in the exact reverse of the order in which it builds them. */
  lemma FirstRunSucceeds(repo: Repo, root: Name, dump: Dump, naming: Naming, pkgNames: Result<PkgNames>, jobs: seq<Job>)
    requires Serves(repo, root) && !Reachable(repo, root, "") && Crawled(repo, root, dump)
    requires Enumerates(dump.keys, dump.records.Keys)
    requires naming.FromBuilds? && naming.before == map[] && Worded(repo, root, naming)
    requires !Reachable(repo, root, "serve")
    requires NamesLookedUp(dump, TableAfter(naming, jobs), pkgNames, jobs)
    ensures pkgNames.Ok? && MakefileOf(dump, pkgNames.value).Ok?
    ensures Closed(ReadMakefile(MakefileOf(dump, pkgNames.value).value))
    ensures forall n :: n in WalkTree(dump.tree, dump.maxDepth).names ==> n in pkgNames.value
    ensures ReadRemovals(MakefileOf(dump, pkgNames.value).value)
      == Reverse(LogicalNames(WalkTree(dump.tree, dump.maxDepth).names, pkgNames.value))
  {
    var table := TableAfter(naming, jobs);
    var s :| CrawledTo(repo, root, dump, s);
    NamesFound(repo, root, dump, table, pkgNames, jobs);
    OwnNames(repo, root, dump, naming, pkgNames, jobs);
    forall n | Reachable(repo, root, n) ensures n in table && Printable(n, table[n]) && table[n].logical != "" {
      SourcePrintable(naming.prefix, n, naming.cache[n]);
    }
    RunSucceeds(repo, root, dump, table, pkgNames, jobs);
    ReachRoot(repo, root);
    assert Builds(repo, root, table, table[root].archive);
    NamedBy(repo, root, s, table, pkgNames.value);
    UninstallReversed(repo, root, s, pkgNames.value);
  }
}
