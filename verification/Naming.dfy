/** Where the outside names of packages come from: a table, which the builds fill as
    they make their source packages, or names that were there before. */
module Naming {
  import opened Texts
  import opened Packages
  import opened MakefileText
  import opened BuildFile

  /** The version npm's cache adds of each package; one it cannot add is absent, and its
      build fails. */
  type Cache = map<Name, string>

  /** What a build records of its package. */
  function SourcePackage(prefix: string, pkg: Name, ver: string): PkgName {
    var debianName := prefix + Lower(pkg);
    PkgName(debianName, debianName + "-" + ver, debianName + "_" + ver + "-1" + "_all")
  }

  /** Names given from outside, or recorded by the builds in a table that may hold some
      already. */
  datatype Naming = Given(table: PkgNames) | FromBuilds(before: PkgNames, prefix: string, cache: Cache)

  function Recorded(before: PkgNames, prefix: string, cache: Cache, built: set<Name>): PkgNames {
    before + map n | n in built && n in cache :: SourcePackage(prefix, n, cache[n])
  }

  /** The names of the packages whose builds were started, in order. */
  function JobNames(jobs: seq<Job>): (r: seq<Name>)
    ensures |r| == |jobs| && forall i :: 0 <= i < |jobs| ==> r[i] == jobs[i].name
  {
    seq(|jobs|, i requires 0 <= i < |jobs| => jobs[i].name)
  }

  function Built(jobs: seq<Job>): (names: set<Name>)
    ensures forall n :: n in names <==> n in JobNames(jobs)
  {
    set n | n in JobNames(jobs)
  }

  /** The table once all builds have ended. */
  function TableAfter(naming: Naming, jobs: seq<Job>): PkgNames {
    match naming
    case Given(table) => table
    case FromBuilds(before, prefix, cache) => Recorded(before, prefix, cache, Built(jobs))
  }

  /** One more build ends. */
  function RecordOne(table: PkgNames, prefix: string, cache: Cache, pkg: Name): PkgNames {
    if pkg in cache then table[pkg := SourcePackage(prefix, pkg, cache[pkg])] else table
  }

  lemma RecordedMore(before: PkgNames, prefix: string, cache: Cache, built: set<Name>, pkg: Name)
    ensures RecordOne(Recorded(before, prefix, cache, built), prefix, cache, pkg)
         == Recorded(before, prefix, cache, built + {pkg})
  {
  }

  /** The builds end in any order; a failing one records nothing. */
  method RunBuilds(jobs: seq<Job>, naming: Naming) returns (table: PkgNames)
    ensures table == TableAfter(naming, jobs)
  {
    if naming.Given? {
      return naming.table;
    }
    table := naming.before;
    ghost var done: set<Name> := {};
    var pending := multiset(JobNames(jobs));
    assert table == Recorded(naming.before, naming.prefix, naming.cache, done);
    while pending != multiset{}
      invariant forall n :: n in Built(jobs) <==> n in done || n in pending
      invariant table == Recorded(naming.before, naming.prefix, naming.cache, done)
      decreases |pending|
    {
      var pkg :| pkg in pending;
      pending := pending - multiset{pkg};
      RecordedMore(naming.before, naming.prefix, naming.cache, done, pkg);
      table := RecordOne(table, naming.prefix, naming.cache, pkg);
      done := done + {pkg};
    }
    assert done == Built(jobs);
  }

  lemma LowerOneWord(s: string)
    requires OneWord(s)
    ensures OneWord(Lower(s))
  {
    forall i | 0 <= i < |s| ensures Lower(s)[i] != '\n' && Lower(s)[i] != ' ' && Lower(s)[i] != ':' && Lower(s)[i] != '\t' {
      assert s[i] in s;
    }
  }

  /** What a build records can be printed into a build file, when its prefix, package and
      version are words. */
  lemma SourcePrintable(prefix: string, pkg: Name, ver: string)
    requires OneWord(prefix) && OneWord(pkg) && OneWord(ver) && pkg != ""
    ensures var p := SourcePackage(prefix, pkg, ver);
      && OneWord(p.logical) && OneWord(p.dir) && OneWord(p.archive)
      && p.logical != "" && p.dir != "" && p.archive != ""
  {
    LowerOneWord(pkg);
  }

  lemma SourceNamed()
    ensures SourcePackage("lophilo-", "Express", "3.0.0")
         == PkgName("lophilo-express", "lophilo-express-3.0.0", "lophilo-express_3.0.0-1_all")
  {
    assert Lower("Express") == "express";
  }
}
