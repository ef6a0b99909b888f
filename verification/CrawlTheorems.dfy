/** What every crawl guarantees, whatever the package graph and in whatever
    order its fetches resolve. */
module CrawlTheorems {
  import opened Packages
  import opened CrawlModel

  predicate Quiescent(s: State) {
    !s.rootInFlight && s.inFlight == multiset{}
  }

  ghost function ReachableSet(repo: Repo, root: Name): set<Name> {
    set n | n in repo.Keys && Reachable(repo, root, n)
  }

  /** Some reachable package lists `n`. */
  ghost predicate Wanted(repo: Repo, root: Name, n: Name) {
    exists m {:trigger Reachable(repo, root, m)} :: Reachable(repo, root, m) && n in Deps(repo, m)
  }

  ghost function WantedSet(repo: Repo, root: Name): set<Name> {
    set n | n in repo.Keys && Wanted(repo, root, n)
  }

  // ------------------------------------------------------------ reachability

  lemma QueuedWanted(repo: Repo, root: Name, s: State)
    requires Serves(repo, root) && Inv(repo, root, s)
    ensures s.queued.Keys <= WantedSet(repo, root)
  {
    forall k | k in s.queued ensures k in WantedSet(repo, root) {
      var i :| Lists(repo, s.log, i, k);
      var m := s.log[i].req.name;
      assert Reachable(repo, root, m);
      ReachStep(repo, root, m, k);
    }
  }

  lemma {:induction false} DepNamesVisits(log: seq<Visit>, n: Name)
    requires n in DepNames(log)
    ensures exists i :: 0 <= i < |log| && log[i].req == DepFetch(n)
  {
    var front := log[..|log| - 1];
    if n in DepNames(front) {
      DepNamesVisits(front, n);
      var i :| 0 <= i < |front| && front[i].req == DepFetch(n);
      assert log[i].req == DepFetch(n);
    } else {
      assert log[|log| - 1].req == DepFetch(n);
    }
  }

  lemma QueuedVisited(repo: Repo, root: Name, s: State, k: Name)
    requires Inv(repo, root, s) && Quiescent(s) && k in s.queued
    ensures k in Names(s.log)
  {
    assert multiset(DepNames(s.log)) == multiset(s.queued.Keys);
    assert k in multiset(s.queued.Keys);
    assert k in multiset(DepNames(s.log));
    DepNamesVisits(s.log, k);
    var i :| 0 <= i < |s.log| && s.log[i].req == DepFetch(k);
    assert Names(s.log)[i] == k;
  }

  /** Once nothing is in flight, the visited packages are closed under listing. */
  lemma {:induction false} PathVisited(repo: Repo, root: Name, s: State, n: Name, p: seq<Name>)
    requires Inv(repo, root, s) && Quiescent(s) && Path(repo, root, n, p)
    ensures n in Names(s.log)
    decreases |p|
  {
    if |p| == 1 {
      assert Names(s.log)[0] == root;
    } else {
      var q, m := p[..|p| - 1], p[|p| - 2];
      assert Path(repo, root, m, q);
      PathVisited(repo, root, s, m, q);
      assert p[|p| - 2 + 1] in Deps(repo, p[|p| - 2]);
      var i :| 0 <= i < |s.log| && Names(s.log)[i] == m;
      assert Lists(repo, s.log, i, n);
      QueuedVisited(repo, root, s, n);
    }
  }

  lemma VisitedExact(repo: Repo, root: Name, s: State, n: Name)
    requires Inv(repo, root, s) && Quiescent(s)
    ensures n in Names(s.log) <==> Reachable(repo, root, n)
  {
    if n in Names(s.log) {
      var i :| 0 <= i < |s.log| && Names(s.log)[i] == n;
      assert s.log[i].req.name == n;
    }
    if Reachable(repo, root, n) {
      var p :| Path(repo, root, n, p);
      PathVisited(repo, root, s, n, p);
    }
  }

  lemma RecordsReachable(repo: Repo, root: Name, s: State)
    requires Serves(repo, root) && Inv(repo, root, s) && Quiescent(s)
    ensures s.records.Keys == ReachableSet(repo, root)
    ensures forall n :: n in s.records ==> s.records[n] == repo[n]
  {
    forall n ensures n in s.records <==> n in ReachableSet(repo, root) {
      VisitedExact(repo, root, s, n);
    }
  }

  /** When nothing is in flight, the dependency table holds exactly the packages
      reachable from the target, each with its own record. */
  lemma CrawlFindsReachable(repo: Repo, root: Name, states: seq<State>, sched: seq<Request>)
    requires Serves(repo, root) && IsRun(repo, root, states, sched)
    requires Quiescent(states[|sched|])
    ensures states[|sched|].records.Keys == ReachableSet(repo, root)
    ensures forall n :: n in ReachableSet(repo, root) ==> states[|sched|].records[n] == repo[n]
  {
    RunInv(repo, root, states, sched, |sched|);
    RecordsReachable(repo, root, states[|sched|]);
  }

  // ------------------------------------------------------------ fetch counts

  lemma {:induction false} NoRootDepNames(log: seq<Visit>)
    requires forall i :: 0 <= i < |log| ==> (log[i].req.RootFetch? <==> i == 0)
    ensures Names(log) == if log == [] then [] else [log[0].req.name] + DepNames(log)
  {
    if log == [] {
    } else {
      var front := log[..|log| - 1];
      NoRootDepNames(front);
      assert Names(log) == Names(front) + [log[|log| - 1].req.name];
    }
  }

  lemma CountVisits(repo: Repo, root: Name, s: State)
    requires Inv(repo, root, s)
    ensures s.log != [] ==> multiset(Names(s.log)) == multiset{root} + multiset(DepNames(s.log))
    ensures s.log != [] ==> |s.log| == 1 + |DepNames(s.log)|
  {
    NoRootDepNames(s.log);
  }

  lemma SubMultisetSize(a: multiset<Name>, b: multiset<Name>, c: multiset<Name>)
    requires a + b <= c
    ensures |b| <= |c|
    ensures |b| == |c| ==> a == multiset{}
  {
    assert c == a + b + (c - (a + b));
  }

  lemma WantedQueued(repo: Repo, root: Name, s: State)
    requires Serves(repo, root) && Inv(repo, root, s) && Quiescent(s)
    ensures s.queued.Keys == WantedSet(repo, root)
  {
    QueuedWanted(repo, root, s);
    forall k | k in WantedSet(repo, root) ensures k in s.queued {
      var m :| Reachable(repo, root, m) && k in Deps(repo, m);
      VisitedExact(repo, root, s, m);
      var i :| 0 <= i < |s.log| && Names(s.log)[i] == m;
      assert Lists(repo, s.log, i, k);
    }
  }

  lemma MultisetMonotone(a: set<Name>, b: set<Name>)
    requires a <= b
    ensures multiset(a) <= multiset(b)
  {
  }

  lemma StepBound(repo: Repo, root: Name, s: State)
    requires Serves(repo, root) && Inv(repo, root, s)
    ensures |s.log| <= 1 + |WantedSet(repo, root)|
    ensures |s.log| == 1 + |WantedSet(repo, root)| <==> Quiescent(s)
  {
    var w := WantedSet(repo, root);
    QueuedWanted(repo, root, s);
    CountVisits(repo, root, s);
    MultisetMonotone(s.queued.Keys, w);
    SubMultisetSize(s.inFlight, multiset(DepNames(s.log)), multiset(w));
    assert |multiset(w)| == |w|;
    if Quiescent(s) {
      WantedQueued(repo, root, s);
    }
  }

  /** Termination with an exact count: no schedule can resolve more than
      1 + |wanted| fetches, and it has resolved that many exactly when nothing
      is left in flight. */
  lemma EveryScheduleEnds(repo: Repo, root: Name, states: seq<State>, sched: seq<Request>)
    requires Serves(repo, root) && IsRun(repo, root, states, sched)
    ensures |sched| <= 1 + |WantedSet(repo, root)|
    ensures |sched| == 1 + |WantedSet(repo, root)| <==> Quiescent(states[|sched|])
  {
    RunInv(repo, root, states, sched, |sched|);
    RunLog(repo, root, states, sched, |sched|);
    assert |sched| == |Requests(states[|sched|].log)|;
    StepBound(repo, root, states[|sched|]);
  }

  lemma VisitMultiplicity(repo: Repo, root: Name, s: State, n: Name)
    requires Serves(repo, root) && Inv(repo, root, s) && Quiescent(s)
    ensures multiset(Names(s.log))[n] ==
      (if n == root then 1 else 0) + (if n in WantedSet(repo, root) then 1 else 0)
  {
    CountVisits(repo, root, s);
    WantedQueued(repo, root, s);
    assert multiset(DepNames(s.log)) == multiset(WantedSet(repo, root));
    assert multiset(Names(s.log))[n] == multiset{root}[n] + multiset(DepNames(s.log))[n];
  }

  /** Each reachable package is fetched once; the target is fetched a second time
      exactly when some reachable package lists it; nothing else is fetched. */
  lemma FetchedOnce(repo: Repo, root: Name, states: seq<State>, sched: seq<Request>, n: Name)
    requires Serves(repo, root) && IsRun(repo, root, states, sched)
    requires Quiescent(states[|sched|])
    ensures multiset(Names(states[|sched|].log))[n] ==
      if !Reachable(repo, root, n) then 0 else if n == root && Wanted(repo, root, n) then 2 else 1
  {
    RunInv(repo, root, states, sched, |sched|);
    VisitMultiplicity(repo, root, states[|sched|], n);
    ReachableWanted(repo, root, n);
  }

  /** Apart from the target, the reachable packages are the listed ones. */
  lemma ReachableWanted(repo: Repo, root: Name, n: Name)
    requires Serves(repo, root)
    ensures Reachable(repo, root, n) <==> n == root || Wanted(repo, root, n)
    ensures n in WantedSet(repo, root) <==> Wanted(repo, root, n)
  {
    ReachRoot(repo, root);
    if Wanted(repo, root, n) {
      var m :| Reachable(repo, root, m) && n in Deps(repo, m);
      ReachStep(repo, root, m, n);
    }
    if Reachable(repo, root, n) && n != root {
      var p :| Path(repo, root, n, p);
      var q, m := p[..|p| - 1], p[|p| - 2];
      assert Path(repo, root, m, q);
      assert p[|p| - 2 + 1] in Deps(repo, p[|p| - 2]);
      assert Reachable(repo, root, m);
    }
  }

  // ------------------------------------------------------------------ levels

  /** Bearing visits climb the levels one by one. */
  lemma {:induction false} BearingAt(repo: Repo, log: seq<Visit>, level: nat) returns (i: nat)
    requires level < Bearing(repo, log)
    ensures i < |log| && Bearing(repo, log[..i]) == level && Deps(repo, log[i].req.name) != []
    decreases |log|
  {
    var n := |log| - 1;
    if level < Bearing(repo, log[..n]) {
      i := BearingAt(repo, log[..n], level);
      assert log[..n][..i] == log[..i];
    } else {
      i := n;
    }
  }

  /** Levels 0..maxDepth all exist and are inhabited, and none lies above. */
  lemma LevelsContiguous(repo: Repo, root: Name, s: State)
    requires Inv(repo, root, s) && s.log != []
    ensures forall l: nat :: l in s.tree <==> l <= s.maxDepth
    ensures forall l: nat :: l in s.tree ==> s.tree[l] != []
    ensures s.tree[0][0] == root
  {
    var n := |s.log| - 1;
    forall l: nat ensures l in s.tree <==> l <= s.maxDepth {
      if l < s.maxDepth {
        assert AtLevel(repo, s.log, n);
        var i := BearingAt(repo, s.log[..n], l);
        assert s.log[..n][..i] == s.log[..i] && AtLevel(repo, s.log, i);
        NamesAtPresent(s.log, i);
      } else if l == s.maxDepth {
        NamesAtPresent(s.log, n);
      } else {
        forall i | 0 <= i < |s.log| ensures s.log[i].level != l {
          LevelsAscend(repo, s, i, n);
        }
        NamesAtAbsent(s.log, l);
      }
    }
    assert AtLevel(repo, s.log, 0) && s.log[..0] == [];
    NamesAtHead(s.log);
  }

  lemma {:induction false} NamesAtHead(log: seq<Visit>)
    requires log != [] && log[0].level == 0
    ensures NamesAt(log, 0) != [] && NamesAt(log, 0)[0] == log[0].req.name
  {
    if |log| <= 1 {
    } else {
      NamesAtHead(log[..|log| - 1]);
    }
  }

  /** At every moment after the first step of every crawl, the tree's levels are
      contiguous and inhabited. */
  lemma TreeAlwaysContiguous(repo: Repo, root: Name, states: seq<State>, sched: seq<Request>, n: nat)
    requires IsRun(repo, root, states, sched) && 0 < n <= |sched|
    ensures forall l: nat :: l in states[n].tree <==> l <= states[n].maxDepth
    ensures forall l: nat :: l in states[n].tree ==> states[n].tree[l] != []
    ensures states[n].tree[0][0] == root
  {
    RunInv(repo, root, states, sched, n);
    RunLog(repo, root, states, sched, n);
    assert |Requests(states[n].log)| == n;
    LevelsContiguous(repo, root, states[n]);
  }

  /** Where a listed package lands relative to one that lists it: strictly deeper
      exactly when it was still unprocessed at that moment. */
  lemma DeeperIffLater(repo: Repo, root: Name, s: State, i: nat, j: nat)
    requires Inv(repo, root, s) && j < |s.log| && Lists(repo, s.log, i, s.log[j].req.name)
    ensures s.log[i].level < s.log[j].level <==> i < j
  {
    if i < j {
      assert AtLevel(repo, s.log, i) && AtLevel(repo, s.log, j);
      BearingStrict(repo, s.log, i, j);
    } else {
      LevelsAscend(repo, s, j, i);
    }
  }

  /** `r` lists `a` and `b`, and `a` lists `b`. */
  function Triangle(): Repo {
    var ab, b := [("a", ""), ("b", "")], [("b", "")];
    map["r" := Record(ab, [], ab), "a" := Record(b, [], b), "b" := Record([], [], [])]
  }

  lemma TriangleDeps()
    ensures Deps(Triangle(), "r") == ["a", "b"] && Deps(Triangle(), "a") == ["b"] && Deps(Triangle(), "b") == []
    ensures DepSet(Triangle(), "r") == {"a", "b"} && DepSet(Triangle(), "a") == {"b"} && DepSet(Triangle(), "b") == {}
  {
    assert Keys([("a", ""), ("b", "")]) == ["a", "b"] && Keys([("b", "")]) == ["b"];
  }

  lemma TriangleRun() returns (states: seq<State>, sched: seq<Request>)
    ensures IsRun(Triangle(), "r", states, sched) && |sched| == 1
    ensures !states[1].rootInFlight && states[1].inFlight == multiset{"a", "b"}
    ensures states[1].queued.Keys == {"a", "b"} && states[1].currentDepth == 1
    ensures states[1].log == [Visit(RootFetch("r"), 0)]
  {
    TriangleDeps();
    var s0 := Init("r", 0);
    states, sched := Extend(Triangle(), "r", [s0], [], RootFetch("r"), {"a", "b"});
    assert {"a", "b"} - s0.queued.Keys == {"a", "b"};
  }

  /** And it does happen that a listed package is not deeper, even without cycles:
      in the triangle, when `b` resolves before `a`. */
  lemma NotAlwaysDeeper() returns (states: seq<State>, sched: seq<Request>)
    ensures IsRun(Triangle(), "r", states, sched) && Quiescent(states[|sched|])
    ensures |states[|sched|].log| == 3
    ensures states[|sched|].log[1].req.name == "b" && Lists(Triangle(), states[|sched|].log, 2, "b")
    ensures states[|sched|].log[1].level == states[|sched|].log[2].level
  {
    TriangleDeps();
    states, sched := TriangleRun();
    var known := states[1].queued.Keys;
    states, sched := Extend(Triangle(), "r", states, sched, DepFetch("b"), {});
    assert {} - known == {};
    states, sched := Extend(Triangle(), "r", states, sched, DepFetch("a"), {"b"});
    assert {"b"} - (known + {}) == {};
  }

  /** One more step of a run, seen through the fields that decide the next one. */
  lemma Extend(repo: Repo, root: Name, states: seq<State>, sched: seq<Request>, r: Request, keys: set<Name>)
    returns (states': seq<State>, sched': seq<Request>)
    requires IsRun(repo, root, states, sched) && Ready(root, states[|sched|], r)
    requires keys == DepSet(repo, r.name)
    ensures sched' == sched + [r] && IsRun(repo, root, states', sched')
    ensures var s, t := states[|sched|], states'[|sched'|];
      && t.rootInFlight == (s.rootInFlight && r.DepFetch?)
      && t.inFlight == (if r.DepFetch? then s.inFlight - multiset{r.name} else s.inFlight)
                       + multiset(keys - s.queued.Keys)
      && t.queued.Keys == s.queued.Keys + keys
      && t.currentDepth == (if keys == {} then s.currentDepth else LevelFor(s, r) + 1)
      && t.log == s.log + [Visit(r, LevelFor(s, r))]
  {
    var t := Deliver(repo, states[|sched|], r);
    states', sched' := states + [t], sched + [r];
    NoKeys(RecordAt(repo, r.name).alldeps);
    ExtendRun(repo, root, states, sched, r);
  }

  lemma NoKeys(d: Dict)
    ensures KeySet(d) == {} <==> d == []
  {
    if d != [] {
      assert Keys(d)[0] in KeySet(d);
    }
  }

  lemma ExtendRun(repo: Repo, root: Name, states: seq<State>, sched: seq<Request>, r: Request)
    requires IsRun(repo, root, states, sched) && Ready(root, states[|sched|], r)
    ensures IsRun(repo, root, states + [Deliver(repo, states[|sched|], r)], sched + [r])
  {
    var states' := states + [Deliver(repo, states[|sched|], r)];
    forall i: nat | i < |sched| + 1 ensures StepAt(repo, root, states', sched + [r], i) {
      if i < |sched| {
        assert StepAt(repo, root, states, sched, i);
      }
    }
  }

  /** Visit `i` is the first to list the package of visit `j`, and lies strictly above it. */
  ghost predicate QueuedBy(repo: Repo, log: seq<Visit>, i: nat, j: nat)
    requires j < |log|
  {
    && i < j && Lists(repo, log, i, log[j].req.name)
    && (forall h :: 0 <= h < i ==> !Lists(repo, log, h, log[j].req.name))
    && log[i].level < log[j].level
  }

  /** So a package is recorded strictly deeper than the one that queued it. */
  lemma DeeperThanQueuer(repo: Repo, root: Name, states: seq<State>, sched: seq<Request>, j: nat)
    requires IsRun(repo, root, states, sched) && j < |sched| && sched[j].DepFetch?
    ensures |states[|sched|].log| == |sched|
    ensures exists i: nat :: QueuedBy(repo, states[|sched|].log, i, j)
  {
    var s := states[|sched|];
    RunInv(repo, root, states, sched, |sched|);
    RunLog(repo, root, states, sched, |sched|);
    assert Requests(s.log)[j] == sched[j];
    RunInv(repo, root, states, sched, j);
    RunLog(repo, root, states, sched, j);
    assert StepAt(repo, root, states, sched, j);
    ReadyOrigin(repo, root, states[j], sched[j]);
    var h :| Lists(repo, states[j].log, h, sched[j].name);
    assert Requests(states[j].log)[h] == sched[h] == Requests(s.log)[h];
    assert Lists(repo, s.log, h, sched[j].name);
    var i := FirstLister(repo, s.log, h, sched[j].name);
    DeeperIffLater(repo, root, s, i, j);
    assert QueuedBy(repo, s.log, i, j);
  }

  lemma {:induction false} FirstLister(repo: Repo, log: seq<Visit>, h: nat, k: Name) returns (i: nat)
    requires Lists(repo, log, h, k)
    ensures i <= h && Lists(repo, log, i, k)
    ensures forall g :: 0 <= g < i ==> !Lists(repo, log, g, k)
    decreases h
  {
    if g: nat :| g < h && Lists(repo, log, g, k) {
      i := FirstLister(repo, log, g, k);
    } else {
      i := h;
    }
  }

  /** Recorded levels never decrease in processing order, and a level holds at
      most one package that lists anything. */
  lemma LevelOrder(repo: Repo, root: Name, states: seq<State>, sched: seq<Request>, i: nat, j: nat)
    requires IsRun(repo, root, states, sched) && i < j < |states[|sched|].log|
    ensures states[|sched|].log[i].level <= states[|sched|].log[j].level
    ensures Deps(repo, states[|sched|].log[i].req.name) != [] ==>
      states[|sched|].log[i].level < states[|sched|].log[j].level
  {
    var s := states[|sched|];
    RunInv(repo, root, states, sched, |sched|);
    LevelsAscend(repo, s, i, j);
    if Deps(repo, s.log[i].req.name) != [] {
      assert AtLevel(repo, s.log, i) && AtLevel(repo, s.log, j);
      BearingStrict(repo, s.log, i, j);
    }
  }

  /** At every moment of every crawl `alreadyQueued` holds exactly the names listed so
      far, and each entry is the greatest level + 1 over the visits that list the name:
      never 0, so an entry's truthiness is its presence. */
  lemma QueuedIsMaximum(repo: Repo, root: Name, states: seq<State>, sched: seq<Request>, n: nat, k: Name)
    requires IsRun(repo, root, states, sched) && n <= |sched|
    ensures var s := states[n];
      && (k in s.queued <==> exists i :: Lists(repo, s.log, i, k))
      && (k in s.queued ==> s.queued[k] >= 1)
      && (k in s.queued ==> exists i :: Lists(repo, s.log, i, k) && s.queued[k] == s.log[i].level + 1)
      && (k in s.queued ==> forall i :: Lists(repo, s.log, i, k) ==> s.log[i].level + 1 <= s.queued[k])
  {
    RunInv(repo, root, states, sched, n);
  }
}
