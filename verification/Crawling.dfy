/** The crawler itself: its tables are updated in place, callback by callback.
    Every method is tied to the step system of CrawlModel. */
module Crawling {
  import opened Packages
  import opened CrawlModel
  import opened CrawlTheorems

  type Registry = map<Name, Desc>

  /** The registry answers for `n` with a usable descriptor of that name. */
  ghost predicate Served(registry: Registry, n: Name) {
    && n in registry
    && registry[n].name == n
    && Usable(registry[n])
  }

  /** The `latest` tag is present and names a published version. */
  predicate Usable(desc: Desc) {
    desc.latest != "" && desc.latest in desc.versions
  }

  function LatestRecord(desc: Desc): Record
    requires Usable(desc)
  {
    RecordOf(desc.versions[desc.latest])
  }

  ghost function RepoOf(registry: Registry): Repo {
    map n | n in registry && Served(registry, n) :: LatestRecord(registry[n])
  }

  lemma RaiseTwice(queued: map<Name, nat>, done: set<Name>, k: Name, level: nat)
    ensures Raise(Raise(queued, done, level), {k}, level) == Raise(queued, done + {k}, level)
    ensures Raise(queued, done, level).Keys == queued.Keys + done
  {
  }

  lemma FlyOne(done: set<Name>, known: set<Name>, k: Name)
    ensures multiset(done - known) + multiset({k} - (known + done)) == multiset((done + {k}) - known)
  {
    assert (done - known) + ({k} - (known + done)) == (done + {k}) - known;
    assert (done - known) !! ({k} - (known + done));
  }

  lemma KeySetSnoc(d: Dict, i: nat)
    requires i < |d|
    ensures KeySet(d[..i + 1]) == KeySet(d[..i]) + KeySet([d[i]])
    ensures KeySet([d[i]]) == {d[i].0}
  {
    assert Keys(d[..i + 1]) == Keys(d[..i]) + [d[i].0];
    assert Keys([d[i]]) == [d[i].0];
  }

  lemma QueueNone(s: State, level: nat)
    ensures Queue(s, [], level) == s
  {
    assert KeySet([]) == {};
    var none := KeySet([]) - s.queued.Keys;
    assert none == {};
    assert Raise(s.queued, {}, level) == s.queued;
  }

  /** Queueing one name: a known one only has its level raised, a new one is fetched. */
  function QueueOne(s: State, k: Name, level: nat): State {
    if k in s.queued
    then s.(queued := if s.queued[k] < level then s.queued[k := level] else s.queued, currentDepth := level)
    else s.(queued := s.queued[k := level], inFlight := s.inFlight + multiset{k}, currentDepth := level)
  }

  function QueueEach(s: State, d: Dict, level: nat): State {
    if d == [] then s
    else QueueOne(QueueEach(s, d[..|d| - 1], level), d[|d| - 1].0, level)
  }

  lemma QueueOneIs(s: State, dep: (Name, string), level: nat)
    ensures QueueOne(s, dep.0, level) == Queue(s, [dep], level)
  {
    SingleKey(dep);
    RaiseSingle(s.queued, dep.0, level);
    AddSingle(s.queued.Keys, dep.0);
  }

  /** Queueing a table entry by entry is queueing it at once. */
  lemma {:induction false} QueueEachIs(s: State, d: Dict, level: nat)
    ensures QueueEach(s, d, level) == Queue(s, d, level)
  {
    if d == [] {
      QueueNone(s, level);
    } else {
      var i := |d| - 1;
      QueueEachIs(s, d[..i], level);
      QueueOneIs(QueueEach(s, d[..i], level), d[i], level);
      QueueSnoc(s, d, i, level);
      assert d[..i + 1] == d;
    }
  }

  lemma SingleKey(dep: (Name, string))
    ensures KeySet([dep]) == {dep.0}
  {
    assert Keys([dep]) == [dep.0];
  }

  lemma AddSingle(known: set<Name>, k: Name)
    ensures multiset({k} - known) == if k in known then multiset{} else multiset{k}
  {
    assert {k} - known == if k in known then {} else {k};
  }

  lemma RaiseSingle(queued: map<Name, nat>, k: Name, level: nat)
    ensures Raise(queued, {k}, level) == if k in queued && queued[k] >= level then queued else queued[k := level]
  {
  }

  /** Queueing a table is queueing its entries one after the other. */
  lemma QueueSnoc(s: State, d: Dict, i: nat, level: nat)
    requires i < |d|
    ensures Queue(Queue(s, d[..i], level), [d[i]], level) == Queue(s, d[..i + 1], level)
  {
    var done, k := KeySet(d[..i]), d[i].0;
    KeySetSnoc(d, i);
    RaiseTwice(s.queued, done, k, level);
    FlyOne(done, s.queued.Keys, k);
  }

  /** The registry's usable descriptors are the packages of `repo`. */
  ghost predicate Describes(registry: Registry, repo: Repo) {
    && (forall n :: n in repo <==> Served(registry, n))
    && (forall n :: n in repo ==> repo[n] == LatestRecord(registry[n]))
  }

  class Crawler {
    const registry: Registry
    const target: Name
    ghost const repo: Repo

    var rootInFlight: bool
    var inFlight: multiset<Name>
    var tree: map<nat, seq<Name>>
    var maxDepth: nat
    var dependencies: map<Name, Record>
    var alreadyQueued: map<Name, nat>
    var currentDepth: nat
    ghost var log: seq<Visit>

    ghost function Model(): State
      reads this
    {
      State(rootInFlight, inFlight, alreadyQueued, dependencies, tree, maxDepth, currentDepth, log)
    }

    /** A queued level is never 0, so the truthiness of an entry is its presence. */
    ghost predicate Truthy()
      reads this`alreadyQueued
    {
      forall k :: k in alreadyQueued ==> alreadyQueued[k] > 0
    }

    ghost predicate Valid()
      reads this
    {
      Describes(registry, repo) && Truthy()
    }

    /** The table says of `n` what its latest published version says. */
    ghost predicate Recorded(n: Name)
      reads this`dependencies
    {
      && n in dependencies && n in registry && registry[n].latest in registry[n].versions
      && RecordsManifest(dependencies[n], registry[n].versions[registry[n].latest])
    }

    /** A fresh crawl: the target is requested, the tables are empty, and the
        shared cell still holds whatever an earlier crawl left in it. */
    constructor (registry: Registry, target: Name, leftover: nat)
      ensures this.registry == registry && this.target == target && repo == RepoOf(registry)
      ensures Valid() && Model() == Init(target, leftover)
    {
      this.registry, this.target, repo := registry, target, RepoOf(registry);
      rootInFlight, inFlight := true, multiset{};
      tree, maxDepth := map[], 0;
      dependencies, alreadyQueued := map[], map[];
      currentDepth := leftover;
      log := [];
    }

    /** Appends a name to a level of the tree, which is created on first use. */
    method PushName(name: Name, depth: nat)
      modifies this`tree, this`maxDepth
      ensures tree == Push(old(tree), depth, name)
      ensures maxDepth == if depth !in old(tree) && old(maxDepth) < depth then depth else old(maxDepth)
    {
      if depth !in tree {
        tree := tree[depth := []];
        if maxDepth < depth {
          maxDepth := depth;
        }
      }
      tree := tree[depth := tree[depth] + [name]];
    }

    /** Records a descriptor at a level. Without a usable latest version it fails,
        but only after the name has been pushed onto the tree. */
    method UpdateTree(desc: Desc, depth: nat) returns (ok: bool)
      modifies this`tree, this`maxDepth, this`dependencies
      ensures ok <==> Usable(desc)
      ensures ok ==> Model() == Enter(old(Model()), desc.name, LatestRecord(desc), depth)
      ensures !ok ==> tree == Push(old(tree), depth, desc.name) && unchanged(this`dependencies)
      ensures !ok ==> maxDepth == if depth !in old(tree) && old(maxDepth) < depth then depth else old(maxDepth)
    {
      PushName(desc.name, depth);
      var ver := desc.latest;
      if ver == "" || ver !in desc.versions {
        return false;
      }
      var m := desc.versions[ver];
      RecordManifest(desc.name, m);
      return true;
    }

    /** Fills in the dependency table entry of `name`. */
    method RecordManifest(name: Name, m: Manifest)
      modifies this`dependencies
      ensures dependencies == old(dependencies)[name := RecordOf(m)]
    {
      dependencies := dependencies[name := Record(m.dependencies, m.devDependencies, [])];
      CopyDeps(name, m.devDependencies);
      CopyDeps(name, m.dependencies);
    }

    /** Copies one dependency table of `name` onto its merged table, property by property. */
    method CopyDeps(name: Name, table: Dict)
      requires name in dependencies
      modifies this`dependencies
      ensures dependencies == old(dependencies)[name :=
        old(dependencies)[name].(alldeps := PutAll(old(dependencies)[name].alldeps, table))]
    {
      ghost var before := dependencies[name];
      for i := 0 to |table|
        invariant dependencies == old(dependencies)[name :=
          before.(alldeps := PutAll(before.alldeps, table[..i]))]
      {
        var (k, v) := table[i];
        PutAllSnoc(before.alldeps, table[..i], k, v);
        assert table[..i + 1] == table[..i] + [(k, v)];
        dependencies := dependencies[name := dependencies[name].(alldeps := Put(dependencies[name].alldeps, k, v))];
      }
      assert table[..|table|] == table;
    }

    /** Queues one listed name: a name seen before only has its level raised. */
    method QueueDep(dep: Name, depth: nat)
      requires Truthy()
      modifies this`alreadyQueued, this`inFlight, this`currentDepth
      ensures Truthy()
      ensures Model() == QueueOne(old(Model()), dep, depth + 1)
    {
      currentDepth := depth + 1;
      if dep in alreadyQueued && alreadyQueued[dep] != 0 {
        if alreadyQueued[dep] < currentDepth {
          alreadyQueued := alreadyQueued[dep := currentDepth];
        }
        return;
      } else {
        alreadyQueued := alreadyQueued[dep := currentDepth];
      }
      inFlight := inFlight + multiset{dep};
    }

    /** Queues the names a processed package lists. */
    method QueueDeps(alldeps: Dict, depth: nat)
      requires Truthy()
      modifies this`alreadyQueued, this`inFlight, this`currentDepth
      ensures Truthy()
      ensures Model() == QueueEach(old(Model()), alldeps, depth + 1)
    {
      for i := 0 to |alldeps|
        invariant Truthy()
        invariant Model() == QueueEach(old(Model()), alldeps[..i], depth + 1)
      {
        assert alldeps[..i + 1][..i] == alldeps[..i];
        QueueDep(alldeps[i].0, depth);
      }
      assert alldeps[..|alldeps|] == alldeps;
    }

    /** Processes one descriptor: records it, then requests every name it lists
        that no earlier descriptor listed. */
    method ProcessDesc(desc: Desc, depth: nat) returns (ok: bool)
      requires Valid()
      modifies this`tree, this`maxDepth, this`dependencies, this`alreadyQueued, this`inFlight, this`currentDepth
      ensures Valid()
      ensures ok <==> Usable(desc)
      ensures ok ==> Model() == Process(old(Model()), desc.name, LatestRecord(desc), depth)
      ensures !ok ==> tree == Push(old(tree), depth, desc.name)
      ensures !ok ==> maxDepth == if depth !in old(tree) && old(maxDepth) < depth then depth else old(maxDepth)
      ensures !ok ==> unchanged(this`dependencies, this`alreadyQueued, this`inFlight, this`currentDepth)
    {
      ok := UpdateTree(desc, depth);
      if ok {
        QueueEachIs(Model(), dependencies[desc.name].alldeps, depth + 1);
        QueueDeps(dependencies[desc.name].alldeps, depth);
      }
    }

    /** The callback of the target's own fetch. */
    method OnRoot()
      requires Valid() && Ready(target, Model(), RootFetch(target)) && target in repo
      modifies this
      ensures Valid()
      ensures Model() == Deliver(repo, old(Model()), RootFetch(target))
    {
      rootInFlight := false;
      log := log + [Visit(RootFetch(target), 0)];
      var ok := ProcessDesc(registry[target], 0);
    }

    /** The callback of any other fetch: the depth comes from the shared cell, as
        it stands when the callback fires. */
    method OnDep(n: Name)
      requires Valid() && Ready(target, Model(), DepFetch(n)) && n in repo
      modifies this
      ensures Valid()
      ensures Model() == Deliver(repo, old(Model()), DepFetch(n))
    {
      inFlight := inFlight - multiset{n};
      log := log + [Visit(DepFetch(n), currentDepth)];
      var ok := ProcessDesc(registry[n], currentDepth);
    }

    /** Some fetch in flight resolves. */
    method ResolveAny() returns (ghost r: Request)
      requires Valid() && Serves(repo, target) && Inv(repo, target, Model())
      requires !Quiescent(Model())
      modifies this
      ensures Valid()
      ensures Ready(target, old(Model()), r) && Model() == Deliver(repo, old(Model()), r)
      ensures Inv(repo, target, Model())
    {
      ghost var before := Model();
      if rootInFlight {
        r := RootFetch(target);
        ReadyReachable(repo, target, before, r);
        OnRoot();
      } else {
        var n :| n in inFlight;
        r := DepFetch(n);
        ReadyReachable(repo, target, before, r);
        OnDep(n);
      }
      StepInv(repo, target, before, r);
    }

    /** The whole crawl. Which fetch resolves next is left open, so what holds
        here holds for every order. The crawl ends, and then the tables answer for
        exactly the packages reachable from the target. */
    method Crawl() returns (ghost states: seq<State>, ghost sched: seq<Request>)
      requires Valid() && Serves(repo, target)
      requires Model() == Init(target, currentDepth)
      modifies this
      ensures Valid()
      ensures IsRun(repo, target, states, sched) && Model() == states[|sched|]
      ensures Quiescent(Model())
      ensures dependencies.Keys == ReachableSet(repo, target)
      ensures forall n :: n in dependencies ==> Recorded(n)
    {
      states, sched := [Model()], [];
      InitInv(repo, target, currentDepth);
      while rootInFlight || inFlight != multiset{}
        invariant Valid() && Inv(repo, target, Model())
        invariant IsRun(repo, target, states, sched) && Model() == states[|sched|]
        decreases 1 + |WantedSet(repo, target)| - |sched|
      {
        EveryScheduleEnds(repo, target, states, sched);
        ghost var r := ResolveAny();
        ExtendRun(repo, target, states, sched, r);
        states, sched := states + [Model()], sched + [r];
      }
      CrawlFindsReachable(repo, target, states, sched);
      forall n | n in dependencies ensures Recorded(n) {
        RecordMeaning(registry[n].versions[registry[n].latest]);
      }
    }
  }
}
