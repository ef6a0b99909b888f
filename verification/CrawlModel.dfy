/** The dependency crawl as a step system. A state holds the fetches in flight,
    the crawler's tables and the one shared `currentDepth` cell; a step resolves
    any one fetch and runs its callback to the end. A run is a schedule: the
    order in which fetches resolve. */
module CrawlModel {
  import opened Packages

  /** What the registry says of each package: the table entry made from the
      latest version of its descriptor. */
  type Repo = map<Name, Record>

  /** The callback of the first fetch carries depth 0; every other callback reads
      the depth from the shared cell when it fires. */
  datatype Request = RootFetch(name: Name) | DepFetch(name: Name)

  /** One processed descriptor and the level it was recorded at. */
  datatype Visit = Visit(req: Request, level: nat)

  datatype State = State(
    rootInFlight: bool,
    inFlight: multiset<Name>,
    queued: map<Name, nat>,
    records: map<Name, Record>,
    tree: map<nat, seq<Name>>,
    maxDepth: nat,
    currentDepth: nat,
    log: seq<Visit>)

  // ---------------------------------------------------------------- packages

  /** The names `n` lists, run-time and development together. */
  function Deps(repo: Repo, n: Name): seq<Name> {
    Keys(RecordAt(repo, n).alldeps)
  }

  function RecordAt(repo: Repo, n: Name): Record {
    if n in repo then repo[n] else Record([], [], [])
  }

  function DepSet(repo: Repo, n: Name): (r: set<Name>)
    ensures forall k :: k in r <==> k in Deps(repo, n)
  {
    KeySet(RecordAt(repo, n).alldeps)
  }

  /** `p` walks from `root` to `n`, each package listing the next. */
  ghost predicate Path(repo: Repo, root: Name, n: Name, p: seq<Name>) {
    && |p| > 0 && p[0] == root && p[|p| - 1] == n
    && forall i :: 0 <= i < |p| - 1 ==> p[i + 1] in Deps(repo, p[i])
  }

  ghost predicate Reachable(repo: Repo, root: Name, n: Name) {
    exists p :: Path(repo, root, n, p)
  }

  /** Every fetch that a crawl from `root` can make succeeds. */
  ghost predicate Serves(repo: Repo, root: Name) {
    forall n :: Reachable(repo, root, n) ==> n in repo
  }

  // ------------------------------------------------------------------- steps

  function Init(root: Name, cell: nat): State {
    State(true, multiset{}, map[], map[], map[], 0, cell, [])
  }

  function LevelFor(s: State, r: Request): nat {
    if r.RootFetch? then 0 else s.currentDepth
  }

  function Push(tree: map<nat, seq<Name>>, level: nat, n: Name): map<nat, seq<Name>> {
    tree[level := (if level in tree then tree[level] else []) + [n]]
  }

  function Raise(queued: map<Name, nat>, keys: set<Name>, level: nat): map<Name, nat> {
    map k | k in queued.Keys + keys ::
      if k !in keys || (k in queued && queued[k] >= level) then queued[k] else level
  }

  /** The fetch `r` has been made and has not resolved yet. */
  predicate Ready(root: Name, s: State, r: Request) {
    match r
    case RootFetch(n) => s.rootInFlight && n == root
    case DepFetch(n) => n in s.inFlight
  }

  /** Package `n` is recorded at a level. */
  function Enter(s: State, n: Name, record: Record, level: nat): State {
    s.(records := s.records[n := record],
       tree := Push(s.tree, level, n),
       maxDepth := if level !in s.tree && s.maxDepth < level then level else s.maxDepth)
  }

  /** Every listed name that nobody listed before is fetched. */
  function Queue(s: State, alldeps: Dict, level: nat): State {
    var keys := KeySet(alldeps);
    s.(inFlight := s.inFlight + multiset(keys - s.queued.Keys),
       queued := Raise(s.queued, keys, level),
       currentDepth := if alldeps == [] then s.currentDepth else level)
  }

  /** The effect of processing package `n` at a level. */
  function Process(s: State, n: Name, record: Record, level: nat): State {
    Queue(Enter(s, n, record, level), record.alldeps, level + 1)
  }

  /** The fetch `r` has resolved and its visit is logged. */
  function Land(s: State, r: Request): State {
    s.(rootInFlight := s.rootInFlight && r.DepFetch?,
       inFlight := if r.DepFetch? then s.inFlight - multiset{r.name} else s.inFlight,
       log := s.log + [Visit(r, LevelFor(s, r))])
  }

  function Deliver(repo: Repo, s: State, r: Request): State {
    Process(Land(s, r), r.name, RecordAt(repo, r.name), LevelFor(s, r))
  }

  ghost predicate StepAt(repo: Repo, root: Name, states: seq<State>, sched: seq<Request>, i: nat)
    requires i < |sched| < |states|
  {
    Ready(root, states[i], sched[i]) && states[i + 1] == Deliver(repo, states[i], sched[i])
  }

  /** `states` is the execution of the schedule `sched`, from any leftover value
      of the shared cell: each step resolves some fetch in flight. */
  ghost predicate IsRun(repo: Repo, root: Name, states: seq<State>, sched: seq<Request>) {
    && |states| == |sched| + 1
    && states[0] == Init(root, states[0].currentDepth)
    && forall i: nat {:trigger StepAt(repo, root, states, sched, i)} ::
         i < |sched| ==> StepAt(repo, root, states, sched, i)
  }

  // -------------------------------------------------------------- invariants

  function Requests(log: seq<Visit>): (r: seq<Request>)
    ensures |r| == |log|
  {
    seq(|log|, i requires 0 <= i < |log| => log[i].req)
  }

  function Names(log: seq<Visit>): (r: seq<Name>)
    ensures |r| == |log|
  {
    seq(|log|, i requires 0 <= i < |log| => log[i].req.name)
  }

  function NamesAt(log: seq<Visit>, level: nat): seq<Name> {
    if log == [] then []
    else
      var v := log[|log| - 1];
      NamesAt(log[..|log| - 1], level) + if v.level == level then [v.req.name] else []
  }

  /** How many visits of the log list any dependency at all. */
  function Bearing(repo: Repo, log: seq<Visit>): nat {
    if log == [] then 0
    else Bearing(repo, log[..|log| - 1]) + if Deps(repo, log[|log| - 1].req.name) != [] then 1 else 0
  }

  ghost predicate Lists(repo: Repo, log: seq<Visit>, i: int, k: Name) {
    0 <= i < |log| && k in Deps(repo, log[i].req.name)
  }

  /** The names fetched as dependencies, in order. */
  function DepNames(log: seq<Visit>): seq<Name> {
    if log == [] then []
    else
      var r := log[|log| - 1].req;
      DepNames(log[..|log| - 1]) + if r.DepFetch? then [r.name] else []
  }

  /** One fetch for each queued name, either in flight or processed: no fetch is
      lost or repeated. */
  ghost predicate Conserved(s: State) {
    s.inFlight + multiset(DepNames(s.log)) == multiset(s.queued.Keys)
  }

  /** The root's own fetch comes first and only once. */
  ghost predicate RootFirst(root: Name, s: State) {
    && (s.rootInFlight <==> s.log == [])
    && (forall i :: 0 <= i < |s.log| ==> (s.log[i].req.RootFetch? <==> i == 0))
    && (s.log != [] ==> s.log[0].req.name == root)
  }

  /** `alreadyQueued` holds exactly the listed names, each with the greatest
      level + 1 over the visits that list it. */
  ghost predicate QueuedExact(repo: Repo, s: State) {
    && (forall i, k {:trigger Lists(repo, s.log, i, k)} :: Lists(repo, s.log, i, k) ==> k in s.queued && s.log[i].level + 1 <= s.queued[k])
    && (forall k :: k in s.queued ==>
          exists i {:trigger Lists(repo, s.log, i, k)} :: Lists(repo, s.log, i, k) && s.log[i].level + 1 == s.queued[k])
  }

  /** The level of a visit is the number of dependency-bearing visits before it. */
  ghost predicate AtLevel(repo: Repo, log: seq<Visit>, i: nat)
    requires i < |log|
  {
    log[i].level == Bearing(repo, log[..i])
  }

  ghost predicate Leveled(repo: Repo, s: State) {
    && (forall i: nat {:trigger AtLevel(repo, s.log, i)} :: i < |s.log| ==> AtLevel(repo, s.log, i))
    && (Bearing(repo, s.log) > 0 ==> s.currentDepth == Bearing(repo, s.log))
  }

  ghost predicate RecordsExact(repo: Repo, s: State) {
    && (forall n :: n in s.records <==> n in Names(s.log))
    && (forall n :: n in s.records ==> s.records[n] == RecordAt(repo, n))
  }

  ghost predicate TreeExact(s: State) {
    && (forall l :: l in s.tree <==> NamesAt(s.log, l) != [])
    && (forall l :: l in s.tree ==> s.tree[l] == NamesAt(s.log, l))
    && s.maxDepth == if s.log == [] then 0 else s.log[|s.log| - 1].level
  }

  ghost predicate Sound(repo: Repo, root: Name, s: State) {
    forall i :: 0 <= i < |s.log| ==> Reachable(repo, root, s.log[i].req.name)
  }

  ghost predicate Inv(repo: Repo, root: Name, s: State) {
    && Conserved(s)
    && RootFirst(root, s)
    && QueuedExact(repo, s)
    && Leveled(repo, s)
    && RecordsExact(repo, s)
    && TreeExact(s)
    && Sound(repo, root, s)
  }

  lemma InitInv(repo: Repo, root: Name, cell: nat)
    ensures Inv(repo, root, Init(root, cell))
  {
  }

  /** A fetch that can resolve: the root's is the very first, any other was
      listed by an earlier visit, so the shared cell has been set by then. */
  lemma ReadyOrigin(repo: Repo, root: Name, s: State, r: Request)
    requires Conserved(s) && RootFirst(root, s) && QueuedExact(repo, s)
    requires Ready(root, s, r)
    ensures r.RootFetch? ==> r.name == root && s.log == []
    ensures r.DepFetch? ==> r.name in s.queued && exists i :: Lists(repo, s.log, i, r.name)
  {
    if r.DepFetch? {
      assert r.name in multiset(s.queued.Keys);
    }
  }

  lemma ReachRoot(repo: Repo, root: Name)
    ensures Reachable(repo, root, root)
  {
    assert Path(repo, root, root, [root]);
  }

  lemma ReachStep(repo: Repo, root: Name, m: Name, n: Name)
    requires Reachable(repo, root, m) && n in Deps(repo, m)
    ensures Reachable(repo, root, n)
  {
    var p :| Path(repo, root, m, p);
    assert Path(repo, root, n, p + [n]);
  }

  lemma ReadyReachable(repo: Repo, root: Name, s: State, r: Request)
    requires Conserved(s) && RootFirst(root, s) && QueuedExact(repo, s) && Sound(repo, root, s)
    requires Ready(root, s, r)
    ensures Reachable(repo, root, r.name)
  {
    ReadyOrigin(repo, root, s, r);
    if r.RootFetch? {
      ReachRoot(repo, root);
    } else {
      var i :| Lists(repo, s.log, i, r.name);
      ReachStep(repo, root, s.log[i].req.name, r.name);
    }
  }

  lemma {:induction false} BearingMonotone(repo: Repo, log: seq<Visit>, i: nat)
    requires i <= |log|
    ensures Bearing(repo, log[..i]) <= Bearing(repo, log)
    decreases |log|
  {
    if i == |log| {
      assert log[..i] == log;
    } else {
      var front := log[..|log| - 1];
      assert front[..i] == log[..i];
      BearingMonotone(repo, front, i);
    }
  }

  /** A visit that lists something makes all later prefixes strictly more bearing. */
  lemma BearingStrict(repo: Repo, log: seq<Visit>, i: nat, j: nat)
    requires i < j <= |log| && Deps(repo, log[i].req.name) != []
    ensures Bearing(repo, log[..i]) < Bearing(repo, log[..j])
  {
    var p := log[..j];
    assert p[..i + 1][..i] == log[..i];
    BearingMonotone(repo, p, i + 1);
  }

  lemma MoveOne(waiting: multiset<Name>, done: multiset<Name>, all: multiset<Name>, n: Name, more: multiset<Name>)
    requires waiting + done == all && n in waiting
    ensures (waiting - multiset{n} + more) + (done + multiset{n}) == all + more
  {
  }

  lemma RaiseKeys(queued: map<Name, nat>, keys: set<Name>, level: nat)
    ensures Raise(queued, keys, level).Keys == queued.Keys + (keys - queued.Keys)
    ensures multiset(Raise(queued, keys, level).Keys) == multiset(queued.Keys) + multiset(keys - queued.Keys)
  {
    assert Raise(queued, keys, level).Keys == queued.Keys + (keys - queued.Keys);
  }

  lemma DepNamesSnoc(log: seq<Visit>, v: Visit)
    ensures DepNames(log + [v]) == DepNames(log) + if v.req.DepFetch? then [v.req.name] else []
  {
    assert (log + [v])[..|log|] == log;
  }

  lemma StepConserved(repo: Repo, root: Name, s: State, r: Request)
    requires Conserved(s) && Ready(root, s, r)
    ensures Conserved(Deliver(repo, s, r))
  {
    var added := DepSet(repo, r.name) - s.queued.Keys;
    DepNamesSnoc(s.log, Visit(r, LevelFor(s, r)));
    RaiseKeys(s.queued, DepSet(repo, r.name), LevelFor(s, r) + 1);
    if r.DepFetch? {
      MoveOne(s.inFlight, multiset(DepNames(s.log)), multiset(s.queued.Keys), r.name, multiset(added));
    }
  }

  lemma StepRootFirst(repo: Repo, root: Name, s: State, r: Request)
    requires RootFirst(root, s) && Ready(root, s, r) && (r.DepFetch? ==> s.log != [])
    ensures RootFirst(root, Deliver(repo, s, r))
  {
  }

  lemma StepQueued(repo: Repo, s: State, r: Request)
    requires QueuedExact(repo, s)
    ensures QueuedExact(repo, Deliver(repo, s, r))
  {
    var t := Deliver(repo, s, r);
    var n := |s.log|;
    forall i, k | Lists(repo, t.log, i, k) ensures k in t.queued && t.log[i].level + 1 <= t.queued[k] {
      if i < n { assert Lists(repo, s.log, i, k); }
    }
    forall k | k in t.queued ensures exists i :: Lists(repo, t.log, i, k) && t.log[i].level + 1 == t.queued[k] {
      if k in s.queued && t.queued[k] == s.queued[k] {
        var i :| Lists(repo, s.log, i, k) && s.log[i].level + 1 == s.queued[k];
        assert Lists(repo, t.log, i, k);
      } else {
        assert Lists(repo, t.log, n, k);
      }
    }
  }

  lemma BearingPositive(repo: Repo, log: seq<Visit>, i: nat, k: Name)
    requires Lists(repo, log, i, k)
    ensures Bearing(repo, log) > 0
  {
    BearingStrict(repo, log, i, |log|);
    assert log[..|log|] == log;
  }

  /** Whoever fires reads from the shared cell the number of bearing visits so far. */
  lemma CellIsCurrent(repo: Repo, root: Name, s: State, r: Request)
    requires Conserved(s) && RootFirst(root, s) && QueuedExact(repo, s) && Leveled(repo, s)
    requires Ready(root, s, r)
    ensures LevelFor(s, r) == Bearing(repo, s.log)
  {
    ReadyOrigin(repo, root, s, r);
    if r.DepFetch? {
      var i :| Lists(repo, s.log, i, r.name);
      BearingPositive(repo, s.log, i, r.name);
    }
  }

  lemma StepLeveled(repo: Repo, s: State, r: Request)
    requires Leveled(repo, s) && LevelFor(s, r) == Bearing(repo, s.log)
    ensures Leveled(repo, Deliver(repo, s, r))
  {
    var t := Deliver(repo, s, r);
    var n := |s.log|;
    assert t.log[..n] == s.log;
    forall i: nat | i < n + 1 ensures AtLevel(repo, t.log, i) {
      assert t.log[..i] == s.log[..i];
      if i < n { assert AtLevel(repo, s.log, i); }
    }
    var deps := Deps(repo, r.name);
    var keys := DepSet(repo, r.name);
    if deps != [] { assert deps[0] in keys; } else { assert keys == {}; }
  }

  lemma StepRecords(repo: Repo, s: State, r: Request)
    requires RecordsExact(repo, s)
    ensures RecordsExact(repo, Deliver(repo, s, r))
  {
    assert Names(Deliver(repo, s, r).log) == Names(s.log) + [r.name];
  }

  lemma {:induction false} NamesAtPresent(log: seq<Visit>, i: nat)
    requires i < |log|
    ensures log[i].req.name in NamesAt(log, log[i].level)
  {
    if i >= |log| - 1 {
    } else {
      NamesAtPresent(log[..|log| - 1], i);
    }
  }

  lemma {:induction false} NamesAtAbsent(log: seq<Visit>, level: nat)
    requires forall i :: 0 <= i < |log| ==> log[i].level != level
    ensures NamesAt(log, level) == []
  {
    if log == [] {
    } else {
      NamesAtAbsent(log[..|log| - 1], level);
    }
  }

  lemma LevelsAscend(repo: Repo, s: State, i: nat, j: nat)
    requires Leveled(repo, s) && i <= j < |s.log|
    ensures s.log[i].level <= s.log[j].level
  {
    assert AtLevel(repo, s.log, i) && AtLevel(repo, s.log, j);
    assert s.log[..j][..i] == s.log[..i];
    BearingMonotone(repo, s.log[..j], i);
  }

  lemma NamesAtSnoc(log: seq<Visit>, v: Visit, level: nat)
    ensures NamesAt(log + [v], level) == NamesAt(log, level) + if v.level == level then [v.req.name] else []
  {
    assert (log + [v])[..|log|] == log;
  }

  /** A level that exists is the last one or was left for good. */
  lemma LevelPresent(repo: Repo, s: State, level: nat)
    requires Leveled(repo, s) && TreeExact(s)
    requires forall i :: 0 <= i < |s.log| ==> s.log[i].level <= level
    ensures s.log != [] && s.maxDepth == level ==> level in s.tree
    ensures s.log != [] && s.maxDepth != level ==> level !in s.tree && s.maxDepth < level
    ensures s.log == [] ==> level !in s.tree
  {
    var n := |s.log|;
    if n > 0 {
      if s.maxDepth == level {
        NamesAtPresent(s.log, n - 1);
      } else {
        forall i | 0 <= i < n ensures s.log[i].level != level {
          LevelsAscend(repo, s, i, n - 1);
        }
        NamesAtAbsent(s.log, level);
      }
    }
  }

  lemma StepTree(repo: Repo, s: State, r: Request)
    requires Leveled(repo, s) && TreeExact(s)
    requires Leveled(repo, Deliver(repo, s, r))
    requires s.log == [] ==> LevelFor(s, r) == 0
    ensures TreeExact(Deliver(repo, s, r))
  {
    var t := Deliver(repo, s, r);
    var n := |s.log|;
    var level := LevelFor(s, r);
    forall i | 0 <= i < n ensures s.log[i].level <= level {
      LevelsAscend(repo, t, i, n);
      assert t.log[i] == s.log[i];
    }
    LevelPresent(repo, s, level);
    forall l: nat ensures NamesAt(t.log, l) == NamesAt(s.log, l) + if level == l then [r.name] else [] {
      NamesAtSnoc(s.log, Visit(r, level), l);
    }
  }

  lemma StepSound(repo: Repo, root: Name, s: State, r: Request)
    requires Sound(repo, root, s) && Reachable(repo, root, r.name)
    ensures Sound(repo, root, Deliver(repo, s, r))
  {
  }

  lemma StepInv(repo: Repo, root: Name, s: State, r: Request)
    requires Inv(repo, root, s) && Ready(root, s, r)
    ensures Inv(repo, root, Deliver(repo, s, r))
  {
    StepConserved(repo, root, s, r);
    StepQueued(repo, s, r);
    CellIsCurrent(repo, root, s, r);
    StepLeveled(repo, s, r);
    StepRecords(repo, s, r);
    ReadyOrigin(repo, root, s, r);
    StepTree(repo, s, r);
    ReadyReachable(repo, root, s, r);
    StepSound(repo, root, s, r);
    StepRootFirst(repo, root, s, r);
  }

  lemma RunStep(repo: Repo, root: Name, states: seq<State>, sched: seq<Request>, m: nat)
    requires IsRun(repo, root, states, sched) && m < |sched|
    requires Inv(repo, root, states[m])
    ensures Inv(repo, root, states[m + 1])
  {
    assert StepAt(repo, root, states, sched, m);
    StepInv(repo, root, states[m], sched[m]);
  }

  /** The invariant holds in every state of every run. */
  lemma {:induction false} RunInv(repo: Repo, root: Name, states: seq<State>, sched: seq<Request>, n: nat)
    requires IsRun(repo, root, states, sched) && n <= |sched|
    ensures Inv(repo, root, states[n])
    decreases n
  {
    if n == 0 {
      InitInv(repo, root, states[0].currentDepth);
    } else {
      var m: nat := n - 1;
      RunInv(repo, root, states, sched, m);
      RunStep(repo, root, states, sched, m);
    }
  }

  lemma RunStepLog(repo: Repo, root: Name, states: seq<State>, sched: seq<Request>, m: nat)
    requires IsRun(repo, root, states, sched) && m < |sched|
    ensures Requests(states[m + 1].log) == Requests(states[m].log) + [sched[m]]
  {
    assert StepAt(repo, root, states, sched, m);
  }

  /** The log of a run is the schedule so far. */
  lemma {:induction false} RunLog(repo: Repo, root: Name, states: seq<State>, sched: seq<Request>, n: nat)
    requires IsRun(repo, root, states, sched) && n <= |sched|
    ensures Requests(states[n].log) == sched[..n]
    decreases n
  {
    if n == 0 {
    } else {
      var m: nat := n - 1;
      RunLog(repo, root, states, sched, m);
      RunStepLog(repo, root, states, sched, m);
    }
  }
}
