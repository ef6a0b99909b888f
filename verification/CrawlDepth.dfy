/** For which package graphs a crawl always records what a package lists deeper than
    the package itself. */
module CrawlDepth {
  import opened Packages
  import opened Sequences
  import opened CrawlModel
  import opened CrawlTheorems

  /** No package is listed twice over: nothing reachable lists the target, and no name
      is listed by two reachable packages. */
  ghost predicate ListedOnce(repo: Repo, root: Name) {
    && !Wanted(repo, root, root)
    && forall m, n, k :: TwoListers(repo, root, m, n, k) ==> m == n
  }

  ghost predicate TwoListers(repo: Repo, root: Name, m: Name, n: Name, k: Name) {
    && Reachable(repo, root, m) && Reachable(repo, root, n)
    && k in Deps(repo, m) && k in Deps(repo, n)
  }

  /** Every visit lies strictly above every visit of a package it lists. */
  ghost predicate Deeper(repo: Repo, log: seq<Visit>) {
    forall i, j :: DeeperAt(repo, log, i, j)
  }

  ghost predicate DeeperAt(repo: Repo, log: seq<Visit>, i: int, j: int) {
    0 <= j < |log| && Lists(repo, log, i, log[j].req.name) ==> log[i].level < log[j].level
  }

  ghost predicate IsCrawl(repo: Repo, root: Name, states: seq<State>, sched: seq<Request>) {
    IsRun(repo, root, states, sched) && Quiescent(states[|sched|])
  }

  ghost predicate AlwaysDeeper(repo: Repo, root: Name) {
    forall states: seq<State>, sched: seq<Request> :: IsCrawl(repo, root, states, sched) ==> Deeper(repo, states[|sched|].log)
  }

  // -------------------------------------------------------- every run can be finished

  /** `states'` goes on from where `states` stops. */
  ghost predicate Extends(states: seq<State>, states': seq<State>) {
    |states| <= |states'| && states'[..|states|] == states
  }

  lemma SomeReady(repo: Repo, root: Name, s: State) returns (r: Request)
    requires !Quiescent(s)
    ensures Ready(root, s, r)
  {
    if s.rootInFlight {
      r := RootFetch(root);
    } else {
      var n :| n in s.inFlight;
      r := DepFetch(n);
    }
  }

  lemma OneMore(repo: Repo, root: Name, states: seq<State>, sched: seq<Request>, r: Request)
    returns (states': seq<State>, sched': seq<Request>)
    requires IsRun(repo, root, states, sched) && Ready(root, states[|sched|], r)
    ensures IsRun(repo, root, states', sched') && sched' == sched + [r] && Extends(states, states')
    ensures states'[|sched'|].log == states[|sched|].log + [Visit(r, LevelFor(states[|sched|], r))]
  {
    ExtendRun(repo, root, states, sched, r);
    states', sched' := states + [Deliver(repo, states[|sched|], r)], sched + [r];
  }

  lemma ExtendsFurther(a: seq<State>, b: seq<State>, c: seq<State>)
    requires Extends(a, b) && Extends(b, c)
    ensures Extends(a, c)
  {
    assert c[..|a|] == c[..|b|][..|a|];
  }

  lemma {:induction false} FinishRun(repo: Repo, root: Name, states: seq<State>, sched: seq<Request>)
    returns (states': seq<State>, sched': seq<Request>)
    requires Serves(repo, root) && IsRun(repo, root, states, sched)
    ensures IsCrawl(repo, root, states', sched') && Extends(states, states')
    decreases 1 + |WantedSet(repo, root)| - |sched|
  {
    EveryScheduleEnds(repo, root, states, sched);
    if Quiescent(states[|sched|]) {
      states', sched' := states, sched;
    } else {
      var r := SomeReady(repo, root, states[|sched|]);
      var more, order := OneMore(repo, root, states, sched, r);
      states', sched' := FinishRun(repo, root, more, order);
      ExtendsFurther(states, more, states');
    }
  }

  lemma SomeCrawl(repo: Repo, root: Name) returns (states: seq<State>, sched: seq<Request>)
    requires Serves(repo, root)
    ensures IsCrawl(repo, root, states, sched)
  {
    states, sched := FinishRun(repo, root, [Init(root, 0)], []);
  }

  /** The log of a state is kept by all later ones. */
  lemma LogKept(repo: Repo, root: Name, states: seq<State>, sched: seq<Request>, n: nat, m: nat)
    requires IsRun(repo, root, states, sched) && n <= m <= |sched|
    ensures |states[n].log| == n && |states[m].log| == m
    ensures states[n].log == states[m].log[..n]
    decreases m
  {
    RunLog(repo, root, states, sched, m);
    assert |Requests(states[m].log)| == m;
    if n >= m {
    } else {
      LogKept(repo, root, states, sched, n, m - 1);
      assert StepAt(repo, root, states, sched, m - 1);
    }
  }

  // ---------------------------------------------------------------- listed once: deeper

  lemma ListedOnceDeeper(repo: Repo, root: Name, states: seq<State>, sched: seq<Request>, i: nat, j: nat)
    requires Serves(repo, root) && IsCrawl(repo, root, states, sched) && ListedOnce(repo, root)
    requires j < |states[|sched|].log| && Lists(repo, states[|sched|].log, i, states[|sched|].log[j].req.name)
    ensures states[|sched|].log[i].level < states[|sched|].log[j].level
  {
    var log := states[|sched|].log;
    var k, m := log[j].req.name, log[i].req.name;
    RunInv(repo, root, states, sched, |sched|);
    RunLog(repo, root, states, sched, |sched|);
    assert Reachable(repo, root, m) && Wanted(repo, root, k);
    assert Requests(log)[j] == sched[j];
    DeeperThanQueuer(repo, root, states, sched, j);
    var h: nat :| QueuedBy(repo, log, h, j);
    var n := log[h].req.name;
    assert TwoListers(repo, root, m, n, k);
    FetchedOnce(repo, root, states, sched, m);
    assert Names(log)[i] == Names(log)[h] == m;
    OnlyPlace(Names(log), i, h);
  }

  // --------------------------------------------------------- listed twice: not always

  /** A target that is listed lies at level 0, above whoever lists it. */
  lemma WantedRootNotDeeper(repo: Repo, root: Name, states: seq<State>, sched: seq<Request>)
    requires Serves(repo, root) && IsCrawl(repo, root, states, sched) && Wanted(repo, root, root)
    ensures !Deeper(repo, states[|sched|].log)
  {
    var s := states[|sched|];
    RunInv(repo, root, states, sched, |sched|);
    var m :| Reachable(repo, root, m) && root in Deps(repo, m);
    VisitedExact(repo, root, s, m);
    var i :| 0 <= i < |s.log| && Names(s.log)[i] == m;
    assert AtLevel(repo, s.log, 0);
    assert !DeeperAt(repo, s.log, i, 0);
  }

  /** Visit `i` is the first that lists `k`. */
  ghost predicate FirstToList(repo: Repo, log: seq<Visit>, i: nat, k: Name) {
    && Lists(repo, log, i, k)
    && forall g {:trigger Lists(repo, log, g, k)} :: g < i ==> !Lists(repo, log, g, k)
  }

  /** The first visit to list `k`, and a package that lists it but comes later. */
  lemma FirstAndLater(repo: Repo, root: Name, s: State, m: Name, n: Name, k: Name) returns (i: nat, b: Name)
    requires Inv(repo, root, s) && Quiescent(s) && TwoListers(repo, root, m, n, k) && m != n
    ensures FirstToList(repo, s.log, i, k)
    ensures Reachable(repo, root, b) && k in Deps(repo, b) && b != s.log[i].req.name
  {
    VisitedExact(repo, root, s, m);
    var h :| 0 <= h < |s.log| && Names(s.log)[h] == m;
    assert Lists(repo, s.log, h, k);
    i := FirstLister(repo, s.log, h, k);
    b := if s.log[i].req.name == m then n else m;
  }

  /** Whatever was fetched as a dependency was listed before. */
  lemma EarlierLister(repo: Repo, root: Name, states: seq<State>, sched: seq<Request>, k: Name) returns (h: nat)
    requires IsRun(repo, root, states, sched) && k in DepNames(states[|sched|].log)
    ensures h + 1 < |states[|sched|].log| && Lists(repo, states[|sched|].log, h, k)
  {
    var log := states[|sched|].log;
    LogKept(repo, root, states, sched, |sched|, |sched|);
    RunLog(repo, root, states, sched, |sched|);
    DepNamesVisits(log, k);
    var j :| 0 <= j < |log| && log[j].req == DepFetch(k);
    assert Requests(log)[j] == sched[j];
    DeeperThanQueuer(repo, root, states, sched, j);
    h :| QueuedBy(repo, log, h, j);
  }

  /** Right after the first visit that lists it, `k` is in flight. */
  lemma InFlightAfterFirst(repo: Repo, root: Name, states: seq<State>, sched: seq<Request>, i: nat, k: Name)
    requires IsRun(repo, root, states, sched) && |states[|sched|].log| == i + 1
    requires FirstToList(repo, states[|sched|].log, i, k)
    ensures k in states[|sched|].inFlight
  {
    var s := states[|sched|];
    RunInv(repo, root, states, sched, |sched|);
    if k in DepNames(s.log) {
      var h := EarlierLister(repo, root, states, sched, k);
    }
    assert Lists(repo, s.log, i, k);
    assert k in multiset(s.queued.Keys);
  }

  lemma PrefixRun(repo: Repo, root: Name, states: seq<State>, sched: seq<Request>, n: nat)
    requires IsRun(repo, root, states, sched) && n <= |sched|
    ensures IsRun(repo, root, states[..n + 1], sched[..n])
  {
    var states', sched' := states[..n + 1], sched[..n];
    forall i: nat | i < n ensures StepAt(repo, root, states', sched', i) {
      assert StepAt(repo, root, states, sched, i);
    }
  }

  /** A crawl cut right after the first visit that lists `k`. */
  lemma CutRun(repo: Repo, root: Name, states: seq<State>, sched: seq<Request>, i: nat, k: Name)
    returns (cut: seq<State>, order: seq<Request>)
    requires IsRun(repo, root, states, sched) && FirstToList(repo, states[|sched|].log, i, k)
    ensures IsRun(repo, root, cut, order) && Ready(root, cut[|order|], DepFetch(k))
    ensures |cut[|order|].log| == i + 1 && cut[|order|].log[i] == states[|sched|].log[i]
    ensures FirstToList(repo, cut[|order|].log, i, k)
  {
    LogKept(repo, root, states, sched, |sched|, |sched|);
    LogKept(repo, root, states, sched, i + 1, |sched|);
    PrefixRun(repo, root, states, sched, i + 1);
    cut, order := states[..i + 2], sched[..i + 1];
    FirstKept(repo, states[|sched|].log, i, k);
    InFlightAfterFirst(repo, root, cut, order, i, k);
  }

  lemma FirstKept(repo: Repo, log: seq<Visit>, i: nat, k: Name)
    requires FirstToList(repo, log, i, k)
    ensures FirstToList(repo, log[..i + 1], i, k)
  {
    var cut := log[..i + 1];
    assert Lists(repo, cut, i, k);
    forall g | g < i ensures !Lists(repo, cut, g, k) {
      assert !Lists(repo, log, g, k);
    }
  }

  /** A later lister of what was visited right after its first lister does not lie
      above it. */
  lemma LaterListerNotAbove(repo: Repo, root: Name, s: State, i: nat, k: Name, b: Name)
    requires Inv(repo, root, s) && Quiescent(s) && i + 1 < |s.log|
    requires FirstToList(repo, s.log[..i + 1], i, k) && s.log[i + 1].req.name == k
    requires Reachable(repo, root, b) && k in Deps(repo, b) && b != s.log[i].req.name
    ensures !Deeper(repo, s.log)
  {
    VisitedExact(repo, root, s, b);
    var h :| 0 <= h < |s.log| && Names(s.log)[h] == b;
    assert Lists(repo, s.log, h, k);
    if h < i {
      assert Lists(repo, s.log[..i + 1], h, k);
    }
    LevelsAscend(repo, s, i + 1, h);
    assert !DeeperAt(repo, s.log, h, i + 1);
  }

  /** A crawl in which what two packages list is delivered as early as it can be. */
  lemma TwoListersNotDeeper(repo: Repo, root: Name, m: Name, n: Name, k: Name)
    returns (states: seq<State>, sched: seq<Request>)
    requires Serves(repo, root) && TwoListers(repo, root, m, n, k) && m != n
    ensures IsCrawl(repo, root, states, sched) && !Deeper(repo, states[|sched|].log)
  {
    var was, order := SomeCrawl(repo, root);
    RunInv(repo, root, was, order, |order|);
    var i, b := FirstAndLater(repo, root, was[|order|], m, n, k);
    var cut, order' := CutRun(repo, root, was, order, i, k);
    states, sched := DeliverNext(repo, root, cut, order', i, k);
    RunInv(repo, root, states, sched, |sched|);
    LaterListerNotAbove(repo, root, states[|sched|], i, k, b);
  }

  lemma DeliverNext(repo: Repo, root: Name, cut: seq<State>, order: seq<Request>, i: nat, k: Name)
    returns (states: seq<State>, sched: seq<Request>)
    requires Serves(repo, root) && IsRun(repo, root, cut, order) && Ready(root, cut[|order|], DepFetch(k))
    requires |cut[|order|].log| == i + 1
    ensures IsCrawl(repo, root, states, sched)
    ensures var log := states[|sched|].log;
      i + 1 < |log| && log[..i + 1] == cut[|order|].log && log[i + 1].req.name == k
  {
    var next, order' := OneMore(repo, root, cut, order, DepFetch(k));
    states, sched := FinishRun(repo, root, next, order');
    LogKept(repo, root, next, order', |order'|, |order'|);
    assert states[|order'|] == states[..|next|][|order'|] == next[|order'|];
    LogKept(repo, root, states, sched, |order'|, |sched|);
    var log := states[|sched|].log;
    assert log[..i + 2] == next[|order'|].log;
    assert log[..i + 1] == log[..i + 2][..i + 1] && log[i + 1] == log[..i + 2][i + 1];
  }

  /** Every crawl records each listed package strictly deeper than every package that
      lists it exactly when no package is listed twice over. */
  lemma AlwaysDeeperExactly(repo: Repo, root: Name)
    requires Serves(repo, root)
    ensures AlwaysDeeper(repo, root) <==> ListedOnce(repo, root)
  {
    if ListedOnce(repo, root) {
      forall states: seq<State>, sched: seq<Request> | IsCrawl(repo, root, states, sched) ensures Deeper(repo, states[|sched|].log) {
        var log := states[|sched|].log;
        forall i, j | 0 <= j < |log| && Lists(repo, log, i, log[j].req.name) ensures DeeperAt(repo, log, i, j) {
          ListedOnceDeeper(repo, root, states, sched, i, j);
        }
      }
    } else if Wanted(repo, root, root) {
      var states, sched := SomeCrawl(repo, root);
      WantedRootNotDeeper(repo, root, states, sched);
    } else {
      var m, n, k :| TwoListers(repo, root, m, n, k) && m != n;
      var states, sched := TwoListersNotDeeper(repo, root, m, n, k);
    }
  }
}
