/** The order in which a recorded tree is consumed: levels from the deepest to 0,
    each level popped from its end. */
module BuildOrder {
  import opened Options
  import opened Sequences
  import opened Packages
  import opened CrawlModel
  import opened CrawlTheorems

  /** The names met before the walk ends, and the level whose absence ended it, if any. */
  datatype Walk = Walk(names: seq<Name>, missing: Option<nat>)

  /** The loop `while (name = names.pop())`: it ends at the first empty name, and
      the package `serve` is passed over. */
  function PopLevel(names: seq<Name>): seq<Name> {
    if names == [] then []
    else
      var name, rest := names[|names| - 1], names[..|names| - 1];
      if name == "" then []
      else if name == "serve" then PopLevel(rest)
      else [name] + PopLevel(rest)
  }

  /** The walk over the levels below `levels`, deepest first. */
  function WalkDown(tree: map<nat, seq<Name>>, levels: nat): Walk {
    if levels == 0 then Walk([], None)
    else if levels - 1 !in tree then Walk([], Some(levels - 1))
    else
      var rest := WalkDown(tree, levels - 1);
      Walk(PopLevel(tree[levels - 1]) + rest.names, rest.missing)
  }

  function WalkTree(tree: map<nat, seq<Name>>, maxDepth: nat): Walk {
    WalkDown(tree, maxDepth + 1)
  }

  /** All names but `serve`. */
  function Kept(names: seq<Name>): seq<Name> {
    if names == [] then []
    else (if names[0] == "serve" then [] else [names[0]]) + Kept(names[1..])
  }

  lemma {:induction false} KeptAppend(a: seq<Name>, b: seq<Name>)
    ensures Kept(a + b) == Kept(a) + Kept(b)
    decreases |a|
  {
    if a == [] {
      assert a + b == b;
    } else {
      KeptAppend(a[1..], b);
      assert (a + b)[1..] == a[1..] + b;
    }
  }

  lemma {:induction false} KeptExact(names: seq<Name>, n: Name)
    ensures multiset(Kept(names))[n] == if n == "serve" then 0 else multiset(names)[n]
    decreases |names|
  {
    if names == [] {
    } else {
      KeptExact(names[1..], n);
      assert names == [names[0]] + names[1..];
    }
  }

  /** `walked` is `full` backwards without `serve`, or is cut short by an empty name. */
  ghost predicate BackwardsOrCut(walked: seq<Name>, full: seq<Name>) {
    if "" in full then |walked| < |Kept(Reverse(full))| else walked == Kept(Reverse(full))
  }

  lemma BackwardsOrCutAppend(wa: seq<Name>, a: seq<Name>, wb: seq<Name>, b: seq<Name>)
    requires BackwardsOrCut(wa, a) && BackwardsOrCut(wb, b)
    ensures BackwardsOrCut(wb + wa, a + b)
  {
    ReverseAppend(a, b);
    KeptAppend(Reverse(b), Reverse(a));
  }

  /** One level gives all its names, last to first, unless an empty name cuts it short. */
  lemma {:induction false} PopLevelAll(names: seq<Name>)
    ensures BackwardsOrCut(PopLevel(names), names)
  {
    if names == [] {
    } else {
      var name, rest := names[|names| - 1], names[..|names| - 1];
      PopLevelAll(rest);
      assert names == rest + [name];
      assert Reverse(names)[1..] == Reverse(rest);
    }
  }

  // ------------------------------------------------------- after a crawl

  /** The names of all levels below `levels`, shallowest first. */
  function Flat(log: seq<Visit>, levels: nat): seq<Name> {
    if levels == 0 then [] else Flat(log, levels - 1) + NamesAt(log, levels - 1)
  }

  lemma {:induction false} FlatSnoc(log: seq<Visit>, v: Visit, levels: nat)
    requires forall i :: 0 <= i < |log| ==> log[i].level <= v.level
    ensures levels <= v.level ==> Flat(log + [v], levels) == Flat(log, levels)
    ensures levels > v.level ==> Flat(log + [v], levels) == Flat(log, levels) + [v.req.name]
  {
    if levels == 0 {
    } else {
      var m: nat := levels - 1;
      FlatSnoc(log, v, m);
      NamesAtSnoc(log, v, m);
      if m > v.level {
        NamesAtAbsent(log, m);
        assert NamesAt(log + [v], m) == [];
      }
    }
  }

  lemma {:induction false} FlatEmpty(levels: nat)
    ensures Flat([], levels) == []
  {
    if levels == 0 {
    } else {
      FlatEmpty(levels - 1);
    }
  }

  /** When levels never decrease, reading the tree level by level gives back the
      processing order. */
  lemma {:induction false} FlatIsLog(log: seq<Visit>, levels: nat)
    requires forall i, j :: 0 <= i <= j < |log| ==> log[i].level <= log[j].level
    requires forall i :: 0 <= i < |log| ==> log[i].level < levels
    ensures Flat(log, levels) == Names(log)
    decreases |log|
  {
    if log == [] {
      FlatEmpty(levels);
    } else {
      var front, v := log[..|log| - 1], log[|log| - 1];
      FlatIsLog(front, levels);
      FlatSnoc(front, v, levels);
      assert log == front + [v];
    }
  }

  lemma {:induction false} WalkFlat(tree: map<nat, seq<Name>>, log: seq<Visit>, levels: nat)
    requires forall l: nat :: l < levels ==> l in tree && tree[l] == NamesAt(log, l)
    ensures WalkDown(tree, levels).missing == None
    ensures BackwardsOrCut(WalkDown(tree, levels).names, Flat(log, levels))
  {
    if levels == 0 {
    } else {
      var m: nat := levels - 1;
      WalkFlat(tree, log, m);
      PopLevelAll(tree[m]);
      BackwardsOrCutAppend(WalkDown(tree, m).names, Flat(log, m), PopLevel(tree[m]), tree[m]);
    }
  }

  /** After a crawl no level is missing, and the build order is the processing
      order backwards, without `serve`, exactly when no package has an empty name. */
  lemma BuildOrderIsReverse(repo: Repo, root: Name, s: State)
    requires Inv(repo, root, s) && s.log != []
    ensures WalkTree(s.tree, s.maxDepth).missing == None
    ensures WalkTree(s.tree, s.maxDepth).names == Kept(Reverse(Names(s.log))) <==> "" !in Names(s.log)
  {
    LevelsContiguous(repo, root, s);
    forall i, j | 0 <= i <= j < |s.log| ensures s.log[i].level <= s.log[j].level {
      LevelsAscend(repo, s, i, j);
    }
    WalkLog(s.tree, s.log, s.maxDepth);
  }

  lemma WalkLog(tree: map<nat, seq<Name>>, log: seq<Visit>, maxDepth: nat)
    requires forall l: nat :: l <= maxDepth ==> l in tree && tree[l] == NamesAt(log, l)
    requires forall i, j :: 0 <= i <= j < |log| ==> log[i].level <= log[j].level
    requires forall i :: 0 <= i < |log| ==> log[i].level <= maxDepth
    ensures WalkTree(tree, maxDepth).missing == None
    ensures WalkTree(tree, maxDepth).names == Kept(Reverse(Names(log))) <==> "" !in Names(log)
  {
    FlatIsLog(log, maxDepth + 1);
    WalkFlat(tree, log, maxDepth + 1);
  }

  /** The finished tree is walked over every reachable package but `serve`: once
      each, and twice for a target that some reachable package lists. */
  lemma BuildOrderCounts(repo: Repo, root: Name, states: seq<State>, sched: seq<Request>, n: Name)
    requires Serves(repo, root) && IsRun(repo, root, states, sched)
    requires Quiescent(states[|sched|]) && !Reachable(repo, root, "")
    ensures var w := WalkTree(states[|sched|].tree, states[|sched|].maxDepth);
      && w.missing == None
      && multiset(w.names)[n] ==
           if n == "serve" || !Reachable(repo, root, n) then 0
           else if n == root && Wanted(repo, root, n) then 2 else 1
  {
    var s := states[|sched|];
    RunInv(repo, root, states, sched, |sched|);
    FetchedOnce(repo, root, states, sched, n);
    VisitedExact(repo, root, s, "");
    BuildOrderIsReverse(repo, root, s);
    KeptExact(Reverse(Names(s.log)), n);
    ReverseSame(Names(s.log));
  }

  /** Everything on the levels below `levels` of a tree. */
  function Entries(tree: map<nat, seq<Name>>, levels: nat): seq<Name> {
    if levels == 0 then []
    else Entries(tree, levels - 1) + (if levels - 1 in tree then tree[levels - 1] else [])
  }

  lemma {:induction false} EntriesFlat(tree: map<nat, seq<Name>>, log: seq<Visit>, levels: nat)
    requires forall l: nat :: l < levels ==> l in tree && tree[l] == NamesAt(log, l)
    ensures Entries(tree, levels) == Flat(log, levels)
  {
    if levels == 0 {
    } else {
      var m: nat := levels - 1;
      EntriesFlat(tree, log, m);
    }
  }

  /** The finished tree holds each reachable package once and a listed target twice:
      as many entries as there were fetches, and in the order of processing. */
  lemma TreeCounts(repo: Repo, root: Name, states: seq<State>, sched: seq<Request>, n: Name)
    requires Serves(repo, root) && IsRun(repo, root, states, sched)
    requires Quiescent(states[|sched|])
    ensures var entries := Entries(states[|sched|].tree, states[|sched|].maxDepth + 1);
      && entries == Names(states[|sched|].log)
      && |entries| == 1 + |WantedSet(repo, root)|
      && multiset(entries)[n] ==
           if !Reachable(repo, root, n) then 0 else if n == root && Wanted(repo, root, n) then 2 else 1
  {
    var s := states[|sched|];
    RunInv(repo, root, states, sched, |sched|);
    FetchedOnce(repo, root, states, sched, n);
    StepBound(repo, root, s);
    LevelsContiguous(repo, root, s);
    forall i, j | 0 <= i <= j < |s.log| ensures s.log[i].level <= s.log[j].level {
      LevelsAscend(repo, s, i, j);
    }
    EntriesFlat(s.tree, s.log, s.maxDepth + 1);
    FlatIsLog(s.log, s.maxDepth + 1);
  }
}
