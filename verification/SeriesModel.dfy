/** A time series that forgets points which have left the chart and keeps running
    bounds of its values, as a function of the events it sees. */
module SeriesModel {
  import opened Options

  datatype Point = Point(t: real, v: real)

  /** The smallest and largest value; None is NaN. */
  datatype Bounds = Bounds(lo: Option<real>, hi: Option<real>)

  datatype Series = Series(data: seq<Point>, bounds: Bounds)

  datatype Event = Append(p: Point) | Reset | Render(cutoff: real)

  function Max(a: real, b: real): real { if a >= b then a else b }
  function Min(a: real, b: real): real { if a <= b then a else b }

  const NO_BOUNDS := Bounds(None, None)

  function Widen(b: Bounds, v: real): Bounds {
    Bounds(
      if b.lo.Some? then Some(Min(b.lo.value, v)) else Some(v),
      if b.hi.Some? then Some(Max(b.hi.value, v)) else Some(v))
  }

  /** The bounds of a run of points taken one by one. */
  function BoundsOf(h: seq<Point>): Bounds {
    if h == [] then NO_BOUNDS else Widen(BoundsOf(h[..|h| - 1]), h[|h| - 1].v)
  }

  /** Deletes from the front while the second point lies before the cutoff. */
  function Prune(h: seq<Point>, c: real): (r: seq<Point>)
    ensures |r| <= |h|
  {
    if |h| >= 2 && h[1].t < c then Prune(h[1..], c) else h
  }

  function Apply(s: Series, e: Event): Series {
    match e
    case Append(p) => Series(s.data + [p], Widen(s.bounds, p.v))
    case Reset => Series(s.data, BoundsOf(s.data))
    case Render(c) => Series(Prune(s.data, c), s.bounds)
  }

  function Run(es: seq<Event>): Series {
    if es == [] then Series([], NO_BOUNDS) else Apply(Run(es[..|es| - 1]), es[|es| - 1])
  }

  /** Every point ever appended. */
  function History(es: seq<Event>): seq<Point> {
    if es == [] then []
    else
      var h, e := History(es[..|es| - 1]), es[|es| - 1];
      if e.Append? then h + [e.p] else h
  }

  /** How many points have been deleted. */
  function Dropped(es: seq<Event>): int { |History(es)| - |Run(es).data| }

  /** How many points had been deleted when the bounds were last reset. */
  function Base(es: seq<Event>): int {
    if es == [] then 0
    else if es[|es| - 1].Reset? then Dropped(es)
    else Base(es[..|es| - 1])
  }

  ghost predicate CutoffsUpTo(es: seq<Event>, c: real) {
    forall i :: 0 <= i < |es| && es[i].Render? ==> es[i].cutoff <= c
  }

  ghost predicate CutoffsAscend(es: seq<Event>) {
    forall i, j :: 0 <= i < j < |es| && es[i].Render? && es[j].Render? ==> es[i].cutoff <= es[j].cutoff
  }

  // ------------------------------------------------------------------ pruning

  /** What one pruning keeps: of the points before the cutoff only the last of the
      leading ones, or the first point of all. */
  lemma {:induction false} PruneMeaning(h: seq<Point>, c: real) returns (k: nat)
    ensures k == |h| - |Prune(h, c)|
    ensures Prune(h, c) == h[k..]
    ensures forall i :: 1 <= i <= k ==> i < |h| && h[i].t < c
    ensures k + 1 < |h| ==> h[k + 1].t >= c
    ensures h != [] ==> k < |h|
  {
    if |h| >= 2 && h[1].t < c {
      var m := PruneMeaning(h[1..], c);
      k := m + 1;
      forall i | 1 <= i <= k ensures i < |h| && h[i].t < c {
        if i > 1 {
          assert h[1..][i - 1] == h[i];
        }
      }
    } else {
      k := 0;
    }
  }

  /** Points all of which are to go may be deleted in any number of rounds. */
  lemma {:induction false} PruneSkips(h: seq<Point>, k: nat, c: real)
    requires h == [] ==> k == 0
    requires h != [] ==> k < |h|
    requires forall i :: 1 <= i <= k ==> h[i].t < c
    ensures Prune(h[k..], c) == Prune(h, c)
  {
    if k == 0 {
    } else {
      var m: nat := k - 1;
      assert h[1..][m..] == h[k..];
      PruneSkips(h[1..], m, c);
    }
  }

  /** Pruning early and again later, with points arriving between, comes to one
      pruning of everything at the later cutoff. */
  lemma PruneAgain(h: seq<Point>, more: seq<Point>, c: real, d: real)
    requires c <= d
    ensures Prune(Prune(h, c) + more, d) == Prune(h + more, d)
  {
    var k := PruneMeaning(h, c);
    var all := h + more;
    if h != [] {
      assert all[k..] == h[k..] + more;
      assert forall i :: 1 <= i <= k ==> all[i] == h[i];
      PruneSkips(all, k, d);
    }
  }

  /** A series always holds a suffix of its history, and is empty only when nothing
      was ever appended. */
  lemma {:induction false} Suffix(es: seq<Event>)
    ensures 0 <= Dropped(es) <= |History(es)|
    ensures Run(es).data == History(es)[Dropped(es)..]
    ensures Run(es).data == [] <==> History(es) == []
  {
    if es == [] {
    } else {
      var before, e := es[..|es| - 1], es[|es| - 1];
      Suffix(before);
      var h := History(before);
      if e.Render? {
        var k := PruneMeaning(Run(before).data, e.cutoff);
        assert h[Dropped(before)..][k..] == h[Dropped(before) + k..];
      } else if e.Append? {
        assert (h + [e.p])[Dropped(before)..] == h[Dropped(before)..] + [e.p];
      }
    }
  }

  /** Nothing that earlier prunings removed could survive a later one. */
  lemma {:induction false} PruneOfRun(es: seq<Event>, more: seq<Point>, c: real)
    requires CutoffsUpTo(es, c)
    ensures Prune(Run(es).data + more, c) == Prune(History(es) + more, c)
  {
    if es == [] {
    } else {
      var before, e := es[..|es| - 1], es[|es| - 1];
      assert CutoffsUpTo(before, c);
      if e.Append? {
        assert Run(before).data + [e.p] + more == Run(before).data + ([e.p] + more);
        assert History(before) + [e.p] + more == History(before) + ([e.p] + more);
        PruneOfRun(before, [e.p] + more, c);
      } else {
        PruneOfRun(before, more, c);
        if e.Render? {
          assert e.cutoff <= c;
          PruneAgain(Run(before).data, more, e.cutoff, c);
        }
      }
    }
  }

  /** Over any run whose cutoffs never decrease, what a render leaves is one pruning
      of the whole history. */
  lemma IncrementalIsFull(es: seq<Event>, c: real)
    requires CutoffsAscend(es + [Render(c)])
    ensures Run(es + [Render(c)]).data == Prune(History(es), c)
  {
    var run := es + [Render(c)];
    assert run[..|run| - 1] == es;
    forall i | 0 <= i < |es| && es[i].Render? ensures es[i].cutoff <= c {
      assert run[i] == es[i] && run[|es|] == Render(c);
    }
    PruneOfRun(es, [], c);
    assert Run(es).data + [] == Run(es).data && History(es) + [] == History(es);
  }

  /** No point at or after the latest cutoff is gone: exactly unless the very first
      point ever lay there and the second did not. */
  lemma NothingCurrentLost(es: seq<Event>, c: real)
    requires CutoffsAscend(es + [Render(c)])
    ensures var h, kept := History(es), Run(es + [Render(c)]).data;
      |kept| <= |h| && kept == h[|h| - |kept|..]
    ensures var h, kept := History(es), Run(es + [Render(c)]).data;
      (forall i :: 0 <= i < |h| - |kept| ==> h[i].t < c)
      <==> (|h| >= 2 && h[1].t < c ==> h[0].t < c)
  {
    IncrementalIsFull(es, c);
    var h := History(es);
    var k := PruneMeaning(h, c);
    if |h| >= 2 && h[1].t < c {
      assert k > 0;
      assert h[0].t < c ==> forall i :: 0 <= i < k ==> h[i].t < c;
    }
  }

  /** With timestamps in order the kept points are the current ones and one expired
      point before them, if there is one. */
  lemma OrderedKeeps(es: seq<Event>, c: real, i: nat)
    requires CutoffsAscend(es + [Render(c)])
    requires forall j, k :: 0 <= j < k < |History(es)| ==> History(es)[j].t <= History(es)[k].t
    requires i < |History(es)|
    ensures var h, kept := History(es), Run(es + [Render(c)]).data;
      i >= |h| - |kept| <==> (h[i].t >= c || i + 1 == |h| || h[i + 1].t >= c)
  {
    IncrementalIsFull(es, c);
    var h := History(es);
    var k := PruneMeaning(h, c);
    if i < k {
      assert h[i + 1].t < c && h[i].t <= h[i + 1].t;
    } else if i > k {
      assert h[k + 1].t <= h[i].t || i == k + 1;
    }
  }

  // ------------------------------------------------------------------- bounds

  ghost predicate Holds(h: seq<Point>, v: real) {
    exists i :: 0 <= i < |h| && h[i].v == v
  }

  /** `b` is exactly the least and the greatest value in `h`; NaN for nothing. */
  ghost predicate Extremes(b: Bounds, h: seq<Point>) {
    && (b.lo.None? <==> h == [])
    && (b.hi.None? <==> h == [])
    && (h != [] ==> Holds(h, b.lo.value) && Holds(h, b.hi.value) && Enclose(b, h))
  }

  ghost predicate Enclose(b: Bounds, h: seq<Point>)
    requires b.lo.Some? && b.hi.Some?
  {
    forall i :: 0 <= i < |h| ==> b.lo.value <= h[i].v <= b.hi.value
  }

  lemma {:induction false} BoundsMeaning(h: seq<Point>)
    ensures Extremes(BoundsOf(h), h)
  {
    if h == [] {
    } else {
      var front, last := h[..|h| - 1], h[|h| - 1];
      BoundsMeaning(front);
      var b, f := BoundsOf(h), BoundsOf(front);
      assert last.v == b.lo.value || Holds(front, b.lo.value);
      assert last.v == b.hi.value || Holds(front, b.hi.value);
      assert forall v :: Holds(front, v) || v == last.v ==> Holds(h, v) by {
        forall v | Holds(front, v) || v == last.v ensures Holds(h, v) {
          if v == last.v {
            assert h[|h| - 1].v == v;
          } else {
            var i :| 0 <= i < |front| && front[i].v == v;
            assert h[i].v == v;
          }
        }
      }
      forall i | 0 <= i < |h| ensures b.lo.value <= h[i].v <= b.hi.value {
        assert i < |front| ==> front[i] == h[i];
      }
    }
  }

  /** The running bounds are always the extremes of the points seen since the last
      reset together with those that reset looked at. */
  lemma {:induction false} BoundsOfRun(es: seq<Event>)
    ensures 0 <= Base(es) <= Dropped(es) <= |History(es)|
    ensures Run(es).bounds == BoundsOf(History(es)[Base(es)..])
  {
    Suffix(es);
    if es == [] {
    } else {
      var before, e := es[..|es| - 1], es[|es| - 1];
      BoundsOfRun(before);
      Suffix(before);
      var h := History(before);
      if e.Append? {
        var seen := (h + [e.p])[Base(before)..];
        assert seen == h[Base(before)..] + [e.p];
        assert seen[..|seen| - 1] == h[Base(before)..];
      } else if e.Render? {
        var k := PruneMeaning(Run(before).data, e.cutoff);
      }
    }
  }

  /** In every state the bounds are NaN exactly when the series is empty; otherwise
      they enclose what is retained and lie within what was ever appended. */
  lemma BoundsEnclose(es: seq<Event>)
    ensures var s := Run(es);
      && (s.bounds.lo.None? <==> s.data == [])
      && (s.bounds.hi.None? <==> s.data == [])
      && (s.data != [] ==> Enclose(s.bounds, s.data))
      && (s.data != [] ==> Holds(History(es), s.bounds.lo.value) && Holds(History(es), s.bounds.hi.value))
  {
    BoundsOfRun(es);
    Suffix(es);
    var h, b, s := History(es), Base(es), Run(es);
    BoundsMeaning(h[b..]);
    if h != [] {
      forall i | 0 <= i < |s.data| ensures s.bounds.lo.value <= s.data[i].v <= s.bounds.hi.value {
        assert s.data[i] == h[b..][Dropped(es) - b + i];
      }
      HoldsInTail(h, b, s.bounds.lo.value);
      HoldsInTail(h, b, s.bounds.hi.value);
    }
  }

  lemma HoldsInTail(h: seq<Point>, b: nat, v: real)
    requires b <= |h| && Holds(h[b..], v)
    ensures Holds(h, v)
  {
    var i :| 0 <= i < |h[b..]| && h[b..][i].v == v;
    assert h[b + i].v == v;
  }

  /** Right after a reset both bounds are values of retained points. */
  lemma ResetTightens(es: seq<Event>)
    ensures Extremes(Run(es + [Reset]).bounds, Run(es + [Reset]).data)
    ensures Run(es + [Reset]).data == Run(es).data
  {
    var run := es + [Reset];
    assert run[..|run| - 1] == es;
    BoundsMeaning(Run(es).data);
  }
}
