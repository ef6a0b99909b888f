/** What a page plots of any stretch of the stream, from wherever it opens to wherever
    it stops reading. */
module PipelineWindows {
  import opened Options
  import opened SeriesModel
  import opened RecordCodec
  import opened Driver
  import opened Clients
  import opened Pipeline

  function Sources(us: seq<Update>): (r: seq<Word>)
    ensures |r| == |us| && forall i :: 0 <= i < |us| ==> r[i] == us[i].source
  {
    seq(|us|, i requires 0 <= i < |us| => us[i].source)
  }

  /** How many records are samples. */
  function Samples(us: seq<Update>): nat { multiset(Sources(us))[XA0] }

  lemma SamplesSplit(a: seq<Update>, b: seq<Update>)
    ensures Samples(a + b) == Samples(a) + Samples(b)
  {
    assert Sources(a + b) == Sources(a) + Sources(b);
  }

  lemma SamplesPush(us: seq<Update>, u: Update)
    ensures Samples(us + [u]) == Samples(us) + (if u.source == XA0 then 1 else 0)
  {
    SamplesSplit(us, [u]);
    assert Sources([u]) == [u.source];
  }

  lemma PartSamples(e: Entry, j: nat)
    requires j <= e.accepted <= 3
    ensures Samples(Part(e)[..j]) == (if j == 3 then 1 else 0)
  {
    var t := Triple(e.sec, e.usec, e.value);
    SamplesPush([], t[0]);
    SamplesPush(t[..1], t[1]);
    SamplesPush(t[..2], t[2]);
    assert t[..1] == [] + [t[0]] && t[..2] == t[..1] + [t[1]] && t[..3] == t[..2] + [t[2]];
    assert Part(e)[..j] == t[..j];
  }

  lemma {:induction false} StreamSamples(log: seq<Entry>)
    requires Logged(log)
    ensures Samples(Stream(log)) == |Full(log)|
  {
    if log == [] {
    } else {
      var front, e := log[..|log| - 1], log[|log| - 1];
      StreamSamples(front);
      SamplesSplit(Stream(front), Part(e));
      PartSamples(e, e.accepted);
      assert Part(e)[..e.accepted] == Part(e);
    }
  }

  lemma AfterPush(c: Client, rs: seq<Reading>, r: Reading)
    ensures After(c, rs + [r]) == ProcessReading(After(c, rs), r)
    ensures Points(c, rs + [r]) == Points(c, rs) + Plotted(After(c, rs), r)
  {
    AfterSplit(c, rs, [r]);
    assert Points(After(c, rs), [r]) == Plotted(After(c, rs), r) + [];
  }

  lemma SeenPush(us: seq<Update>, u: Update)
    ensures SeenAll(us + [u]) == SeenAll(us) + [Seen(u)]
  {
  }

  /** The page after the parts of a triple short of its sample. */
  lemma StampReads(c: Client, t: seq<Update>)
    requires |t| == 3 && t[0].source == SEC && t[1].source == USEC
    ensures After(c, SeenAll(t[..0])) == c
    ensures After(c, SeenAll(t[..1])) == c.(sec := Signed(t[0].value))
    ensures After(c, SeenAll(t[..2])) == c.(sec := Signed(t[0].value), usec := Signed(t[1].value))
    ensures Points(c, SeenAll(t[..0])) == Points(c, SeenAll(t[..1])) == Points(c, SeenAll(t[..2])) == []
  {
    assert SeenAll(t[..0]) == [];
    SeenPush(t[..0], t[0]);
    SeenPush(t[..1], t[1]);
    assert t[..1] == t[..0] + [t[0]] && t[..2] == t[..1] + [t[1]];
    AfterPush(c, SeenAll(t[..0]), Seen(t[0]));
    AfterPush(c, SeenAll(t[..1]), Seen(t[1]));
  }

  /** The sample is plotted with the time that came in its own triple. */
  lemma SampleReads(c: Client, e: Entry)
    requires e.value <= 360
    ensures var rs := SeenAll(Triple(e.sec, e.usec, e.value));
      && Points(c, rs) == [PointOf(e)]
      && After(c, rs).last == e.value
      && After(c, rs).skipped == c.skipped + Gap(c.last, e.value)
      && After(c, rs).datapoints == c.datapoints + 1
  {
    var t := Triple(e.sec, e.usec, e.value);
    StampReads(c, t);
    SeenPush(t[..2], t[2]);
    assert t == t[..2] + [t[2]];
    AfterPush(c, SeenAll(t[..2]), Seen(t[2]));
  }

  /** The page reads a part of one triple: it plots a point only at the triple's end,
      and then with that triple's own time. */
  lemma PartView(ss: seq<Entry>, torn: Option<Point>, c: Client, points: seq<Point>, e: Entry, j: nat)
    requires View(ss, torn, c, points) && (torn.Some? ==> ss != [])
    requires j <= e.accepted <= 3 && e.value <= 360
    ensures var rs := SeenAll(Part(e)[..j]);
      View(if j == 3 then ss + [e] else ss, torn, After(c, rs), points + Points(c, rs))
  {
    var t := Triple(e.sec, e.usec, e.value);
    assert Part(e)[..j] == t[..j];
    if j == 3 {
      SampleReads(c, e);
      assert t[..3] == t;
      assert (ss + [e])[..|ss|] == ss;
      PlotPush(ss, torn, e);
    } else {
      StampReads(c, t);
      assert points + [] == points;
    }
  }

  lemma PlotPush(ss: seq<Entry>, torn: Option<Point>, e: Entry)
    requires torn.Some? ==> ss != []
    ensures PlotOf(ss + [e], torn) == PlotOf(ss, torn) + [PointOf(e)]
  {
    assert (ss + [e])[..|ss|] == ss;
  }

  /** Having read the records `us`, the page has plotted just the samples among them,
      which are those of the first ticks in `full`. */
  ghost predicate Plots(us: seq<Update>, torn: Option<Point>, full: seq<Entry>) {
    var rs, k := SeenAll(us), Samples(us);
    k <= |full| && View(full[..k], torn, After(FRESH, rs), Points(FRESH, rs))
  }

  lemma LogPush(log: seq<Entry>, e: Entry)
    requires Logged(log + [e])
    ensures Logged(log) && e.value <= 360 && e.accepted <= 3
    ensures Stream(log + [e]) == Stream(log) + Part(e)
    ensures Full(log + [e]) == if e.accepted == 3 then Full(log) + [e] else Full(log)
  {
    assert (log + [e])[..|log|] == log && (log + [e])[|log|] == e;
    assert forall i :: 0 <= i < |log| ==> (log + [e])[i] == log[i];
  }

  lemma PlotsMore(us: seq<Update>, torn: Option<Point>, full: seq<Entry>, e: Entry)
    requires Plots(us, torn, full)
    ensures Plots(us, torn, full + [e])
  {
    assert (full + [e])[..Samples(us)] == full[..Samples(us)];
  }

  /** The page goes on to a part of the next triple. */
  lemma PlotsPart(us: seq<Update>, torn: Option<Point>, full: seq<Entry>, e: Entry, j: nat)
    requires j <= e.accepted <= 3 && e.value <= 360
    requires Samples(us) == |full| && Plots(us, torn, full) && (torn.Some? ==> full != [])
    ensures Plots(us + Part(e)[..j], torn, if j == 3 then full + [e] else full)
  {
    var part := Part(e)[..j];
    assert full[..|full|] == full;
    SamplesSplit(us, part);
    PartSamples(e, j);
    PartView(full, torn, After(FRESH, SeenAll(us)), Points(FRESH, SeenAll(us)), e, j);
    SeenSplit(us, part);
    AfterSplit(FRESH, SeenAll(us), SeenAll(part));
    assert (full + [e])[..|full| + 1] == full + [e];
  }

  lemma OneReads(c: Client, u: Update)
    ensures After(c, SeenAll([u])) == ProcessReading(c, Seen(u)) && Points(c, SeenAll([u])) == Plotted(c, Seen(u))
    ensures Samples([u]) == if u.source == XA0 then 1 else 0
  {
    assert SeenAll([u]) == [] + [Seen(u)];
    AfterPush(c, [], Seen(u));
    SamplesPush([], u);
    assert [] + [u] == [u];
  }

  lemma TwoRead(c: Client, u: Update, v: Update)
    ensures After(c, SeenAll([u, v])) == ProcessReading(ProcessReading(c, Seen(u)), Seen(v))
    ensures Points(c, SeenAll([u, v])) == Plotted(c, Seen(u)) + Plotted(ProcessReading(c, Seen(u)), Seen(v))
    ensures Samples([u, v]) == Samples([u]) + Samples([v])
  {
    assert [u, v] == [u] + [v];
    SeenSplit([u], [v]);
    AfterSplit(c, SeenAll([u]), SeenAll([v]));
    OneReads(c, u);
    OneReads(ProcessReading(c, Seen(u)), v);
    SamplesSplit([u], [v]);
  }

  lemma PlotsIs(us: seq<Update>, torn: Option<Point>, full: seq<Entry>, c: Client, points: seq<Point>)
    requires After(FRESH, SeenAll(us)) == c && Points(FRESH, SeenAll(us)) == points
    requires Samples(us) == |points| <= |full| && View(full[..|points|], torn, c, points)
    ensures Plots(us, torn, full)
  {
  }

  /** What is left to plot of a triple entered after its record `p`, and its torn point. */
  function LeftOf(e: Entry, p: nat): seq<Entry> { if e.accepted == 3 && p < 3 then [e] else [] }

  function TornAt(e: Entry, p: nat): Option<Point> {
    if e.accepted == 3 && p < 3 then Some(TornPoint(e, p)) else None
  }

  lemma FirstView(e: Entry, p: nat, c: Client)
    requires e.accepted == 3 && p < 3 && c.datapoints == 1 && c.skipped == 0 && c.last == e.value
    ensures View(LeftOf(e, p)[..1], TornAt(e, p), c, [TornPoint(e, p)])
  {
    assert LeftOf(e, p)[..1] == [e];
  }

  /** A page that opens before the sample of a triple. */
  lemma OpensAtSample(e: Entry)
    requires e.value <= 360 && e.accepted == 3
    ensures Plots([Triple(e.sec, e.usec, e.value)[2]], TornAt(e, 2), LeftOf(e, 2))
  {
    var u := Triple(e.sec, e.usec, e.value)[2];
    OneReads(FRESH, u);
    FirstView(e, 2, ProcessReading(FRESH, Seen(u)));
    PlotsIs([u], TornAt(e, 2), LeftOf(e, 2), ProcessReading(FRESH, Seen(u)), [TornPoint(e, 2)]);
  }

  /** A page that opens between the two halves of a triple's time. */
  lemma OpensAtUsec(e: Entry)
    ensures Plots([Triple(e.sec, e.usec, e.value)[1]], TornAt(e, 1), LeftOf(e, 1))
  {
    var u := Triple(e.sec, e.usec, e.value)[1];
    OneReads(FRESH, u);
    PlotsIs([u], TornAt(e, 1), LeftOf(e, 1), ProcessReading(FRESH, Seen(u)), []);
  }

  lemma TornReading(e: Entry)
    requires e.value <= 360
    ensures var t := Triple(e.sec, e.usec, e.value); var c := ProcessReading(FRESH, Seen(t[1]));
      && c == FRESH.(usec := Signed(e.usec)) && Plotted(FRESH, Seen(t[1])) == []
      && Plotted(c, Seen(t[2])) == [TornPoint(e, 1)]
      && ProcessReading(c, Seen(t[2])).last == e.value
      && ProcessReading(c, Seen(t[2])).datapoints == 1 && ProcessReading(c, Seen(t[2])).skipped == 0
  {
  }

  /** And reads the triple to its end. */
  lemma UsecAndSample(e: Entry)
    requires e.value <= 360 && e.accepted == 3
    ensures var t := Triple(e.sec, e.usec, e.value); Plots([t[1], t[2]], TornAt(e, 1), LeftOf(e, 1))
  {
    var t := Triple(e.sec, e.usec, e.value);
    TornReading(e);
    TwoRead(FRESH, t[1], t[2]);
    OneReads(FRESH, t[1]);
    OneReads(FRESH, t[2]);
    var end := ProcessReading(ProcessReading(FRESH, Seen(t[1])), Seen(t[2]));
    FirstView(e, 1, end);
    assert [] + [TornPoint(e, 1)] == [TornPoint(e, 1)];
    PlotsIs([t[1], t[2]], TornAt(e, 1), LeftOf(e, 1), end, [TornPoint(e, 1)]);
  }

  lemma OpensAtEnd(torn: Option<Point>, full: seq<Entry>)
    ensures Plots([], torn, full)
  {
    assert SeenAll([]) == [];
    PlotsIs([], torn, full, FRESH, []);
  }

  /** A page that opens inside a triple reads on to record `q` of it. */
  lemma PlotsInside(e: Entry, p: nat, q: nat)
    requires 1 <= p <= q <= e.accepted <= 3 && e.value <= 360
    ensures Plots(Part(e)[p..q], TornAt(e, p), LeftOf(e, p))
  {
    var t := Triple(e.sec, e.usec, e.value);
    var w := Part(e)[p..q];
    if p == q {
      assert w == [];
      OpensAtEnd(TornAt(e, p), LeftOf(e, p));
    } else if p == 2 {
      assert w == [t[2]];
      OpensAtSample(e);
    } else if q == 2 {
      assert w == [t[1]];
      OpensAtUsec(e);
    } else {
      assert w == [t[1], t[2]];
      UsecAndSample(e);
    }
  }

  lemma SamplesMonotone(us: seq<Update>, j: nat, m: nat)
    requires j <= m <= |us|
    ensures Samples(us[..m]) == Samples(us[..j]) + Samples(us[j..m])
  {
    assert us[..m] == us[..j] + us[j..m];
    SamplesSplit(us[..j], us[j..m]);
  }

  function TornNext(torn: Option<Point>, e: Entry, n: nat, j: nat): Option<Point> {
    if j <= n then torn else TornAt(e, j - n)
  }

  lemma TornPush(log: seq<Entry>, e: Entry, j: nat)
    requires Logged(log + [e]) && Logged(log)
    ensures Torn(log + [e], j) ==
      if j <= |Stream(log)| then Torn(log, j)
      else TornNext(None, e, |Stream(log)|, j)
  {
    assert (log + [e])[..|log|] == log && (log + [e])[|log|] == e;
  }

  lemma PrefixSamples(us: seq<Update>, e: Entry, j: nat)
    requires e.accepted <= 3 && j <= |us| + e.accepted
    ensures j <= |us| ==> Samples((us + Part(e))[..j]) == Samples(us[..j]) <= Samples(us)
    ensures j > |us| ==> Samples((us + Part(e))[..j]) == Samples(us) + (if j == |us| + 3 then 1 else 0)
  {
    if j <= |us| {
      assert (us + Part(e))[..j] == us[..j];
      SamplesMonotone(us, j, |us|);
      assert us[..|us|] == us;
    } else {
      assert (us + Part(e))[..j] == us + Part(e)[..j - |us|];
      SamplesSplit(us, Part(e)[..j - |us|]);
      PartSamples(e, j - |us|);
    }
  }

  /** The sample of a torn triple is still to come when its page opens. */
  lemma {:induction false} TornAhead(log: seq<Entry>, j: nat)
    requires Logged(log) && j <= |Stream(log)|
    ensures Samples(Stream(log)[..j]) <= |Full(log)|
    ensures Torn(log, j).Some? ==> Samples(Stream(log)[..j]) < |Full(log)|
  {
    if log == [] {
    } else {
      var front, e := log[..|log| - 1], log[|log| - 1];
      assert log == front + [e];
      LogPush(front, e);
      TornPush(front, e, j);
      PrefixSamples(Stream(front), e, j);
      StreamSamples(front);
      if j <= |Stream(front)| {
        TornAhead(front, j);
      }
    }
  }

  /** Wherever in the stream a page opens and wherever it stops, it has plotted exactly
      the samples between, each with its own tick's time but for a torn first one. */
  ghost predicate PlotsWindow(us: seq<Update>, full: seq<Entry>, torn: Option<Point>, j: nat, m: nat)
    requires j <= m <= |us|
  {
    var a := Samples(us[..j]);
    a <= |full| && Plots(us[j..m], torn, full[a..])
  }

  function WithSample(full: seq<Entry>, e: Entry): seq<Entry> { if e.accepted == 3 then full + [e] else full }

  /** Slices of a stream that has grown. */
  lemma Slices(us: seq<Update>, part: seq<Update>, j: nat, m: nat)
    requires j <= m <= |us| + |part|
    ensures j <= |us| ==> (us + part)[..j] == us[..j]
    ensures m <= |us| ==> (us + part)[j..m] == us[j..m]
    ensures j <= |us| < m ==> (us + part)[j..m] == us[j..] + part[..m - |us|]
    ensures |us| < j ==> (us + part)[j..m] == part[j - |us|..m - |us|]
  {
  }

  lemma LongerFrom(full: seq<Entry>, e: Entry, a: nat)
    requires a <= |full|
    ensures WithSample(full, e)[a..] == WithSample(full[a..], e)
  {
  }

  lemma PlotsLonger(us: seq<Update>, torn: Option<Point>, full: seq<Entry>, e: Entry)
    requires Plots(us, torn, full)
    ensures Plots(us, torn, WithSample(full, e))
  {
    PlotsMore(us, torn, full, e);
  }

  lemma PlotsPartLonger(us: seq<Update>, torn: Option<Point>, full: seq<Entry>, e: Entry, q: nat)
    requires q <= e.accepted <= 3 && e.value <= 360
    requires Samples(us) == |full| && Plots(us, torn, full) && (torn.Some? ==> full != [])
    ensures Plots(us + Part(e)[..q], torn, WithSample(full, e))
  {
    PlotsPart(us, torn, full, e, q);
    if q < 3 {
      PlotsLonger(us + Part(e)[..q], torn, full, e);
    }
  }

  lemma IsWindow(us: seq<Update>, full: seq<Entry>, torn: Option<Point>, j: nat, m: nat, w: seq<Update>, f: seq<Entry>)
    requires j <= m <= |us| && us[j..m] == w
    requires Samples(us[..j]) <= |full| && full[Samples(us[..j])..] == f
    requires Plots(w, torn, f)
    ensures PlotsWindow(us, full, torn, j, m)
  {
  }

  lemma WindowStays(us: seq<Update>, full: seq<Entry>, torn: Option<Point>, e: Entry, j: nat, m: nat)
    requires e.accepted <= 3 && j <= m <= |us| && PlotsWindow(us, full, torn, j, m)
    ensures PlotsWindow(us + Part(e), WithSample(full, e), torn, j, m)
  {
    var a := Samples(us[..j]);
    Slices(us, Part(e), j, m);
    PlotsLonger(us[j..m], torn, full[a..], e);
    LongerFrom(full, e, a);
    IsWindow(us + Part(e), WithSample(full, e), torn, j, m, us[j..m], WithSample(full[a..], e));
  }

  lemma Halves(us: seq<Update>, j: nat)
    requires j <= |us|
    ensures us[j..|us|] == us[j..] && us[..|us|] == us
    ensures Samples(us) == Samples(us[..j]) + Samples(us[j..])
  {
    SamplesMonotone(us, j, |us|);
    assert us[j..|us|] == us[j..] && us[..|us|] == us;
  }

  /** A window that reaches the end of what was read, whatever is still to come. */
  lemma WindowPlots(us: seq<Update>, more: seq<Update>, full: seq<Entry>, torn: Option<Point>, j: nat)
    requires j <= |us| && PlotsWindow(us + more, full, torn, j, |us|)
    ensures Samples(us[..j]) <= |full| && Plots(us[j..], torn, full[Samples(us[..j])..])
  {
    Slices(us, more, j, |us|);
    Halves(us, j);
  }

  lemma TailPlots(us: seq<Update>, full: seq<Entry>, torn: Option<Point>, j: nat)
    requires j <= |us| && Samples(us) == |full| && PlotsWindow(us, full, torn, j, |us|)
    ensures Samples(us[..j]) <= |full|
    ensures Plots(us[j..], torn, full[Samples(us[..j])..])
    ensures Samples(us[j..]) == |full[Samples(us[..j])..]|
  {
    assert us + [] == us;
    WindowPlots(us, [], full, torn, j);
    Halves(us, j);
  }

  lemma TailGrows(us: seq<Update>, full: seq<Entry>, torn: Option<Point>, e: Entry, j: nat, m: nat)
    requires j <= |us| < m <= |us| + e.accepted && e.accepted <= 3 && Samples(us[..j]) <= |full|
    requires Plots(us[j..] + Part(e)[..m - |us|], torn, WithSample(full[Samples(us[..j])..], e))
    ensures PlotsWindow(us + Part(e), WithSample(full, e), torn, j, m)
  {
    var a := Samples(us[..j]);
    Slices(us, Part(e), j, m);
    LongerFrom(full, e, a);
    IsWindow(us + Part(e), WithSample(full, e), torn, j, m, us[j..] + Part(e)[..m - |us|], WithSample(full[a..], e));
  }

  lemma WindowGrows(us: seq<Update>, full: seq<Entry>, torn: Option<Point>, e: Entry, j: nat, m: nat)
    requires j <= |us| < m <= |us| + e.accepted && e.accepted <= 3 && e.value <= 360
    requires Samples(us) == |full| && PlotsWindow(us, full, torn, j, |us|)
    requires torn.Some? ==> Samples(us[..j]) < |full|
    ensures PlotsWindow(us + Part(e), WithSample(full, e), torn, j, m)
  {
    TailPlots(us, full, torn, j);
    PlotsPartLonger(us[j..], torn, full[Samples(us[..j])..], e, m - |us|);
    TailGrows(us, full, torn, e, j, m);
  }

  lemma WindowInside(us: seq<Update>, full: seq<Entry>, torn: Option<Point>, e: Entry, j: nat, m: nat)
    requires |us| < j <= m <= |us| + e.accepted && e.accepted <= 3 && e.value <= 360 && Samples(us) == |full|
    ensures PlotsWindow(us + Part(e), WithSample(full, e), TornNext(torn, e, |us|, j), j, m)
  {
    var p, q := j - |us|, m - |us|;
    PlotsInside(e, p, q);
    PrefixSamples(us, e, j);
    Slices(us, Part(e), j, m);
    RestInside(full, e, p);
    IsWindow(us + Part(e), WithSample(full, e), TornAt(e, p), j, m, Part(e)[p..q], LeftOf(e, p));
  }

  lemma RestInside(full: seq<Entry>, e: Entry, p: nat)
    requires 0 < p <= e.accepted <= 3
    ensures var a := |full| + (if p == 3 then 1 else 0);
      a <= |WithSample(full, e)| && WithSample(full, e)[a..] == LeftOf(e, p)
  {
  }

  lemma WindowPush(us: seq<Update>, full: seq<Entry>, torn: Option<Point>, e: Entry, j: nat, m: nat)
    requires e.accepted <= 3 && e.value <= 360 && j <= m <= |us| + e.accepted && Samples(us) == |full|
    requires m <= |us| ==> PlotsWindow(us, full, torn, j, m)
    requires j <= |us| < m ==> PlotsWindow(us, full, torn, j, |us|)
    requires j <= |us| && torn.Some? ==> Samples(us[..j]) < |full|
    ensures PlotsWindow(us + Part(e), WithSample(full, e), TornNext(torn, e, |us|, j), j, m)
  {
    if m <= |us| {
      WindowStays(us, full, torn, e, j, m);
    } else if j <= |us| {
      WindowGrows(us, full, torn, e, j, m);
    } else {
      WindowInside(us, full, torn, e, j, m);
    }
  }

  lemma {:induction false} PlotsAnyWindow(log: seq<Entry>, j: nat, m: nat)
    requires Logged(log) && j <= m <= |Stream(log)|
    ensures PlotsWindow(Stream(log), Full(log), Torn(log, j), j, m)
  {
    if log == [] {
      OpensAtEnd(None, []);
    } else {
      var front, e := log[..|log| - 1], log[|log| - 1];
      assert log == front + [e];
      LogPush(front, e);
      TornPush(front, e, j);
      StreamSamples(front);
      if m <= |Stream(front)| {
        PlotsAnyWindow(front, j, m);
      } else if j <= |Stream(front)| {
        PlotsAnyWindow(front, j, |Stream(front)|);
      }
      if j <= |Stream(front)| {
        TornAhead(front, j);
      }
      WindowPush(Stream(front), Full(front), Torn(front, j), e, j, m);
    }
  }

  lemma SeenSplit(a: seq<Update>, b: seq<Update>)
    ensures SeenAll(a + b) == SeenAll(a) + SeenAll(b)
  {
  }
}
