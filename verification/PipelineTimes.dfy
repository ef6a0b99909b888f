/** The times of the page's points, against the clock of the ticks. */
module PipelineTimes {
  import opened Options
  import opened SeriesModel
  import opened RecordCodec
  import opened Driver
  import opened Clients
  import opened Pipeline
  import opened PipelineWindows
  import opened PipelineRuns
  import opened Edges

  /** A tick's clock in microseconds. */
  function Micros(e: Entry): int { e.sec * 1000000 + e.usec }

  /** A clock reading: microseconds short of a second, seconds of 31 bits. */
  predicate Clock(e: Entry) { e.sec < 0x8000_0000 && e.usec < 1000000 }

  /** Every tick reads the clock later than the ticks before. */
  ghost predicate ClockAdvances(log: seq<Entry>) {
    && (forall i :: 0 <= i < |log| ==> Clock(log[i]))
    && forall i, j :: 0 <= i < j < |log| ==> Micros(log[i]) < Micros(log[j])
  }

  lemma PointMicros(e: Entry)
    requires Clock(e)
    ensures PointOf(e).t * 1000.0 == Micros(e) as real && PointOf(e).v == e.value as real
  {
  }

  lemma TornMicros(e: Entry, p: nat)
    requires Clock(e)
    ensures TornPoint(e, p).t * 1000.0 == (if p == 1 then e.usec else 0) as real
    ensures TornPoint(e, p).v == e.value as real
  {
  }

  /** A page that opens where `a` samples are past may tear only the next one. */
  ghost predicate TornFrom(torn: Option<Point>, full: seq<Entry>, a: nat) {
    torn.Some? ==> a < |full| && exists p :: 1 <= p <= 2 && torn.value == TornPoint(full[a], p)
  }

  lemma TornLonger(torn: Option<Point>, full: seq<Entry>, a: nat, e: Entry)
    requires TornFrom(torn, full, a)
    ensures TornFrom(torn, WithSample(full, e), a)
  {
    if torn.Some? {
      var p :| 1 <= p <= 2 && torn.value == TornPoint(full[a], p);
      assert WithSample(full, e)[a] == full[a];
    }
  }

  lemma TornNew(full: seq<Entry>, e: Entry, p: nat)
    requires 1 <= p
    ensures TornFrom(TornAt(e, p), WithSample(full, e), |full|)
  {
    if e.accepted == 3 && p < 3 {
      assert WithSample(full, e)[|full|] == e;
    }
  }

  lemma {:induction false} TornIsNext(log: seq<Entry>, j: nat)
    requires Logged(log) && j <= |Stream(log)|
    ensures TornFrom(Torn(log, j), Full(log), Samples(Stream(log)[..j]))
  {
    if log == [] {
    } else {
      var front, e := log[..|log| - 1], log[|log| - 1];
      assert log == front + [e];
      LogPush(front, e);
      TornPush(front, e, j);
      PrefixSamples(Stream(front), e, j);
      StreamSamples(front);
      if j <= |Stream(front)| {
        TornIsNext(front, j);
        TornLonger(Torn(front, j), Full(front), Samples(Stream(front)[..j]), e);
      } else {
        TornNew(Full(front), e, j - |Stream(front)|);
      }
    }
  }

  /** Each point's time, times a thousand, is its tick's seconds and microseconds in
      microseconds; of a torn first point, what was left of the microseconds. */
  ghost predicate Timed(points: seq<Point>, ss: seq<Entry>, torn: bool) {
    && |points| == |ss|
    && (forall i :: 0 <= i < |ss| ==> points[i].v == ss[i].value as real)
    && (forall i :: 0 <= i < |ss| && (i > 0 || !torn) ==> points[i].t * 1000.0 == Micros(ss[i]) as real)
    && (torn && ss != [] ==> points[0].t * 1000.0 == 0.0 || points[0].t * 1000.0 == ss[0].usec as real)
  }

  lemma ViewTimed(ss: seq<Entry>, torn: Option<Point>, c: Client, points: seq<Point>)
    requires View(ss, torn, c, points) && forall i :: 0 <= i < |ss| ==> Clock(ss[i])
    requires torn.Some? && ss != [] ==> exists p :: torn.value == TornPoint(ss[0], p)
    ensures Timed(points, ss, torn.Some?)
  {
    forall i | 0 <= i < |ss| && (i > 0 || torn.None?)
      ensures points[i].t * 1000.0 == Micros(ss[i]) as real && points[i].v == ss[i].value as real
    {
      PointMicros(ss[i]);
    }
    if torn.Some? && ss != [] {
      var p :| torn.value == TornPoint(ss[0], p);
      TornMicros(ss[0], p);
    }
  }

  lemma ShowsTimed(s: System, full: seq<Entry>, a: nat, torn: Option<Point>)
    requires Shows(s, full, a, torn) && TornFrom(torn, full, a)
    requires forall i :: 0 <= i < |full| ==> Clock(full[i])
    ensures TimedFrom(s, full, a, torn.Some?)
  {
    var ss := full[a..a + |s.points|];
    if torn.Some? && ss != [] {
      assert ss[0] == full[a];
    }
    ViewTimed(ss, torn, s.client, s.points);
  }

  /** The page's points are timed by the ticks of `full` from `a` on. */
  ghost predicate TimedFrom(s: System, full: seq<Entry>, a: nat, torn: bool) {
    a + |s.points| <= |full| && Timed(s.points, full[a..a + |s.points|], torn)
  }

  lemma TornOpened(es: seq<Pipeline.Event>)
    ensures Logged(Log(es)) && TornFrom(Torn(Log(es), Opened(es)), Full(Log(es)), Missed(es))
  {
    QueueAlways(es);
    assert Stream(Log(es))[..Opened(es)] == Delivered(es)[..Opened(es)];
    TornIsNext(Log(es), Opened(es));
  }

  /** Whenever the page was opened, all its points have the time of their own ticks, to
      the microsecond, while the clock fits its fields; but for a torn first one. */
  lemma TrueTimes(es: seq<Pipeline.Event>)
    requires forall i :: 0 <= i < |Log(es)| ==> Clock(Log(es)[i])
    ensures Logged(Log(es))
    ensures TimedFrom(Flow(es), Full(Log(es)), Missed(es), Torn(Log(es), Opened(es)).Some?)
  {
    PointsPairOwnTick(es);
    TornOpened(es);
    FullClocked(Log(es));
    ShowsTimed(Flow(es), Full(Log(es)), Missed(es), Torn(Log(es), Opened(es)));
  }

  lemma {:induction false} FullClocked(log: seq<Entry>)
    requires forall i :: 0 <= i < |log| ==> Clock(log[i])
    ensures forall i :: 0 <= i < |Full(log)| ==> Clock(Full(log)[i])
  {
    if log == [] {
    } else {
      FullClocked(log[..|log| - 1]);
    }
  }

  lemma {:induction false} FullAdvances(log: seq<Entry>)
    requires ClockAdvances(log)
    ensures ClockAdvances(Full(log))
    ensures forall i :: 0 <= i < |Full(log)| ==> Full(log)[i] in log
  {
    if log == [] {
    } else {
      var front, e := log[..|log| - 1], log[|log| - 1];
      FullAdvances(front);
      forall i | 0 <= i < |Full(front)| ensures Micros(Full(front)[i]) < Micros(e) {
        var j :| 0 <= j < |front| && front[j] == Full(front)[i];
        assert log[j] == front[j];
      }
    }
  }

  lemma TimedAscend(points: seq<Point>, ss: seq<Entry>, torn: bool)
    requires Timed(points, ss, torn) && ClockAdvances(ss)
    ensures forall i, j :: 0 <= i < j < |points| ==> points[i].t < points[j].t
    ensures forall i, j :: 0 <= i < j < |points| && (i > 0 || !torn) ==>
      (points[j].t - points[i].t) * 1000.0 == (Micros(ss[j]) - Micros(ss[i])) as real
  {
    forall i, j | 0 <= i < j < |points| ensures points[i].t < points[j].t {
      assert points[i].t * 1000.0 <= Micros(ss[i]) as real < Micros(ss[j]) as real == points[j].t * 1000.0;
    }
  }

  /** The points come at times that ascend, just as far apart as the ticks of `full` from
      `a` on; all but a torn first one. */
  ghost predicate Spaced(points: seq<Point>, full: seq<Entry>, a: nat, torn: bool) {
    && a + |points| <= |full|
    && (forall i, j :: 0 <= i < j < |points| ==> points[i].t < points[j].t)
    && forall i, j :: 0 <= i < j < |points| && (i > 0 || !torn) ==>
         (points[j].t - points[i].t) * 1000.0 == (Micros(full[a + j]) - Micros(full[a + i])) as real
  }

  lemma TimedSpaced(s: System, full: seq<Entry>, a: nat, torn: bool)
    requires TimedFrom(s, full, a, torn) && ClockAdvances(full)
    ensures Spaced(s.points, full, a, torn)
  {
    TimedAscend(s.points, full[a..a + |s.points|], torn);
  }

  /** While the clock advances, the times of the points ascend, and two points are just
      as far apart as their ticks. */
  lemma TimesAscend(es: seq<Pipeline.Event>)
    requires ClockAdvances(Log(es))
    ensures Logged(Log(es))
    ensures Spaced(Flow(es).points, Full(Log(es)), Missed(es), Torn(Log(es), Opened(es)).Some?)
  {
    TrueTimes(es);
    FullAdvances(Log(es));
    TimedSpaced(Flow(es), Full(Log(es)), Missed(es), Torn(Log(es), Opened(es)).Some?);
  }

  lemma PointsOrdered(es: seq<Pipeline.Event>)
    ensures ClockAdvances(Log(es)) ==> Ordered(Flow(es).points)
  {
    if ClockAdvances(Log(es)) {
      TimesAscend(es);
    }
  }
}
