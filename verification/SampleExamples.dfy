/** Runs of the sample display on which a promise fails. */
module SampleExamples {
  import opened Options
  import opened Integers
  import opened SeriesModel
  import opened RecordCodec
  import opened Driver
  import opened Clients
  import opened Pipeline
  import opened PipelineWindows
  import opened PipelineRuns
  import opened PipelineTheorems

  // --------------------------------------------------------------------- the chart

  /** Two appends out of order and a render between their times: the point deleted is
      not before the cutoff. */
  lemma CurrentPointLost()
    ensures var es := [Append(Point(5.0, 0.0)), Append(Point(0.0, 0.0))];
      && CutoffsAscend(es + [Render(3.0)])
      && History(es) == [Point(5.0, 0.0), Point(0.0, 0.0)]
      && Run(es + [Render(3.0)]).data == [Point(0.0, 0.0)]
  {
    var a, b := Append(Point(5.0, 0.0)), Append(Point(0.0, 0.0));
    var es := [a, b];
    assert es[..1] == [a] && [a][..0] == [];
    assert History([a]) == [] + [a.p];
    assert History(es) == History([a]) + [b.p];
    IncrementalIsFull(es, 3.0);
    assert History(es)[1..] == [Point(0.0, 0.0)];
  }

  // ---------------------------------------------------------------- the sample count

  function Fires(k: nat): (es: seq<Pipeline.Event>)
    ensures |es| == k
  {
    if k == 0 then [] else Fires(k - 1) + [Fire(0, 0)]
  }

  /** Ticks without a read fill the queue: ten whole triples, two records of the next. */
  ghost predicate QueueFilled(es: seq<Pipeline.Event>, k: nat) {
    && |Log(es)| == k
    && |Flow(es).device.fifo| == MinNat(32, 3 * k)
    && (forall i :: 0 <= i < k ==> (Log(es)[i].accepted == 3 <==> i < 10))
    && Opened(es) == 0
  }

  lemma FireLog(es: seq<Pipeline.Event>)
    ensures Log(es + [Fire(0, 0)]) == LogNext(Log(es), Flow(es).device, Fire(0, 0))
    ensures Flow(es + [Fire(0, 0)]).device == Tick(Flow(es).device, 0, 0)
    ensures Opened(es + [Fire(0, 0)]) == Opened(es)
  {
    OneEvent(es, Fire(0, 0));
    assert (es + [Fire(0, 0)])[..|es|] == es;
  }

  lemma FillStep(es: seq<Pipeline.Event>, k: nat)
    requires QueueFilled(es, k)
    ensures QueueFilled(es + [Fire(0, 0)], k + 1)
  {
    FireLog(es);
    TickQueuesPrefix(Flow(es).device, 0, 0);
  }

  lemma {:induction false} FiresFill(k: nat)
    ensures QueueFilled(Fires(k), k)
  {
    if k == 0 {
    } else {
      FiresFill(k - 1);
      FillStep(Fires(k - 1), k - 1);
    }
  }

  lemma {:induction false} FullOfFilled(log: seq<Entry>)
    requires forall i :: 0 <= i < |log| ==> (log[i].accepted == 3 <==> i < 10)
    ensures Full(log) == log[..MinNat(10, |log|)]
  {
    if log == [] {
    } else {
      FullOfFilled(log[..|log| - 1]);
    }
  }

  /** A read drains the queue and a tick finds it empty. */
  lemma Drained(es: seq<Pipeline.Event>)
    requires |Flow(es).device.fifo| <= 32
    ensures var read := es + [ReadUpTo(256)];
      && Log(read) == Log(es) && Flow(read).device.fifo == [] && Opened(read) == Opened(es)
  {
    WholeIs(256);
    OneEvent(es, ReadUpTo(256));
    assert (es + [ReadUpTo(256)])[..|es|] == es;
  }

  lemma FireOnEmpty(es: seq<Pipeline.Event>)
    requires Flow(es).device.fifo == []
    ensures var fired := es + [Fire(0, 0)];
      && |Log(fired)| == |Log(es)| + 1 && Log(fired)[..|Log(es)|] == Log(es)
      && Log(fired)[|Log(es)|].accepted == 3 && Log(fired)[|Log(es)|].n == |Log(es)| + 1
      && |Flow(fired).device.fifo| == 3 && Opened(fired) == Opened(es)
  {
    FireLog(es);
    TickQueuesPrefix(Flow(es).device, 0, 0);
  }

  /** 709 ticks, a read of all there is, one more tick and another read. */
  function Late(): seq<Pipeline.Event> {
    Fires(709) + [ReadUpTo(256)] + [Fire(0, 0)] + [ReadUpTo(256)]
  }

  lemma LateLog(log: seq<Entry>, e: Entry)
    requires |log| == 709 && e.accepted == 3 && e.n == 710
    requires forall i :: 0 <= i < |log| ==> log[i].n == i + 1 && (log[i].accepted == 3 <==> i < 10)
    ensures Full(log + [e]) == log[..10] + [e]
  {
    FullOfFilled(log);
    assert (log + [e])[..|log|] == log;
  }

  lemma LateRun()
    ensures Flow(Late()).device.fifo == [] && Opened(Late()) == 0 && |Log(Late())| == 710
    ensures forall i :: 0 <= i < 709 ==> Log(Late())[i].n == i + 1 && (Log(Late())[i].accepted == 3 <==> i < 10)
    ensures Log(Late())[709].accepted == 3 && Log(Late())[709].n == 710
  {
    var a := Fires(709);
    var b := a + [ReadUpTo(256)];
    var c := b + [Fire(0, 0)];
    FiresFill(709);
    WaveAlways(a);
    Drained(a);
    FireOnEmpty(b);
    Drained(c);
    assert forall i :: 0 <= i < 709 ==> Log(c)[i] == Log(c)[..709][i];
  }

  lemma LateFull()
    ensures var full := Full(Log(Late()));
      |full| == 11 && full[10].n == 710 && forall i :: 0 <= i < 10 ==> full[i].n == i + 1
  {
    LateRun();
    var log := Log(Late());
    assert log == log[..709] + [log[709]];
    LateLog(log[..709], log[709]);
  }

  /** The samples of ticks 10 and 710 are equal and are received in a row: 699 are lost
      between them, and the page's estimate is -1. */
  lemma CornerCountsBackwards()
    ensures var full := Full(Log(Late()));
      && |full| == 11 && full[9].n == 10 && full[10].n == 710
      && Missed(Late()) == 0 && |Flow(Late()).points| == 11
      && Lost(full) == 699 && Flow(Late()).client.skipped == -1
  {
    LateRun();
    LateFull();
    var full := Full(Log(Late()));
    PointsPairOwnTick(Late());
    assert Delivered(Late())[..0] == [] && full[0..11] == full;
    WaveAlways(Late());
    FullSelects(Log(Late()));
    LateGuess(full);
  }

  lemma LateGuess(full: seq<Entry>)
    requires |full| == 11 && Ascending(full) && Waved(full)
    requires full[10].n == 710 && forall i :: 0 <= i < 10 ==> full[i].n == i + 1
    ensures Lost(full) == 699 && Guess(full) == -1
  {
    var front := full[..10];
    LostTelescopes(full);
    LostTelescopes(front);
    NoneLost(front);
    WaveOnSlope(0, 10);
    WaveOnSlope(1, 350);
  }

  // ----------------------------------------------------------- a page opened too late

  lemma FireQueues(es: seq<Pipeline.Event>, sec: Word, usec: Word)
    requires Flow(es).device.fifo == []
    ensures var d := Flow(es + [Fire(sec, usec)]).device;
      d.fifo == Triple(sec, usec, d.value)
  {
    OneEvent(es, Fire(sec, usec));
    TickQueuesPrefix(Flow(es).device, sec, usec);
    var t := Triple(sec, usec, Tick(Flow(es).device, sec, usec).value);
    assert [] + t[..3] == t;
  }

  lemma ReadOne(es: seq<Pipeline.Event>)
    requires |Flow(es).device.fifo| == 3
    ensures Flow(es + [ReadUpTo(8)]).device == Flow(es).device.(fifo := Flow(es).device.fifo[1..])
  {
    WholeIs(8);
    OneEvent(es, ReadUpTo(8));
  }

  lemma SentAll(d: Device)
    requires |d.fifo| == 2
    ensures Sent(d, ReadUpTo(16)) == d.fifo
  {
    WholeIs(16);
    assert d.fifo[..2] == d.fifo;
  }

  lemma OpenThenRead(es: seq<Pipeline.Event>)
    requires |Flow(es).device.fifo| == 2
    ensures Flow(es + [Open] + [ReadUpTo(16)]).points == Points(FRESH, SeenAll(Flow(es).device.fifo))
  {
    var d := Flow(es).device;
    OneEvent(es, Open);
    WholeIs(16);
    assert Flow(es + [Open]) == System(d, FRESH, []);
    OneEvent(es + [Open], ReadUpTo(16));
    NextSent(d, FRESH, ReadUpTo(16));
    SentAll(d);
  }

  /** A page that opens when the seconds of a tick have been read but not the rest plots
      the tick's sample as if its seconds were 0. */
  lemma OpenedInside(es: seq<Pipeline.Event>, sec: Word, usec: Word)
    requires Flow(es).device.fifo == []
    ensures var fired := es + [Fire(sec, usec)];
      Flow(fired + [ReadUpTo(8)] + [Open] + [ReadUpTo(16)]).points
        == [Point(Stamp(0, Signed(usec)), Flow(fired).device.value as real)]
  {
    var fired := es + [Fire(sec, usec)];
    var value := Flow(fired).device.value;
    var t := Triple(sec, usec, value);
    FireQueues(es, sec, usec);
    ReadOne(fired);
    assert t[1..] == [t[1], t[2]];
    OpenThenRead(fired + [ReadUpTo(8)]);
    WaveAlways(fired);
    WaveSteps(|Log(fired)|);
    TwoRead(FRESH, t[1], t[2]);
    InsidePoints(t[1], t[2]);
  }

  lemma InsidePoints(u: Update, v: Update)
    requires u.source == USEC && v.source == XA0 && v.value <= 360
    ensures Plotted(FRESH, Seen(u)) + Plotted(ProcessReading(FRESH, Seen(u)), Seen(v))
         == [Point(Stamp(0, Signed(u.value)), v.value as real)]
  {
    var c := ProcessReading(FRESH, Seen(u));
    assert c == FRESH.(usec := Signed(u.value)) && Signed(v.value) == v.value;
    assert Plotted(FRESH, Seen(u)) == [];
    assert Plotted(c, Seen(v)) == [Point(Stamp(c.sec, c.usec), v.value as real)];
  }
}
