/** What holds after every run: the wave, the queue and the page. */
module PipelineRuns {
  import opened Options
  import opened SeriesModel
  import opened RecordCodec
  import opened Driver
  import opened Clients
  import opened Pipeline
  import opened PipelineWindows

  /** Everything read from the device. */
  function Delivered(es: seq<Pipeline.Event>): seq<Update> {
    if es == [] then []
    else
      var before, e := es[..|es| - 1], es[|es| - 1];
      Delivered(before) + Sent(Flow(before).device, e)
  }

  /** What was delivered and what is still queued make up the stream. */
  ghost predicate QueueInv(d: Device, log: seq<Entry>, delivered: seq<Update>) {
    && Logged(log)
    && |d.fifo| <= FIFO_SIZE
    && delivered + d.fifo == Stream(log)
  }

  /** How much had been delivered when the page was opened. */
  function Opened(es: seq<Pipeline.Event>): (j: nat)
    ensures j <= |Delivered(es)|
  {
    if es == [] then 0
    else
      var before, e := es[..|es| - 1], es[|es| - 1];
      if e.Open? then |Delivered(before)| else Opened(before)
  }

  /** The page is what the records delivered since it opened make of it. */
  ghost predicate PageInv(s: System, since: seq<Update>) {
    && s.client == After(FRESH, SeenAll(since))
    && s.points == Points(FRESH, SeenAll(since))
  }

  lemma QueueFires(d: Device, log: seq<Entry>, delivered: seq<Update>, e: Pipeline.Event)
    requires QueueInv(d, log, delivered) && e.Fire? && AddWrapping(d.value, d.dir) <= 360
    ensures QueueInv(NextDevice(d, e), LogNext(log, d, e), delivered)
  {
    var entry := LogNext(log, d, e)[|log|];
    TickQueuesPrefix(d, e.sec, e.usec);
    assert Logged(log + [entry]);
    LogPush(log, entry);
    assert delivered + (d.fifo + Part(entry)) == (delivered + d.fifo) + Part(entry);
  }

  lemma QueueReads(d: Device, log: seq<Entry>, delivered: seq<Update>, e: Pipeline.Event)
    requires QueueInv(d, log, delivered) && e.ReadUpTo?
    ensures QueueInv(NextDevice(d, e), log, delivered + Sent(d, e))
  {
    var n := Taken(d, Whole(e.count));
    assert delivered + d.fifo[..n] + d.fifo[n..] == delivered + d.fifo;
  }

  lemma SmallSample(d: Device, n: nat)
    requires OnWave(d, n)
    ensures AddWrapping(d.value, d.dir) <= 360
  {
    TickOnWave(d, n, 0, 0);
    WaveSteps(n + 1);
  }

  lemma QueueStep(d: Device, log: seq<Entry>, delivered: seq<Update>, e: Pipeline.Event)
    requires QueueInv(d, log, delivered) && OnWave(d, |log|)
    ensures QueueInv(NextDevice(d, e), LogNext(log, d, e), delivered + Sent(d, e))
  {
    if e.Fire? {
      SmallSample(d, |log|);
      QueueFires(d, log, delivered, e);
      assert delivered + [] == delivered;
    } else if e.Open? {
      assert delivered + [] == delivered;
    } else {
      QueueReads(d, log, delivered, e);
    }
  }

  ghost predicate WaveInv(d: Device, log: seq<Entry>) {
    && OnWave(d, |log|)
    && Waved(log)
    && forall i :: 0 <= i < |log| ==> log[i].n == i + 1
  }

  lemma WaveStep(d: Device, log: seq<Entry>, e: Pipeline.Event)
    requires WaveInv(d, log)
    ensures WaveInv(NextDevice(d, e), LogNext(log, d, e))
  {
    if e.Fire? {
      TickOnWave(d, |log|, e.sec, e.usec);
    }
  }

  lemma PageFresh(s: System)
    requires s.client == FRESH && s.points == []
    ensures PageInv(s, [])
  {
    assert SeenAll([]) == [];
  }

  lemma PageStep(s: System, since: seq<Update>, e: Pipeline.Event)
    requires PageInv(s, since) && !e.Open?
    ensures PageInv(Next(s, e), since + Sent(s.device, e))
  {
    var taken := Sent(s.device, e);
    DecodeEncode(taken);
    SeenSplit(since, taken);
    AfterSplit(FRESH, SeenAll(since), SeenAll(taken));
  }

  /** After any number of ticks, whatever was read between, the sample is on the wave,
      the direction is the slope of its next step, and every tick sent the wave's value. */
  lemma {:induction false} WaveAlways(es: seq<Pipeline.Event>)
    ensures WaveInv(Flow(es).device, Log(es))
  {
    if es == [] {
      WaveSteps(0);
    } else {
      var before := es[..|es| - 1];
      WaveAlways(before);
      WaveStep(Flow(before).device, Log(before), es[|es| - 1]);
    }
  }

  lemma {:induction false} QueueAlways(es: seq<Pipeline.Event>)
    ensures QueueInv(Flow(es).device, Log(es), Delivered(es))
  {
    if es == [] {
    } else {
      var before := es[..|es| - 1];
      QueueAlways(before);
      WaveAlways(before);
      QueueStep(Flow(before).device, Log(before), Delivered(before), es[|es| - 1]);
    }
  }

  lemma OneEvent(es: seq<Pipeline.Event>, e: Pipeline.Event)
    ensures var run := es + [e];
      && Flow(run) == Next(Flow(es), e)
      && Delivered(run) == Delivered(es) + Sent(Flow(es).device, e)
      && Opened(run) == if e.Open? then |Delivered(es)| else Opened(es)
  {
    assert (es + [e])[..|es|] == es;
  }

  lemma SinceOpened(us: seq<Update>, more: seq<Update>, j: nat)
    requires j <= |us|
    ensures (us + more)[j..] == us[j..] + more
  {
  }

  lemma {:induction false} PageAlways(es: seq<Pipeline.Event>)
    ensures PageInv(Flow(es), Delivered(es)[Opened(es)..])
  {
    if es == [] {
      PageFresh(Flow(es));
    } else {
      var before, e := es[..|es| - 1], es[|es| - 1];
      assert es == before + [e];
      OneEvent(before, e);
      SinceOpened(Delivered(before), Sent(Flow(before).device, e), Opened(es));
      if e.Open? {
        assert Delivered(es)[Opened(es)..] == [];
        PageFresh(Flow(es));
      } else {
        PageAlways(before);
        PageStep(Flow(before), Delivered(before)[Opened(before)..], e);
      }
    }
  }

  /** How many samples had been delivered when the page was opened. */
  function Missed(es: seq<Pipeline.Event>): nat { Samples(Delivered(es)[..Opened(es)]) }

  lemma WindowOf(es: seq<Pipeline.Event>)
    ensures Logged(Log(es)) && Opened(es) <= |Delivered(es)| <= |Stream(Log(es))|
    ensures PlotsWindow(Stream(Log(es)), Full(Log(es)), Torn(Log(es), Opened(es)), Opened(es), |Delivered(es)|)
    ensures Stream(Log(es)) == Delivered(es) + Flow(es).device.fifo
    ensures Samples(Stream(Log(es))) == |Full(Log(es))|
  {
    QueueAlways(es);
    PlotsAnyWindow(Log(es), Opened(es), |Delivered(es)|);
    StreamSamples(Log(es));
  }

  /** The page shows the ticks of `full` from `a` on. */
  ghost predicate Shows(s: System, full: seq<Entry>, a: nat, torn: Option<Point>) {
    a + |s.points| <= |full| && View(full[a..a + |s.points|], torn, s.client, s.points)
  }

  /** Whenever the page was opened, its points are those of the ticks whose sample was
      queued, in order, from the first it could see up to the samples still queued. Every
      point is a sample with its own tick's time, but the first if the page opened inside
      that tick's triple: then it has the sample with what was left of its time. */
  lemma PointsPairOwnTick(es: seq<Pipeline.Event>)
    ensures Logged(Log(es)) && Shows(Flow(es), Full(Log(es)), Missed(es), Torn(Log(es), Opened(es)))
    ensures Missed(es) + |Flow(es).points| + Samples(Flow(es).device.fifo) == |Full(Log(es))|
  {
    WindowOf(es);
    PageAlways(es);
    var us, queued := Delivered(es), Flow(es).device.fifo;
    WindowShown(Flow(es), us, queued, Stream(Log(es)), Full(Log(es)), Torn(Log(es), Opened(es)), Opened(es));
  }

  lemma WindowShown(s: System, us: seq<Update>, queued: seq<Update>, all: seq<Update>, full: seq<Entry>,
                    torn: Option<Point>, j: nat)
    requires j <= |us| && all == us + queued && PageInv(s, us[j..])
    requires PlotsWindow(all, full, torn, j, |us|) && Samples(all) == |full|
    ensures Shows(s, full, Samples(us[..j]), torn)
    ensures Samples(us[..j]) + |s.points| + Samples(queued) == |full|
  {
    var a := Samples(us[..j]);
    WindowPlots(us, queued, full, torn, j);
    ShownView(s, us[j..], full, a, torn);
    SamplesSplit(us, queued);
    Halves(us, j);
  }

  lemma ShownView(s: System, since: seq<Update>, full: seq<Entry>, a: nat, torn: Option<Point>)
    requires a <= |full| && PageInv(s, since) && Plots(since, torn, full[a..])
    ensures |s.points| == Samples(since) && Shows(s, full, a, torn)
  {
    ShownFrom(s, since, full[a..], torn);
    IsShown(s, full, a, torn);
  }

  lemma IsShown(s: System, full: seq<Entry>, a: nat, torn: Option<Point>)
    requires a + |s.points| <= |full| && View(full[a..][..|s.points|], torn, s.client, s.points)
    ensures Shows(s, full, a, torn)
  {
    SliceSlice(full, a, |s.points|);
  }

  lemma ShownFrom(s: System, since: seq<Update>, f: seq<Entry>, torn: Option<Point>)
    requires PageInv(s, since) && Plots(since, torn, f)
    ensures |s.points| == Samples(since) <= |f| && View(f[..|s.points|], torn, s.client, s.points)
  {
  }

  lemma SliceSlice(full: seq<Entry>, a: nat, k: nat)
    requires a + k <= |full|
    ensures full[a..][..k] == full[a..a + k]
  {
  }

  /** A page that was there from the start, or opened where no triple was under way,
      has no torn point. */
  lemma {:induction false} WholeFromBoundary(log: seq<Entry>, i: nat)
    requires Logged(log) && i <= |log|
    ensures Logged(log[..i]) && Torn(log, |Stream(log[..i])|) == None
  {
    if i == |log| {
      assert log[..i] == log;
      NoneAhead(log);
    } else {
      var front, e := log[..|log| - 1], log[|log| - 1];
      assert log == front + [e];
      LogPush(front, e);
      WholeFromBoundary(front, i);
      assert front[..i] == log[..i];
      StreamGrows(front, i);
    }
  }

  lemma NoneAhead(log: seq<Entry>)
    requires Logged(log)
    ensures Torn(log, |Stream(log)|) == None
  {
    TornAhead(log, |Stream(log)|);
    StreamSamples(log);
    assert Stream(log)[..|Stream(log)|] == Stream(log);
  }

  lemma {:induction false} StreamGrows(log: seq<Entry>, i: nat)
    requires Logged(log) && i <= |log|
    ensures Logged(log[..i]) && |Stream(log[..i])| <= |Stream(log)|
  {
    if i == |log| {
      assert log[..i] == log;
    } else {
      var front := log[..|log| - 1];
      StreamGrows(front, i);
      assert front[..i] == log[..i];
    }
  }
}
