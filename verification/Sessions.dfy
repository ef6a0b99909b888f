/** Whole runs on the device and page themselves, and the chart drawn from them. */
module Sessions {
  import opened SeriesModel
  import opened RecordCodec
  import opened Driver
  import opened Clients
  import opened Charts
  import opened Edges
  import opened PipelineTimes
  import opened Pipeline

  /** The page's series after some points and then one more event's. */
  lemma SeriesNext(s: System, e: Pipeline.Event)
    ensures var t := Next(s.(points := []), e);
      && Next(s, e).device == t.device && Next(s, e).client == t.client
      && WithPoints(Run([]), Next(s, e).points)
           == WithPoints(if e.Open? then Run([]) else WithPoints(Run([]), s.points), t.points)
  {
    NextPoints(s, e);
    var t := Next(s.(points := []), e);
    if !e.Open? {
      WithPointsSplit(Run([]), s.points, t.points);
    }
  }

  /** What a run of events leaves of the device and of the page opened last is what the
      model says, and the page's series has got just the points of the model. */
  method Session(es: seq<Pipeline.Event>) returns (device: LophiloDevice, page: ClientPage)
    ensures fresh(device) && fresh(device.updates) && fresh(page) && fresh(page.timeSeries)
    ensures device.Valid() && page.timeSeries.Valid()
    ensures device.Model() == Flow(es).device && page.Model() == Flow(es).client
    ensures page.timeSeries.Model() == WithPoints(Run([]), Flow(es).points)
  {
    device := new LophiloDevice();
    page := new ClientPage();
    for i := 0 to |es|
      invariant fresh(device) && fresh(device.updates) && fresh(page) && fresh(page.timeSeries)
      invariant device.Valid() && page.timeSeries.Valid()
      invariant device.Model() == Flow(es[..i]).device && page.Model() == Flow(es[..i]).client
      invariant page.timeSeries.Model() == WithPoints(Run([]), Flow(es[..i]).points)
    {
      assert es[..i + 1][..i] == es[..i];
      SeriesNext(Flow(es[..i]), es[i]);
      page := Happen(device, page, es[i]);
    }
    assert es[..|es|] == es;
  }

  lemma {:induction false} SeriesData(s: Series, ps: seq<Point>)
    ensures WithPoints(s, ps).data == s.data + ps
    decreases |ps|
  {
    if ps == [] {
      assert s.data + [] == s.data;
    } else {
      SeriesData(Apply(s, Append(ps[0])), ps[1..]);
      assert s.data + [ps[0]] + ps[1..] == s.data + ps;
    }
  }

  /** After any run, the page's chart draws exactly the points the page has plotted, pruned
      at the chart's left edge, ten milliseconds to the pixel. While the clock advanced, no
      point that the chart is wide enough for is missing. */
  method Display(es: seq<Pipeline.Event>, time: real, width: nat)
    returns (page: ClientPage, chart: SmoothieChart, ghost edge: real)
    ensures chart.seriesSet == [page.timeSeries] && page.timeSeries.Valid()
    ensures page.Model() == Flow(es).client
    ensures IsEdge(edge, time, 10.0, width) && page.timeSeries.data == Prune(Flow(es).points, edge)
    ensures page.timeSeries.Model().bounds == WithPoints(Run([]), Flow(es).points).bounds
    ensures time >= 0.0 ==> NoneHidden(page.timeSeries.data, time, 10.0, width)
    ensures time >= 0.0 && ClockAdvances(Log(es)) ==> AllVisible(Flow(es).points, page.timeSeries.data, time, 10.0, width)
  {
    var device;
    device, page := Session(es);
    PlottedData(Flow(es).points);
    PointsOrdered(es);
    chart, edge := Draw(page, time, width);
  }

  lemma PlottedData(ps: seq<Point>)
    ensures WithPoints(Run([]), ps).data == ps
  {
    SeriesData(Run([]), ps);
    assert [] + ps == ps;
  }

  /** The page's chart, as it is drawn for the first time. */
  method Draw(page: ClientPage, time: real, width: nat) returns (chart: SmoothieChart, ghost edge: real)
    requires page.timeSeries.Valid()
    modifies page.timeSeries
    ensures chart.seriesSet == [page.timeSeries] && page.timeSeries.Valid()
    ensures IsEdge(edge, time, 10.0, width)
    ensures page.timeSeries.Model() == Apply(old(page.timeSeries.Model()), SeriesModel.Render(edge))
    ensures time >= 0.0 ==> NoneHidden(page.timeSeries.data, time, 10.0, width)
    ensures time >= 0.0 && Ordered(old(page.timeSeries.data)) ==>
      AllVisible(old(page.timeSeries.data), page.timeSeries.data, time, 10.0, width)
  {
    chart := page.CreateTimeline();
    assert page.timeSeries in chart.seriesSet;
    edge := chart.Render(time, width);
  }
}
