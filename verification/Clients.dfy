/** The page's reader of samples: pairs each sample with the time seen last and guesses
    how many samples were skipped. */
module Clients {
  import opened Options
  import opened SeriesModel
  import opened Integers
  import opened RecordCodec
  import opened Charts

  // The source numbers of the page's configuration.
  const SEC_ID := 1
  const USEC_ID := 2
  const XA0_ID := 3

  datatype Client = Client(sec: int, usec: int, last: int, skipped: int, datapoints: nat)

  const FRESH := Client(0, 0, 0, 0, 0)

  /** What two samples in a row add to the count of skipped ones. */
  function Gap(last: int, value: int): int {
    if last != 0 then AbsInt(AbsInt(last) - AbsInt(value)) - 1 else 0
  }

  /** The time in milliseconds. */
  function Stamp(sec: int, usec: int): real {
    sec as real * 1000.0 + usec as real / 1000.0
  }

  function ProcessReading(c: Client, r: Reading): Client {
    if r.source == USEC_ID then c.(usec := r.value)
    else if r.source == SEC_ID then c.(sec := r.value)
    else if r.source == XA0_ID then
      c.(last := r.value, skipped := c.skipped + Gap(c.last, r.value), datapoints := c.datapoints + 1)
    else c
  }

  /** The point a reading puts on the chart. */
  function Plotted(c: Client, r: Reading): seq<Point> {
    if r.source == XA0_ID then [Point(Stamp(c.sec, c.usec), r.value as real)] else []
  }

  /** A sample is plotted, as it is, at the microseconds of the time seen last. */
  lemma PlottedAt(c: Client, r: Reading)
    requires r.source == 3
    ensures |Plotted(c, r)| == 1 && Plotted(c, r)[0].v == r.value as real
    ensures Plotted(c, r)[0].t * 1000.0 == (c.sec * 1000000 + c.usec) as real
  {
  }

  /** Source 1 is the seconds, source 2 the microseconds; neither plots anything. */
  lemma TimeKept(c: Client, v: int)
    ensures ProcessReading(c, Reading(1, v)) == c.(sec := v) && Plotted(c, Reading(1, v)) == []
    ensures ProcessReading(c, Reading(2, v)) == c.(usec := v) && Plotted(c, Reading(2, v)) == []
  {
  }

  function After(c: Client, rs: seq<Reading>): Client
    decreases |rs|
  {
    if rs == [] then c else After(ProcessReading(c, rs[0]), rs[1..])
  }

  function Points(c: Client, rs: seq<Reading>): seq<Point>
    decreases |rs|
  {
    if rs == [] then [] else Plotted(c, rs[0]) + Points(ProcessReading(c, rs[0]), rs[1..])
  }

  /** A series that got the points one by one. */
  function WithPoints(s: Series, ps: seq<Point>): Series
    decreases |ps|
  {
    if ps == [] then s else WithPoints(Apply(s, Append(ps[0])), ps[1..])
  }

  class ClientPage {
    const timeSeries: TimeSeries
    var lastUpdateSec: int
    var lastUpdateUsec: int
    var lastValue: int
    var skipped: int
    var datapoints: nat

    function Model(): Client
      reads this
    {
      Client(lastUpdateSec, lastUpdateUsec, lastValue, skipped, datapoints)
    }

    constructor ()
      ensures Model() == FRESH
      ensures fresh(timeSeries) && timeSeries.Valid() && timeSeries.Model() == Run([])
    {
      timeSeries := new TimeSeries();
      lastUpdateSec, lastUpdateUsec, lastValue, skipped, datapoints := 0, 0, 0, 0, 0;
    }

    /** The page's chart, ten milliseconds to the pixel, shows the page's series. */
    method CreateTimeline() returns (chart: SmoothieChart)
      ensures fresh(chart) && chart.seriesSet == [timeSeries] && chart.millisPerPixel == 10.0
    {
      chart := new SmoothieChart(Some(10.0));
      chart.AddTimeSeries(timeSeries);
    }

    method ProcessData(data: Reading)
      modifies this, timeSeries
      ensures Model() == ProcessReading(old(Model()), data)
      ensures timeSeries.Model() == WithPoints(old(timeSeries.Model()), Plotted(old(Model()), data))
      ensures old(timeSeries.Valid()) ==> timeSeries.Valid()
    {
      if data.source == USEC_ID {
        lastUpdateUsec := data.value;
      } else if data.source == SEC_ID {
        lastUpdateSec := data.value;
      } else if data.source == XA0_ID {
        timeSeries.Append(Stamp(lastUpdateSec, lastUpdateUsec), data.value as real);
        if lastValue != 0 {
          skipped := skipped + AbsInt(AbsInt(lastValue) - AbsInt(data.value)) - 1;
        }
        datapoints := datapoints + 1;
        lastValue := data.value;
      }
    }

    /** One update event: the readings of one chunk, in order. */
    method OnUpdate(data: seq<Reading>)
      modifies this, timeSeries
      ensures Model() == After(old(Model()), data)
      ensures timeSeries.Model() == WithPoints(old(timeSeries.Model()), Points(old(Model()), data))
      ensures old(timeSeries.Valid()) ==> timeSeries.Valid()
    {
      for i := 0 to |data|
        invariant After(old(Model()), data) == After(Model(), data[i..])
        invariant WithPoints(old(timeSeries.Model()), Points(old(Model()), data))
               == WithPoints(timeSeries.Model(), Points(Model(), data[i..]))
        invariant old(timeSeries.Valid()) ==> timeSeries.Valid()
      {
        ghost var c, s := Model(), timeSeries.Model();
        assert data[i..][0] == data[i] && data[i..][1..] == data[i + 1..];
        WithPointsSplit(s, Plotted(c, data[i]), Points(ProcessReading(c, data[i]), data[i + 1..]));
        ProcessData(data[i]);
      }
    }
  }

  lemma {:induction false} WithPointsSplit(s: Series, p: seq<Point>, q: seq<Point>)
    ensures WithPoints(s, p + q) == WithPoints(WithPoints(s, p), q)
    decreases |p|
  {
    if p == [] {
      assert p + q == q;
    } else {
      assert (p + q)[1..] == p[1..] + q;
      WithPointsSplit(Apply(s, Append(p[0])), p[1..], q);
    }
  }

  /** Readings may be delivered in any number of updates. */
  lemma {:induction false} AfterSplit(c: Client, a: seq<Reading>, b: seq<Reading>)
    ensures After(c, a + b) == After(After(c, a), b)
    ensures Points(c, a + b) == Points(c, a) + Points(After(c, a), b)
    decreases |a|
  {
    if a == [] {
      assert a + b == b;
    } else {
      assert (a + b)[1..] == a[1..] + b;
      AfterSplit(ProcessReading(c, a[0]), a[1..], b);
    }
  }
}
