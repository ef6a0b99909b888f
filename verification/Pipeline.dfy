/** Device, byte stream, decoder and page together, over any interleaving of timer ticks,
    reads and page openings. */
module Pipeline {
  import opened Options
  import opened SeriesModel
  import opened RecordCodec
  import opened Driver
  import opened Clients
  import Charts

  /** The timer fires, the device is read, or a page is opened, anew or again. */
  datatype Event = Fire(sec: Word, usec: Word) | ReadUpTo(count: nat) | Open

  /** The device, the counters of the page opened last, and every point it has plotted.
      A first page is there from the start. */
  datatype System = System(device: Device, client: Client, points: seq<Point>)

  function Receive(s: System, data: Bytes): System {
    var d := DecodeData(data);
    if d.Decoded? then
      s.(client := After(s.client, d.updates), points := s.points + Points(s.client, d.updates))
    else s
  }

  function Next(s: System, e: Event): System {
    if e.Open? then s.(client := FRESH, points := [])
    else Receive(s.(device := NextDevice(s.device, e)), EncodeAll(Sent(s.device, e)))
  }

  function NextDevice(d: Device, e: Event): Device {
    match e
    case Fire(sec, usec) => Tick(d, sec, usec)
    case ReadUpTo(count) => Take(d, Whole(count))
    case Open => d
  }

  /** The records an event hands to the reader. */
  function Sent(d: Device, e: Event): seq<Update> {
    match e
    case ReadUpTo(count) => d.fifo[..Taken(d, Whole(count))]
    case _ => []
  }

  function Flow(es: seq<Event>): System {
    if es == [] then System(START, FRESH, []) else Next(Flow(es[..|es| - 1]), es[|es| - 1])
  }

  /** The page's past points decide nothing. */
  lemma NextPoints(s: System, e: Event)
    ensures var t := Next(s.(points := []), e);
      Next(s, e) == t.(points := if e.Open? then [] else s.points + t.points)
  {
    if e.Open? {
    } else {
      var d := DecodeData(EncodeAll(Sent(s.device, e)));
      if d.Decoded? {
        assert [] + Points(s.client, d.updates) == Points(s.client, d.updates);
      } else {
        assert s.points + [] == s.points;
      }
    }
  }

  /** One event, on the device and the page themselves: `page'` is the page after it. */
  method Happen(device: LophiloDevice, page: ClientPage, e: Event) returns (page': ClientPage)
    requires device.Valid()
    modifies device, device.updates, page, page.timeSeries
    ensures device.Valid()
    ensures if e.Open? then fresh(page') && fresh(page'.timeSeries) else page' == page
    ensures var s := Next(System(old(device.Model()), old(page.Model()), []), e);
      && device.Model() == s.device && page'.Model() == s.client
      && page'.timeSeries.Model()
           == WithPoints(if e.Open? then Run([]) else old(page.timeSeries.Model()), s.points)
    ensures old(page.timeSeries.Valid()) ==> page'.timeSeries.Valid()
  {
    NextSent(device.Model(), page.Model(), e);
    if e.Open? {
      page' := new ClientPage();
    } else if e.Fire? {
      page' := page;
      assert SeenAll([]) == [];
      device.OnTimer(e.sec, e.usec);
    } else {
      page' := page;
      ghost var taken := Serve(device, page, e.count);
    }
  }

  /** What is read from the device goes through the decoder to the page. */
  method Serve(device: LophiloDevice, page: ClientPage, count: nat) returns (ghost taken: seq<Update>)
    requires device.Valid()
    modifies device`fifo, page, page.timeSeries
    ensures device.Valid()
    ensures device.Model() == Take(old(device.Model()), Whole(count))
    ensures taken == old(device.fifo)[..Taken(old(device.Model()), Whole(count))]
    ensures page.Model() == After(old(page.Model()), SeenAll(taken))
    ensures page.timeSeries.Model()
         == WithPoints(old(page.timeSeries.Model()), Points(old(page.Model()), SeenAll(taken)))
    ensures old(page.timeSeries.Valid()) ==> page.timeSeries.Valid()
  {
    var outcome;
    outcome, taken := device.Read(count, true);
    if outcome.Copied? {
      SendUpdates(page, outcome.data, taken);
    } else {
      NoneSent(page.Model(), page.timeSeries.Model());
    }
  }

  lemma NoneSent(c: Client, s: Series)
    ensures After(c, SeenAll([])) == c && WithPoints(s, Points(c, SeenAll([]))) == s
  {
    assert SeenAll([]) == [];
  }

  /** One chunk, the bytes of the records `us`, is decoded and sent to the page. */
  method SendUpdates(page: ClientPage, data: Bytes, ghost us: seq<Update>)
    requires data == EncodeAll(us)
    modifies page, page.timeSeries
    ensures page.Model() == After(old(page.Model()), SeenAll(us))
    ensures page.timeSeries.Model()
         == WithPoints(old(page.timeSeries.Model()), Points(old(page.Model()), SeenAll(us)))
    ensures old(page.timeSeries.Valid()) ==> page.timeSeries.Valid()
  {
    DecodeEncode(us);
    var r := OnData(data);
    page.OnUpdate(r.updates);
  }

  /** One event as the page sees it. */
  lemma NextSent(d: Device, c: Client, e: Event)
    ensures var s := Next(System(d, c, []), e);
      && s.device == NextDevice(d, e)
      && (e.Open? ==> s.client == FRESH && s.points == [])
      && (!e.Open? ==> s.client == After(c, SeenAll(Sent(d, e))) && s.points == Points(c, SeenAll(Sent(d, e))))
  {
    var sent := Sent(d, e);
    DecodeEncode(sent);
    assert [] + Points(c, SeenAll(sent)) == Points(c, SeenAll(sent));
  }

  // ---------------------------------------------------------------- the tick log

  /** A tick: its number from 1, its time and sample, and how much of its triple the
      queue had room for. */
  datatype Entry = Entry(n: nat, sec: Word, usec: Word, value: Word, accepted: nat)

  function Log(es: seq<Event>): seq<Entry> {
    if es == [] then []
    else
      var before, e := es[..|es| - 1], es[|es| - 1];
      LogNext(Log(before), Flow(before).device, e)
  }

  function LogNext(log: seq<Entry>, d: Device, e: Event): seq<Entry> {
    if e.Fire? then
      log + [Entry(|log| + 1, e.sec, e.usec, Tick(d, e.sec, e.usec).value, Accepted(d))]
    else log
  }

  /** What a tick queued. */
  function Part(e: Entry): (p: seq<Update>)
    requires e.accepted <= 3
  {
    Triple(e.sec, e.usec, e.value)[..e.accepted]
  }

  ghost predicate Logged(log: seq<Entry>) {
    forall i :: 0 <= i < |log| ==> log[i].n == i + 1 && log[i].value <= 360 && log[i].accepted <= 3
  }

  /** Each tick's sample is the wave's value at the tick's number. */
  ghost predicate Waved(log: seq<Entry>) {
    forall i :: 0 <= i < |log| ==> log[i].value == Wave(log[i].n)
  }

  /** Everything queued, in order. */
  function Stream(log: seq<Entry>): seq<Update>
    requires Logged(log)
  {
    if log == [] then [] else Stream(log[..|log| - 1]) + Part(log[|log| - 1])
  }

  /** The ticks that got their sample into the queue. */
  function Full(log: seq<Entry>): (f: seq<Entry>)
    ensures |f| <= |log|
  {
    if log == [] then []
    else
      var f, e := Full(log[..|log| - 1]), log[|log| - 1];
      if e.accepted == 3 then f + [e] else f
  }

  function PointOf(e: Entry): Point { Point(Stamp(Signed(e.sec), Signed(e.usec)), e.value as real) }

  function PointsOf(ss: seq<Entry>): (ps: seq<Point>)
    ensures |ps| == |ss| && forall i :: 0 <= i < |ss| ==> ps[i] == PointOf(ss[i])
  {
    seq(|ss|, i requires 0 <= i < |ss| => PointOf(ss[i]))
  }

  /** The page's estimate of skipped samples after plotting those of the ticks `ss`. */
  function Guess(ss: seq<Entry>): int {
    if |ss| < 2 then 0 else Guess(ss[..|ss| - 1]) + Gap(ss[|ss| - 2].value, ss[|ss| - 1].value)
  }

  /** The samples lost between those of the ticks `ss`. */
  function Lost(ss: seq<Entry>): int {
    if |ss| < 2 then 0 else Lost(ss[..|ss| - 1]) + ss[|ss| - 1].n - ss[|ss| - 2].n - 1
  }

  /** The points of the ticks `ss`, but that the first may be `torn`: plotted by a page
      that opened inside the tick's triple. */
  function PlotOf(ss: seq<Entry>, torn: Option<Point>): (ps: seq<Point>)
    ensures |ps| == |ss|
    ensures forall i :: 0 <= i < |ss| && (i > 0 || torn.None?) ==> ps[i] == PointOf(ss[i])
    ensures torn.Some? && ss != [] ==> ps[0] == torn.value
  {
    if torn.Some? && ss != [] then [torn.value] + PointsOf(ss)[1..] else PointsOf(ss)
  }

  /** A page that has plotted the samples of exactly the ticks `ss`. */
  ghost predicate View(ss: seq<Entry>, torn: Option<Point>, c: Client, points: seq<Point>) {
    && points == PlotOf(ss, torn)
    && c.datapoints == |ss|
    && c.skipped == Guess(ss)
    && c.last == (if ss == [] then 0 else ss[|ss| - 1].value)
  }

  /** What a page plots first that opens after `j` records of the stream, if these end
      inside a whole triple: the sample with as much of its time as was still to come. */
  function Torn(log: seq<Entry>, j: nat): Option<Point>
    requires Logged(log)
  {
    if log == [] then None
    else
      var front, e := log[..|log| - 1], log[|log| - 1];
      var n := |Stream(front)|;
      if j <= n then Torn(front, j)
      else if e.accepted == 3 && j < n + 3 then Some(TornPoint(e, j - n))
      else None
  }

  /** The sample of a triple that was entered after one or two of its records. */
  function TornPoint(e: Entry, p: nat): Point {
    Point(Stamp(0, if p == 1 then Signed(e.usec) else 0), e.value as real)
  }
}
