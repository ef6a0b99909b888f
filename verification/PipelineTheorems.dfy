/** What the page's points and its estimate of skipped samples are worth. */
module PipelineTheorems {
  import opened Options
  import opened Integers
  import opened SeriesModel
  import opened RecordCodec
  import opened Driver
  import opened Clients
  import opened Pipeline
  import opened PipelineWindows
  import opened PipelineRuns

  // ----------------------------------------------------------------- no overflow

  lemma {:induction false} AllFull(log: seq<Entry>)
    requires forall i :: 0 <= i < |log| ==> log[i].accepted == 3
    ensures Full(log) == log
  {
    if log == [] {
    } else {
      AllFull(log[..|log| - 1]);
    }
  }

  /** The plotted time is the tick's as long as its two numbers fit 31 bits. */
  lemma TrueTime(e: Entry)
    requires e.sec < 0x8000_0000 && e.usec < 0x8000_0000
    ensures PointOf(e).t == Stamp(e.sec, e.usec)
  {
    FieldCongruent(e.sec);
    FieldCongruent(e.usec);
  }

  /** When no put was ever discarded the page has exactly one point for each tick
      delivered since it could see a sample, in order, each at its tick's time but for a
      torn first one. */
  lemma OnePointPerTick(es: seq<Pipeline.Event>)
    requires forall i :: 0 <= i < |Log(es)| ==> Log(es)[i].accepted == 3
    ensures Logged(Log(es))
    ensures Shows(Flow(es), Log(es), Missed(es), Torn(Log(es), Opened(es)))
    ensures Missed(es) + |Flow(es).points| + Samples(Flow(es).device.fifo) == |Log(es)|
  {
    AllFull(Log(es));
    PointsPairOwnTick(es);
  }

  // ------------------------------------------------------------- what the wave allows

  /** Two ticks within one slope of the wave, corners included. */
  predicate SameSlope(m: nat, n: nat) { m < n && (n - 1) / 360 == m / 360 }

  lemma {:induction false} WaveLipschitz(m: nat, n: nat)
    requires m <= n
    ensures -(n - m) <= Wave(n) - Wave(m) <= n - m
    decreases n
  {
    if m >= n {
    } else {
      WaveLipschitz(m, n - 1);
      WaveSteps(n - 1);
    }
  }

  /** The wave rises on even slopes and falls on odd ones, from corner to corner. */
  lemma WaveOnSlope(q: nat, r: nat)
    requires r <= 360
    ensures Wave(360 * q + r) == (if q % 2 == 0 then r else 360 - r)
  {
    var n, h := 360 * q + r, q / 2;
    if q % 2 == 0 {
      assert q == 2 * h;
      Phase(n, h, r);
    } else {
      assert q == 2 * h + 1;
      if r < 360 {
        Phase(n, h, 360 + r);
      } else {
        Phase(n, h + 1, 0);
      }
    }
  }

  lemma SlopeEnds(m: nat, n: nat)
    requires m < n
    ensures SameSlope(m, n) <==> n <= 360 * (m / 360) + 360
  {
  }

  /** Samples differ by as much as their ticks exactly within one slope. */
  lemma DistanceIsTime(m: nat, n: nat)
    requires m < n
    ensures AbsInt(Wave(m) - Wave(n)) <= n - m
    ensures AbsInt(Wave(m) - Wave(n)) == n - m <==> SameSlope(m, n)
  {
    WaveLipschitz(m, n);
    SlopeEnds(m, n);
    var q, a := m / 360, m % 360;
    WaveOnSlope(q, a);
    assert m == 360 * q + a;
    if SameSlope(m, n) {
      WaveOnSlope(q, n - 360 * q);
    } else {
      PastCorner(q, a, n);
    }
  }

  lemma PastCorner(q: nat, a: nat, n: nat)
    requires a < 360 && n > 360 * q + 360
    ensures AbsInt(Wave(360 * q + a) - Wave(n)) < n - (360 * q + a)
  {
    WaveOnSlope(q, a);
    WaveOnSlope(q, 360);
    WaveLipschitz(360 * q + 360, n);
    WaveSteps(n);
  }

  /** Two samples in a row whose gap the page gets right. */
  predicate Fair(m: nat, n: nat) {
    n == m + 1 || (m % 720 != 0 && SameSlope(m, n))
  }

  lemma GapAtMostLost(m: nat, n: nat)
    requires m < n
    ensures Gap(Wave(m), Wave(n)) <= n - m - 1
    ensures Gap(Wave(m), Wave(n)) == n - m - 1 <==> Fair(m, n)
  {
    WaveSteps(m);
    WaveSteps(n);
    DistanceIsTime(m, n);
    if n == m + 1 {
      assert SameSlope(m, n);
    }
  }

  // --------------------------------------------------------------- the estimate

  ghost predicate Ascending(ss: seq<Entry>) {
    forall i, j :: 0 <= i < j < |ss| ==> ss[i].n < ss[j].n
  }

  /** Every received sample but the first follows one the page can judge it by. */
  ghost predicate AllFair(ss: seq<Entry>) {
    forall i :: 0 < i < |ss| ==> Fair(ss[i - 1].n, ss[i].n)
  }

  lemma {:induction false} GuessAtMostLost(ss: seq<Entry>)
    requires Ascending(ss) && Waved(ss)
    ensures Guess(ss) <= Lost(ss)
    ensures Guess(ss) == Lost(ss) <==> AllFair(ss)
    ensures Lost(ss) >= 0
  {
    if |ss| < 2 {
    } else {
      var front, m, n := ss[..|ss| - 1], ss[|ss| - 2].n, ss[|ss| - 1].n;
      GuessAtMostLost(front);
      GapAtMostLost(m, n);
      if AllFair(front) && Fair(m, n) {
        forall i | 0 < i < |ss| ensures Fair(ss[i - 1].n, ss[i].n) {
          if i < |front| {
            assert Fair(front[i - 1].n, front[i].n);
          }
        }
      } else if AllFair(ss) {
        assert Fair(ss[|ss| - 1 - 1].n, ss[|ss| - 1].n);
        forall i | 0 < i < |front| ensures Fair(front[i - 1].n, front[i].n) {
          assert Fair(ss[i - 1].n, ss[i].n);
        }
      }
    }
  }

  /** No sample lost means no sample guessed lost. */
  lemma {:induction false} NoneLost(ss: seq<Entry>)
    requires Ascending(ss) && Waved(ss) && Lost(ss) == 0
    ensures Guess(ss) == 0
  {
    if |ss| < 2 {
    } else {
      var front, m, n := ss[..|ss| - 1], ss[|ss| - 2].n, ss[|ss| - 1].n;
      GuessAtMostLost(front);
      NoneLost(front);
      GapAtMostLost(m, n);
    }
  }

  /** The selected ticks of a log: in order, from 1 to `n`. */
  ghost predicate Selected(ss: seq<Entry>, n: nat) {
    Ascending(ss) && forall i :: 0 <= i < |ss| ==> 1 <= ss[i].n <= n
  }

  lemma SelectedMore(ss: seq<Entry>, e: Entry, n: nat)
    requires Selected(ss, n) && e.n == n + 1
    ensures Selected(ss + [e], n + 1) && Selected(ss, n + 1)
    ensures Waved(ss) && e.value == Wave(e.n) ==> Waved(ss + [e])
  {
  }

  lemma {:induction false} FullSelects(log: seq<Entry>)
    requires forall i :: 0 <= i < |log| ==> log[i].n == i + 1
    ensures Selected(Full(log), |log|)
    ensures Waved(log) ==> Waved(Full(log))
  {
    if log == [] {
    } else {
      var front, e := log[..|log| - 1], log[|log| - 1];
      FullSelects(front);
      SelectedMore(Full(front), e, |front|);
      assert Waved(log) ==> Waved(front) && e.value == Wave(e.n);
    }
  }

  lemma StretchOf(ss: seq<Entry>, a: nat, b: nat)
    requires Ascending(ss) && Waved(ss) && a <= b <= |ss|
    ensures Ascending(ss[a..b]) && Waved(ss[a..b])
  {
  }

  /** The page that shows the ticks of `full` from `a` on: its estimate is at most the
      number of samples lost between them, is 0 when none was lost, and is right exactly
      when it can judge each sample by the one before. */
  ghost predicate Judged(s: System, full: seq<Entry>, a: nat) {
    a + |s.points| <= |full| && Estimates(s.client.skipped, full[a..a + |s.points|])
  }

  ghost predicate Estimates(skipped: int, got: seq<Entry>) {
    && skipped <= Lost(got)
    && (Lost(got) == 0 ==> skipped == 0)
    && (skipped == Lost(got) <==> AllFair(got))
  }

  lemma ShowsGuess(s: System, full: seq<Entry>, a: nat, torn: Option<Point>)
    requires Shows(s, full, a, torn)
    ensures a + |s.points| <= |full| && s.client.skipped == Guess(full[a..a + |s.points|])
  {
  }

  lemma StretchJudged(full: seq<Entry>, a: nat, b: nat)
    requires Ascending(full) && Waved(full) && a <= b <= |full|
    ensures Estimates(Guess(full[a..b]), full[a..b])
  {
    StretchOf(full, a, b);
    GuessJudged(full[a..b]);
  }

  lemma ShowsJudged(s: System, full: seq<Entry>, a: nat, torn: Option<Point>)
    requires Shows(s, full, a, torn) && Ascending(full) && Waved(full)
    ensures Judged(s, full, a)
  {
    ShowsGuess(s, full, a, torn);
    StretchJudged(full, a, a + |s.points|);
  }

  /** At every moment, whenever the page was opened, the estimate is at most the number of
      samples lost between the received ones, is 0 when none was lost, and is right exactly
      when each received sample is the very next one, or lies on the same slope of the wave
      as the one before and that one is not 0. */
  lemma SkippedAtMostLost(es: seq<Pipeline.Event>)
    ensures Judged(Flow(es), Full(Log(es)), Missed(es))
  {
    PointsPairOwnTick(es);
    WaveAlways(es);
    FullSelects(Log(es));
    ShowsJudged(Flow(es), Full(Log(es)), Missed(es), Torn(Log(es), Opened(es)));
  }

  lemma GuessJudged(got: seq<Entry>)
    requires Ascending(got) && Waved(got)
    ensures Estimates(Guess(got), got)
  {
    GuessAtMostLost(got);
    if Lost(got) == 0 {
      NoneLost(got);
    }
  }

  // ------------------------------------------------------- what "lost" counts

  /** The ticks in a stretch of the log whose sample found no room. */
  function Discarded(log: seq<Entry>): nat {
    if log == [] then 0 else Discarded(log[..|log| - 1]) + (if log[|log| - 1].accepted == 3 then 0 else 1)
  }

  lemma {:induction false} DiscardedSplit(a: seq<Entry>, b: seq<Entry>)
    ensures Discarded(a + b) == Discarded(a) + Discarded(b)
    decreases |b|
  {
    if b == [] {
      assert a + b == a;
    } else {
      assert (a + b)[..|a + b| - 1] == a + b[..|b| - 1];
      DiscardedSplit(a, b[..|b| - 1]);
    }
  }

  lemma {:induction false} FullOrDiscarded(log: seq<Entry>)
    ensures |Full(log)| + Discarded(log) == |log|
  {
    if log == [] {
    } else {
      FullOrDiscarded(log[..|log| - 1]);
    }
  }

  /** Up to the k-th tick that was fully queued there are k such ticks. */
  lemma {:induction false} FullUpTo(log: seq<Entry>, k: nat)
    requires forall i :: 0 <= i < |log| ==> log[i].n == i + 1
    requires 1 <= k <= |Full(log)|
    ensures var j := Full(log)[k - 1].n; 1 <= j <= |log| && log[j - 1].accepted == 3 && |Full(log[..j])| == k
  {
    var front := log[..|log| - 1];
    if k <= |Full(front)| {
      FullUpTo(front, k);
      var j := Full(front)[k - 1].n;
      assert front[..j] == log[..j];
    } else {
      assert log[..|log|] == log;
    }
  }

  lemma {:induction false} LostTelescopes(ss: seq<Entry>)
    requires ss != []
    ensures Lost(ss) == ss[|ss| - 1].n - ss[0].n - (|ss| - 1)
  {
    if |ss| < 2 {
    } else {
      LostTelescopes(ss[..|ss| - 1]);
    }
  }

  /** Of the ticks up to the k-th fully queued one, all but k were discarded. */
  lemma DiscardedUpTo(log: seq<Entry>, k: nat)
    requires forall i :: 0 <= i < |log| ==> log[i].n == i + 1
    requires 1 <= k <= |Full(log)|
    ensures var j := Full(log)[k - 1].n;
      1 <= j <= |log| && log[j - 1].accepted == 3 && Discarded(log[..j]) == j - k
  {
    FullUpTo(log, k);
    FullOrDiscarded(log[..Full(log)[k - 1].n]);
  }

  lemma DiscardedBefore(log: seq<Entry>, i: nat)
    requires 1 <= i <= |log| && log[i - 1].accepted == 3
    ensures Discarded(log[..i]) == Discarded(log[..i - 1])
  {
    assert log[..i][..i - 1] == log[..i - 1];
  }

  lemma DiscardedBetween(log: seq<Entry>, i: nat, j: nat)
    requires 1 <= i <= j <= |log|
    ensures Discarded(log[..j]) == Discarded(log[..i - 1]) + Discarded(log[i - 1..j])
  {
    assert log[..j] == log[..i - 1] + log[i - 1..j];
    DiscardedSplit(log[..i - 1], log[i - 1..j]);
  }

  lemma FullOrder(log: seq<Entry>, a: nat, b: nat)
    requires forall i :: 0 <= i < |log| ==> log[i].n == i + 1
    requires a < b <= |Full(log)|
    ensures 1 <= Full(log)[a].n <= Full(log)[b - 1].n <= |log|
  {
    FullSelects(log);
  }

  /** Lost samples are those of the ticks, from the first received to the last, that
      found no room in the queue. */
  lemma LostMeaning(log: seq<Entry>, a: nat, b: nat)
    requires forall i :: 0 <= i < |log| ==> log[i].n == i + 1
    requires a < b <= |Full(log)|
    ensures var first, last := Full(log)[a].n, Full(log)[b - 1].n;
      1 <= first <= last <= |log| && Lost(Full(log)[a..b]) == Discarded(log[first - 1..last])
  {
    var i, j := Full(log)[a].n, Full(log)[b - 1].n;
    FullOrder(log, a, b);
    DiscardedUpTo(log, a + 1);
    DiscardedUpTo(log, b);
    DiscardedBefore(log, i);
    DiscardedBetween(log, i, j);
    LostEnds(Full(log), a, b);
  }

  lemma LostEnds(full: seq<Entry>, a: nat, b: nat)
    requires a < b <= |full|
    ensures Lost(full[a..b]) == full[b - 1].n - full[a].n - (b - a - 1)
  {
    LostTelescopes(full[a..b]);
  }
}
