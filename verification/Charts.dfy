/** The scrolling chart: series updated in place, and a chart that prunes its series
    each time it is drawn. */
module Charts {
  import opened Options
  import opened SeriesModel
  import opened Edges

  class TimeSeries {
    var data: seq<Point>
    var maxValue: Option<real>
    var minValue: Option<real>

    function Model(): Series
      reads this
    {
      Series(data, Bounds(minValue, maxValue))
    }

    /** The bounds are NaN exactly when there is nothing to bound. */
    predicate Valid()
      reads this
    {
      (maxValue.None? <==> data == []) && (minValue.None? <==> data == [])
    }

    constructor ()
      ensures Model() == Run([]) && Valid()
    {
      data := [];
      maxValue, minValue := None, None;
    }

    method ResetBounds()
      modifies this
      ensures Model() == Apply(old(Model()), Reset) && Valid()
    {
      maxValue, minValue := None, None;
      for i := 0 to |data|
        invariant data == old(data)
        invariant Bounds(minValue, maxValue) == BoundsOf(data[..i])
      {
        assert data[..i + 1][..i] == data[..i];
        maxValue := Some(if maxValue.Some? then Max(maxValue.value, data[i].v) else data[i].v);
        minValue := Some(if minValue.Some? then Min(minValue.value, data[i].v) else data[i].v);
      }
      assert data[..|data|] == data;
      BoundsMeaning(data);
    }

    method Append(timestamp: real, value: real)
      modifies this
      ensures Model() == Apply(old(Model()), SeriesModel.Append(Point(timestamp, value)))
      ensures old(Valid()) ==> Valid()
    {
      data := data + [Point(timestamp, value)];
      maxValue := Some(if maxValue.Some? then Max(maxValue.value, value) else value);
      minValue := Some(if minValue.Some? then Min(minValue.value, value) else value);
    }

    /** Drops what has left the chart. */
    method PruneBefore(cutoff: real)
      modifies this
      ensures Model() == Apply(old(Model()), SeriesModel.Render(cutoff))
      ensures old(Valid()) ==> Valid()
    {
      while |data| >= 2 && data[1].t < cutoff
        invariant Prune(data, cutoff) == Prune(old(data), cutoff)
        invariant data == [] <==> old(data) == []
        invariant maxValue == old(maxValue) && minValue == old(minValue)
        decreases |data|
      {
        data := data[1..];
      }
    }
  }

  // ----------------------------------------------------------------- the chart

  class SmoothieChart {
    var millisPerPixel: real
    /** The same series may be listed more than once. */
    var seriesSet: seq<TimeSeries>

    /** An absent or zero scale means 20. */
    constructor (scale: Option<real>)
      ensures millisPerPixel == (if scale.Some? && scale.value != 0.0 then scale.value else 20.0)
      ensures seriesSet == []
    {
      millisPerPixel := if scale.Some? && scale.value != 0.0 then scale.value else 20.0;
      seriesSet := [];
    }

    method AddTimeSeries(timeSeries: TimeSeries)
      modifies this
      ensures seriesSet == old(seriesSet) + [timeSeries] && millisPerPixel == old(millisPerPixel)
    {
      seriesSet := seriesSet + [timeSeries];
    }

    /** The bounds over all series of the set. */
    method Scale() returns (lo: Option<real>, hi: Option<real>)
      ensures hi.None? <==> forall s :: s in seriesSet ==> s.maxValue.None?
      ensures lo.None? <==> forall s :: s in seriesSet ==> s.minValue.None?
      ensures forall s :: s in seriesSet && s.maxValue.Some? ==> s.maxValue.value <= hi.value
      ensures forall s :: s in seriesSet && s.minValue.Some? ==> lo.value <= s.minValue.value
      ensures hi.Some? ==> exists s :: s in seriesSet && s.maxValue == hi
      ensures lo.Some? ==> exists s :: s in seriesSet && s.minValue == lo
    {
      lo, hi := None, None;
      for d := 0 to |seriesSet|
        invariant hi.None? <==> forall s :: s in seriesSet[..d] ==> s.maxValue.None?
        invariant lo.None? <==> forall s :: s in seriesSet[..d] ==> s.minValue.None?
        invariant forall s :: s in seriesSet[..d] && s.maxValue.Some? ==> s.maxValue.value <= hi.value
        invariant forall s :: s in seriesSet[..d] && s.minValue.Some? ==> lo.value <= s.minValue.value
        invariant hi.Some? ==> exists s :: s in seriesSet[..d] && s.maxValue == hi
        invariant lo.Some? ==> exists s :: s in seriesSet[..d] && s.minValue == lo
      {
        var timeSeries := seriesSet[d];
        assert seriesSet[..d + 1] == seriesSet[..d] + [timeSeries];
        if timeSeries.maxValue.Some? {
          hi := if hi.Some? then Some(Max(hi.value, timeSeries.maxValue.value)) else timeSeries.maxValue;
        }
        if timeSeries.minValue.Some? {
          lo := if lo.Some? then Some(Min(lo.value, timeSeries.minValue.value)) else timeSeries.minValue;
        }
      }
      assert seriesSet[..|seriesSet|] == seriesSet;
    }

    /** Draws the chart as of `time`; of the drawing, what it does to the series: all are
        pruned at the chart's left edge. Returning early when there is nothing to scale by
        skips no pruning. */
    method Render(time: real, width: nat) returns (ghost edge: real)
      requires millisPerPixel != 0.0
      requires forall s :: s in seriesSet ==> s.Valid()
      modifies set s | s in seriesSet
      ensures millisPerPixel == old(millisPerPixel) && seriesSet == old(seriesSet)
      ensures IsEdge(edge, time, millisPerPixel, width)
      ensures forall s :: s in seriesSet ==> s.Valid()
      ensures forall s :: s in seriesSet ==> s.Model() == Apply(old(s.Model()), SeriesModel.Render(edge))
      ensures millisPerPixel > 0.0 && time >= 0.0 ==> forall s :: s in seriesSet ==> (
          && NoneHidden(s.data, time, millisPerPixel, width)
          && (Ordered(old(s.data)) ==> AllVisible(old(s.data), s.data, time, millisPerPixel, width)))
    {
      var cutoff := Cutoff(time, millisPerPixel, width);
      edge := cutoff;
      CutoffIsEdge(time, millisPerPixel, width);
      if millisPerPixel > 0.0 && time >= 0.0 {
        forall s | s in seriesSet ensures Leaves(s.data, cutoff, time, millisPerPixel, width) {
          RenderLeaves(s.data, cutoff, time, millisPerPixel, width);
        }
      }
      var lo, hi := Scale();
      if hi.None? && lo.None? {
        assert forall s :: s in seriesSet ==> s.data == [];
        return;
      }
      PruneAll(cutoff);
    }

    method PruneAll(cutoff: real)
      requires forall s :: s in seriesSet ==> s.Valid()
      modifies set s | s in seriesSet
      ensures millisPerPixel == old(millisPerPixel) && seriesSet == old(seriesSet)
      ensures forall s :: s in seriesSet ==> s.Valid()
      ensures forall s :: s in seriesSet ==> s.Model() == Apply(old(s.Model()), SeriesModel.Render(cutoff))
    {
      for d := 0 to |seriesSet|
        invariant forall s :: s in seriesSet[..d] ==> s.Model() == Apply(old(s.Model()), SeriesModel.Render(cutoff))
        invariant forall s :: s in seriesSet && s !in seriesSet[..d] ==> s.Model() == old(s.Model())
        invariant forall s :: s in seriesSet ==> s.Valid()
      {
        var timeSeries := seriesSet[d];
        assert seriesSet[..d + 1] == seriesSet[..d] + [timeSeries];
        ApplyTwice(old(timeSeries.Model()), cutoff);
        timeSeries.PruneBefore(cutoff);
      }
      assert seriesSet[..|seriesSet|] == seriesSet;
    }
  }

  /** A series listed twice is pruned twice to the same effect. */
  lemma ApplyTwice(s: Series, cutoff: real)
    ensures Apply(Apply(s, SeriesModel.Render(cutoff)), SeriesModel.Render(cutoff)) == Apply(s, SeriesModel.Render(cutoff))
  {
    PruneAgain(s.data, [], cutoff, cutoff);
    assert s.data + [] == s.data && Prune(s.data, cutoff) + [] == Prune(s.data, cutoff);
  }
}
