/** `PipelineAnimation` of support/matplotlib/animation.py: taps a
    branchpoint with a one-batch cache and, on every frame, replays the cached
    batch through a filter that keeps the rows whose `variable` lies in the
    part of the view limits the animation has reached. */
module Animation {
  import opened Wrappers
  import opened Delivery
  import opened Records
  import opened Pipeline
  import BoundsStore

  datatype AnimError =
    | NoFraction               // data reached the filter before any frame set `_time_fraction`
    | NoSuchField(name: string)
    | NoSource                 // `cleanup` without a branchpoint
    | NotTapped                // the cache segment is no longer a target
    | ZeroDuration
    | UnsetLimit               // priming the filter computes `limits[1] - limits[0]` with a None end

  /** The animation: outlets (list order), the animated field and its view
      limits, the current time fraction, the one-batch cache, the identity
      of the cache segment, and the state of the data source. */
  datatype PipelineAnimation<T, O> = PipelineAnimation(
    outlets: seq<O>,
    variable: string,
    start: real,
    stop: real,
    fraction: Option<real>,
    cache: Cache<Batch>,
    segment: T,
    source: Option<Branchpoint<T>>)

  /** Every cached batch is well formed and the cache is the default one-batch one. */
  predicate Good<T, O>(pa: PipelineAnimation<T, O>) {
    CacheValid(pa.cache) && pa.cache.capacity == 1 && forall b :: b in pa.cache.entries ==> WellFormed(b)
  }

  /** `PipelineAnimation(duration, outlets, variable, limits, branchpoint_data_source)`:
      priming `_filter_to_fraction` computes the span of `limits`, which
      raises when either end is None (an unset `Bounds` name reads as
      `(None, None)`); otherwise a fresh one-batch cache, whose segment
      `segment` is added to the source's targets when there is a source. */
  function Create<T, O>(outlets: seq<O>, variable: string, limits: BoundsStore.Range, source: Option<Branchpoint<T>>, segment: T)
    : (r: Result<PipelineAnimation<T, O>, AnimError>)
    ensures r.Failure? <==> limits.lo.None? || limits.hi.None?
    ensures r.Failure? ==> r.error == UnsetLimit
    ensures r.Success? ==> Good(r.value) && r.value.cache.entries == [] && r.value.fraction.None?
    ensures r.Success? ==>
      && r.value.outlets == outlets && r.value.variable == variable
      && Some(r.value.start) == limits.lo && Some(r.value.stop) == limits.hi
    ensures r.Success? && source.None? ==> r.value.source.None?
    ensures r.Success? && source.Some? ==>
      r.value.source.Some? && r.value.source.value.targets == source.value.targets + {segment}
  {
    if limits.lo.None? || limits.hi.None? then Failure(UnsetLimit)
    else
      var tapped := if source.None? then None else Some(AddTarget(source.value, segment));
      Success(PipelineAnimation(outlets, variable, limits.lo.value, limits.hi.value, None, NewCache(1), segment, tapped))
  }

  /** `cleanup(animator)`: remove the cache segment from the source's targets. */
  function Cleanup<T, O>(pa: PipelineAnimation<T, O>): (r: Result<PipelineAnimation<T, O>, AnimError>)
    ensures pa.source.None? ==> r == Failure(NoSource)
    ensures pa.source.Some? ==> (r.Success? <==> pa.segment in pa.source.value.targets)
    ensures r.Success? ==> r.value.source.Some? && r.value.source.value.targets == pa.source.value.targets - {pa.segment}
    ensures r.Success? ==> r.value == pa.(source := r.value.source)
  {
    match pa.source
    case None => Failure(NoSource)
    case Some(bp) =>
      match RemoveTarget(bp, pa.segment)
      case Failure(_) => Failure(NotTapped)
      case Success(bp') => Success(pa.(source := Some(bp')))
  }

  /** `animate` passes `panels.bounds.time` as the limits: while the time
      range has never been set anywhere in the bounds' parent chain, building
      the animation raises. */
  lemma AnimateWithUnsetTimeRaises<T, O>(outlets: seq<O>, b: BoundsStore.Bounds, source: Option<Branchpoint<T>>, segment: T)
    requires "time" !in BoundsStore.Effective(b)
    ensures Create<T, O>(outlets, "time", BoundsStore.Get(b, "time"), source, segment) == Failure(UnsetLimit)
  {
    BoundsStore.GetIsEffective(b, "time");
  }

  /** Tap then untap restores the source when the segment was not already a target. */
  lemma CreateCleanupRestores<T, O>(outlets: seq<O>, variable: string, limits: BoundsStore.Range, bp: Branchpoint<T>, segment: T)
    requires segment !in bp.targets
    ensures var r: Result<PipelineAnimation<T, O>, AnimError> := Create(outlets, variable, limits, Some(bp), segment);
      r.Success? ==> Cleanup(r.value).Success? && Cleanup(r.value).value.source == Some(bp)
  {
    var r: Result<PipelineAnimation<T, O>, AnimError> := Create(outlets, variable, limits, Some(bp), segment);
    if r.Success? {
      assert r.value.source.value.targets - {segment} == bp.targets;
    }
  }

  /** The rows of the window `[lo, hi]` of a field. */
  predicate InWindow(variable: string, lo: real, hi: real, row: Record) {
    variable in row && lo <= row[variable] <= hi
  }

  function WindowFn(variable: string, lo: real, hi: real): Record -> bool {
    row => InWindow(variable, lo, hi, row)
  }

  /** The upper end of the window after a time fraction. */
  function Reached(pa: PipelineAnimation, f: real): real {
    pa.start + f * (pa.stop - pa.start)
  }

  /** `_filter_to_fraction` receiving one batch: every outlet, in list
      order, gets the rows with start <= a[variable] <= start + fraction * span. */
  function FractionFilter<T, O>(pa: PipelineAnimation<T, O>, a: Batch): (r: Result<seq<Sent<O, Batch>>, AnimError>)
    requires WellFormed(a)
    ensures pa.fraction.None? ==> r == Failure(NoFraction)
    ensures pa.fraction.Some? ==> (r.Success? <==> pa.variable in a.fields)
    ensures r.Success? ==> (|r.value| == |pa.outlets|
      && forall i :: 0 <= i < |pa.outlets| ==> r.value[i].to == pa.outlets[i])
    ensures r.Success? ==> forall i :: 0 <= i < |r.value| ==>
      && r.value[i].msg.fields == a.fields
      && WellFormed(r.value[i].msg)
      && forall row :: row in r.value[i].msg.rows <==>
           row in a.rows && pa.start <= row[pa.variable] <= Reached(pa, pa.fraction.value)
    ensures r.Success? ==> forall i :: 0 <= i < |r.value| ==>
      r.value[i].msg.rows == Where(a.rows, WindowFn(pa.variable, pa.start, Reached(pa, pa.fraction.value)))
  {
    match pa.fraction
    case None => Failure(NoFraction)
    case Some(f) =>
      if pa.variable !in a.fields then Failure(AnimError.NoSuchField(pa.variable))
      else
        var subset := Batch(a.fields, Where(a.rows, WindowFn(pa.variable, pa.start, Reached(pa, f))));
        WhereWellFormed(a, WindowFn(pa.variable, pa.start, Reached(pa, f)));
        Success(Broadcast(pa.outlets, subset))
  }

  /** Every outlet receives `a[current]`: the input masked by the pointwise
      window test, so row order and repeated rows are kept. */
  lemma FractionFilterIsMask<T, O>(pa: PipelineAnimation<T, O>, a: Batch, mask: seq<bool>)
    requires WellFormed(a) && FractionFilter(pa, a).Success?
    requires |mask| == |a.rows|
    requires forall i :: 0 <= i < |a.rows| ==>
      mask[i] == (pa.start <= a.rows[i][pa.variable] <= Reached(pa, pa.fraction.value))
    ensures forall i :: 0 <= i < |FractionFilter(pa, a).value| ==>
      FractionFilter(pa, a).value[i].msg.rows == Select(a.rows, mask)
  {
    var keep := WindowFn(pa.variable, pa.start, Reached(pa, pa.fraction.value));
    forall i | 0 <= i < |a.rows| ensures mask[i] == keep(a.rows[i]) {
      assert a.rows[i] in a.rows;
    }
    SelectIsWhere(a.rows, mask, keep);
  }

  /** For a non-negative span, a later fraction keeps every row an earlier one
      kept: the earlier output is an order-preserving subsequence of the later. */
  lemma LaterFractionKeepsMore<T, O>(pa: PipelineAnimation<T, O>, f1: real, f2: real, rows: seq<Record>)
    requires pa.start <= pa.stop && f1 <= f2
    ensures Where(Where(rows, WindowFn(pa.variable, pa.start, Reached(pa, f2))), WindowFn(pa.variable, pa.start, Reached(pa, f1)))
         == Where(rows, WindowFn(pa.variable, pa.start, Reached(pa, f1)))
  {
    assert Reached(pa, f1) <= Reached(pa, f2) by {
      assert f1 * (pa.stop - pa.start) <= f2 * (pa.stop - pa.start);
    }
    WhereNarrow(rows, WindowFn(pa.variable, pa.start, Reached(pa, f1)), WindowFn(pa.variable, pa.start, Reached(pa, f2)));
  }

  /** The cache segment receiving a batch from the source. */
  function CacheSegment<T, O>(pa: PipelineAnimation<T, O>, a: Batch): (r: PipelineAnimation<T, O>)
    requires Good(pa) && WellFormed(a)
    ensures Good(r) && r.cache.entries == [a]
    ensures r == pa.(cache := r.cache)
  {
    pa.(cache := CacheReceive(pa.cache, a))
  }

  /** Replaying batches through the filter, stopping at the first error. */
  function Replay<T, O>(pa: PipelineAnimation<T, O>, batches: seq<Batch>): (r: Result<seq<Sent<O, Batch>>, AnimError>)
    requires forall b :: b in batches ==> WellFormed(b)
  {
    if |batches| == 0 then Success([])
    else
      match FractionFilter(pa, batches[0])
      case Failure(e) => Failure(e)
      case Success(out) =>
        match Replay(pa, batches[1..])
        case Failure(e) => Failure(e)
        case Success(rest) => Success(out + rest)
  }

  /** Replaying one batch is filtering it. */
  lemma ReplayOne<T, O>(pa: PipelineAnimation<T, O>, b: Batch)
    requires WellFormed(b)
    ensures Replay(pa, [b]) == FractionFilter(pa, b)
  {
    assert [b][1..] == [];
    match FractionFilter(pa, b)
    case Failure(_) =>
    case Success(out) => assert out + [] == out;
  }

  /** `draw_frame(animator, time_fraction)`: set the fraction first, then
      `resend_last()` replays the last cached batch through the filter. */
  function DrawFrame<T, O>(pa: PipelineAnimation<T, O>, timeFraction: real)
    : (r: (PipelineAnimation<T, O>, Result<seq<Sent<O, Batch>>, AnimError>))
    requires Good(pa)
    ensures r.0 == pa.(fraction := Some(timeFraction)) && Good(r.0)
    ensures pa.cache.entries == [] ==> r.1 == Success([])
    ensures pa.cache.entries != [] ==> r.1 == FractionFilter(r.0, pa.cache.entries[|pa.cache.entries| - 1])
  {
    var pa' := pa.(fraction := Some(timeFraction));
    var last := Newest(pa.cache.entries, 1);
    assert forall b :: b in last ==> b in pa.cache.entries;
    var out := Replay(pa', last);
    assert |pa.cache.entries| > 0 ==> last == [pa.cache.entries[|pa.cache.entries| - 1]];
    if |pa.cache.entries| > 0 then
      var b := pa.cache.entries[|pa.cache.entries| - 1];
      assert b in pa.cache.entries;
      ReplayOne(pa', b);
      (pa', out)
    else
      (pa', out)
  }

  /** `init_draw(animator)`: the same with a fraction of zero. */
  function InitDraw<T, O>(pa: PipelineAnimation<T, O>): (r: (PipelineAnimation<T, O>, Result<seq<Sent<O, Batch>>, AnimError>))
    requires Good(pa)
    ensures r.0 == pa.(fraction := Some(0.0))
    ensures r == DrawFrame(pa, 0.0)
    ensures pa.cache.entries == [] ==> r.1 == Success([])
    ensures pa.cache.entries != [] ==>
      var last := pa.cache.entries[|pa.cache.entries| - 1];
      && (r.1.Success? <==> pa.variable in last.fields)
      && (r.1.Success? ==> |r.1.value| == |pa.outlets| && forall i :: 0 <= i < |r.1.value| ==>
            r.1.value[i].to == pa.outlets[i] && r.1.value[i].msg.rows == Where(last.rows, WindowFn(pa.variable, pa.start, pa.start)))
  {
    var r := DrawFrame(pa, 0.0);
    assert pa.start + 0.0 * (pa.stop - pa.start) == pa.start;
    r
  }

  /** At the first frame only rows exactly at the start of the view are shown. */
  lemma InitDrawShowsStartOnly<T, O>(pa: PipelineAnimation<T, O>)
    requires Good(pa) && pa.cache.entries != []
    requires pa.variable in pa.cache.entries[|pa.cache.entries| - 1].fields
    ensures InitDraw(pa).0.fraction == Some(0.0)
    ensures InitDraw(pa).1.Success? && |InitDraw(pa).1.value| == |pa.outlets|
    ensures forall i :: 0 <= i < |InitDraw(pa).1.value| ==>
      forall row :: row in InitDraw(pa).1.value[i].msg.rows <==>
        row in pa.cache.entries[|pa.cache.entries| - 1].rows && pa.variable in row && row[pa.variable] == pa.start
    ensures forall i :: 0 <= i < |InitDraw(pa).1.value| ==>
      InitDraw(pa).1.value[i].msg.rows == Where(pa.cache.entries[|pa.cache.entries| - 1].rows, WindowFn(pa.variable, pa.start, pa.start))
  {
    var last := pa.cache.entries[|pa.cache.entries| - 1];
    assert last in pa.cache.entries;
  }

  // ---------------------------------------------------------------- frames

  /** `frame_iter()`, with the wall clock replaced by the successive elapsed
      times at which the animation asks for a frame: each yields
      min(elapsed / duration, 1.0), and the iteration ends right after 1.0. */
  function Frames(elapsed: seq<real>, duration: real): (r: Result<seq<real>, AnimError>)
    ensures r.Failure? <==> duration == 0.0 && |elapsed| > 0
    ensures r.Success? ==> |r.value| <= |elapsed|
    ensures r.Success? ==> forall i :: 0 <= i < |r.value| ==> r.value[i] <= 1.0
    ensures r.Success? ==> forall i :: 0 <= i < |r.value| - 1 ==> r.value[i] < 1.0
    ensures r.Success? && |r.value| < |elapsed| ==> |r.value| > 0 && r.value[|r.value| - 1] == 1.0
    ensures r.Success? ==> forall i :: 0 <= i < |r.value| ==>
      r.value[i] == (if elapsed[i] / duration < 1.0 then elapsed[i] / duration else 1.0)
  {
    if |elapsed| == 0 then Success([])
    else if duration == 0.0 then Failure(ZeroDuration)
    else
      var f := if elapsed[0] / duration < 1.0 then elapsed[0] / duration else 1.0;
      if f < 1.0 then
        var rest := Frames(elapsed[1..], duration).value;
        Success([f] + rest)
      else Success([f])
  }
}
