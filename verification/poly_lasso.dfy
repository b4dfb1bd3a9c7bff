/** The polygon lasso of support/matplotlib/poly_lasso.py: the click-driven
    vertex list of `PolyLasso`, the `LassoFilter` stage that keeps the rows
    inside the drawn polygon, and `LassoPayloadController`, which tags the
    selected rows with a payload. Point-in-polygon is a parameter. */
module PolyLasso {
  import opened Wrappers
  import opened Delivery
  import opened Records
  import opened Pipeline
  import opened PubSub

  /** A polygon vertex, in data coordinates. */
  datatype Vertex = Vertex(x: real, y: real)

  /** The point-in-polygon test (`Path(verts).contains_points`). */
  type Contains = (seq<Vertex>, real, real) -> bool

  // ---------------------------------------------------------- LassoFilter

  datatype LassoError =
    | TooFewCoordinates       // `coord_names[0]` or `[1]` out of range
    | NoPolygon               // `Path(None)`
    | MissingField(name: string)
    | UnknownAxes             // `panels.ax_specs[ax]` missing

  /** `LassoFilter`: the two coordinate names and the polygon. */
  datatype LassoFilter = LassoFilter(coordNames: seq<string>, verts: Option<seq<Vertex>>)

  predicate Inside(contains: Contains, poly: seq<Vertex>, c0: string, c1: string, row: Record) {
    c0 in row && c1 in row && contains(poly, row[c0], row[c1])
  }

  function InsideFn(contains: Contains, poly: seq<Vertex>, c0: string, c1: string): Record -> bool {
    row => Inside(contains, poly, c0, c1, row)
  }

  /** `LassoFilter.filter` receiving one batch: the rows whose point lies in
      the polygon, in order, sent once to the target. */
  function Filter<T>(lf: LassoFilter, contains: Contains, target: T, a: Batch): (r: Result<seq<Sent<T, Batch>>, LassoError>)
    requires WellFormed(a)
    ensures |lf.coordNames| < 2 ==> r == Failure(TooFewCoordinates)
    ensures |lf.coordNames| >= 2 && lf.verts.None? ==> r == Failure(NoPolygon)
    ensures r.Success? <==> (|lf.coordNames| >= 2 && lf.verts.Some?
      && lf.coordNames[0] in a.fields && lf.coordNames[1] in a.fields)
    ensures r.Success? ==> (|r.value| == 1 && r.value[0].to == target && r.value[0].msg.fields == a.fields
      && WellFormed(r.value[0].msg)
      && |r.value[0].msg.rows| <= |a.rows|
      && forall row :: row in r.value[0].msg.rows <==>
           row in a.rows && contains(lf.verts.value, row[lf.coordNames[0]], row[lf.coordNames[1]]))
  {
    if |lf.coordNames| < 2 then Failure(TooFewCoordinates)
    else if lf.verts.None? then Failure(NoPolygon)
    else
      var c0 := lf.coordNames[0];
      var c1 := lf.coordNames[1];
      if c0 !in a.fields then Failure(MissingField(c0))
      else if c1 !in a.fields then Failure(MissingField(c1))
      else
        var keep := InsideFn(contains, lf.verts.value, c0, c1);
        WhereWellFormed(a, keep);
        Success([Sent(target, Batch(a.fields, Where(a.rows, keep)))])
  }

  /** The filter's output is its input masked by the pointwise in-polygon
      test: an order-preserving subsequence. */
  lemma FilterIsMask<T>(lf: LassoFilter, contains: Contains, target: T, a: Batch, mask: seq<bool>)
    requires WellFormed(a) && Filter(lf, contains, target, a).Success?
    requires |mask| == |a.rows|
    requires forall i :: 0 <= i < |a.rows| ==>
      mask[i] == contains(lf.verts.value, a.rows[i][lf.coordNames[0]], a.rows[i][lf.coordNames[1]])
    ensures Filter(lf, contains, target, a).value[0].msg.rows == Select(a.rows, mask)
  {
    var keep := InsideFn(contains, lf.verts.value, lf.coordNames[0], lf.coordNames[1]);
    forall i | 0 <= i < |a.rows| ensures mask[i] == keep(a.rows[i]) {
      assert a.rows[i] in a.rows;
    }
    SelectIsWhere(a.rows, mask, keep);
  }

  // ------------------------------------------------ LassoPayloadController

  /** `LassoPayloadController`: the downstream target, the payload, the
      filter's state and the one-batch cache in front of it. */
  datatype Controller<T, P> = Controller(target: Option<T>, payload: Option<P>, filter: LassoFilter, cache: Cache<Batch>)

  predicate GoodController<T, P>(c: Controller<T, P>) {
    CacheValid(c.cache) && forall b :: b in c.cache.entries ==> WellFormed(b)
  }

  /** `LassoPayloadController(target=...)`: no payload, an empty filter, a
      fresh cache; attached to the lasso-drawn topic under identity `me`. */
  function NewController<S, T, P>(reg: Registry<S>, target: Option<T>, me: S): (r: (Registry<S>, Controller<T, P>))
    ensures GoodController(r.1)
    ensures r.1.payload.None? && r.1.target == target && r.1.cache.entries == []
    ensures Lookup(r.0, LassoDrawnTopic).subscribers == Lookup(reg, LassoDrawnTopic).subscribers + {me}
    ensures forall n :: n != LassoDrawnTopic ==> Lookup(r.0, n) == Lookup(reg, n)
  {
    (AttachTo(reg, LassoDrawnTopic, me), Controller(target, None, LassoFilter([], None), NewCache(1)))
  }

  /** The `Payload()` property: the setter stores, the getter reads. */
  function SetPayload<T, P>(c: Controller<T, P>, v: Option<P>): (r: Controller<T, P>)
    ensures r.payload == v
    ensures r == c.(payload := r.payload)
  {
    c.(payload := v)
  }

  function GetPayload<T, P>(c: Controller<T, P>): Option<P> {
    c.payload
  }

  /** The property returns the value most recently assigned. */
  lemma PayloadRoundTrip<T, P>(c: Controller<T, P>, v: Option<P>, w: Option<P>)
    ensures GetPayload(SetPayload(c, v)) == v
    ensures GetPayload(SetPayload(SetPayload(c, w), v)) == v
  {
  }

  /** `add_payload_value` receiving one batch. */
  function AddPayload<T, P>(c: Controller<T, P>, a: Batch): (r: seq<Sent<T, (Batch, P)>>)
    ensures r != [] <==> c.payload.Some? && c.target.Some?
    ensures r != [] ==> r == [Sent(c.target.value, (a, c.payload.value))]
  {
    if c.payload.Some? && c.target.Some? then [Sent(c.target.value, (a, c.payload.value))] else []
  }

  /** The cache segment receiving a batch. */
  function Cached<T, P>(c: Controller<T, P>, a: Batch): (r: Controller<T, P>)
    requires GoodController(c) && WellFormed(a)
    ensures GoodController(r) && r == c.(cache := r.cache)
    ensures r.cache.entries == Newest(c.cache.entries + [a], c.cache.capacity)
  {
    CacheReceiveAllFrom(c.cache, [a]);
    assert CacheReceiveAll(c.cache, [a]) == CacheReceive(c.cache, a) by {
      assert [a][1..] == [];
    }
    c.(cache := CacheReceive(c.cache, a))
  }

  /** A batch through the filter and then the payload stage. */
  function FilterThenTag<T, P>(c: Controller<T, P>, contains: Contains, a: Batch): (r: Result<seq<Sent<T, (Batch, P)>>, LassoError>)
    requires WellFormed(a)
  {
    match Filter(c.filter, contains, 0, a)
    case Failure(e) => Failure(e)
    case Success(out) => Success(AddPayload(c, out[0].msg))
  }

  /** `send(msg)` for a lasso-drawn message `(panels, ax, line, verts)`:
      install the axes' coordinate names and the polygon, then replay the
      last cached batch only if a payload is set. */
  function ControllerSend<A, T, P>(c: Controller<T, P>, axSpecs: map<A, seq<string>>, ax: A, verts: seq<Vertex>, contains: Contains)
    : (r: Result<(Controller<T, P>, seq<Sent<T, (Batch, P)>>), LassoError>)
    requires GoodController(c)
    ensures r.Failure? ==> ax !in axSpecs || (c.payload.Some? && c.cache.entries != [])
    ensures ax in axSpecs && c.payload.None? ==> r.Success? && r.value.1 == []
    ensures r.Success? ==> ax in axSpecs && r.value.0 == c.(filter := LassoFilter(axSpecs[ax], Some(verts)))
    ensures r.Success? && (c.payload.None? || c.cache.entries == []) ==> r.value.1 == []
    ensures ax in axSpecs && c.payload.Some? && c.cache.entries != [] ==>
      r == (match FilterThenTag(c.(filter := LassoFilter(axSpecs[ax], Some(verts))), contains, c.cache.entries[|c.cache.entries| - 1])
            case Failure(e) => Failure(e)
            case Success(out) => Success((c.(filter := LassoFilter(axSpecs[ax], Some(verts))), out)))
  {
    if ax !in axSpecs then Failure(UnknownAxes)
    else
      var c' := c.(filter := LassoFilter(axSpecs[ax], Some(verts)));
      if c.payload.None? || c.cache.entries == [] then Success((c', []))
      else
        var last := c.cache.entries[|c.cache.entries| - 1];
        assert last in c.cache.entries;
        match FilterThenTag(c', contains, last)
        case Failure(e) => Failure(e)
        case Success(out) => Success((c', out))
  }

  /** End to end: with a payload and a target, a drawn lasso tags exactly the
      cached rows inside the polygon, once. */
  lemma LassoTagsSelectedRows<A, T, P>(c: Controller<T, P>, axSpecs: map<A, seq<string>>, ax: A, verts: seq<Vertex>, contains: Contains)
    requires GoodController(c) && c.payload.Some? && c.target.Some? && c.cache.entries != []
    requires ax in axSpecs && |axSpecs[ax]| >= 2
    requires axSpecs[ax][0] in c.cache.entries[|c.cache.entries| - 1].fields
    requires axSpecs[ax][1] in c.cache.entries[|c.cache.entries| - 1].fields
    ensures var r := ControllerSend(c, axSpecs, ax, verts, contains);
      var last := c.cache.entries[|c.cache.entries| - 1];
      && r.Success? && |r.value.1| == 1
      && r.value.1[0].to == c.target.value && r.value.1[0].msg.1 == c.payload.value
      && forall row :: row in r.value.1[0].msg.0.rows <==>
           row in last.rows && Inside(contains, verts, axSpecs[ax][0], axSpecs[ax][1], row)
  {
    var last := c.cache.entries[|c.cache.entries| - 1];
    assert last in c.cache.entries;
  }

  // -------------------------------------------------------------- PolyLasso

  /** An event position: `xdata`/`ydata` are None outside any axes. */
  datatype Point = Point(x: Option<real>, y: Option<real>)

  /** `PolyLasso`: the vertex list, whether the line exists, the chosen axes,
      and whether the lasso has closed (its callbacks are disconnected). */
  datatype Lasso<A> = Lasso(verts: seq<Point>, hasLine: bool, axes: Option<A>, closed: bool)

  datatype LassoEvent<A> =
    | Release(inaxes: Option<A>, button: int, at: Point)
    | Move(at: Point)

  /** What a closing right click reports: the callback with the axes and
      vertices, or "need at least three vertices". */
  datatype Outcome<A> = Callback(axes: Option<A>, verts: seq<Point>) | TooFew

  datatype LassoFault = EmptyVertexList   // `self.verts[-1]` on an empty list

  function NewLasso<A>(): (l: Lasso<A>)
    ensures LassoInvariant(l) && l.verts == [] && !l.closed
  {
    Lasso([], false, None, false)
  }

  /** The line exists exactly when vertices do, then there are at least two
      (the fixed ones plus the one following the mouse), and an axes is chosen. */
  predicate LassoInvariant<A>(l: Lasso<A>) {
    (l.hasLine <==> |l.verts| > 0) && (l.hasLine ==> |l.verts| >= 2 && l.axes.Some?)
  }

  /** `onmove(event)`: the last vertex follows the mouse once a line exists. */
  function OnMove<A>(l: Lasso<A>, at: Point): (r: Lasso<A>)
    requires LassoInvariant(l)
    ensures LassoInvariant(r)
    ensures !l.hasLine || l.closed ==> r == l
    ensures l.hasLine && !l.closed ==>
      r == l.(verts := l.verts[..|l.verts| - 1] + [at])
  {
    if l.closed || !l.hasLine then l
    else l.(verts := l.verts[|l.verts| - 1 := at])
  }

  /** `onrelease(event)`: the new state, and the outcome if the click closed
      the polygon. */
  function OnRelease<A(==)>(l: Lasso<A>, inaxes: Option<A>, button: int, at: Point)
    : (r: Result<(Lasso<A>, Option<Outcome<A>>), LassoFault>)
    requires LassoInvariant(l)
    ensures r.Success? ==> LassoInvariant(r.value.0)
    ensures r.Failure? <==> (!l.closed && button == 3 && l.verts == []
      && (l.axes.None? || inaxes == l.axes))
  {
    if l.closed then Success((l, None))
    else
      var l1 := if l.axes.None? && inaxes.Some? then l.(axes := inaxes) else l;
      if !(l.axes.None? && inaxes.Some?) && inaxes != l.axes then Success((l, None))
      else if button == 3 then
        if |l1.verts| == 0 then Failure(EmptyVertexList)
        else
          var vs := l1.verts[|l1.verts| - 1 := l1.verts[0]];
          var l2 := l1.(verts := vs, closed := true);
          Success((l2, Some(if |vs| > 3 then Callback(l2.axes, vs) else TooFew)))
      else if button != 1 then Success((l1, None))
      else if l1.axes.None? then Success((l1, None))
      else
        var vs := if l1.hasLine then l1.verts else l1.verts + [at];
        Success((l1.(verts := vs[|vs| - 1 := at] + [at], hasLine := true), None))
  }

  /** A left click in the lasso's axes fixes the last vertex at the click and
      appends a copy that then follows the mouse. */
  lemma LeftClickAddsVertex<A>(l: Lasso<A>, at: Point)
    requires LassoInvariant(l) && !l.closed && l.hasLine
    ensures var r := OnRelease(l, l.axes, 1, at);
      r.Success? && r.value.1.None?
      && r.value.0.verts == l.verts[..|l.verts| - 1] + [at, at]
  {
  }

  /** The first left click in an axes chooses it and starts the line with
      the click twice. */
  lemma FirstClickStartsLine<A>(ax: A, at: Point)
    ensures var r := OnRelease(NewLasso(), Some(ax), 1, at);
      r.Success? && r.value.0.verts == [at, at] && r.value.0.axes == Some(ax) && r.value.0.hasLine
  {
  }

  /** A right click replaces the last vertex with the first and closes the
      lasso; the callback runs only with more than three vertices, and then
      the polygon is closed: its first and last vertices are equal. */
  lemma RightClickCloses<A>(l: Lasso<A>, at: Point)
    requires LassoInvariant(l) && !l.closed && l.hasLine
    ensures var r := OnRelease(l, l.axes, 3, at);
      && r.Success? && r.value.0.closed
      && r.value.0.verts == l.verts[..|l.verts| - 1] + [l.verts[0]]
      && (r.value.1 == Some(TooFew) <==> |l.verts| <= 3)
      && (|l.verts| > 3 ==> r.value.1 == Some(Callback(l.axes, r.value.0.verts)))
      && (forall vs :: r.value.1 == Some(Callback(l.axes, vs)) ==> |vs| > 3 && vs[0] == vs[|vs| - 1])
  {
  }

  /** Clicks in another axes than the chosen one are ignored. */
  lemma OtherAxesIgnored<A>(l: Lasso<A>, inaxes: Option<A>, button: int, at: Point)
    requires LassoInvariant(l) && l.axes.Some? && inaxes != l.axes
    ensures OnRelease(l, inaxes, button, at) == Success((l, None))
  {
  }

  /** Three clicks and a right click: a closed triangle of four vertices
      reaches the callback. Two clicks are too few. */
  lemma TriangleReachesCallback<A>(ax: A, p1: Point, p2: Point, p3: Point, m: Point, q: Point)
    ensures var s1 := OnRelease(NewLasso(), Some(ax), 1, p1).value.0;
      var s2 := OnRelease(OnMove(s1, m), Some(ax), 1, p2).value.0;
      var s3 := OnRelease(s2, Some(ax), 1, p3).value.0;
      OnRelease(s3, Some(ax), 3, q) == Success((s3.(verts := [p1, p2, p3, p1], closed := true), Some(Callback(Some(ax), [p1, p2, p3, p1]))))
    ensures var s1 := OnRelease(NewLasso(), Some(ax), 1, p1).value.0;
      var s2 := OnRelease(s1, Some(ax), 1, p2).value.0;
      OnRelease(s2, Some(ax), 3, q).value.1 == Some(TooFew)
  {
    var s1 := OnRelease(NewLasso(), Some(ax), 1, p1).value.0;
    assert s1.verts == [p1, p1];
    var s2 := OnRelease(OnMove(s1, m), Some(ax), 1, p2).value.0;
    assert OnMove(s1, m).verts == [p1, m];
    assert s2.verts == [p1, p2, p2];
    var s3 := OnRelease(s2, Some(ax), 1, p3).value.0;
    assert s3.verts == [p1, p2, p3, p3];
    assert s3.axes == Some(ax) && s3.hasLine && !s3.closed;
    assert s3.verts[3 := s3.verts[0]] == [p1, p2, p3, p1];
    var t2 := OnRelease(s1, Some(ax), 1, p2).value.0;
    assert t2.verts == [p1, p2, p2];
  }
}
