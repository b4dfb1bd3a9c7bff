/** `LinkedPanels` of support/matplotlib/linked.py: keeps several 2-D axes
    that share named coordinates in step, through one Bounds instance, and
    announces every change on the bounds-updated / reflow topics. */
module Linked {
  import opened Wrappers
  import opened Delivery
  import opened BoundsStore
  import opened PubSub

  /** Identity of a matplotlib axes. */
  type AxesId = nat

  /** The (x, y) coordinate names an axes displays. */
  datatype CoordPair = CoordPair(x: string, y: string)

  /** `ax_specs`, `ax_coords` (a defaultdict of sets), `bounds` and `equal_ax`. */
  datatype Panels = Panels(
    specs: map<AxesId, CoordPair>,
    coords: map<string, set<AxesId>>,
    bounds: Bounds,
    equalAx: set<AxesId>)

  /** `ax_coords[name]`: the axes registered under a coordinate name. */
  function Users(p: Panels, name: string): set<AxesId> {
    if name in p.coords then p.coords[name] else {}
  }

  /** Every registered axes is listed under both of its coordinate names,
      and only registered axes are listed. */
  predicate WellLinked(p: Panels) {
    && Valid(p.bounds)
    && (forall ax :: ax in p.specs ==> ax in Users(p, p.specs[ax].x) && ax in Users(p, p.specs[ax].y))
    && (forall n, ax :: n in p.coords && ax in p.coords[n] ==> ax in p.specs)
  }

  /** `assert len(names) == self._D` failing. */
  datatype LinkError = WrongDimension

  /** `LinkedPanels.__init__` before any axes: an empty parentless Bounds. */
  function NoPanels(): (p: Panels)
    ensures WellLinked(p) && p.specs == map[] && Names(p.bounds) == []
  {
    Panels(map[], map[], Empty(None), {})
  }

  /** `add_axes(ax, names)` */
  function AddAxes(p: Panels, ax: AxesId, names: seq<string>): (r: Result<Panels, LinkError>)
    requires WellLinked(p)
    ensures r.Success? <==> |names| == 2
    ensures r.Success? ==>
      && WellLinked(r.value)
      && r.value.specs == p.specs[ax := CoordPair(names[0], names[1])]
      && r.value.bounds == p.bounds && r.value.equalAx == p.equalAx
      && forall n :: Users(r.value, n) == Users(p, n) + (if n == names[0] || n == names[1] then {ax} else {})
  {
    if |names| != 2 then Failure(WrongDimension)
    else
      var c0 := p.coords[names[0] := Users(p, names[0]) + {ax}];
      var c1 := c0[names[1] := (if names[1] in c0 then c0[names[1]] else {}) + {ax}];
      Success(Panels(p.specs[ax := CoordPair(names[0], names[1])], c1, p.bounds, p.equalAx))
  }

  /** `LinkedPanels(ax_specs)`: every entry registered in dict order. */
  function NewPanels(specs: seq<(AxesId, seq<string>)>): (r: Result<Panels, LinkError>)
    ensures r.Success? <==> AllPairs(specs)
    ensures r.Success? ==> WellLinked(r.value) && r.value.specs.Keys == SpecIds(specs)
  {
    if |specs| == 0 then Success(NoPanels())
    else
      var init := specs[..|specs| - 1];
      var last := specs[|specs| - 1];
      IdsSnoc(specs);
      match NewPanels(init)
      case Failure(e) => Failure(e)
      case Success(p) => AddAxes(p, last.0, last.1)
  }

  /** Each axes is registered with the coordinates listed for it. `ax_specs`
      is a dict, so its items list each axes once; for a list that repeats
      an axes, the last listing wins, as `add_axes` overwrites `ax_specs[ax]`. */
  lemma {:induction false} NewPanelsRegistersLastListing(specs: seq<(AxesId, seq<string>)>)
    requires AllPairs(specs)
    ensures NewPanels(specs).Success? && RegistersLast(specs, NewPanels(specs).value.specs)
    decreases |specs|
  {
    if |specs| > 0 {
      var init := specs[..|specs| - 1];
      var last := specs[|specs| - 1];
      IdsSnoc(specs);
      var p := NewPanels(init).value;
      NewPanelsRegistersLastListing(init);
      RegistersLastSnoc(specs, p.specs);
      assert NewPanels(specs).value.specs == p.specs[last.0 := CoordPair(last.1[0], last.1[1])];
    }
  }

  /** Each entry that no later entry overrides is registered in `m`. */
  predicate RegistersLast(specs: seq<(AxesId, seq<string>)>, m: map<AxesId, CoordPair>)
    requires AllPairs(specs)
  {
    forall i :: 0 <= i < |specs| && LastListing(specs, i) ==>
      specs[i].0 in m && m[specs[i].0] == CoordPair(specs[i].1[0], specs[i].1[1])
  }

  /** Registering the last entry on top of a registry for the others. */
  lemma RegistersLastSnoc(specs: seq<(AxesId, seq<string>)>, m: map<AxesId, CoordPair>)
    requires |specs| > 0 && AllPairs(specs)
    requires AllPairs(specs[..|specs| - 1]) && RegistersLast(specs[..|specs| - 1], m)
    ensures var last := specs[|specs| - 1];
      RegistersLast(specs, m[last.0 := CoordPair(last.1[0], last.1[1])])
  {
    var init := specs[..|specs| - 1];
    var last := specs[|specs| - 1];
    var m' := m[last.0 := CoordPair(last.1[0], last.1[1])];
    forall i | 0 <= i < |specs| && LastListing(specs, i)
      ensures specs[i].0 in m' && m'[specs[i].0] == CoordPair(specs[i].1[0], specs[i].1[1])
    {
      if i < |specs| - 1 {
        assert specs[i].0 != last.0;
        assert init[i] == specs[i];
        assert LastListing(init, i);
      }
    }
  }

  /** With the items of a dict, which never repeat an axes, every listed
      axes is registered with exactly the coordinates listed for it. */
  lemma NewPanelsRegistersListed(specs: seq<(AxesId, seq<string>)>)
    requires AllPairs(specs)
    requires forall i, j :: 0 <= i < j < |specs| ==> specs[i].0 != specs[j].0
    ensures forall i :: 0 <= i < |specs| ==>
      NewPanels(specs).value.specs[specs[i].0] == CoordPair(specs[i].1[0], specs[i].1[1])
  {
    NewPanelsRegistersLastListing(specs);
    forall i | 0 <= i < |specs| ensures LastListing(specs, i) {
    }
  }

  /** Entry `i` is the last one that lists its axes: a later entry for the
      same axes would overwrite `ax_specs[ax]`. */
  predicate LastListing(specs: seq<(AxesId, seq<string>)>, i: nat)
    requires i < |specs|
  {
    forall k :: i < k < |specs| ==> specs[k].0 != specs[i].0
  }

  /** Every spec names exactly two coordinates. */
  predicate AllPairs(specs: seq<(AxesId, seq<string>)>) {
    forall i :: 0 <= i < |specs| ==> |specs[i].1| == 2
  }

  /** The axes named by a spec list. */
  function SpecIds(specs: seq<(AxesId, seq<string>)>): set<AxesId> {
    set i | 0 <= i < |specs| :: specs[i].0
  }

  lemma IdsSnoc(specs: seq<(AxesId, seq<string>)>)
    requires |specs| > 0
    ensures SpecIds(specs) == SpecIds(specs[..|specs| - 1]) + {specs[|specs| - 1].0}
    ensures AllPairs(specs) <==> AllPairs(specs[..|specs| - 1]) && |specs[|specs| - 1].1| == 2
  {
    var init := specs[..|specs| - 1];
    assert forall i :: 0 <= i < |init| ==> init[i] == specs[i];
    forall a | a in SpecIds(specs) ensures a in SpecIds(init) + {specs[|specs| - 1].0} {
      var i :| 0 <= i < |specs| && specs[i].0 == a;
      if i < |init| {
        assert init[i].0 == a;
      }
    }
    forall a | a in SpecIds(init) ensures a in SpecIds(specs) {
      var i :| 0 <= i < |init| && init[i].0 == a;
      assert specs[i].0 == a;
    }
  }

  /** `_setup_events`: the panels listen on the interaction-complete topic,
      and nothing else in the registry changes. */
  function SetupEvents<S>(reg: Registry<S>, me: S): (r: Registry<S>)
    ensures me in Lookup(r, InteractionCompleteTopic).subscribers
    ensures Lookup(r, InteractionCompleteTopic).subscribers - {me} == Lookup(reg, InteractionCompleteTopic).subscribers - {me}
    ensures forall n :: n != InteractionCompleteTopic ==> Lookup(r, n) == Lookup(reg, n)
  {
    AttachTo(reg, InteractionCompleteTopic, me)
  }

  // ---------------------------------------------------------- aspect lock

  /** An extent `(lo, hi)` of one axis. */
  datatype Span = Span(lo: real, hi: real)

  function Width(s: Span): real {
    s.hi - s.lo
  }

  function Mid(s: Span): real {
    (s.lo + s.hi) / 2.0
  }

  /** The size of the axes' drawing box. */
  datatype BBox = BBox(width: real, height: real)

  /** `bbox.height / bbox.width` */
  function Aspect(box: BBox): real
    requires box.width > 0.0
  {
    box.height / box.width
  }

  /** An extent widened (or narrowed) symmetrically about its centre to width `goal`. */
  function Widen(s: Span, goal: real): (r: Span)
    ensures Width(r) == goal && Mid(r) == Mid(s)
  {
    var half := 0.5 * (goal - Width(s));
    Span(s.lo - half, s.hi + half)
  }

  /** Comparing a ratio with the aspect is comparing the cross products. */
  lemma RatioFacts(dy: real, dx: real, aspect: real)
    requires dx > 0.0 && aspect > 0.0
    ensures dy / dx > aspect <==> dy > aspect * dx
    ensures dy > aspect * dx ==> dy / aspect > dx
  {
    var ratio := dy / dx;
    CancelDivision(dy, dx);
    ScaleStrict(ratio, aspect, dx);
    assert ratio * dx == dy;
    assert ratio > aspect <==> dy > aspect * dx;
    CancelDivision(dy, aspect);
    ScaleStrict(dy / aspect, dx, aspect);
  }

  /** The same comparison for an inverted x axis (dx < 0): multiplying
      through by dx reverses it. */
  lemma RatioFactsInverted(dy: real, dx: real, aspect: real)
    requires dx < 0.0 && aspect > 0.0
    ensures dy / dx > aspect <==> dy < aspect * dx
    ensures dy < aspect * dx ==> dy / aspect < dx
  {
    var ratio := dy / dx;
    CancelDivision(dy, dx);
    ScaleStrictNegative(ratio, aspect, dx);
    assert ratio * dx == dy;
    assert ratio > aspect <==> dy < aspect * dx;
    CancelDivision(dy, aspect);
    ScaleStrict(dx, dy / aspect, aspect);
  }

  /** Multiplying by a positive number keeps a strict comparison. */
  lemma ScaleStrict(p: real, q: real, c: real)
    requires c > 0.0
    ensures p > q <==> p * c > q * c
  {
    assert p * c - q * c == (p - q) * c;
  }

  /** Multiplying by a negative number reverses a strict comparison. */
  lemma ScaleStrictNegative(p: real, q: real, c: real)
    requires c < 0.0
    ensures p > q <==> p * c < q * c
  {
    assert q * c - p * c == (p - q) * -c;
  }

  lemma CancelDivision(p: real, q: real)
    requires q != 0.0
    ensures (p / q) * q == p
  {
  }

  lemma AspectPositive(box: BBox)
    requires box.width > 0.0 && box.height > 0.0
    ensures Aspect(box) > 0.0
  {
  }

  /** The aspect lock: stretch whichever extent is too short, symmetrically
      about its centre, so that dy/dx equals the box's height/width. An
      inverted x axis (dx < 0) is handled too: the extents then grow in the
      negative direction, and y takes x's orientation whenever y is the one
      adjusted. */
  function Reconcile(x: Span, y: Span, box: BBox): (r: (Span, Span))
    requires Width(x) != 0.0 && box.width > 0.0 && box.height > 0.0
    ensures Width(r.1) == Aspect(box) * Width(r.0)
    ensures Width(r.0) != 0.0 && (Width(r.0) > 0.0 <==> Width(x) > 0.0)
    ensures r.0 == x || r.1 == y
    ensures Width(x) > 0.0 ==> Width(r.0) >= Width(x) && Width(r.1) >= Width(y)
    ensures Width(x) < 0.0 ==> Width(r.0) <= Width(x) && Width(r.1) <= Width(y)
    ensures Mid(r.0) == Mid(x) && Mid(r.1) == Mid(y)
    ensures Width(y) == Aspect(box) * Width(x) ==> r == (x, y)
  {
    var aspect := Aspect(box);
    AspectPositive(box);
    var dx, dy := Width(x), Width(y);
    assert && (dx > 0.0 ==> (dy / dx > aspect <==> dy > aspect * dx) && (dy > aspect * dx ==> dy / aspect > dx))
           && (dx < 0.0 ==> (dy / dx > aspect <==> dy < aspect * dx) && (dy < aspect * dx ==> dy / aspect < dx)) by {
      if dx > 0.0 {
        RatioFacts(dy, dx, aspect);
      } else {
        RatioFactsInverted(dy, dx, aspect);
      }
    }
    CancelDivision(Width(y), aspect);
    if Width(y) / Width(x) > aspect then
      (Widen(x, Width(y) / aspect), y)
    else
      var r := (x, Widen(y, aspect * Width(x)));
      assert Width(y) == aspect * Width(x) ==> r.1 == y;
      r
  }

  /** The aspect lock is idempotent: extents it produced are already in
      ratio, so a second pass leaves them alone. */
  lemma ReconcileSettles(x: Span, y: Span, box: BBox)
    requires Width(x) != 0.0 && box.width > 0.0 && box.height > 0.0
    ensures var r := Reconcile(x, y, box);
      Width(r.0) != 0.0 && Reconcile(r.0, r.1, box) == r
  {
  }

  // ------------------------------------------------------------------ send

  /** `axes.axis(emit=False)`: the current x and y extents. */
  datatype ViewLimits = ViewLimits(x: Span, y: Span)

  datatype Payload = BoundsPayload(bounds: Bounds) | Note(text: string)

  /** What `send` does outside its own state: limit sets on axes, and
      messages published on topics. */
  datatype Effect =
    | SetXlim(ax: AxesId, range: Range)
    | SetYlim(ax: AxesId, range: Range)
    | Publish(topic: string, payload: Payload)

  function SpanRange(s: Span): Range {
    Closed(s.lo, s.hi)
  }

  /** The preconditions of the aspect lock hold for this interaction. */
  predicate AspectDefined(p: Panels, ax: AxesId, v: ViewLimits, box: BBox) {
    ax in p.equalAx ==> Width(v.x) != 0.0 && box.width > 0.0 && box.height > 0.0
  }

  /** The extents `send` compares with the stored bounds. */
  function Requested(p: Panels, ax: AxesId, v: ViewLimits, box: BBox): (r: (Span, Span))
    requires AspectDefined(p, ax, v, box)
  {
    if ax in p.equalAx then Reconcile(v.x, v.y, box) else (v.x, v.y)
  }

  /** The axes a change of `ax` must update: all sharing either coordinate. */
  function ToUpdate(p: Panels, ax: AxesId): set<AxesId>
    requires ax in p.specs
  {
    Users(p, p.specs[ax].x) + Users(p, p.specs[ax].y)
  }

  /** For each axes in turn: `set_xlim` and `set_ylim` from its own coordinates. */
  function LimitEffects(p: Panels, order: seq<AxesId>): (r: seq<Effect>)
    requires forall a :: a in order ==> a in p.specs
    ensures |r| == 2 * |order|
    ensures forall e :: e in r ==> !e.Publish? && e.ax in order
    ensures forall e :: e in r && e.SetXlim? ==> e.range == Get(p.bounds, p.specs[e.ax].x)
    ensures forall e :: e in r && e.SetYlim? ==> e.range == Get(p.bounds, p.specs[e.ax].y)
    ensures forall a :: a in order ==>
      SetXlim(a, Get(p.bounds, p.specs[a].x)) in r && SetYlim(a, Get(p.bounds, p.specs[a].y)) in r
  {
    if |order| == 0 then []
    else
      var a := order[0];
      [SetXlim(a, Get(p.bounds, p.specs[a].x)), SetYlim(a, Get(p.bounds, p.specs[a].y))]
        + LimitEffects(p, order[1..])
  }

  /** `bounds_updated()`: the three announcements, in order. */
  function Announce(b: Bounds): seq<Effect> {
    [ Publish(BoundsUpdatedTopic, BoundsPayload(b)),
      Publish(ReflowStartTopic, Note("LinkedPanels triggered data reflow")),
      Publish(ReflowDoneTopic, Note("LinkedPanels reflow done")) ]
  }

  /** The stored bounds after writing the requested extents: x first, then y. */
  function Written(p: Panels, ax: AxesId, req: (Span, Span)): (b: Bounds)
    requires Valid(p.bounds) && ax in p.specs
    ensures Valid(b) && b.parent == p.bounds.parent
    ensures Get(b, p.specs[ax].y) == SpanRange(req.1)
    ensures p.specs[ax].x != p.specs[ax].y ==> Get(b, p.specs[ax].x) == SpanRange(req.0)
    ensures forall n :: n != p.specs[ax].x && n != p.specs[ax].y ==> Get(b, n) == Get(p.bounds, n)
  {
    Set(Set(p.bounds, p.specs[ax].x, SpanRange(req.0)), p.specs[ax].y, SpanRange(req.1))
  }

  /** Whether the requested extents differ from the stored ones. */
  predicate Changes(p: Panels, ax: AxesId, req: (Span, Span))
    requires ax in p.specs
  {
    SpanRange(req.0) != Get(p.bounds, p.specs[ax].x) || SpanRange(req.1) != Get(p.bounds, p.specs[ax].y)
  }

  /** `LinkedPanels.send(ax_mgr)`: an interaction on axes `ax` has completed,
      the axes showing `v` in a box `box`. `order` is the iteration order of
      the set of axes to update. */
  function Send(p: Panels, ax: AxesId, v: ViewLimits, box: BBox, order: seq<AxesId>): (r: (Panels, seq<Effect>))
    requires WellLinked(p)
    requires ax in p.specs ==> AspectDefined(p, ax, v, box) && Enumerates(order, ToUpdate(p, ax))
    ensures WellLinked(r.0)
    ensures r.0.specs == p.specs && r.0.coords == p.coords && r.0.equalAx == p.equalAx
  {
    if ax !in p.specs then (p, [])
    else
      var req := Requested(p, ax, v, box);
      if !Changes(p, ax, req) then (p, [])
      else
        var p' := p.(bounds := Written(p, ax, req));
        NewBoundsKeepLinks(p, p'.bounds);
        UpdatedAreRegistered(p, ax, order);
        (p', LimitEffects(p', order) + Announce(p'.bounds))
  }

  /** Replacing the bounds store leaves the axes registry well linked. */
  lemma NewBoundsKeepLinks(p: Panels, b: Bounds)
    requires WellLinked(p) && Valid(b)
    ensures WellLinked(p.(bounds := b))
  {
  }

  /** Every axes sharing a coordinate with a registered one is registered. */
  lemma UpdatedAreRegistered(p: Panels, ax: AxesId, order: seq<AxesId>)
    requires WellLinked(p) && ax in p.specs && Enumerates(order, ToUpdate(p, ax))
    ensures forall a :: a in order ==> a in p.specs
  {
  }

  /** An interaction on axes that are not registered here is ignored. */
  lemma SendUnknownAxesIgnored(p: Panels, ax: AxesId, v: ViewLimits, box: BBox, order: seq<AxesId>)
    requires WellLinked(p) && ax !in p.specs
    ensures Send(p, ax, v, box, order) == (p, [])
  {
  }

  /** When the (reconciled) extents equal the stored bounds nothing is
      written and nothing is announced. */
  lemma SendWithoutChangeIsSilent(p: Panels, ax: AxesId, v: ViewLimits, box: BBox, order: seq<AxesId>)
    requires WellLinked(p) && ax in p.specs
    requires AspectDefined(p, ax, v, box) && Enumerates(order, ToUpdate(p, ax))
    requires SpanRange(Requested(p, ax, v, box).0) == Get(p.bounds, p.specs[ax].x)
    requires SpanRange(Requested(p, ax, v, box).1) == Get(p.bounds, p.specs[ax].y)
    ensures Send(p, ax, v, box, order) == (p, [])
  {
  }

  /** On a change, the two coordinates take the new extents (y last, so it
      wins when both names are the same) and every other name keeps its range. */
  lemma SendOnChangeWrites(p: Panels, ax: AxesId, v: ViewLimits, box: BBox, order: seq<AxesId>)
    requires WellLinked(p) && ax in p.specs
    requires AspectDefined(p, ax, v, box) && Enumerates(order, ToUpdate(p, ax))
    requires Changes(p, ax, Requested(p, ax, v, box))
    ensures var b := Send(p, ax, v, box, order).0.bounds;
      var cp := p.specs[ax];
      var req := Requested(p, ax, v, box);
      && Get(b, cp.y) == SpanRange(req.1)
      && (cp.x != cp.y ==> Get(b, cp.x) == SpanRange(req.0))
      && (forall n :: n != cp.x && n != cp.y ==> Get(b, n) == Get(p.bounds, n))
  {
  }

  /** On a change, every axes sharing a coordinate, the source included, gets
      the limits of its own two coordinates and no other axes is touched; then
      bounds-updated (with the bounds), reflow-start and reflow-done are
      published, in that order, after all limit sets. */
  lemma SendOnChangeNotifies(p: Panels, ax: AxesId, v: ViewLimits, box: BBox, order: seq<AxesId>)
    requires WellLinked(p) && ax in p.specs
    requires AspectDefined(p, ax, v, box) && Enumerates(order, ToUpdate(p, ax))
    requires Changes(p, ax, Requested(p, ax, v, box))
    ensures var (p', effects) := Send(p, ax, v, box, order);
      && ax in ToUpdate(p, ax)
      && (forall a :: a in ToUpdate(p, ax) ==>
            SetXlim(a, Get(p'.bounds, p.specs[a].x)) in effects
            && SetYlim(a, Get(p'.bounds, p.specs[a].y)) in effects)
      && (forall e :: e in effects && !e.Publish? ==> e.ax in ToUpdate(p, ax))
      && |effects| == 2 * |ToUpdate(p, ax)| + 3
      && effects[|effects| - 3..] == Announce(p'.bounds)
      && (forall i :: 0 <= i < |effects| - 3 ==> !effects[i].Publish?)
  {
    var p' := p.(bounds := Written(p, ax, Requested(p, ax, v, box)));
    var le := LimitEffects(p', order);
    assert Send(p, ax, v, box, order) == (p', le + Announce(p'.bounds));
    EnumerationSize(order, ToUpdate(p, ax));
    LimitsThenAnnounce(le, p'.bounds);
  }

  /** Limit sets followed by the announcements: the announcements are the
      last three effects and nothing before them publishes. */
  lemma LimitsThenAnnounce(le: seq<Effect>, b: Bounds)
    requires forall e :: e in le ==> !e.Publish?
    ensures var effects := le + Announce(b);
      && |effects| == |le| + 3
      && effects[|effects| - 3..] == Announce(b)
      && (forall i :: 0 <= i < |effects| - 3 ==> !effects[i].Publish?)
      && (forall e :: e in effects && !e.Publish? ==> e in le)
  {
    var effects := le + Announce(b);
    forall i | 0 <= i < |effects| - 3 ensures !effects[i].Publish? {
      assert effects[i] == le[i] && le[i] in le;
    }
  }

  /** Re-delivery is idempotent: once the source axes show the limits the
      change wrote (as the fan-out sets them), a second interaction-complete
      message for the same axes changes nothing and announces nothing. This
      is what stops the limit sets of the fan-out from looping. */
  lemma ResendIsIdempotent(p: Panels, ax: AxesId, v: ViewLimits, box: BBox, order: seq<AxesId>,
                           shown: ViewLimits, order2: seq<AxesId>)
    requires WellLinked(p) && ax in p.specs
    requires AspectDefined(p, ax, v, box) && Enumerates(order, ToUpdate(p, ax))
    requires ax in p.equalAx ==> p.specs[ax].x != p.specs[ax].y
    requires SpanRange(shown.x) == Get(Send(p, ax, v, box, order).0.bounds, p.specs[ax].x)
    requires SpanRange(shown.y) == Get(Send(p, ax, v, box, order).0.bounds, p.specs[ax].y)
    requires Enumerates(order2, ToUpdate(Send(p, ax, v, box, order).0, ax))
    ensures Send(Send(p, ax, v, box, order).0, ax, shown, box, order2) == (Send(p, ax, v, box, order).0, [])
  {
    var p' := Send(p, ax, v, box, order).0;
    var cp := p.specs[ax];
    var req := Requested(p, ax, v, box);
    if Changes(p, ax, req) {
      SendOnChangeWrites(p, ax, v, box, order);
    } else {
      assert p' == p;
    }
    assert shown.y == req.1;
    if ax in p.equalAx {
      assert (shown.x, shown.y) == req == Reconcile(v.x, v.y, box);
      ReconcileSettles(v.x, v.y, box);
      assert Requested(p', ax, shown, box) == (shown.x, shown.y);
    } else {
      assert Requested(p', ax, shown, box) == (shown.x, shown.y);
    }
    assert !Changes(p', ax, (shown.x, shown.y));
  }
}
