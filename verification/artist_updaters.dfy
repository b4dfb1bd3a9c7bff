/** Colour-limit and scatter-data propagation of
    support/matplotlib/artistupdaters.py: `MappableRangeUpdater`, the
    `UpdatesMappable` property, the scatter outlet's per-batch effects, and
    the wiring `PanelsScatterController` builds for every panel. */
module ArtistUpdaters {
  import opened Wrappers
  import opened Delivery
  import opened Records
  import opened BoundsStore
  import opened Pipeline
  import opened PubSub

  /** `artist.set_clim(lo, hi)` */
  datatype ClimEffect = SetClim(lo: Option<real>, hi: Option<real>)

  /** `MappableRangeUpdater`: the colour field and the fallback bounds. */
  datatype RangeUpdater = RangeUpdater(colorField: Option<string>, defaultBounds: Bounds)

  datatype UpdaterError =
    | NameNotString            // `getattr(bounds, None)`
    | TooFewCoordinates         // `coords[k]` past the end of `coords`
    | FieldMissing(name: string)

  /** `MappableRangeUpdater(artist, color_field, default_bounds)`: an empty
      Bounds stands in for a missing default. */
  function NewRangeUpdater(colorField: Option<string>, defaultBounds: Option<Bounds>): (u: RangeUpdater)
    requires defaultBounds.Some? ==> Valid(defaultBounds.value)
    ensures Valid(u.defaultBounds) && u.colorField == colorField
    ensures defaultBounds.None? ==> forall n :: Get(u.defaultBounds, n) == Unset
    ensures defaultBounds.Some? ==> u.defaultBounds == defaultBounds.value
  {
    RangeUpdater(colorField, if defaultBounds.None? then Empty(None) else defaultBounds.value)
  }

  /** The colour limits for `name`: the bounds' own range unless both ends
      are unset, in which case the default bounds' range. */
  function ColorLimits(b: Bounds, defaults: Bounds, name: string): (r: Range)
    requires Valid(b) && Valid(defaults)
  {
    if Get(b, name) == Unset then Get(defaults, name) else Get(b, name)
  }

  /** The fallback is taken exactly when the bounds leave the field unset,
      and with the default (empty) fallback an unset field stays unset; a
      field with at least one end set is used as it is. */
  lemma ColorLimitsFallback(b: Bounds, defaults: Bounds, name: string)
    requires Valid(b) && Valid(defaults)
    ensures name in Effective(b) && Get(b, name) != Unset ==> ColorLimits(b, defaults, name) == Effective(b)[name]
    ensures name !in Effective(b) ==> ColorLimits(b, defaults, name) == Get(defaults, name)
    ensures (forall n :: Get(defaults, n) == Unset) ==> ColorLimits(b, defaults, name) == Get(b, name)
  {
    GetIsEffective(b, name);
  }

  /** `MappableRangeUpdater.send(bounds)` as written: with no colour field,
      `bounds[None]` raises. */
  function RangeSendAsWritten(u: RangeUpdater, b: Bounds): (r: Result<ClimEffect, UpdaterError>)
    requires Valid(b) && Valid(u.defaultBounds)
    ensures r.Failure? <==> u.colorField.None?
    ensures r.Success? ==> r.value == SetClim(ColorLimits(b, u.defaultBounds, u.colorField.value).lo,
                                              ColorLimits(b, u.defaultBounds, u.colorField.value).hi)
  {
    match u.colorField
    case None => Failure(NameNotString)
    case Some(f) =>
      var lim := ColorLimits(b, u.defaultBounds, f);
      Success(SetClim(lim.lo, lim.hi))
  }

  /** `MappableRangeUpdater.send(bounds)` as evidently intended: with no
      colour field there are no colour limits to set, as the scatter outlet
      already assumes. */
  function RangeSend(u: RangeUpdater, b: Bounds): (r: seq<ClimEffect>)
    requires Valid(b) && Valid(u.defaultBounds)
    ensures u.colorField.None? <==> r == []
    ensures u.colorField.Some? ==> RangeSendAsWritten(u, b) == Success(r[0]) && |r| == 1
  {
    match u.colorField
    case None => []
    case Some(f) =>
      var lim := ColorLimits(b, u.defaultBounds, f);
      [SetClim(lim.lo, lim.hi)]
  }

  /** `scatter_dataset_on_panels(panels)` leaves `color_field` at its default,
      None, and attaches the updater to bounds-updated: as written, every
      bounds update then raises in the updater. */
  lemma ScatterDefaultUpdaterRaises(b: Bounds)
    requires Valid(b)
    ensures RangeSendAsWritten(NewRangeUpdater(None, None), b).Failure?
    ensures RangeSend(NewRangeUpdater(None, None), b) == []
  {
  }

  // ---------------------------------------------------------- scatter outlet

  /** What `ScatterArtistOutlet.update` does to its artist per batch. */
  datatype ArtistEffect = SetOffsets(points: seq<(real, real)>) | SetArray(values: seq<real>)

  /** `ScatterArtistOutlet.update` receiving one batch: the offsets from the
      two coordinates, then the colour values only when there is a colour field. */
  function OutletUpdate(coords: seq<string>, colorField: Option<string>, a: Batch): (r: Result<seq<ArtistEffect>, UpdaterError>)
    requires WellFormed(a)
    ensures r.Success? <==> (|coords| >= 2 && coords[0] in a.fields && coords[1] in a.fields
      && (colorField.Some? ==> colorField.value in a.fields))
    ensures |coords| == 0 ==> r == Failure(TooFewCoordinates)
    ensures |coords| >= 1 && coords[0] !in a.fields ==> r == Failure(FieldMissing(coords[0]))
    ensures |coords| == 1 && coords[0] in a.fields ==> r == Failure(TooFewCoordinates)
    ensures |coords| >= 2 && coords[0] in a.fields && coords[1] !in a.fields ==> r == Failure(FieldMissing(coords[1]))
    ensures |coords| >= 2 && coords[0] in a.fields && coords[1] in a.fields && colorField.Some? && colorField.value !in a.fields
      ==> r == Failure(FieldMissing(colorField.value))
    ensures r.Success? ==> (|r.value| == (if colorField.Some? then 2 else 1)
      && r.value[0].SetOffsets? && |r.value[0].points| == |a.rows|
      && (forall i :: 0 <= i < |a.rows| ==> r.value[0].points[i] == (a.rows[i][coords[0]], a.rows[i][coords[1]]))
      && (colorField.Some? ==> r.value[1] == SetArray(seq(|a.rows|, i requires 0 <= i < |a.rows| => a.rows[i][colorField.value]))))
  {
    if |coords| == 0 then Failure(TooFewCoordinates)
    else if coords[0] !in a.fields then Failure(FieldMissing(coords[0]))
    else if |coords| == 1 then Failure(TooFewCoordinates)
    else if coords[1] !in a.fields then Failure(FieldMissing(coords[1]))
    else
      assert forall i :: 0 <= i < |a.rows| ==> a.rows[i] in a.rows;
      var offsets := SetOffsets(seq(|a.rows|, i requires 0 <= i < |a.rows| => (a.rows[i][coords[0]], a.rows[i][coords[1]])));
      match colorField
      case None => Success([offsets])
      case Some(f) =>
        if f !in a.fields then Failure(FieldMissing(f))
        else Success([offsets, SetArray(seq(|a.rows|, i requires 0 <= i < |a.rows| => a.rows[i][f]))])
  }

  /** The array `np.asarray(zip(x, y))` builds. Under Python 2 `zip` returns
      the list of pairs and the array holds the points; under Python 3 `zip`
      is a lazy iterator, which `np.asarray` wraps as a 0-d object array that
      holds no points. */
  datatype OffsetArray = PointArray(points: seq<(real, real)>) | ZipObject

  /** The offsets `ScatterArtistOutlet.update` builds as written, under
      Python 3: the coordinates are looked up as in `OutletUpdate`, and once
      both are found the columns never become points. */
  function OutletOffsetsAsWritten(coords: seq<string>, a: Batch): (r: Result<OffsetArray, UpdaterError>)
    requires WellFormed(a)
    ensures r.Success? <==> |coords| >= 2 && coords[0] in a.fields && coords[1] in a.fields
    ensures r.Success? ==> !r.value.PointArray?
    ensures r.Failure? ==> r == Failure(OutletUpdate(coords, None, a).error)
  {
    if |coords| == 0 then Failure(TooFewCoordinates)
    else if coords[0] !in a.fields then Failure(FieldMissing(coords[0]))
    else if |coords| == 1 then Failure(TooFewCoordinates)
    else if coords[1] !in a.fields then Failure(FieldMissing(coords[1]))
    else Success(ZipObject)
  }

  /** For any batch with a row, the array built as written is not the list
      of points that `OutletUpdate` hands to `set_offsets`, which holds one
      point per row. */
  lemma OutletOffsetsAsWrittenLosePoints(coords: seq<string>, a: Batch)
    requires WellFormed(a) && |a.rows| > 0
    requires OutletUpdate(coords, None, a).Success?
    ensures |OutletUpdate(coords, None, a).value[0].points| == |a.rows|
    ensures OutletOffsetsAsWritten(coords, a).Success?
    ensures OutletOffsetsAsWritten(coords, a).value != PointArray(OutletUpdate(coords, None, a).value[0].points)
  {
  }

  /** Colours are touched only with a colour field. */
  lemma OutletColorsOnlyWithField(coords: seq<string>, a: Batch)
    requires WellFormed(a)
    requires OutletUpdate(coords, None, a).Success?
    ensures forall e :: e in OutletUpdate(coords, None, a).value ==> !e.SetArray?
  {
  }

  // ------------------------------------------------- PanelsScatterController

  /** The objects the controller creates per axes. */
  datatype Member = UpdaterOf(ax: nat) | OutletOf(ax: nat)

  /** `PanelsScatterController`: the stored colour field, the colour field of
      each member of `mappable_updaters`, the default bounds, and the
      branchpoint over the outlets. */
  datatype ScatterController = ScatterController(
    colorField: Option<string>,
    members: map<Member, Option<string>>,
    defaultBounds: Bounds,
    branchpoint: Branchpoint<Member>)

  /** The `UpdatesMappable` setter: store the value and copy it to every member. */
  function SetColorField(c: ScatterController, v: Option<string>): (r: ScatterController)
    ensures r.colorField == v
    ensures r.members.Keys == c.members.Keys && forall m :: m in r.members ==> r.members[m] == v
    ensures r.defaultBounds == c.defaultBounds && r.branchpoint == c.branchpoint
  {
    c.(colorField := v, members := map m | m in c.members :: v)
  }

  /** The `UpdatesMappable` getter. */
  function ColorField(c: ScatterController): Option<string> {
    c.colorField
  }

  /** The property returns what was last assigned, and afterwards every
      member agrees with it. */
  lemma ColorFieldRoundTrip(c: ScatterController, v: Option<string>, w: Option<string>)
    ensures ColorField(SetColorField(c, v)) == v
    ensures ColorField(SetColorField(SetColorField(c, w), v)) == v
    ensures forall m :: m in SetColorField(c, v).members ==> SetColorField(c, v).members[m] == ColorField(SetColorField(c, v))
  {
  }

  /** The members made for the given axes. */
  function MembersFor(axes: seq<nat>, v: Option<string>): (r: map<Member, Option<string>>)
    ensures forall m :: m in r <==> m.ax in axes
    ensures forall m :: m in r ==> r[m] == v
  {
    var ms := Updaters(axes) + (set ax | ax in axes :: OutletOf(ax));
    map m | m in ms :: v
  }

  /** The range updaters of the given axes. */
  function Updaters(axes: seq<nat>): (r: set<Member>)
    ensures forall m :: m in r <==> m.UpdaterOf? && m.ax in axes
  {
    set ax | ax in axes :: UpdaterOf(ax)
  }

  /** Attaching the updater of each axes to bounds-updated, in order. */
  function AttachUpdaters(reg: Registry<Member>, axes: seq<nat>): (r: Registry<Member>)
    ensures Lookup(r, BoundsUpdatedTopic).subscribers
         == Lookup(reg, BoundsUpdatedTopic).subscribers + Updaters(axes)
    ensures forall n :: n != BoundsUpdatedTopic ==> Lookup(r, n) == Lookup(reg, n)
    decreases |axes|
  {
    if |axes| == 0 then reg
    else
      var r := AttachUpdaters(AttachTo(reg, BoundsUpdatedTopic, UpdaterOf(axes[0])), axes[1..]);
      assert Updaters(axes)
          == {UpdaterOf(axes[0])} + Updaters(axes[1..]) by {
        forall m | m in Updaters(axes)
          ensures m in {UpdaterOf(axes[0])} + Updaters(axes[1..])
        {
          var ax := m.ax;
          if ax != axes[0] {
            var i :| 0 <= i < |axes| && axes[i] == ax;
            assert axes[1..][i - 1] == ax;
          }
        }
      }
      r
  }

  /** The outlets, one per axes, in the order of the axes. */
  function Outlets(axes: seq<nat>): (r: seq<Member>)
    ensures |r| == |axes| && forall i :: 0 <= i < |axes| ==> r[i] == OutletOf(axes[i])
  {
    seq(|axes|, i requires 0 <= i < |axes| => OutletOf(axes[i]))
  }

  /** `PanelsScatterController(panels, color_field, default_color_bounds)`
      over the axes of `panels.ax_specs` (in dict order): per axes one range
      updater attached to bounds-updated and one outlet, both in the members;
      the branchpoint targets exactly the outlets. */
  function NewScatterController(reg: Registry<Member>, axes: seq<nat>, colorField: Option<string>, defaultBounds: Option<Bounds>)
    : (r: (Registry<Member>, ScatterController))
    requires defaultBounds.Some? ==> Valid(defaultBounds.value)
    ensures var (reg', c) := r;
      && c.colorField == colorField
      && Valid(c.defaultBounds)
      && (defaultBounds.None? ==> forall n :: Get(c.defaultBounds, n) == Unset)
      && (defaultBounds.Some? ==> c.defaultBounds == defaultBounds.value)
      && (forall ax :: UpdaterOf(ax) in c.members <==> ax in axes)
      && (forall ax :: OutletOf(ax) in c.members <==> ax in axes)
      && (forall m :: m in c.members ==> c.members[m] == colorField)
      && (forall m :: m in c.branchpoint.targets <==> m.OutletOf? && m.ax in axes)
      && Lookup(reg', BoundsUpdatedTopic).subscribers
         == Lookup(reg, BoundsUpdatedTopic).subscribers + Updaters(axes)
      && (forall n :: n != BoundsUpdatedTopic ==> Lookup(reg', n) == Lookup(reg, n))
  {
    var d := NewRangeUpdater(colorField, defaultBounds).defaultBounds;
    var bp := NewBranchpoint(Outlets(axes));
    assert forall m :: m in bp.targets <==> m.OutletOf? && m.ax in axes by {
      forall m ensures m in bp.targets <==> m.OutletOf? && m.ax in axes {
        if m.OutletOf? && m.ax in axes {
          var i :| 0 <= i < |axes| && axes[i] == m.ax;
          assert Outlets(axes)[i] == m;
        }
      }
    }
    (AttachUpdaters(reg, axes), ScatterController(colorField, MembersFor(axes, colorField), d, bp))
  }

  /** The range updater the controller made for an axes. */
  function UpdaterFor(c: ScatterController, ax: nat): (u: RangeUpdater)
    requires UpdaterOf(ax) in c.members
    ensures u.colorField == c.members[UpdaterOf(ax)] && u.defaultBounds == c.defaultBounds
  {
    RangeUpdater(c.members[UpdaterOf(ax)], c.defaultBounds)
  }

  /** After a new colour field is assigned, a bounds update sets every
      panel's colour limits from that field. */
  lemma ReassignedFieldDrivesClim(c: ScatterController, f: string, b: Bounds, ax: nat)
    requires Valid(b) && Valid(c.defaultBounds) && UpdaterOf(ax) in c.members
    ensures RangeSend(UpdaterFor(SetColorField(c, Some(f)), ax), b)
         == [SetClim(ColorLimits(b, c.defaultBounds, f).lo, ColorLimits(b, c.defaultBounds, f).hi)]
  {
  }
}
