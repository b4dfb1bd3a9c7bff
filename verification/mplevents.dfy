/** The interaction accumulator of support/matplotlib/mplevents.py: it turns
    a stream of matplotlib callbacks (limit changes, draws, mouse presses and
    releases) into a single "interaction complete" call per user interaction. */
module MplEvents {
  import opened Wrappers
  import opened PubSub

  /** `limits_changed`, `got_draw`, `axes` and `mouse_up`. */
  datatype Accumulator<A> = Accumulator(limitsChanged: nat, gotDraw: bool, axes: Option<A>, mouseUp: bool)

  /** The callbacks an accumulator is connected to. */
  datatype Event<A> = AxisLimitChanged(ax: A) | Draw | MouseUp | MouseDown

  /** `reset()`: clears the interaction flags; the mouse is tracked separately. */
  function Reset<A>(acc: Accumulator<A>): (r: Accumulator<A>)
    ensures Tracked(r) && Quiet(r) && r.mouseUp == acc.mouseUp
    ensures r.limitsChanged == 0 && r.axes == None
  {
    acc.(limitsChanged := 0, gotDraw := false, axes := None)
  }

  /** `Accumulator(func)`: reset, with the mouse up. */
  function NewAccumulator<A>(): (r: Accumulator<A>)
    ensures Tracked(r) && Quiet(r) && r.mouseUp && r.limitsChanged == 0
  {
    Reset(Accumulator(0, false, None, true))
  }

  /** `both_limits_changed()` */
  predicate BothLimitsChanged<A>(acc: Accumulator<A>) {
    acc.limitsChanged >= 2 && acc.mouseUp
  }

  /** `interaction_complete()` */
  predicate InteractionComplete<A>(acc: Accumulator<A>) {
    acc.limitsChanged > 0 && acc.gotDraw && acc.mouseUp
  }

  /** Nothing is pending: `check_status` would not fire. */
  predicate Quiet<A>(acc: Accumulator<A>) {
    !BothLimitsChanged(acc) && !InteractionComplete(acc)
  }

  /** An axes is remembered exactly while some limit change is counted, and a
      draw is only noted after a limit change. */
  predicate Tracked<A>(acc: Accumulator<A>) {
    (acc.limitsChanged == 0 <==> acc.axes == None) && (acc.gotDraw ==> acc.limitsChanged > 0)
  }

  /** `check_status()`: on either condition call `func(self.axes)` (recorded
      in the second component) and reset. */
  function CheckStatus<A>(acc: Accumulator<A>): (r: (Accumulator<A>, seq<Option<A>>))
    ensures Quiet(r.0) && r.0.mouseUp == acc.mouseUp
    ensures Quiet(acc) ==> r == (acc, [])
    ensures !Quiet(acc) ==> r == (Reset(acc), [acc.axes])
  {
    if BothLimitsChanged(acc) || InteractionComplete(acc) then (Reset(acc), [acc.axes]) else (acc, [])
  }

  /** One callback: the new state and the calls of `func` it caused. */
  function Step<A>(acc: Accumulator<A>, e: Event<A>): (r: (Accumulator<A>, seq<Option<A>>))
    ensures |r.1| <= 1
  {
    match e
    case AxisLimitChanged(ax) => CheckStatus(acc.(limitsChanged := acc.limitsChanged + 1, axes := Some(ax)))
    case Draw => CheckStatus(if acc.limitsChanged > 0 then acc.(gotDraw := true) else acc)
    case MouseUp => CheckStatus(acc.(mouseUp := true))
    case MouseDown => (acc.(mouseUp := false), [])
  }

  /** A sequence of callbacks, in order. */
  function Run<A>(acc: Accumulator<A>, es: seq<Event<A>>): (r: (Accumulator<A>, seq<Option<A>>))
    ensures |r.1| <= |es|
    decreases |es|
  {
    if |es| == 0 then (acc, [])
    else
      var (a1, f1) := Step(acc, es[0]);
      var (a2, f2) := Run(a1, es[1..]);
      (a2, f1 + f2)
  }

  /** Every callback keeps the accumulator tracked and quiet, and whatever it
      hands to `func` is a real axes: the one of the last limit change. */
  lemma StepKeepsInvariant<A>(acc: Accumulator<A>, e: Event<A>)
    requires Tracked(acc) && Quiet(acc)
    ensures Tracked(Step(acc, e).0) && Quiet(Step(acc, e).0)
    ensures forall x :: x in Step(acc, e).1 ==> x.Some?
    ensures e.AxisLimitChanged? && Step(acc, e).1 != [] ==> Step(acc, e).1 == [Some(e.ax)]
  {
  }

  /** While the mouse is held down nothing fires, whatever limit changes and
      draws arrive. */
  lemma {:induction false} DragIsSilent<A>(acc: Accumulator<A>, es: seq<Event<A>>)
    requires !acc.mouseUp
    requires forall i :: 0 <= i < |es| ==> !es[i].MouseUp?
    ensures Run(acc, es).1 == [] && !Run(acc, es).0.mouseUp
    decreases |es|
  {
    if |es| > 0 {
      var a1 := Step(acc, es[0]).0;
      assert Step(acc, es[0]).1 == [] && !a1.mouseUp;
      DragIsSilent(a1, es[1..]);
    }
  }

  /** Releasing the mouse fires once, with the remembered axes, exactly when
      both limits changed or a limit change has been drawn; then it resets. */
  lemma ReleaseFires<A>(acc: Accumulator<A>)
    requires Tracked(acc)
    ensures var (a, fired) := Step(acc, MouseUp);
      && (fired != [] <==> acc.limitsChanged >= 2 || (acc.limitsChanged > 0 && acc.gotDraw))
      && (fired != [] ==> fired == [acc.axes] && acc.axes.Some? && a.limitsChanged == 0 && a.axes == None)
      && a.mouseUp
  {
  }

  /** Once an interaction has fired, the draw that follows it does not fire
      again: a draw only counts after a new limit change. */
  lemma DrawAfterFireIsQuiet<A>(acc: Accumulator<A>, e: Event<A>)
    requires Tracked(acc) && Quiet(acc)
    requires Step(acc, e).1 != []
    ensures Step(Step(acc, e).0, Draw).1 == []
    ensures !Step(Step(acc, e).0, Draw).0.gotDraw
  {
  }

  /** A pan: press, two limit changes each followed by a draw, release. One
      call, made at the release, with the panned axes. */
  lemma PanFiresOnce<A>(a: A)
    ensures Run(NewAccumulator(), [MouseDown, AxisLimitChanged(a), Draw, AxisLimitChanged(a), Draw, MouseUp]).1 == [Some(a)]
  {
    var es: seq<Event<A>> := [MouseDown, AxisLimitChanged(a), Draw, AxisLimitChanged(a), Draw, MouseUp];
    var s0: Accumulator<A> := NewAccumulator();
    var s1 := Step(s0, MouseDown).0;
    var s2 := Step(s1, AxisLimitChanged(a)).0;
    var s3 := Step(s2, Draw).0;
    var s4 := Step(s3, AxisLimitChanged(a)).0;
    var s5 := Step(s4, Draw).0;
    assert Run(s5, es[5..]).1 == [Some(a)];
    assert Run(s4, es[4..]).1 == [Some(a)];
    assert Run(s3, es[3..]).1 == [Some(a)];
    assert Run(s2, es[2..]).1 == [Some(a)];
    assert Run(s1, es[1..]).1 == [Some(a)];
  }

  /** The toolbar's home button: x and y limits are set with the mouse up.
      One call after the second change; the redraw after it is quiet. */
  lemma HomeButtonFiresOnce<A>(a: A)
    ensures Run(NewAccumulator(), [AxisLimitChanged(a), AxisLimitChanged(a), Draw]).1 == [Some(a)]
  {
    var s0: Accumulator<A> := NewAccumulator();
    var s1 := Step(s0, AxisLimitChanged(a)).0;
    assert Step(s0, AxisLimitChanged(a)).1 == [];
    var s2 := Step(s1, AxisLimitChanged(a)).0;
    assert Step(s1, AxisLimitChanged(a)).1 == [Some(a)];
    assert Step(s2, Draw).1 == [];
    assert Run(s2, [Draw]).1 == [];
    assert Run(s1, [AxisLimitChanged(a), Draw]).1 == [Some(a)];
  }

  /** One limit change drawn with the mouse up fires once with that axes;
      during a drag the call made at the release carries the axes of the
      latest limit change. */
  lemma ChangeThenDrawReportsLatestAxes<A>(a: A, b: A)
    ensures Run(NewAccumulator(), [AxisLimitChanged(a), Draw]).1 == [Some(a)]
    ensures Run(NewAccumulator(), [MouseDown, AxisLimitChanged(a), AxisLimitChanged(b), Draw, MouseUp]).1 == [Some(b)]
  {
    var s0: Accumulator<A> := NewAccumulator();
    var t1 := Step(s0, AxisLimitChanged(a)).0;
    assert Run(t1, [Draw]).1 == [Some(a)];
    var es: seq<Event<A>> := [MouseDown, AxisLimitChanged(a), AxisLimitChanged(b), Draw, MouseUp];
    var s1 := Step(s0, MouseDown).0;
    var s2 := Step(s1, AxisLimitChanged(a)).0;
    var s3 := Step(s2, AxisLimitChanged(b)).0;
    var s4 := Step(s3, Draw).0;
    assert Run(s4, es[4..]).1 == [Some(b)];
    assert Run(s3, es[3..]).1 == [Some(b)];
    assert Run(s2, es[2..]).1 == [Some(b)];
    assert Run(s1, es[1..]).1 == [Some(b)];
  }

  /** `MPLaxesManager.on_axes_changed(axes)`: publish the manager (here, its
      axes) on the interaction-complete topic only if the axes are its own. */
  function OnAxesChanged<A(==)>(own: A, axes: Option<A>): (r: seq<(string, A)>)
    ensures |r| <= 1
    ensures forall m :: m in r ==> m == (InteractionCompleteTopic, own)
    ensures r != [] <==> axes == Some(own)
  {
    if axes != Some(own) then [] else [(InteractionCompleteTopic, own)]
  }

  /** A manager's callbacks: the accumulator's calls routed through
      `on_axes_changed`. */
  function ManagerRun<A(==)>(own: A, acc: Accumulator<A>, es: seq<Event<A>>): (r: seq<(string, A)>)
  {
    var fired := Run(acc, es).1;
    Published(own, fired)
  }

  function Published<A(==)>(own: A, fired: seq<Option<A>>): (r: seq<(string, A)>)
    ensures |r| <= |fired|
    ensures forall m :: m in r ==> m == (InteractionCompleteTopic, own)
    ensures (forall i :: 0 <= i < |fired| ==> fired[i] == Some(own)) ==> |r| == |fired|
  {
    if |fired| == 0 then [] else OnAxesChanged(own, fired[0]) + Published(own, fired[1..])
  }

  /** When every limit change a manager sees comes from its own axes (as the
      callbacks it connects guarantee), each call of the accumulator becomes
      exactly one interaction-complete message carrying that manager. */
  lemma {:induction false} ManagerPublishesEachInteraction<A>(own: A, acc: Accumulator<A>, es: seq<Event<A>>)
    requires Tracked(acc) && Quiet(acc)
    requires acc.axes == None || acc.axes == Some(own)
    requires forall i :: 0 <= i < |es| ==> es[i].AxisLimitChanged? ==> es[i].ax == own
    ensures forall x :: x in Run(acc, es).1 ==> x == Some(own)
    ensures |ManagerRun(own, acc, es)| == |Run(acc, es).1|
    ensures forall m :: m in ManagerRun(own, acc, es) ==> m == (InteractionCompleteTopic, own)
    decreases |es|
  {
    if |es| > 0 {
      var (a1, f1) := Step(acc, es[0]);
      StepKeepsInvariant(acc, es[0]);
      assert a1.axes == None || a1.axes == Some(own);
      assert forall x :: x in f1 ==> x == Some(own);
      ManagerPublishesEachInteraction(own, a1, es[1..]);
      var f := Run(acc, es).1;
      assert f == f1 + Run(a1, es[1..]).1;
    }
    var f := Run(acc, es).1;
    assert forall i :: 0 <= i < |f| ==> f[i] in f;
  }
}
