# stormdrain, modelled in Dafny

This project models the synchronous dataflow core of stormdrain, a small
Python library for linked, filterable scatter plots. Record batches (numpy
structured arrays) flow through coroutine pipeline stages. A hierarchical
`Bounds` range store decides which rows pass a `BoundsFilter`. A named-topic
publish/subscribe bus (`Exchange`) carries "bounds updated" and "reflow"
notifications. `LinkedPanels` keeps axes that share a coordinate in step and
keeps aspect-locked axes square. A mouse-event `Accumulator` decides when an
interaction is complete. The smaller pieces are the dataset index/update
logic, the animation's time-fraction filter, the polygon lasso and its
payload controller, and the colour-limit updaters.

Every component is a pure step function `(state, input) -> (new state,
ordered list of calls made)`. A call `target.send(msg)` is a
`Delivery.Sent(target, msg)` record. A batch is a `Records.Batch`: a field
set (the dtype) plus a sequence of rows, each row a `map<string, real>`.
Wherever Python iterates over a `set` (Branchpoint targets, Exchange
subscribers, the axes to update), the iteration order is an `order`
parameter. The only assumption about it is that it lists every member exactly
once (`Delivery.Enumerates`), so every property holds for every order.
Python exceptions are `Failure` values of `Wrappers.Result`, carrying the
error the source would raise; where the order of two possible errors is not
modelled, "## Left out" says so.

Files, one module each: `wrappers.dfy`, `delivery.dfy`, `records.dfy`,
`bounds.dfy` (BoundsStore), `bounds_filter.dfy` (BoundsFilter),
`pipeline.dfy`, `pubsub.dfy`, `linked.dfy`, `mplevents.dfy`, `data.dfy`,
`animation.dfy`, `poly_lasso.dfy`, `artist_updaters.dfy`.

Where the behaviour description of the library and the code disagree, the
model follows the code:

- `resend_last(n)` slices `list(cache)[-n:]`. With `n = 0` it therefore
  resends the whole cache. A negative `n` drops the first `|n|` entries.
  `Pipeline.ResendLast` states all three cases, not only "the last n".

## Model

| member | source | states |
|---|---|---|
| BoundsStore.GetIsEffective | bounds.py:95-102 | A lookup returns the local value if the name is set locally, else the parent's effective value, else `(None, None)`; it is total (never fails) |
| BoundsStore.Set | bounds.py:104-110 | Setting a name records it in `_vars` only the first time (no duplicates, first-set order kept); the name then reads back the new value, every other name reads as before, the parent is untouched, and the effective view is the old one overridden at that name |
| BoundsStore.Empty | bounds.py:89-91 | A Bounds with no keyword arguments is valid and iterates exactly as its parent (or as nothing) |
| BoundsStore.Exclude | bounds.py:119-120 | The comprehension keeps exactly the parent names not set locally, and keeps a duplicate-free list duplicate-free |
| BoundsStore.NamesSpec | bounds.py:115-122 | Iteration yields each effective name exactly once, the local names first and in first-set order, then the parent's names not set locally |
| BoundsStore.Limits | bounds.py:124-126 | `limits()` pairs every iterated name, in iteration order, with its lookup value; for a valid store every pair is an effective name with exactly its effective range, every effective name occurs, and no name occurs twice |
| BoundsStore.Create | bounds.py:89-93 | The constructor sets its (distinct) keyword arguments in order: the result is valid, keeps the given parent, and lists exactly those names in that order |
| BoundsStore.CreateSetsKeywords | bounds.py:89-93 | After construction every keyword name reads back its keyword value |
| BoundsFilter.Receive | bounds.py:58-79 | One input batch produces exactly one call, to the filter's target, carrying the same dtype and the rows that pass every applicable bound, in input order |
| BoundsFilter.Mask | bounds.py:60-76 | The loop over `limits()` skips names outside `restrict_to`, remaps names with a transform entry, skips names the batch lacks, and leaves a mask that is true for a row exactly when the row meets every remaining range |
| BoundsFilter.AndMask | bounds.py:76 | ANDing one range test into a mask that matched the earlier constraints gives a mask matching them plus the new one |
| BoundsFilter.AdmitsIffMeetsAll | bounds.py:60-76 | The mask built from `limits()` admits a row iff the row meets every bound of the effective view (whatever the iteration order of names) |
| BoundsFilter.PassedSpec | bounds.py:58-79 | A row is forwarded iff it is an input row meeting every applicable bound; the output is never longer than the input |
| BoundsFilter.SameViewSameOutput | bounds.py:58-79 | Two Bounds whose effective views agree on every input row filter the batch identically |
| BoundsFilter.IgnoredBoundRemovesNothing | bounds.py:64-75 | Setting a bound that `restrict_to` excludes, or that names (after remapping) a field absent from the batch, changes the output not at all, whatever its range |
| BoundsFilter.EmptyBoundsPassAll | bounds.py:58-79 | A Bounds with no effective names forwards the whole batch |
| BoundsFilter.RemappedBoundApplies | bounds.py:68-76 | For a transform entry k -> (k2, f), every forwarded row has field k2 inside f((v_min, v_max)) |
| Pipeline.SegmentRun | pipeline.py:52-59 | `segment` forwards each input unchanged, in order, exactly once, to its target and to nobody else |
| Pipeline.BroadcastDelivers | pipeline.py:84-91 | `broadcast(targets)` sends each input to every list entry in list order, so a target listed k times receives it k times |
| Pipeline.NewBranchpoint | pipeline.py:160-162 | A Branchpoint's targets are exactly the listed targets, deduplicated |
| Pipeline.AddTarget | support/matplotlib/animation.py:85-86 | `targets.add(t)` makes the target set the old set plus t |
| Pipeline.RemoveTarget | support/matplotlib/animation.py:88-89 | `targets.remove(t)` succeeds iff t is a target and then removes exactly t; otherwise it raises |
| Pipeline.BranchpointStep | pipeline.py:164-171 | Each input reaches every current target exactly once and no one else, in any iteration order |
| Pipeline.RemovalAffectsLaterInputs | pipeline.py:164-171 | After a target is removed, the next input reaches every remaining target once and the removed one not at all |
| Pipeline.AdditionAffectsLaterInputs | pipeline.py:160-171 | After a target is added, the next input reaches it exactly once and still reaches every earlier target once; adding a present target changes nothing |
| Pipeline.ModifyStep | pipeline.py:111-117 | Without `item_name` nothing is forwarded; with it, the batch is forwarded once with that field set to the scalar (or length-1 array) value, or to `value[i]` for an equal-length array, in every row, and every other field untouched; a missing field or a non-broadcastable value raises |
| Pipeline.NewCache | pipeline.py:129-132 | A new cache is empty and within its capacity |
| Pipeline.CacheReceive | pipeline.py:135-140 | Receiving appends the input, a full deque drops its oldest entry, and a zero-capacity deque stays empty; the step returns only the new cache, so receiving sends nothing |
| Pipeline.CacheHoldsNewest | pipeline.py:129-140 | After any input history the cache holds exactly the newest `cache_len` inputs in arrival order |
| Pipeline.ResendLast | pipeline.py:142-145 | `resend_last(n)` sends `list(cache)[-n:]` to the target, oldest first: the newest min(n, size) entries for n >= 1, the whole cache for n = 0, all but the first abs(n) for n < 0 |
| Pipeline.CacheReplayExample | pipeline.py:129-145 | Capacity 2, inputs B1, B2, B3, then `resend_last(2)`: exactly B2 then B3 are forwarded |
| PubSub.Attach | pubsub.py:24-26 | `attach` makes the subscriber set the old set plus the task |
| PubSub.Detach | pubsub.py:28-29 | `detach` succeeds iff the task is subscribed and then removes exactly it; otherwise it raises |
| PubSub.AttachDetachInverse | pubsub.py:24-29 | Attaching twice is attaching once; detaching undoes the attach of a new task; detaching a non-member raises |
| PubSub.Publish | pubsub.py:41-43 | `send` delivers the message exactly once to each current subscriber and to no one else; with no subscribers nothing is sent |
| PubSub.PublishTwice | pubsub.py:41-43 | Two sends in a row reach each subscriber in the order they were sent |
| PubSub.AttachAll | pubsub.py:31-34 | Entering `subscribe(*tasks)` adds every task to the subscribers |
| PubSub.DetachAll | pubsub.py:37-39 | The exit loop removes the tasks; it completes without error when the tasks are distinct and all subscribed, raises when some task is not subscribed, and never adds a subscriber |
| PubSub.SubscribeDetachesOnEveryExit | pubsub.py:31-39 | For a body that leaves the subscribers as it found them: every task is subscribed inside the block, and whether the body returns or raises, every task is detached on exit (the body's exception is the one reported) |
| PubSub.DuplicateTaskRaisesOnExit | pubsub.py:31-39 | A task listed twice is detached once and the second detach raises on exit |
| PubSub.GetExchange | pubsub.py:46-51 | `get_exchange(name)` returns the registered exchange, an empty one on first use, and no other name's exchange changes |
| PubSub.GetExchangeStable | pubsub.py:46-51 | A second `get_exchange` of the same name returns the same exchange and leaves the registry as the first left it |
| PubSub.AttachTo | pubsub.py:24-26 | Attaching through the registry adds the task to that name's exchange only |
| PubSub.DetachFrom | pubsub.py:28-29 | Detaching through the registry succeeds iff the task is subscribed to that name, and touches no other name |
| PubSub.SubscribeDemo | pubsub.py:62-68 | In the module's demonstration, inside the `with` block the exchange has exactly the two tasks, and each receives msg1 then msg2 |
| PubSub.SubscribeDemoExit | pubsub.py:62-70 | After the `with` block exits normally, the exchange has no subscribers and msg3 reaches nobody |
| Linked.NoPanels | support/matplotlib/linked.py:43-50 | A fresh `LinkedPanels` has no axes, empty coordinate sets and an empty parentless Bounds |
| Linked.AddAxes | support/matplotlib/linked.py:54-59 | `add_axes` succeeds iff exactly two names are given; then the axes' names are recorded and the axes is added to the coordinate sets of both names and to no other |
| Linked.NewPanels | support/matplotlib/linked.py:37-52 | The constructor succeeds iff every spec has two names, and then registers exactly the given axes, well linked |
| Linked.NewPanelsRegistersLastListing | support/matplotlib/linked.py:50-55 | Each axes is registered with the coordinate names of its last listing, since `add_axes` overwrites `ax_specs[ax]` |
| Linked.NewPanelsRegistersListed | support/matplotlib/linked.py:44-55 | With the items of a dict, which list each axes once, every axes is registered with exactly the two names listed for it |
| Linked.SetupEvents | support/matplotlib/linked.py:61-66 | The panels subscribe to the interaction-complete topic; no other topic changes |
| Linked.Widen | support/matplotlib/linked.py:101-107 | Widening an extent by half the deficit on each side gives the goal width about the same centre |
| Linked.Reconcile | support/matplotlib/linked.py:94-107 | The aspect lock makes dy/dx equal the bbox height/width by changing exactly one extent, symmetrically about its original centre. On a normal x axis (dx > 0) neither width shrinks. On an inverted one (dx < 0) neither width grows, so the extents stretch in the negative direction and x keeps its orientation. Extents already in ratio are left alone |
| Linked.ReconcileSettles | support/matplotlib/linked.py:94-107 | The aspect lock is idempotent: a second pass over extents it produced leaves them unchanged |
| Linked.LimitEffects | support/matplotlib/linked.py:119-122 | Each axes to update gets `set_xlim` and `set_ylim` from the bounds of its own two coordinates, and no other axes is touched |
| Linked.Written | support/matplotlib/linked.py:116-118 | The new extents are written x first, then y (so y wins when both names agree); every other name keeps its range |
| Linked.Send | support/matplotlib/linked.py:77-124 | A send keeps the panels well linked and changes only the bounds |
| Linked.SendUnknownAxesIgnored | support/matplotlib/linked.py:81-84 | An interaction on axes not in `ax_specs` changes nothing and sends nothing |
| Linked.SendWithoutChangeIsSilent | support/matplotlib/linked.py:88-116 | When the reconciled extents equal the stored bounds, nothing is written and nothing is sent |
| Linked.SendOnChangeWrites | support/matplotlib/linked.py:116-118 | On a change, the two coordinates take the new extents and every other bound name is unchanged |
| Linked.SendOnChangeNotifies | support/matplotlib/linked.py:109-124 | On a change, every axes sharing a coordinate (the source included) gets its limits from its own coordinates, no other axes is touched, and the last three effects are bounds-updated (with the bounds), reflow-start and reflow-done, in that order |
| Linked.LimitsThenAnnounce | support/matplotlib/linked.py:72-75 | `bounds_updated` publishes bounds-updated, reflow-start, reflow-done, after all limit sets and with nothing else published |
| Linked.ResendIsIdempotent | support/matplotlib/linked.py:116-124 | Once the source axes shows the limits a change wrote, a second interaction-complete message for it changes nothing and sends nothing |
| MplEvents.Reset | support/matplotlib/mplevents.py:42-49 | `reset` clears the limit counter, the draw flag and the axes, and never touches `mouse_up` |
| MplEvents.NewAccumulator | support/matplotlib/mplevents.py:37-40 | A fresh accumulator has no limit change, no draw, no axes and the mouse up |
| MplEvents.CheckStatus | support/matplotlib/mplevents.py:97-101 | `check_status` calls `func(axes)` exactly when both limits changed with the mouse up or a counted change was drawn with the mouse up, and then resets |
| MplEvents.Step | support/matplotlib/mplevents.py:51-71 | One callback calls `func` at most once |
| MplEvents.StepKeepsInvariant | support/matplotlib/mplevents.py:51-101 | Every callback keeps the axes remembered exactly while a change is counted and leaves nothing pending; a fired call carries an axes, and on a limit change it carries that change's axes |
| MplEvents.DragIsSilent | support/matplotlib/mplevents.py:64-95 | While the mouse is down nothing fires, whatever limit changes and draws arrive; `mouse_down_event` makes no status check |
| MplEvents.ReleaseFires | support/matplotlib/mplevents.py:64-101 | Releasing the mouse fires iff two limit changes are counted or one was drawn; it then reports the remembered axes and resets |
| MplEvents.DrawAfterFireIsQuiet | support/matplotlib/mplevents.py:57-62 | A draw right after a call does not fire again and is not recorded, because `got_draw` needs a counted limit change |
| MplEvents.PanFiresOnce | support/matplotlib/mplevents.py:51-101 | Press, change, draw, change, draw, release: exactly one call, with the panned axes |
| MplEvents.HomeButtonFiresOnce | support/matplotlib/mplevents.py:73-80 | Two limit changes with the mouse up (the home button): one call, and the redraw after it is quiet |
| MplEvents.ChangeThenDrawReportsLatestAxes | support/matplotlib/mplevents.py:51-62 | One change then a draw with the mouse up: one call with that axes; during a drag the call at release carries the axes of the latest change |
| MplEvents.OnAxesChanged | support/matplotlib/mplevents.py:119-126 | The manager publishes itself on the interaction-complete topic iff the reported axes are its own |
| MplEvents.Published | support/matplotlib/mplevents.py:119-126 | Routing the accumulator's calls through `on_axes_changed` publishes only the manager, at most once per call, and once for every call when every call names the manager's axes |
| MplEvents.ManagerPublishesEachInteraction | support/matplotlib/mplevents.py:104-126 | When every limit change comes from the manager's own axes, each completed interaction publishes the manager exactly once |
| Data.NewDataset | data.py:34-43 | Construction keeps data and target and adds the dataset to the bounds-updated subscribers, keeping every earlier subscriber; no other topic changes |
| Data.Indexed | data.py:15-30 | `indexed` passes a None dataset through, raises when the field already exists, and otherwise appends a field numbering the rows 0..n-1 with every other field and the target preserved |
| Data.Send | data.py:64-69 | Whatever the message, the full current data is forwarded exactly once iff there is a target |
| Data.SendForwardsIndexedRecords | data.py:15-30 | An indexed dataset forwards, for any message, one batch to its target (nothing without one) whose row i carries index i and the original record's fields |
| Data.Slot | data.py:55-62 | A received index selects a row as numpy does: a whole number in [-n, n), negative ones counting from the end; anything else raises |
| Data.Plan | data.py:46-62 | `update` can write iff the index field is present and, for a whole-row update, the dtypes are equal and all indices are valid, or, for a field update, every listed field exists in both arrays and (for a non-empty list) all indices are valid; each received row writes to the row its index names. A missing index field raises first; a field update then raises at the first listed field whose store fails (a missing field, else a bad index); a reported bad index is a received index that resolves to no row |
| Data.FieldUpdateStopsAtFirstFailingStore | data.py:56-59 | With `field_names = ["f1", "f2"]`, an out-of-range index raises on the `f1` store before the missing `f2` is reached |
| Data.LastWriter | data.py:55-62 | The last received row that targets a row is found, or none targets it |
| Data.AssignTwice | data.py:56-62 | Writing a row twice leaves what the second write says |
| Data.Update | data.py:46-62 | `update` fails exactly when the checks fail, with the error they report; otherwise every row ends up as the last write to it says, the dtype, length and target unchanged |
| Data.UntouchedRowsUnchanged | data.py:53-62 | A row no received index names keeps its contents |
| Data.FieldUpdateWritesListedFields | data.py:56-59 | With `field_names`, a written row takes exactly the listed fields from the last received row naming it and keeps all others |
| Data.WholeRowUpdateReplaces | data.py:60-62 | Without `field_names`, a written row is replaced by the last received row naming it |
| Data.IndexedRoundTrip | data.py:15-62 | Sending an indexed dataset's own rows back to `update` by its index field is accepted and changes nothing |
| Animation.Create | support/matplotlib/animation.py:68-86 | Construction raises iff either end of the limits is None (priming the filter computes `limits[1] - limits[0]`, line 94); otherwise it keeps the outlets, variable and view limits, starts with an empty one-batch cache and no fraction, and adds the cache segment to the source's targets when there is a source |
| Animation.AnimateWithUnsetTimeRaises | support/matplotlib/artistupdaters.py:100-104 | `animate` passes `panels.bounds.time` as the limits, so while no time range is set in the bounds' parent chain, building the animation raises |
| Animation.Cleanup | support/matplotlib/animation.py:88-89 | `cleanup` removes exactly the cache segment from the source's targets; it raises without a source or when the segment is not a target |
| Animation.CreateCleanupRestores | support/matplotlib/animation.py:83-89 | Whenever construction succeeds, tap then untap restores the source's targets when the segment was not already one |
| Animation.FractionFilter | support/matplotlib/animation.py:91-101 | Every outlet, in list order, receives the rows with start <= v <= start + fraction * (stop - start), in the batch's order and with their multiplicity; it raises before any frame set the fraction or when the field is missing |
| Animation.FractionFilterIsMask | support/matplotlib/animation.py:97-99 | What each outlet receives is exactly `a[current]`, the boolean-mask indexing of the batch by the window test |
| Animation.LaterFractionKeepsMore | support/matplotlib/animation.py:93-98 | For a non-negative span, a later fraction keeps every row an earlier one keeps, in the same order |
| Animation.CacheSegment | support/matplotlib/animation.py:83-84 | The animation's cache keeps only the latest batch from the source |
| Animation.DrawFrame | support/matplotlib/animation.py:103-105 | `draw_frame` sets the fraction first, then filters only the last cached batch (nothing when the cache is empty) |
| Animation.InitDraw | support/matplotlib/animation.py:107-109 | `init_draw` sets the fraction to 0 and changes nothing else; with an empty cache nothing is sent; otherwise it raises iff the last cached batch lacks the field, and else each outlet, in list order, receives exactly the rows of that batch whose value is the start of the view, in order |
| Animation.InitDrawShowsStartOnly | support/matplotlib/animation.py:107-109 | `init_draw` sets the fraction to 0; each outlet then receives exactly the rows of the last cached batch whose value is the start of the view, in the batch's order and with their multiplicity |
| Animation.Frames | support/matplotlib/animation.py:47-56 | Frame fractions never exceed 1.0, each is the elapsed time over the duration clamped at 1.0, iteration stops right after 1.0 is yielded, and a zero duration raises |
| PolyLasso.Filter | support/matplotlib/poly_lasso.py:25-40 | The lasso filter forwards once, to its target, exactly the rows whose (coord 0, coord 1) point is inside the polygon, in order; fewer than two coordinate names or no polygon raises |
| PolyLasso.FilterIsMask | support/matplotlib/poly_lasso.py:25-40 | The output equals the input masked by the pointwise in-polygon test |
| PolyLasso.NewController | support/matplotlib/poly_lasso.py:220-240 | The controller starts with no payload, an empty cache, and is added to the lasso-drawn subscribers, keeping every earlier subscriber; no other topic changes |
| PolyLasso.SetPayload | support/matplotlib/poly_lasso.py:214-216 | The `Payload` setter stores exactly the given payload and changes nothing else |
| PolyLasso.PayloadRoundTrip | support/matplotlib/poly_lasso.py:205-217 | The `Payload` property returns the value most recently assigned |
| PolyLasso.AddPayload | support/matplotlib/poly_lasso.py:242-247 | `(a, payload)` is forwarded once iff both payload and target are set; otherwise nothing |
| PolyLasso.Cached | support/matplotlib/poly_lasso.py:240 | The controller's cache segment keeps the newest batches and changes nothing else |
| PolyLasso.ControllerSend | support/matplotlib/poly_lasso.py:249-264 | A lasso message for an axes missing from `ax_specs` raises; otherwise it installs that axes' coordinate names and the polygon in the filter; the last cached batch is replayed through filter and payload only when a payload is set |
| PolyLasso.LassoTagsSelectedRows | support/matplotlib/poly_lasso.py:237-264 | With payload and target set, a drawn lasso sends the target once the cached rows inside the polygon, tagged with the payload |
| PolyLasso.NewLasso | support/matplotlib/poly_lasso.py:68-81 | A new lasso has no vertices, no line and no axes |
| PolyLasso.OnMove | support/matplotlib/poly_lasso.py:137-142 | A move changes only the last vertex, and only once a line exists |
| PolyLasso.OnRelease | support/matplotlib/poly_lasso.py:144-187 | A click keeps the line/vertex invariant; it raises exactly for a right click in the lasso's axes before any vertex exists |
| PolyLasso.LeftClickAddsVertex | support/matplotlib/poly_lasso.py:172-187 | A left click fixes the last vertex at the click and appends a copy that follows the mouse |
| PolyLasso.FirstClickStartsLine | support/matplotlib/poly_lasso.py:148-187 | The first left click chooses the axes and starts the line with the click twice |
| PolyLasso.RightClickCloses | support/matplotlib/poly_lasso.py:157-170 | A right click replaces the last vertex with the first; the callback runs iff there are more than three vertices, and then the polygon's first and last vertices are equal |
| PolyLasso.OtherAxesIgnored | support/matplotlib/poly_lasso.py:148-155 | Clicks outside the chosen axes change nothing |
| PolyLasso.TriangleReachesCallback | support/matplotlib/poly_lasso.py:144-187 | Three left clicks and a right click yield the callback with the closed triangle; two clicks are too few |
| ArtistUpdaters.NewRangeUpdater | support/matplotlib/artistupdaters.py:194-199 | Without default bounds the updater gets an empty Bounds, which reads `(None, None)` for every name |
| ArtistUpdaters.ColorLimitsFallback | support/matplotlib/artistupdaters.py:201-205 | The colour limits are the bounds' range for the field unless both ends are None, in which case the default bounds' range is used; with empty defaults this is the bounds' range |
| ArtistUpdaters.RangeSendAsWritten | support/matplotlib/artistupdaters.py:201-205 | As written, a bounds update sets the colour limits from the fallback rule, and raises whenever the colour field is None |
| ArtistUpdaters.RangeSend | support/matplotlib/artistupdaters.py:201-205 | With a colour field it agrees with the as-written update; without one it does nothing |
| ArtistUpdaters.ScatterDefaultUpdaterRaises | support/matplotlib/artistupdaters.py:119-130 | The updater `scatter_dataset_on_panels` builds by default raises on every bounds update as written, and does nothing when corrected |
| ArtistUpdaters.OutletUpdate | support/matplotlib/artistupdaters.py:167-183 | Each batch sets the offsets to the (coord 0, coord 1) points of its rows and, with a colour field, the colour array to that field; missing names raise in evaluation order: `coords[0]` (absent, then not a field), then `coords[1]`, then the colour field |
| ArtistUpdaters.OutletOffsetsAsWritten | support/matplotlib/artistupdaters.py:175-179 | As written, under Python 3, the outlet's offset array holds no points once both coordinates are found; missing names raise as in `OutletUpdate`, with the same error |
| ArtistUpdaters.OutletOffsetsAsWrittenLosePoints | support/matplotlib/artistupdaters.py:175-179 | For any batch with a row, the array built as written differs from the one point per row that the corrected outlet sends |
| ArtistUpdaters.OutletColorsOnlyWithField | support/matplotlib/artistupdaters.py:181-183 | Without a colour field the outlet never sets colours |
| ArtistUpdaters.SetColorField | support/matplotlib/artistupdaters.py:29-34 | The `UpdatesMappable` setter stores the value and copies it to every member, changing nothing else |
| ArtistUpdaters.ColorFieldRoundTrip | support/matplotlib/artistupdaters.py:18-34 | The getter returns the value last assigned, and every member then agrees with it |
| ArtistUpdaters.MembersFor | support/matplotlib/artistupdaters.py:56-69 | One updater and one outlet per axes are members, each with the controller's colour field |
| ArtistUpdaters.AttachUpdaters | support/matplotlib/artistupdaters.py:53-64 | Every axes' range updater is subscribed to bounds-updated; no other topic changes |
| ArtistUpdaters.Outlets | support/matplotlib/artistupdaters.py:71-74 | The outlet list has one outlet per axes, in axes order |
| ArtistUpdaters.NewScatterController | support/matplotlib/artistupdaters.py:42-74 | Per axes one updater attached to bounds-updated and one outlet, both members with the colour field; the branchpoint targets exactly the outlets; supplied default bounds are kept, missing ones become an empty Bounds |
| ArtistUpdaters.UpdaterFor | support/matplotlib/artistupdaters.py:62 | The controller's updater for an axes uses the member's colour field and the controller's default bounds |
| ArtistUpdaters.ReassignedFieldDrivesClim | support/matplotlib/artistupdaters.py:29-34 | After a new colour field is assigned, a bounds update sets every panel's colour limits from that field |

## Left out

- Matplotlib rendering and events: canvas connections, blitting, drawing,
  `FigureUpdater`, `LineArtistOutlet`, and the drawing and cleanup of `PolyLasso`.
  Artist calls appear only as effect values (`SetXlim`, `SetClim`, `SetOffsets`, ...).
- `Path.contains_points` is an uninterpreted predicate parameter (`PolyLasso.Contains`).
  Polygon geometry is foreign numerics.
- Coroutine priming (`coroutine`, pipeline.py:43-48). A stage is simply ready to receive.
- The numpy dtype machinery, including by-position assignment between structured arrays.
  A whole-row update requires equal field sets.
- Floating-point rounding. All arithmetic is on `real`, so the aspect lock and the
  fraction window are exact.
- Comparisons against a `None` range end inside `BoundsFilter`. A range that reaches the
  mask is required to be closed.
- A `None` target in `segment`, `broadcast`, `ItemModifier` and the cache segment. The
  `AttributeError` of `None.send` is not modelled; those targets are plain values.
- `Bounds` attribute names that clash with `_parent`/`_vars` or with real attributes.
  Names are plain strings.
- Partial effects before an exception: `add_axes` stores `ax_specs[ax]` before its
  assertion fails, `update` may have written some rows before a bad index raises, and
  `ScatterArtistOutlet.update` has already called `set_offsets` when a missing colour
  field raises.
  A failing call is modelled as having no effect.
- Exceptions raised inside a subscriber during `Exchange.send`, and re-entrant calls from a
  subscriber back into the sender. Delivery is modelled as a list of calls.
- A target that raises inside a fan-out loop. In Python the exception ends the loop:
  `broadcast` (pipeline.py:88-90), `Branchpoint.broadcast` (pipeline.py:168-170) and
  the outlet loop of the fraction filter (support/matplotlib/animation.py:100-101)
  then send nothing to the later targets. A stage that raised earlier raises again on
  every send. The model's deliveries (`Broadcast`, `BranchpointStep`, `FractionFilter`)
  list the calls made when no target raises.
- In a whole-row update, which of a dtype mismatch and a bad index numpy reports first.
  The model reports the dtype mismatch.
- Re-entrancy of `Accumulator.func`. Its calls are recorded, not executed.
- The wall clock of `frame_iter` (elapsed times are an input sequence) and
  `FixedDurationAnimation`, a `TimedAnimation` subclass.
- `PanelsScatterController.animate` (beyond the limits it passes, see
  `Animation.AnimateWithUnsetTimeRaises`), `reset_axes_events` and `PolyLasso.finalize`: GUI wiring.
- support/matplotlib/markers.py, support/matplotlib/formatters.py,
  support/coords/filters.py, examples/brawl4d.py and setup.py: plotting geometry,
  date formatting, map projections and packaging, outside the dataflow core.
- The keying of `axes_managers` by coordinate names (support/matplotlib/linked.py:59).
  This is `MPLaxesManager` construction.
- `PolyLasso.onrelease` returns at once when `verts is None`. Nothing ever sets it to None,
  so the guard is not modelled. After a closing right click the model marks the lasso
  `closed` in place of disconnecting its callbacks.
- `PanelsScatterController` assigns `self.artist_outlets` inside its loop, so the attribute
  is never set when there are no axes. The model always has the (possibly empty) outlet list.
- Linked.Reconcile: requires a nonzero x extent and a bbox with positive width and height.
  With dx = 0, or a zero-width or zero-height bbox, numpy float division gives inf or nan
  limits (with a warning) and no exception. Reals have no inf or nan, so these degenerate
  views are left out on purpose. Inverted x axes (dx < 0) are modelled.
- A generator stage that has raised is finished in Python: every later `send` to it raises
  `StopIteration`. The model's stages (`ModifyStep`, `Update`, the fraction filter) return a
  failure for the bad input and still accept the next one. No "dead" flag is modelled.
- In-place mutation and aliasing. `ItemModifier` writes `a[name] = value` into the
  caller's array, and a branchpoint hands the same object to every target. A target that
  changes it in place therefore changes what later targets see. The model passes batch
  values, so no step can change another's input.
- Animation.Cleanup: removes the cache segment from the branchpoint value stored at
  construction. The source removes it from the live `Branchpoint`, whose other targets may
  have changed since.
- The parent of a `Bounds` is held by value. In Python a child reads the live parent,
  so later changes to the parent show through; in the model the child sees the parent as
  it was when the child was made.
- Data.Update: when two received rows name the same index, the later row wins. numpy does
  not guarantee the order of repeated indices in fancy assignment, so this is an assumption.
- Pipeline.NewCache: the capacity is a natural number. `deque([], None)` (`cache_len=None`,
  an unbounded cache) is not modelled.

## Findings

| source | as written | input that shows it | evidently intended | confidence | as-written member | corrected member |
|---|---|---|---|---|---|---|
| support/matplotlib/artistupdaters.py:201-205 | `send` looks up `bounds[self.color_field]` even when `color_field` is None. `getattr(bounds, None)` raises `TypeError`. `scatter_dataset_on_panels` (lines 119-130) builds its updaters with `color_field=None` by default. | `scatter_dataset_on_panels(panels)` followed by any bounds-updated message | Without a colour field the updater leaves the colour limits alone, as the outlet does (lines 181-183) | not executed | ArtistUpdaters.RangeSendAsWritten | ArtistUpdaters.RangeSend |
| support/matplotlib/artistupdaters.py:177-179 | `ScatterArtistOutlet.update` builds its offsets with `np.asarray(zip(x, y))`. Under Python 3 `zip` returns a lazy iterator, so the array is a 0-d object array holding no points, and `set_offsets` gets no (x, y) pairs. | any batch with at least one row, under Python 3 | `set_offsets` receives one (x, y) point per row, as `zip` gave under Python 2 | not executed | ArtistUpdaters.OutletOffsetsAsWritten | ArtistUpdaters.OutletUpdate |
