/** The pipeline stages of pipeline.py, each as a pure step: the state after
    one input (where the stage has state) and the ordered `send` calls it makes.
    The coroutine priming of `@coroutine` is not modelled: a stage is simply
    ready to receive. */
module Pipeline {
  import opened Wrappers
  import opened Delivery
  import opened Records

  datatype StageError =
    | NoSuchField(name: string)   // numpy: `a[name] = value` on a missing field
    | ShapeMismatch               // numpy: value array cannot broadcast to the rows
    | NotATarget                  // `set.remove` of a non-member: KeyError

  // ---------------------------------------------------------------- segment

  /** The calls `segment(ax_bundle, target)` makes for a stream of inputs. */
  function SegmentRun<T(!new), M>(target: T, inputs: seq<M>): (r: seq<Sent<T, M>>)
    ensures |r| == |inputs|
    ensures forall i :: 0 <= i < |r| ==> r[i] == Sent(target, inputs[i])
    ensures forall t :: t != target ==> CountTo(r, t) == 0
  {
    if |inputs| == 0 then []
    else [Sent(target, inputs[0])] + SegmentRun(target, inputs[1..])
  }

  // -------------------------------------------------------------- broadcast

  /** `broadcast(targets)` receiving one input. */
  function Broadcast<T, M>(targets: seq<T>, a: M): seq<Sent<T, M>> {
    FanOut(targets, a)
  }

  /** Each list entry receives the input once per occurrence, in list order. */
  lemma BroadcastDelivers<T, M>(targets: seq<T>, a: M, t: T)
    ensures |Broadcast(targets, a)| == |targets|
    ensures forall i :: 0 <= i < |targets| ==> Broadcast(targets, a)[i] == Sent(targets[i], a)
    ensures CountTo(Broadcast(targets, a), t) == multiset(targets)[t]
  {
    FanOutCount(targets, a, t);
  }

  // ------------------------------------------------------------ Branchpoint

  /** `Branchpoint.targets`: a Python set of downstream stages. */
  datatype Branchpoint<T> = Branchpoint(targets: set<T>)

  /** `Branchpoint(targets)`: the list is deduplicated into a set. */
  function NewBranchpoint<T(!new)>(ts: seq<T>): (bp: Branchpoint<T>)
    ensures forall t :: t in bp.targets <==> t in ts
  {
    Branchpoint(set t | t in ts)
  }

  /** `branchpoint.targets.add(t)` */
  function AddTarget<T>(bp: Branchpoint<T>, t: T): (r: Branchpoint<T>)
    ensures r.targets == bp.targets + {t}
  {
    Branchpoint(bp.targets + {t})
  }

  /** `branchpoint.targets.remove(t)`: raises for a non-member. */
  function RemoveTarget<T>(bp: Branchpoint<T>, t: T): (r: Result<Branchpoint<T>, StageError>)
    ensures r.Success? <==> t in bp.targets
    ensures r.Success? ==> r.value.targets == bp.targets - {t}
  {
    if t in bp.targets then Success(Branchpoint(bp.targets - {t})) else Failure(NotATarget)
  }

  /** `Branchpoint.broadcast` receiving one input; `order` is the iteration
      order of the target set, which Python leaves unspecified. */
  function BranchpointStep<T(!new), M>(bp: Branchpoint<T>, order: seq<T>, a: M): (r: seq<Sent<T, M>>)
    requires Enumerates(order, bp.targets)
    ensures |r| == |bp.targets|
    ensures forall t :: CountTo(r, t) == (if t in bp.targets then 1 else 0)
    ensures forall t :: ReceivedBy(r, t) == (if t in bp.targets then [a] else [])
  {
    var r := FanOut(order, a);
    assert |r| == |bp.targets| by {
      EnumerationSize(order, bp.targets);
    }
    assert forall t :: (CountTo(r, t) == (if t in bp.targets then 1 else 0)
      && ReceivedBy(r, t) == (if t in bp.targets then [a] else [])) by {
      forall t ensures CountTo(r, t) == (if t in bp.targets then 1 else 0)
        && ReceivedBy(r, t) == (if t in bp.targets then [a] else []) {
        EnumerationFanOut(order, bp.targets, a, t);
      }
    }
    r
  }

  /** A target removed between two inputs receives nothing from the later
      one; every remaining target still receives it once. */
  lemma RemovalAffectsLaterInputs<T(!new), M>(bp: Branchpoint<T>, t: T, order: seq<T>, a: M)
    requires t in bp.targets
    requires Enumerates(order, bp.targets - {t})
    ensures RemoveTarget(bp, t).Success?
    ensures CountTo(BranchpointStep(RemoveTarget(bp, t).value, order, a), t) == 0
    ensures forall u :: u in bp.targets && u != t ==>
      CountTo(BranchpointStep(RemoveTarget(bp, t).value, order, a), u) == 1
  {
  }

  /** A target added between two inputs receives the later one once, and
      adding a target that is already present changes nothing. */
  lemma AdditionAffectsLaterInputs<T(!new), M>(bp: Branchpoint<T>, t: T, order: seq<T>, a: M)
    requires Enumerates(order, bp.targets + {t})
    ensures ReceivedBy(BranchpointStep(AddTarget(bp, t), order, a), t) == [a]
    ensures forall u :: u in bp.targets ==> CountTo(BranchpointStep(AddTarget(bp, t), order, a), u) == 1
    ensures t in bp.targets ==> AddTarget(bp, t) == bp
  {
    var c := AddTarget(bp, t);
    var r := BranchpointStep(c, order, a);
    assert t in c.targets;
    forall u | u in bp.targets ensures CountTo(r, u) == 1 {
      assert u in c.targets;
    }
  }

  // ----------------------------------------------------------- ItemModifier

  /** The value of `indexable[item_name] = value`: a scalar or an array. */
  datatype Value = Scalar(x: real) | Column(xs: seq<real>)

  /** numpy broadcasting: a scalar or a length-1 array fits any row count,
      other arrays must match it. */
  predicate Fits(v: Value, n: nat) {
    v.Scalar? || |v.xs| == 1 || |v.xs| == n
  }

  function ValueAt(v: Value, i: nat): real
    requires Fits(v, i + 1) || (v.Column? && i < |v.xs|)
  {
    if v.Scalar? then v.x else if |v.xs| == 1 then v.xs[0] else v.xs[i]
  }

  /** `ItemModifier.modify` receiving `(a, value)`. */
  function ModifyStep<T>(itemName: Option<string>, target: T, a: Batch, v: Value)
    : (r: Result<seq<Sent<T, Batch>>, StageError>)
    requires WellFormed(a)
    ensures itemName.None? ==> r == Success([])
    ensures itemName.Some? && itemName.value !in a.fields ==> r == Failure(NoSuchField(itemName.value))
    ensures itemName.Some? && itemName.value in a.fields && !Fits(v, |a.rows|) ==> r == Failure(ShapeMismatch)
    ensures itemName.Some? && itemName.value in a.fields && Fits(v, |a.rows|) ==> r.Success?
    ensures r.Success? && itemName.Some? ==>
      && |r.value| == 1 && r.value[0].to == target
      && var b := r.value[0].msg;
      && b.fields == a.fields && |b.rows| == |a.rows| && WellFormed(b)
      && forall i :: 0 <= i < |a.rows| ==>
           && b.rows[i][itemName.value] == (if v.Scalar? then v.x else if |v.xs| == 1 then v.xs[0] else v.xs[i])
           && forall g :: g in a.rows[i] && g != itemName.value ==> b.rows[i][g] == a.rows[i][g]
  {
    match itemName
    case None => Success([])
    case Some(name) =>
      if name !in a.fields then Failure(NoSuchField(name))
      else if !Fits(v, |a.rows|) then Failure(ShapeMismatch)
      else
        var rows := seq(|a.rows|, i requires 0 <= i < |a.rows| => a.rows[i][name := ValueAt(v, i)]);
        assert WellFormed(Batch(a.fields, rows)) by {
          forall row | row in rows ensures row.Keys == a.fields {
            var i :| 0 <= i < |rows| && rows[i] == row;
            assert a.rows[i] in a.rows;
          }
        }
        Success([Sent(target, Batch(a.fields, rows))])
  }

  // ------------------------------------------------ CachedTriggerableSegment

  /** `deque([], cache_len)`: the retained inputs, oldest first. */
  datatype Cache<M> = Cache(capacity: nat, entries: seq<M>)

  predicate CacheValid<M>(c: Cache<M>) {
    |c.entries| <= c.capacity
  }

  function NewCache<M>(capacity: nat): (c: Cache<M>)
    ensures CacheValid(c) && c.entries == []
  {
    Cache(capacity, [])
  }

  /** The newest `n` elements of `xs`, oldest first. */
  function Newest<M>(xs: seq<M>, n: nat): (r: seq<M>)
    ensures |r| == if n < |xs| then n else |xs|
  {
    if n < |xs| then xs[|xs| - n..] else xs
  }

  /** `cache_segment` receiving one input: it is appended; a full deque
      drops its oldest entry. Nothing is forwarded. */
  function CacheReceive<M>(c: Cache<M>, x: M): (c': Cache<M>)
    requires CacheValid(c)
    ensures CacheValid(c') && c'.capacity == c.capacity
    ensures c.capacity == 0 ==> c'.entries == []
    ensures |c.entries| < c.capacity ==> c'.entries == c.entries + [x]
    ensures 0 < c.capacity == |c.entries| ==> c'.entries == c.entries[1..] + [x]
  {
    Cache(c.capacity, Newest(c.entries + [x], c.capacity))
  }

  function CacheReceiveAll<M>(c: Cache<M>, xs: seq<M>): (c': Cache<M>)
    requires CacheValid(c)
    ensures CacheValid(c') && c'.capacity == c.capacity
    decreases |xs|
  {
    if |xs| == 0 then c else CacheReceiveAll(CacheReceive(c, xs[0]), xs[1..])
  }

  /** After any input history the cache holds exactly the newest
      `cache_len` inputs in arrival order. */
  lemma {:induction false} CacheHoldsNewest<M>(capacity: nat, xs: seq<M>)
    ensures CacheReceiveAll(NewCache(capacity), xs).entries == Newest(xs, capacity)
  {
    CacheReceiveAllFrom(NewCache(capacity), xs);
    assert [] + xs == xs;
  }

  lemma {:induction false} CacheReceiveAllFrom<M>(c: Cache<M>, xs: seq<M>)
    requires CacheValid(c)
    ensures CacheReceiveAll(c, xs).entries == Newest(c.entries + xs, c.capacity)
    decreases |xs|
  {
    if |xs| > 0 {
      var c1 := CacheReceive(c, xs[0]);
      CacheReceiveAllFrom(c1, xs[1..]);
      NewestTwice(c.entries + [xs[0]], xs[1..], c.capacity);
      assert c.entries + [xs[0]] + xs[1..] == c.entries + xs;
    } else {
      assert c.entries + xs == c.entries;
    }
  }

  lemma NewestTwice<M>(a: seq<M>, b: seq<M>, n: nat)
    ensures Newest(Newest(a, n) + b, n) == Newest(a + b, n)
  {
    if n < |a| {
      var na := a[|a| - n..];
      assert (a + b)[|a + b| - n..] == (na + b)[|na + b| - n..] || n >= |na + b|;
      if n >= |na + b| {
        assert |b| == 0;
        assert a + b == a && na + b == na;
      }
    }
  }

  /** Python's `xs[start:]` for any integer `start`. */
  function PySliceFrom<M>(xs: seq<M>, start: int): seq<M> {
    var s := if start < 0 then (if |xs| + start < 0 then 0 else |xs| + start)
             else (if start > |xs| then |xs| else start);
    xs[s..]
  }

  /** `resend_last(n)`: `list(cache)[-n:]` forwarded to the target in order.
      The cache itself is not touched. */
  function ResendLast<T(!new), M>(c: Cache<M>, target: T, n: int): (r: seq<Sent<T, M>>)
    ensures forall i :: 0 <= i < |r| ==> r[i].to == target
    ensures n >= 1 ==> ReceivedBy(r, target) == Newest(c.entries, n)
    ensures n == 0 ==> ReceivedBy(r, target) == c.entries
    ensures n < 0 ==> ReceivedBy(r, target) == c.entries[if -n < |c.entries| then -n else |c.entries|..]
  {
    var xs := PySliceFrom(c.entries, -n);
    var r := SegmentRun(target, xs);
    SegmentReceived(target, xs);
    r
  }

  lemma {:induction false} SegmentReceived<T(!new), M>(target: T, xs: seq<M>)
    ensures ReceivedBy(SegmentRun(target, xs), target) == xs
  {
    if |xs| > 0 {
      SegmentReceived(target, xs[1..]);
    }
  }

  /** The replay scenario of the cache: capacity 2, inputs B1, B2, B3,
      then `resend_last(2)` forwards B2 then B3. */
  lemma CacheReplayExample<T(!new), M>(target: T, b1: M, b2: M, b3: M)
    ensures ResendLast(CacheReceiveAll(NewCache(2), [b1, b2, b3]), target, 2) == [Sent(target, b2), Sent(target, b3)]
  {
    CacheHoldsNewest(2, [b1, b2, b3]);
    assert Newest([b1, b2, b3], 2) == [b2, b3];
  }
}
