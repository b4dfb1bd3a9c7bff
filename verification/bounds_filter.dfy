/** `BoundsFilter.filter` of bounds.py: the row mask a Bounds instance puts
    on each record batch passing through the stage. */
module BoundsFilter {
  import opened Wrappers
  import opened Delivery
  import opened Records
  import opened BoundsStore

  /** A `transform_mapping` entry `k: (alternate_name, transform_func)`. */
  datatype Remap = Remap(field: string, transform: Range -> Range)

  /** The filter's configuration: `restrict_to` (None = every bound) and
      `transform_mapping`. */
  datatype Filter = Filter(restrictTo: Option<set<string>>, remap: map<string, Remap>)

  /** The constraint one `(k, (v_min, v_max))` pair of `limits()` puts on a
      batch with the given fields, or None when the loop skips it: `k` is not
      in `restrict_to`, or the (possibly remapped) field is not in the batch. */
  function Resolve(f: Filter, fields: set<string>, k: string, r: Range): Option<(string, Range)> {
    if f.restrictTo.Some? && k !in f.restrictTo.value then None
    else
      var c := if k in f.remap then (f.remap[k].field, f.remap[k].transform(r)) else (k, r);
      if c.0 in fields then Some(c) else None
  }

  /** The constraints that reach the mask, in `limits()` order. */
  function Active(f: Filter, fields: set<string>, lims: seq<(string, Range)>): seq<(string, Range)> {
    if |lims| == 0 then []
    else
      Active(f, fields, lims[..|lims| - 1]) + Step(f, fields, lims[|lims| - 1])
  }

  function Step(f: Filter, fields: set<string>, kr: (string, Range)): seq<(string, Range)> {
    match Resolve(f, fields, kr.0, kr.1)
    case None => []
    case Some(c) => [c]
  }

  lemma ActivePrefix(f: Filter, fields: set<string>, lims: seq<(string, Range)>, i: nat)
    requires i < |lims|
    ensures Active(f, fields, lims[..i + 1]) == Active(f, fields, lims[..i]) + Step(f, fields, lims[i])
  {
    assert lims[..i + 1][..i] == lims[..i];
  }

  /** `(a[k] >= v_min) & (a[k] <= v_max)` for one row. */
  predicate InRange(row: Record, c: (string, Range)) {
    c.0 in row && IsClosed(c.1) && c.1.lo.value <= row[c.0] <= c.1.hi.value
  }

  predicate Admits(row: Record, cs: seq<(string, Range)>) {
    forall i :: 0 <= i < |cs| ==> InRange(row, cs[i])
  }

  function AdmitsFn(cs: seq<(string, Range)>): Record -> bool {
    row => Admits(row, cs)
  }

  /** The rows the filter forwards for bounds `b`. */
  function Passed(f: Filter, b: Bounds, a: Batch): seq<Record> {
    Where(a.rows, AdmitsFn(Active(f, a.fields, Limits(b))))
  }

  /** Reference definition: a row meets one effective bound when the bound is
      skipped or the row lies in its (transformed) range. */
  predicate MeetsBound(f: Filter, fields: set<string>, k: string, r: Range, row: Record) {
    match Resolve(f, fields, k, r)
    case None => true
    case Some(c) => InRange(row, c)
  }

  predicate MeetsAll(f: Filter, fields: set<string>, eff: map<string, Range>, row: Record) {
    forall k :: k in eff ==> MeetsBound(f, fields, k, eff[k], row)
  }

  /** One input batch: the mask is seeded all-true and each applicable bound
      ANDs in its range test; exactly one (filtered) batch is sent on. */
  method Receive<T>(f: Filter, b: Bounds, target: T, a: Batch) returns (sent: seq<Sent<T, Batch>>)
    requires Valid(b) && WellFormed(a)
    requires forall c :: c in Active(f, a.fields, Limits(b)) ==> IsClosed(c.1)
    ensures |sent| == 1 && sent[0].to == target
    ensures sent[0].msg == Batch(a.fields, Passed(f, b, a))
    ensures WellFormed(sent[0].msg)
  {
    var good, cs := Mask(f, a.fields, a.rows, Limits(b));
    MaskSelectsAdmitted(a.rows, good, cs);
    var out := Select(a.rows, good);
    sent := [Sent(target, Batch(a.fields, out))];
  }

  /** The loop of `filter`: walk `limits()` in order, skipping restricted
      names and names missing from the batch after remapping, and AND each
      remaining range test into the all-true mask. */
  method Mask(f: Filter, fields: set<string>, rows: seq<Record>, lims: seq<(string, Range)>)
    returns (good: seq<bool>, cs: seq<(string, Range)>)
    ensures cs == Active(f, fields, lims)
    ensures MaskMatches(rows, good, cs)
  {
    good := seq(|rows|, _ => true);
    cs := [];
    assert MaskMatches(rows, good, cs);
    var i := 0;
    while i < |lims|
      invariant 0 <= i <= |lims|
      invariant cs == Active(f, fields, lims[..i])
      invariant MaskMatches(rows, good, cs)
    {
      ActivePrefix(f, fields, lims, i);
      match Resolve(f, fields, lims[i].0, lims[i].1) {
        case None =>
          assert Active(f, fields, lims[..i + 1]) == cs + [];
        case Some(c) =>
          good := AndMask(rows, good, cs, c);
          cs := cs + [c];
      }
      i := i + 1;
    }
    assert lims[..|lims|] == lims;
  }

  lemma MaskSelectsAdmitted(rows: seq<Record>, good: seq<bool>, cs: seq<(string, Range)>)
    requires MaskMatches(rows, good, cs)
    ensures Select(rows, good) == Where(rows, AdmitsFn(cs))
  {
    SelectIsWhere(rows, good, AdmitsFn(cs));
  }

  /** The mask holds, for each row, whether it meets every constraint so far. */
  predicate MaskMatches(rows: seq<Record>, good: seq<bool>, cs: seq<(string, Range)>) {
    |good| == |rows| && forall j :: 0 <= j < |rows| ==> good[j] == Admits(rows[j], cs)
  }

  /** `good &= (a[k] >= v_min) & (a[k] <= v_max)` */
  function AndMask(rows: seq<Record>, good: seq<bool>, cs: seq<(string, Range)>, c: (string, Range)): (r: seq<bool>)
    requires MaskMatches(rows, good, cs)
    ensures MaskMatches(rows, r, cs + [c])
  {
    var r := seq(|rows|, j requires 0 <= j < |rows| => good[j] && InRange(rows[j], c));
    assert forall j :: 0 <= j < |rows| ==> r[j] == Admits(rows[j], cs + [c]) by {
      forall j | 0 <= j < |rows| ensures r[j] == Admits(rows[j], cs + [c]) {
        AdmitsAppend(rows[j], cs, [c]);
        AdmitsSingle(rows[j], c);
      }
    }
    r
  }

  lemma AdmitsSingle(row: Record, c: (string, Range))
    ensures Admits(row, [c]) == InRange(row, c)
  {
    assert [c][0] == c;
  }

  lemma AdmitsAppend(row: Record, c1: seq<(string, Range)>, c2: seq<(string, Range)>)
    ensures Admits(row, c1 + c2) == (Admits(row, c1) && Admits(row, c2))
  {
    if Admits(row, c1) && Admits(row, c2) {
      forall i | 0 <= i < |c1 + c2| ensures InRange(row, (c1 + c2)[i]) {
        if i >= |c1| {
          assert (c1 + c2)[i] == c2[i - |c1|];
        }
      }
    }
    if Admits(row, c1 + c2) {
      forall i | 0 <= i < |c2| ensures InRange(row, c2[i]) {
        assert (c1 + c2)[|c1| + i] == c2[i];
      }
      forall i | 0 <= i < |c1| ensures InRange(row, c1[i]) {
        assert (c1 + c2)[i] == c1[i];
      }
    }
  }

  /** The mask built from `limits()` is exactly the conjunction of every bound. */
  lemma {:induction false} AdmitsActive(f: Filter, fields: set<string>, lims: seq<(string, Range)>, row: Record)
    ensures Admits(row, Active(f, fields, lims)) <==> MeetsEach(f, fields, lims, row)
  {
    if |lims| > 0 {
      var init := lims[..|lims| - 1];
      var last := lims[|lims| - 1];
      AdmitsActive(f, fields, init, row);
      AdmitsAppend(row, Active(f, fields, init), Step(f, fields, last));
      assert Admits(row, Step(f, fields, last)) == MeetsBound(f, fields, last.0, last.1, row) by {
        match Resolve(f, fields, last.0, last.1)
        case None =>
        case Some(c) =>
          assert Step(f, fields, last) == [c];
          AdmitsSingle(row, c);
      }
      assert forall i :: 0 <= i < |init| ==> init[i] == lims[i];
      if MeetsEach(f, fields, init, row) && MeetsBound(f, fields, last.0, last.1, row) {
        assert MeetsEach(f, fields, lims, row);
      }
    }
  }

  predicate MeetsEach(f: Filter, fields: set<string>, lims: seq<(string, Range)>, row: Record) {
    forall i :: 0 <= i < |lims| ==> MeetsBound(f, fields, lims[i].0, lims[i].1, row)
  }

  /** Filtering with the limits of `b` admits a row iff it meets every bound
      of the effective view of `b`. */
  lemma AdmitsIffMeetsAll(f: Filter, b: Bounds, fields: set<string>, row: Record)
    requires Valid(b)
    ensures Admits(row, Active(f, fields, Limits(b))) <==> MeetsAll(f, fields, Effective(b), row)
  {
    var lims := Limits(b);
    var eff := Effective(b);
    AdmitsActive(f, fields, lims, row);
    if MeetsEach(f, fields, lims, row) {
      forall k | k in eff ensures MeetsBound(f, fields, k, eff[k], row) {
        var i :| 0 <= i < |Names(b)| && Names(b)[i] == k;
        assert lims[i].0 == k;
        assert MeetsBound(f, fields, lims[i].0, lims[i].1, row);
      }
    }
    if MeetsAll(f, fields, eff, row) {
      forall i | 0 <= i < |lims| ensures MeetsBound(f, fields, lims[i].0, lims[i].1, row) {
        assert lims[i].0 in eff;
      }
    }
  }

  /** The filter's output is the order-preserving subsequence of input rows
      that meet every applicable bound. */
  lemma PassedSpec(f: Filter, b: Bounds, a: Batch, row: Record)
    requires Valid(b)
    ensures |Passed(f, b, a)| <= |a.rows|
    ensures row in Passed(f, b, a) <==> row in a.rows && MeetsAll(f, a.fields, Effective(b), row)
  {
    AdmitsIffMeetsAll(f, b, a.fields, row);
  }

  /** Two Bounds with the same effective view filter identically. */
  lemma SameViewSameOutput(f: Filter, b1: Bounds, b2: Bounds, a: Batch)
    requires Valid(b1) && Valid(b2)
    requires forall row :: row in a.rows ==>
      MeetsAll(f, a.fields, Effective(b1), row) == MeetsAll(f, a.fields, Effective(b2), row)
    ensures Passed(f, b1, a) == Passed(f, b2, a)
  {
    forall row | row in a.rows
      ensures AdmitsFn(Active(f, a.fields, Limits(b1)))(row) == AdmitsFn(Active(f, a.fields, Limits(b2)))(row)
    {
      AdmitsIffMeetsAll(f, b1, a.fields, row);
      AdmitsIffMeetsAll(f, b2, a.fields, row);
    }
    WhereExt(a.rows, AdmitsFn(Active(f, a.fields, Limits(b1))), AdmitsFn(Active(f, a.fields, Limits(b2))));
  }

  /** A bound the loop always skips: excluded by `restrict_to`, or naming
      (after remapping) a field the batch does not have. */
  predicate Ignored(f: Filter, fields: set<string>, k: string) {
    || (f.restrictTo.Some? && k !in f.restrictTo.value)
    || (k in f.remap && f.remap[k].field !in fields)
    || (k !in f.remap && k !in fields)
  }

  /** An ignored bound removes no rows: whatever it is set to, the output
      is the output without it. */
  lemma IgnoredBoundRemovesNothing(f: Filter, b: Bounds, a: Batch, k: string, r: Range)
    requires Valid(b)
    requires Ignored(f, a.fields, k)
    ensures Passed(f, Set(b, k, r), a) == Passed(f, b, a)
  {
    var b' := Set(b, k, r);
    var e := Effective(b);
    forall row | row in a.rows
      ensures MeetsAll(f, a.fields, Effective(b'), row) == MeetsAll(f, a.fields, e, row)
    {
      IgnoredUpdateSameMeets(f, a.fields, e, k, r, row);
    }
    SameViewSameOutput(f, b', b, a);
  }

  lemma IgnoredUpdateSameMeets(f: Filter, fields: set<string>, e: map<string, Range>, k: string, r: Range, row: Record)
    requires Ignored(f, fields, k)
    ensures MeetsAll(f, fields, e[k := r], row) == MeetsAll(f, fields, e, row)
  {
    DropIgnored(f, fields, e[k := r], k, row);
    DropIgnored(f, fields, e, k, row);
    assert e[k := r] - {k} == e - {k};
  }

  lemma DropIgnored(f: Filter, fields: set<string>, e: map<string, Range>, k: string, row: Record)
    requires Ignored(f, fields, k)
    ensures MeetsAll(f, fields, e, row) == MeetsAll(f, fields, e - {k}, row)
  {
    if MeetsAll(f, fields, e - {k}, row) {
      forall n | n in e ensures MeetsBound(f, fields, n, e[n], row) {
        if n != k {
          assert n in e - {k};
        }
      }
    }
  }

  /** A Bounds with no effective names forwards the whole batch. */
  lemma EmptyBoundsPassAll(f: Filter, b: Bounds, a: Batch)
    requires Valid(b) && Effective(b) == map[]
    ensures Passed(f, b, a) == a.rows
  {
    forall row | row in a.rows ensures AdmitsFn(Active(f, a.fields, Limits(b)))(row) {
      AdmitsIffMeetsAll(f, b, a.fields, row);
    }
    WhereAll(a.rows, AdmitsFn(Active(f, a.fields, Limits(b))));
  }

  /** A `transform_mapping` entry `k -> (k2, g)` constrains field `k2` of
      every forwarded row to the range `g((v_min, v_max))`. */
  lemma RemappedBoundApplies(f: Filter, b: Bounds, a: Batch, k: string, row: Record)
    requires Valid(b)
    requires k in Effective(b) && k in f.remap
    requires f.restrictTo.None? || k in f.restrictTo.value
    requires f.remap[k].field in a.fields
    requires row in Passed(f, b, a)
    ensures InRange(row, (f.remap[k].field, f.remap[k].transform(Effective(b)[k])))
  {
    PassedSpec(f, b, a, row);
    assert MeetsBound(f, a.fields, k, Effective(b)[k], row);
  }
}
