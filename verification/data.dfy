/** `NamedArrayDataset` and the `indexed` decorator of data.py: a dataset
    that re-sends its records on every bounds change, receives edited rows
    back by index, and can be given a row-number column. */
module Data {
  import opened Wrappers
  import opened Delivery
  import opened Records
  import opened PubSub

  /** `NamedArrayDataset`: its records and an optional downstream target. */
  datatype Dataset<T> = Dataset(data: Batch, target: Option<T>)

  /** `_default_index_name` */
  const DefaultIndexName: string := "point_id"

  datatype DataError =
    | DuplicateField(name: string)   // append_fields onto an existing name
    | NoSuchField(name: string)      // a field missing from either array
    | BadIndex(index: real)          // not a whole number, or out of range
    | DtypeMismatch                  // whole-row assignment between different field sets

  /** `NamedArrayDataset(data, target)`: the dataset is attached to the
      bounds-updated topic under the identity `me`. */
  function NewDataset<T>(reg: Registry<T>, data: Batch, target: Option<T>, me: T): (r: (Registry<T>, Dataset<T>))
    ensures r.1 == Dataset(data, target)
    ensures Lookup(r.0, BoundsUpdatedTopic).subscribers == Lookup(reg, BoundsUpdatedTopic).subscribers + {me}
    ensures forall n :: n != BoundsUpdatedTopic ==> Lookup(r.0, n) == Lookup(reg, n)
  {
    (AttachTo(reg, BoundsUpdatedTopic, me), Dataset(data, target))
  }

  /** `indexed(index_name)` applied to the result `d` of the decorated
      constructor: append a column numbering the rows 0, 1, 2, ... */
  function Indexed<T>(d: Option<Dataset<T>>, indexName: string): (r: Result<Option<Dataset<T>>, DataError>)
    requires d.Some? ==> WellFormed(d.value.data)
    ensures d.None? ==> r == Success(None)
    ensures d.Some? ==> (r.Failure? <==> indexName in d.value.data.fields)
    ensures d.Some? && r.Success? ==> r.value.Some? && r.value.value.target == d.value.target
    ensures d.Some? && r.Success? && r.value.Some? ==>
      var a := d.value.data;
      var b := r.value.value.data;
      && b.fields == a.fields + {indexName}
      && |b.rows| == |a.rows|
      && WellFormed(b)
      && (forall i :: 0 <= i < |b.rows| ==> b.rows[i][indexName] == i as real)
      && (forall i, f :: 0 <= i < |b.rows| && f in a.fields ==> b.rows[i][f] == a.rows[i][f])
  {
    match d
    case None => Success(None)
    case Some(ds) =>
      if indexName in ds.data.fields then Failure(DuplicateField(indexName))
      else
        var rows := seq(|ds.data.rows|, i requires 0 <= i < |ds.data.rows| => ds.data.rows[i][indexName := i as real]);
        Success(Some(ds.(data := Batch(ds.data.fields + {indexName}, rows))))
  }

  /** `NamedArrayDataset.send(msg)`: whatever the message, forward the full
      current records once, if there is a target. */
  function Send<T, M>(ds: Dataset<T>, msg: M): (r: seq<Sent<T, Batch>>)
    ensures ds.target.None? ==> r == []
    ensures ds.target.Some? ==> r == [Sent(ds.target.value, ds.data)]
  {
    if ds.target.None? then [] else [Sent(ds.target.value, ds.data)]
  }

  /** What a bounds change makes an indexed dataset forward, whatever the
      message: nothing without a target, else one batch to the target whose
      rows carry their row numbers and the original records. */
  lemma SendForwardsIndexedRecords<T, M>(ds: Dataset<T>, indexName: string, m1: M, m2: M)
    requires WellFormed(ds.data) && indexName !in ds.data.fields
    ensures var ix := Indexed(Some(ds), indexName).value.value;
      && Send(ix, m1) == Send(ix, m2)
      && (ds.target.None? ==> Send(ix, m1) == [])
      && (ds.target.Some? ==>
            && |Send(ix, m1)| == 1 && Send(ix, m1)[0].to == ds.target.value
            && var b := Send(ix, m1)[0].msg;
            && b.fields == ds.data.fields + {indexName}
            && |b.rows| == |ds.data.rows|
            && (forall i :: 0 <= i < |b.rows| ==> b.rows[i][indexName] == i as real)
            && (forall i, f :: 0 <= i < |b.rows| && f in ds.data.fields ==> b.rows[i][f] == ds.data.rows[i][f]))
  {
  }

  // ---------------------------------------------------------------- update

  /** Python/numpy indexing of an array of length `n`: whole numbers in
      [-n, n), negatives counting from the end. */
  function Slot(v: real, n: nat): (r: Option<nat>)
    ensures r.Some? ==> r.value < n
    ensures r.Some? ==> v == r.value as real || v == r.value as real - n as real
    ensures r.None? <==> v.Floor as real != v || v < -(n as real) || v >= n as real
  {
    if v.Floor as real != v then None
    else if 0 <= v.Floor < n then Some(v.Floor as nat)
    else if -(n as int) <= v.Floor < 0 then Some((n + v.Floor) as nat)
    else None
  }

  /** The row each received row writes to, if every index is valid. */
  function Slots(a: Batch, indexName: string, n: nat): (r: Option<seq<nat>>)
    requires WellFormed(a) && indexName in a.fields
    ensures r.Some? <==> forall i :: 0 <= i < |a.rows| ==> Slot(a.rows[i][indexName], n).Some?
    ensures r.Some? ==> (|r.value| == |a.rows|
      && forall i :: 0 <= i < |a.rows| ==> Slot(a.rows[i][indexName], n) == Some(r.value[i]))
  {
    if forall i :: 0 <= i < |a.rows| ==> Slot(a.rows[i][indexName], n).Some? then
      Some(seq(|a.rows|, i requires 0 <= i < |a.rows| => Slot(a.rows[i][indexName], n).value))
    else None
  }

  /** The first received index, from row `k` on, that does not resolve. */
  function FirstBadIndex(a: Batch, indexName: string, n: nat, k: nat): (v: real)
    requires WellFormed(a) && indexName in a.fields && k <= |a.rows|
    requires exists i :: k <= i < |a.rows| && Slot(a.rows[i][indexName], n).None?
    ensures exists i :: k <= i < |a.rows| && v == a.rows[i][indexName] && Slot(v, n).None?
    decreases |a.rows| - k
  {
    assert a.rows[k] in a.rows;
    if Slot(a.rows[k][indexName], n).None? then a.rows[k][indexName]
    else FirstBadIndex(a, indexName, n, k + 1)
  }

  /** The first listed field missing from either array. */
  function MissingField(fs: seq<string>, d: Batch, a: Batch): (r: Option<string>)
    ensures r.None? <==> forall k :: 0 <= k < |fs| ==> fs[k] in d.fields && fs[k] in a.fields
    ensures r.Some? ==> r.value in fs && (r.value !in d.fields || r.value !in a.fields)
    ensures forall k :: 0 <= k < |fs| && FirstMissing(fs, d, a, k) ==> r == Some(fs[k])
  {
    if |fs| == 0 then None
    else if fs[0] !in d.fields || fs[0] !in a.fields then Some(fs[0])
    else
      var rest := MissingField(fs[1..], d, a);
      assert forall k :: 1 <= k < |fs| ==> fs[k] == fs[1..][k - 1];
      assert forall k :: 1 <= k < |fs| && FirstMissing(fs, d, a, k) ==> FirstMissing(fs[1..], d, a, k - 1);
      rest
  }

  /** `fs[k]` is the first listed field missing from either array. */
  predicate FirstMissing(fs: seq<string>, d: Batch, a: Batch, k: nat)
    requires k < |fs|
  {
    && (fs[k] !in d.fields || fs[k] !in a.fields)
    && forall j :: 0 <= j < k ==> fs[j] in d.fields && fs[j] in a.fields
  }

  /** The store `self.data[f][indices] = a[f]` raises: the field is missing
      from either array, or an index does not resolve. */
  predicate StoreFails(d: Batch, a: Batch, indexName: string, f: string)
    requires WellFormed(a) && indexName in a.fields
  {
    f !in d.fields || f !in a.fields || !AllResolve(a, indexName, |d.rows|)
  }

  /** `fs[k]` is the first listed field whose store raises. */
  predicate FirstFailingStore(d: Batch, a: Batch, indexName: string, fs: seq<string>, k: nat)
    requires WellFormed(a) && indexName in a.fields && k < |fs|
  {
    StoreFails(d, a, indexName, fs[k]) && forall j :: 0 <= j < k ==> !StoreFails(d, a, indexName, fs[j])
  }

  /** Every received index names a row of an array of length `n`. */
  predicate AllResolve(a: Batch, indexName: string, n: nat)
    requires WellFormed(a) && indexName in a.fields
  {
    forall i :: 0 <= i < |a.rows| ==> Slot(a.rows[i][indexName], n).Some?
  }

  /** The checks `update` makes before it can write, and the slots it writes. */
  function Plan(d: Batch, a: Batch, indexName: string, fieldNames: Option<seq<string>>): (r: Result<seq<nat>, DataError>)
    requires WellFormed(d) && WellFormed(a)
    ensures r.Success? <==>
      && indexName in a.fields
      && (fieldNames.None? ==> a.fields == d.fields && AllResolve(a, indexName, |d.rows|))
      && (fieldNames.Some? ==>
            (forall k :: 0 <= k < |fieldNames.value| ==> fieldNames.value[k] in d.fields && fieldNames.value[k] in a.fields)
            && (|fieldNames.value| > 0 ==> AllResolve(a, indexName, |d.rows|)))
    ensures r.Success? ==> |r.value| <= |a.rows|
    ensures r.Success? && (fieldNames.None? || |fieldNames.value| > 0) ==> |r.value| == |a.rows|
    ensures r.Success? ==> forall i :: 0 <= i < |r.value| ==> Slot(a.rows[i][indexName], |d.rows|) == Some(r.value[i])
    ensures indexName !in a.fields ==> r == Failure(NoSuchField(indexName))
    ensures r.Failure? && r.error.BadIndex? ==>
      && indexName in a.fields
      && exists i :: 0 <= i < |a.rows| && r.error.index == a.rows[i][indexName] && Slot(r.error.index, |d.rows|).None?
    ensures fieldNames.Some? && indexName in a.fields ==>
      forall k :: 0 <= k < |fieldNames.value| && FirstFailingStore(d, a, indexName, fieldNames.value, k) ==>
        r.Failure? && (if fieldNames.value[k] in d.fields && fieldNames.value[k] in a.fields
                       then r.error.BadIndex? else r.error == NoSuchField(fieldNames.value[k]))
  {
    if indexName !in a.fields then Failure(NoSuchField(indexName))
    else
      var n := |d.rows|;
      match fieldNames
      case None =>
        if a.fields != d.fields then Failure(DtypeMismatch)
        else if Slots(a, indexName, n).None? then Failure(BadIndex(FirstBadIndex(a, indexName, n, 0)))
        else Success(Slots(a, indexName, n).value)
      case Some(fs) =>
        // field by field: the first store that raises decides the error
        if |fs| == 0 then Success([])
        else if fs[0] !in d.fields || fs[0] !in a.fields then Failure(NoSuchField(fs[0]))
        else if Slots(a, indexName, n).None? then Failure(BadIndex(FirstBadIndex(a, indexName, n, 0)))
        else if MissingField(fs, d, a).Some? then Failure(NoSuchField(MissingField(fs, d, a).value))
        else Success(Slots(a, indexName, n).value)
  }

  /** Fields are stored one at a time: with `field_names = ["f1", "f2"]`,
      an out-of-range index raises on the `f1` store before the missing
      `f2` is reached. */
  lemma FieldUpdateStopsAtFirstFailingStore()
    ensures var d := Batch({"i", "f1"}, [map["i" := 0.0, "f1" := 1.0]]);
      var a := Batch({"i", "f1"}, [map["i" := 5.0, "f1" := 2.0]]);
      Plan(d, a, "i", Some(["f1", "f2"])) == Failure(BadIndex(5.0))
  {
    var d := Batch({"i", "f1"}, [map["i" := 0.0, "f1" := 1.0]]);
    var a := Batch({"i", "f1"}, [map["i" := 5.0, "f1" := 2.0]]);
    assert (5.0).Floor == 5;
    assert Slot(a.rows[0]["i"], 1).None?;
  }

  /** One row written from a received row: the listed fields only, or the
      whole row. */
  function Assign(row: Record, src: Record, fieldNames: Option<seq<string>>): (r: Record)
    ensures fieldNames.None? ==> r == src
    ensures fieldNames.Some? ==> r.Keys == row.Keys
  {
    match fieldNames
    case None => src
    case Some(fs) => map k | k in row.Keys :: if k in fs && k in src then src[k] else row[k]
  }

  /** Writing twice to the same row leaves what the second write says. */
  lemma AssignTwice(row: Record, s1: Record, s2: Record, fieldNames: Option<seq<string>>)
    requires fieldNames.Some? ==> forall f :: f in fieldNames.value ==> f in s1 && f in s2
    ensures Assign(Assign(row, s1, fieldNames), s2, fieldNames) == Assign(row, s2, fieldNames)
  {
  }

  /** The last received row that targets row `j`, if any. */
  function LastWriter(slots: seq<nat>, j: nat): (r: Option<nat>)
    ensures r.Some? ==> (r.value < |slots| && slots[r.value] == j
      && forall i :: r.value < i < |slots| ==> slots[i] != j)
    ensures r.None? <==> forall i :: 0 <= i < |slots| ==> slots[i] != j
    decreases |slots|
  {
    if |slots| == 0 then None
    else if slots[|slots| - 1] == j then Some(|slots| - 1)
    else LastWriter(slots[..|slots| - 1], j)
  }

  /** What `update` leaves in row `j`. */
  function Expected(d: Batch, a: Batch, slots: seq<nat>, fieldNames: Option<seq<string>>, j: nat): Record
    requires j < |d.rows| && |slots| <= |a.rows|
  {
    match LastWriter(slots, j)
    case None => d.rows[j]
    case Some(i) => Assign(d.rows[j], a.rows[i], fieldNames)
  }

  /** What `Plan` guarantees the write loop. */
  predicate Writable(d: Batch, a: Batch, slots: seq<nat>, fieldNames: Option<seq<string>>) {
    && WellFormed(d) && WellFormed(a)
    && |slots| <= |a.rows|
    && (forall k :: 0 <= k < |slots| ==> slots[k] < |d.rows|)
    && (fieldNames.None? ==> a.fields == d.fields)
    && (fieldNames.Some? ==> forall f :: f in fieldNames.value ==> f in a.fields)
  }

  /** The rows after the first `i` writes. */
  predicate WrittenUpTo(d: Batch, a: Batch, slots: seq<nat>, fieldNames: Option<seq<string>>, i: nat, rows: seq<Record>)
    requires i <= |slots| <= |a.rows|
  {
    && |rows| == |d.rows|
    && (forall j :: 0 <= j < |rows| ==> rows[j].Keys == d.fields)
    && (forall j :: 0 <= j < |rows| ==> rows[j] == Expected(d, a, slots[..i], fieldNames, j))
  }

  /** One more write keeps the rows in step with `Expected`. */
  lemma WriteStep(d: Batch, a: Batch, slots: seq<nat>, fieldNames: Option<seq<string>>, i: nat, rows: seq<Record>)
    requires Writable(d, a, slots, fieldNames) && i < |slots|
    requires WrittenUpTo(d, a, slots, fieldNames, i, rows)
    ensures WrittenUpTo(d, a, slots, fieldNames, i + 1, rows[slots[i] := Assign(rows[slots[i]], a.rows[i], fieldNames)])
  {
    var s := slots[i];
    var rows' := rows[s := Assign(rows[s], a.rows[i], fieldNames)];
    assert a.rows[i] in a.rows;
    assert slots[..i + 1][..i] == slots[..i];
    assert LastWriter(slots[..i + 1], s) == Some(i);
    match LastWriter(slots[..i], s)
    case None =>
    case Some(k) =>
      assert a.rows[k] in a.rows;
      AssignTwice(d.rows[s], a.rows[k], a.rows[i], fieldNames);
  }

  /** `NamedArrayDataset.update(index_name, field_names)` receiving batch `a`:
      each received row is written to the row its index names (negative
      indices count from the end; a later row wins over an earlier one for
      the same index), either for the listed fields or whole. Rows no index
      names are unchanged. */
  method Update<T>(ds: Dataset<T>, a: Batch, indexName: string, fieldNames: Option<seq<string>>)
    returns (r: Result<Dataset<T>, DataError>)
    requires WellFormed(ds.data) && WellFormed(a)
    ensures r.Success? <==> Plan(ds.data, a, indexName, fieldNames).Success?
    ensures r.Failure? ==> r.error == Plan(ds.data, a, indexName, fieldNames).error
    ensures r.Success? ==>
      var slots := Plan(ds.data, a, indexName, fieldNames).value;
      && r.value.target == ds.target
      && r.value.data.fields == ds.data.fields
      && WellFormed(r.value.data)
      && |r.value.data.rows| == |ds.data.rows|
      && forall j :: 0 <= j < |ds.data.rows| ==> r.value.data.rows[j] == Expected(ds.data, a, slots, fieldNames, j)
  {
    var plan := Plan(ds.data, a, indexName, fieldNames);
    if plan.Failure? {
      return Failure(plan.error);
    }
    var slots := plan.value;
    var d := ds.data;
    assert Writable(d, a, slots, fieldNames) by {
      forall k | 0 <= k < |slots| ensures slots[k] < |d.rows| {
        assert Slot(a.rows[k][indexName], |d.rows|) == Some(slots[k]);
      }
    }
    var rows := d.rows;
    var i := 0;
    assert WrittenUpTo(d, a, slots, fieldNames, 0, rows) by {
      forall j | 0 <= j < |rows| ensures rows[j].Keys == d.fields {
        assert rows[j] in d.rows;
      }
    }
    while i < |slots|
      invariant 0 <= i <= |slots|
      invariant WrittenUpTo(d, a, slots, fieldNames, i, rows)
    {
      WriteStep(d, a, slots, fieldNames, i, rows);
      rows := rows[slots[i] := Assign(rows[slots[i]], a.rows[i], fieldNames)];
      i := i + 1;
    }
    assert slots[..i] == slots;
    r := Success(ds.(data := Batch(d.fields, rows)));
  }

  /** A row that no received index names keeps its contents. */
  lemma UntouchedRowsUnchanged(d: Batch, a: Batch, indexName: string, fieldNames: Option<seq<string>>, j: nat)
    requires WellFormed(d) && WellFormed(a) && j < |d.rows|
    requires Plan(d, a, indexName, fieldNames).Success?
    requires forall i :: 0 <= i < |a.rows| ==> Slot(a.rows[i][indexName], |d.rows|) != Some(j)
    ensures Expected(d, a, Plan(d, a, indexName, fieldNames).value, fieldNames, j) == d.rows[j]
  {
    var slots := Plan(d, a, indexName, fieldNames).value;
    forall i | 0 <= i < |slots| ensures slots[i] != j {
      assert Slot(a.rows[i][indexName], |d.rows|) == Some(slots[i]);
    }
  }

  /** With `field_names`, a written row takes exactly the listed fields from
      the last received row naming it and keeps every other field. */
  lemma FieldUpdateWritesListedFields(d: Batch, a: Batch, indexName: string, fs: seq<string>, j: nat, i: nat)
    requires WellFormed(d) && WellFormed(a) && j < |d.rows|
    requires Plan(d, a, indexName, Some(fs)).Success?
    requires LastWriter(Plan(d, a, indexName, Some(fs)).value, j) == Some(i)
    ensures forall f :: f in fs ==> (f in Expected(d, a, Plan(d, a, indexName, Some(fs)).value, Some(fs), j)
      && Expected(d, a, Plan(d, a, indexName, Some(fs)).value, Some(fs), j)[f] == a.rows[i][f])
    ensures forall f :: f in d.fields && f !in fs ==>
      Expected(d, a, Plan(d, a, indexName, Some(fs)).value, Some(fs), j)[f] == d.rows[j][f]
  {
    assert d.rows[j] in d.rows && a.rows[i] in a.rows;
  }

  /** Without `field_names`, a written row is replaced by the last received
      row naming it. */
  lemma WholeRowUpdateReplaces(d: Batch, a: Batch, indexName: string, j: nat, i: nat)
    requires WellFormed(d) && WellFormed(a) && j < |d.rows|
    requires Plan(d, a, indexName, None).Success?
    requires LastWriter(Plan(d, a, indexName, None).value, j) == Some(i)
    ensures Expected(d, a, Plan(d, a, indexName, None).value, None, j) == a.rows[i]
  {
  }

  /** Sending the rows of an indexed dataset back to it (the round trip a
      lasso selection makes) changes nothing. */
  lemma {:induction false} IndexedRoundTrip<T>(ds: Dataset<T>, indexName: string)
    requires WellFormed(ds.data) && indexName !in ds.data.fields
    ensures var ix := Indexed(Some(ds), indexName).value.value;
      && Plan(ix.data, ix.data, indexName, None).Success?
      && forall j :: 0 <= j < |ix.data.rows| ==>
           Expected(ix.data, ix.data, Plan(ix.data, ix.data, indexName, None).value, None, j) == ix.data.rows[j]
  {
    var ix := Indexed(Some(ds), indexName).value.value;
    var n := |ix.data.rows|;
    forall i | 0 <= i < n ensures Slot(ix.data.rows[i][indexName], n) == Some(i) {
      assert ix.data.rows[i][indexName] == i as real;
      assert (i as real).Floor == i;
    }
    var slots := Plan(ix.data, ix.data, indexName, None).value;
    forall j | 0 <= j < n ensures LastWriter(slots, j) == Some(j) {
      assert slots[j] == j;
    }
  }
}
