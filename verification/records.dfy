/** Record batches: the numpy structured arrays that flow through the
    pipeline, as a field-name set (the dtype) plus a sequence of rows. */
module Records {

  type Record = map<string, real>

  datatype Batch = Batch(fields: set<string>, rows: seq<Record>)

  /** Every row carries exactly the batch's fields (a fixed dtype). */
  predicate WellFormed(a: Batch) {
    forall r :: r in a.rows ==> r.Keys == a.fields
  }

  /** Boolean-mask indexing `a[mask]`: the rows whose mask entry is true, in order. */
  function Select(rows: seq<Record>, mask: seq<bool>): (r: seq<Record>)
    requires |mask| == |rows|
    ensures |r| <= |rows|
  {
    if |rows| == 0 then []
    else (if mask[0] then [rows[0]] else []) + Select(rows[1..], mask[1..])
  }

  /** The order-preserving subsequence of `rows` satisfying `keep`. */
  function Where(rows: seq<Record>, keep: Record -> bool): (r: seq<Record>)
    ensures |r| <= |rows|
    ensures forall x :: x in r <==> x in rows && keep(x)
  {
    if |rows| == 0 then []
    else (if keep(rows[0]) then [rows[0]] else []) + Where(rows[1..], keep)
  }

  /** Masking with the pointwise value of a predicate is filtering by it. */
  lemma {:induction false} SelectIsWhere(rows: seq<Record>, mask: seq<bool>, keep: Record -> bool)
    requires |mask| == |rows|
    requires forall i :: 0 <= i < |rows| ==> mask[i] == keep(rows[i])
    ensures Select(rows, mask) == Where(rows, keep)
  {
    if |rows| > 0 {
      SelectIsWhere(rows[1..], mask[1..], keep);
    }
  }

  lemma {:induction false} WhereAll(rows: seq<Record>, keep: Record -> bool)
    requires forall x :: x in rows ==> keep(x)
    ensures Where(rows, keep) == rows
  {
    if |rows| > 0 {
      WhereAll(rows[1..], keep);
    }
  }

  lemma {:induction false} WhereExt(rows: seq<Record>, k1: Record -> bool, k2: Record -> bool)
    requires forall x :: x in rows ==> k1(x) == k2(x)
    ensures Where(rows, k1) == Where(rows, k2)
  {
    if |rows| > 0 {
      WhereExt(rows[1..], k1, k2);
    }
  }

  /** Filtering by a stronger predicate keeps an order-preserving
      subsequence of what the weaker predicate keeps. */
  lemma {:induction false} WhereNarrow(rows: seq<Record>, k1: Record -> bool, k2: Record -> bool)
    requires forall x :: k1(x) ==> k2(x)
    ensures Where(Where(rows, k2), k1) == Where(rows, k1)
  {
    if |rows| > 0 {
      WhereNarrow(rows[1..], k1, k2);
      var w2 := Where(rows, k2);
      if k2(rows[0]) {
        assert w2 == [rows[0]] + Where(rows[1..], k2);
        assert w2[1..] == Where(rows[1..], k2);
      } else {
        assert w2 == Where(rows[1..], k2);
      }
    }
  }

  lemma WhereWellFormed(a: Batch, keep: Record -> bool)
    requires WellFormed(a)
    ensures WellFormed(Batch(a.fields, Where(a.rows, keep)))
  {
  }
}
