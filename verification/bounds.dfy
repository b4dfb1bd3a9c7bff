/** The hierarchical range store of bounds.py: named (min, max) pairs kept in
    first-set order, with lookups that fall back to an optional parent. */
module BoundsStore {
  import opened Wrappers
  import opened Delivery

  /** A (min, max) pair; either end may be Python's `None`. */
  datatype Range = Range(lo: Option<real>, hi: Option<real>)

  /** `(None, None)`: what a lookup of an unknown name returns. */
  const Unset: Range := Range(None, None)

  function Closed(lo: real, hi: real): Range {
    Range(Some(lo), Some(hi))
  }

  predicate IsClosed(r: Range) {
    r.lo.Some? && r.hi.Some?
  }

  /** `vars` is the `_vars` list of locally set names, `local` the instance
      attributes holding their values, `parent` the `_parent` reference. */
  datatype Bounds = Bounds(vars: seq<string>, local: map<string, Range>, parent: Option<Bounds>)

  /** `_vars` lists each locally set name once, and exactly those names. */
  predicate Valid(b: Bounds)
    decreases b
  {
    && NoDup(b.vars)
    && (forall n :: n in b.vars ==> n in b.local)
    && (forall n :: n in b.local ==> n in b.vars)
    && (b.parent.Some? ==> Valid(b.parent.value))
  }

  function Empty(parent: Option<Bounds>): (b: Bounds)
    requires parent.Some? ==> Valid(parent.value)
    ensures Valid(b) && Names(b) == (if parent.Some? then Names(parent.value) else [])
  {
    var b := Bounds([], map[], parent);
    assert parent.Some? ==> Exclude(Names(parent.value), []) == Names(parent.value) by {
      if parent.Some? {
        ExcludeNothing(Names(parent.value));
      }
    }
    b
  }

  /** Reference definition: the name → range view a Bounds presents, the
      parent's view overridden by the local entries. */
  function Effective(b: Bounds): map<string, Range>
    decreases b
  {
    (if b.parent.Some? then Effective(b.parent.value) else map[]) + b.local
  }

  /** `getattr(bounds, name)` / `bounds[name]`: never fails. */
  function Get(b: Bounds, name: string): (r: Range)
    decreases b
  {
    if name in b.local then b.local[name]
    else if b.parent.Some? then Get(b.parent.value, name)
    else Unset
  }

  /** A lookup returns the local value, else the parent's effective value,
      else `(None, None)`. */
  lemma {:induction false} GetIsEffective(b: Bounds, name: string)
    ensures name in b.local ==> Get(b, name) == b.local[name]
    ensures Get(b, name) == (if name in Effective(b) then Effective(b)[name] else Unset)
    decreases b
  {
    if name !in b.local && b.parent.Some? {
      GetIsEffective(b.parent.value, name);
    }
  }

  /** `setattr(bounds, name, r)`: records `name` in `_vars` the first time it
      is set, and stores the value locally. */
  function Set(b: Bounds, name: string, r: Range): (b': Bounds)
    requires Valid(b)
    ensures Valid(b')
    ensures b'.parent == b.parent
    ensures b'.vars == (if name in b.vars then b.vars else b.vars + [name])
    ensures Get(b', name) == r
    ensures forall n :: n != name ==> Get(b', n) == Get(b, n)
    ensures Effective(b') == Effective(b)[name := r]
  {
    var vars := if name in b.vars then b.vars else b.vars + [name];
    var b' := Bounds(vars, b.local[name := r], b.parent);
    SetKeepsValid(b, name, r, b');
    SetOverridesEffective(b, name, r, b');
    b'
  }

  lemma SetKeepsValid(b: Bounds, name: string, r: Range, b': Bounds)
    requires Valid(b)
    requires b' == Bounds(if name in b.vars then b.vars else b.vars + [name], b.local[name := r], b.parent)
    ensures Valid(b')
  {
    if name !in b.vars {
      NoDupSnoc(b.vars, name);
    }
  }

  lemma SetOverridesEffective(b: Bounds, name: string, r: Range, b': Bounds)
    requires b'.local == b.local[name := r] && b'.parent == b.parent
    ensures Effective(b') == Effective(b)[name := r]
  {
    var pe := if b.parent.Some? then Effective(b.parent.value) else map[];
    UnionThenUpdate(pe, b.local, name, r);
  }

  /** Overriding a key in the right operand of a map union overrides it in the union. */
  lemma UnionThenUpdate<K, V>(m: map<K, V>, n: map<K, V>, k: K, v: V)
    ensures m + n[k := v] == (m + n)[k := v]
  {
    var lhs := m + n[k := v];
    var rhs := (m + n)[k := v];
    assert lhs.Keys == rhs.Keys;
    forall j | j in lhs.Keys
      ensures lhs[j] == rhs[j]
    {
    }
  }

  /** Appending a new element keeps a sequence duplicate-free. */
  lemma NoDupSnoc<X>(xs: seq<X>, x: X)
    requires NoDup(xs) && x !in xs
    ensures NoDup(xs + [x])
  {
    var ys := xs + [x];
    forall i, j | 0 <= i < j < |ys| ensures ys[i] != ys[j] {
      if j == |xs| {
        assert ys[i] == xs[i];
      }
    }
  }

  /** `[v for v in xs if v not in drop]` */
  function Exclude(xs: seq<string>, drop: seq<string>): (r: seq<string>)
    ensures forall x :: x in r <==> x in xs && x !in drop
    ensures NoDup(xs) ==> NoDup(r)
  {
    if |xs| == 0 then []
    else
      var rest := Exclude(xs[1..], drop);
      assert NoDup(xs) ==> xs[0] !in xs[1..] by {
        if NoDup(xs) {
          forall k | 0 <= k < |xs| - 1 ensures xs[1..][k] != xs[0] {
            assert xs[1..][k] == xs[k + 1];
          }
        }
      }
      assert NoDup(xs) ==> NoDup(xs[1..]) by {
        if NoDup(xs) {
          forall i, j | 0 <= i < j < |xs| - 1 ensures xs[1..][i] != xs[1..][j] {
            assert xs[1..][i] == xs[i + 1] && xs[1..][j] == xs[j + 1];
          }
        }
      }
      if xs[0] in drop then rest else [xs[0]] + rest
  }

  lemma {:induction false} ExcludeNothing(xs: seq<string>)
    ensures Exclude(xs, []) == xs
  {
    if |xs| > 0 {
      ExcludeNothing(xs[1..]);
    }
  }

  /** `list(bounds)`: the local names in first-set order, then the parent's
      names that are not set locally. */
  function Names(b: Bounds): (r: seq<string>)
    decreases b
  {
    if b.parent.Some? then b.vars + Exclude(Names(b.parent.value), b.vars) else b.vars
  }

  lemma NoDupConcat(a: seq<string>, c: seq<string>)
    requires NoDup(a) && NoDup(c)
    requires forall x :: x in c ==> x !in a
    ensures NoDup(a + c)
  {
    forall i, j | 0 <= i < j < |a + c| ensures (a + c)[i] != (a + c)[j] {
      if j >= |a| && i < |a| {
        assert (a + c)[j] == c[j - |a|] && c[j - |a|] in c;
        assert (a + c)[i] == a[i];
      } else if i >= |a| {
        assert (a + c)[j] == c[j - |a|] && (a + c)[i] == c[i - |a|];
      }
    }
  }

  /** Iteration yields each effective name exactly once, local names first. */
  lemma {:induction false} NamesSpec(b: Bounds)
    requires Valid(b)
    ensures NoDup(Names(b))
    ensures forall n :: n in Names(b) <==> n in Effective(b)
    ensures |b.vars| <= |Names(b)| && Names(b)[..|b.vars|] == b.vars
    decreases b
  {
    if b.parent.Some? {
      var p := b.parent.value;
      NamesSpec(p);
      NoDupConcat(b.vars, Exclude(Names(p), b.vars));
      assert (b.vars + Exclude(Names(p), b.vars))[..|b.vars|] == b.vars;
    } else {
      assert Names(b)[..|b.vars|] == b.vars;
    }
  }

  /** `bounds.limits()`: each iterated name paired with its lookup value.
      For a valid store this enumerates the effective view: every effective
      name once, in iteration order, paired with exactly its effective range. */
  function Limits(b: Bounds): (r: seq<(string, Range)>)
    ensures |r| == |Names(b)|
    ensures forall i :: 0 <= i < |r| ==> r[i] == (Names(b)[i], Get(b, Names(b)[i]))
    ensures Valid(b) ==> forall i :: 0 <= i < |r| ==> r[i].0 in Effective(b) && r[i].1 == Effective(b)[r[i].0]
    ensures Valid(b) ==> forall n :: n in Effective(b) ==> n in Names(b)
    ensures Valid(b) ==> NoDup(Names(b))
  {
    var names := Names(b);
    var r := seq(|names|, i requires 0 <= i < |names| => (names[i], Get(b, names[i])));
    assert Valid(b) ==> forall i :: 0 <= i < |r| ==> r[i].0 in Effective(b) && r[i].1 == Effective(b)[r[i].0] by {
      if Valid(b) {
        NamesSpec(b);
        forall i | 0 <= i < |r| ensures r[i].0 in Effective(b) && r[i].1 == Effective(b)[r[i].0] {
          GetIsEffective(b, names[i]);
        }
      }
    }
    assert Valid(b) ==> (forall n :: n in Effective(b) ==> n in Names(b)) && NoDup(Names(b)) by {
      if Valid(b) {
        NamesSpec(b);
      }
    }
    r
  }

  /** The keyword names of a constructor call, in order. */
  function KeywordNames(kw: seq<(string, Range)>): (r: seq<string>)
    ensures |r| == |kw| && forall i :: 0 <= i < |kw| ==> r[i] == kw[i].0
  {
    seq(|kw|, i requires 0 <= i < |kw| => kw[i].0)
  }

  /** `Bounds(parent, name1=r1, ...)`: the keyword arguments (distinct, as
      Python guarantees) set in order. */
  function Create(parent: Option<Bounds>, kw: seq<(string, Range)>): (b: Bounds)
    requires parent.Some? ==> Valid(parent.value)
    requires NoDup(KeywordNames(kw))
    ensures Valid(b) && b.parent == parent
    ensures b.vars == KeywordNames(kw)
  {
    if |kw| == 0 then Empty(parent)
    else
      var init := kw[..|kw| - 1];
      var last := kw[|kw| - 1];
      KeywordNamesSnoc(kw);
      var prior := Create(parent, init);
      Set(prior, last.0, last.1)
  }

  lemma KeywordNamesSnoc(kw: seq<(string, Range)>)
    requires |kw| > 0 && NoDup(KeywordNames(kw))
    ensures KeywordNames(kw) == KeywordNames(kw[..|kw| - 1]) + [kw[|kw| - 1].0]
    ensures NoDup(KeywordNames(kw[..|kw| - 1]))
    ensures kw[|kw| - 1].0 !in KeywordNames(kw[..|kw| - 1])
  {
    var ks := KeywordNames(kw);
    var init := KeywordNames(kw[..|kw| - 1]);
    assert ks == init + [kw[|kw| - 1].0];
    assert forall k :: 0 <= k < |init| ==> init[k] == ks[k];
  }

  /** Every keyword argument is what the new Bounds returns for its name. */
  lemma {:induction false} CreateSetsKeywords(parent: Option<Bounds>, kw: seq<(string, Range)>)
    requires parent.Some? ==> Valid(parent.value)
    requires NoDup(KeywordNames(kw))
    ensures forall i :: 0 <= i < |kw| ==> Get(Create(parent, kw), kw[i].0) == kw[i].1
  {
    if |kw| > 0 {
      var init := kw[..|kw| - 1];
      KeywordNamesSnoc(kw);
      CreateSetsKeywords(parent, init);
      forall i | 0 <= i < |kw| ensures Get(Create(parent, kw), kw[i].0) == kw[i].1 {
        if i < |kw| - 1 {
          assert kw[i] == init[i];
          assert KeywordNames(init)[i] == kw[i].0;
        }
      }
    }
  }
}
