/** Synchronous message delivery: every `send` in the system is a direct call
    `receiver.send(msg)`; a component's step function returns the ordered list
    of such calls it makes. */
module Delivery {

  /** One call `to.send(msg)`. */
  datatype Sent<T, M> = Sent(to: T, msg: M)

  predicate NoDup<X(==)>(xs: seq<X>) {
    forall i, j :: 0 <= i < j < |xs| ==> xs[i] != xs[j]
  }

  /** `order` is one possible iteration order of the Python set `s`:
      every member exactly once, nothing else. */
  predicate Enumerates<X(==)>(order: seq<X>, s: set<X>) {
    NoDup(order) && (forall x :: x in order ==> x in s) && (forall x :: x in s ==> x in order)
  }

  /** Number of calls in `sent` addressed to `t`. */
  function CountTo<T(==), M>(sent: seq<Sent<T, M>>, t: T): nat {
    if |sent| == 0 then 0
    else (if sent[0].to == t then 1 else 0) + CountTo(sent[1..], t)
  }

  /** The messages `t` receives, in delivery order. */
  function ReceivedBy<T(==), M>(sent: seq<Sent<T, M>>, t: T): (r: seq<M>)
    ensures |r| == CountTo(sent, t)
  {
    if |sent| == 0 then []
    else (if sent[0].to == t then [sent[0].msg] else []) + ReceivedBy(sent[1..], t)
  }

  /** `for target in targets: target.send(msg)` */
  function FanOut<T, M>(targets: seq<T>, msg: M): (r: seq<Sent<T, M>>)
    ensures |r| == |targets|
    ensures forall i :: 0 <= i < |r| ==> r[i].to == targets[i] && r[i].msg == msg
  {
    if |targets| == 0 then [] else [Sent(targets[0], msg)] + FanOut(targets[1..], msg)
  }

  lemma {:induction false} CountAppend<T, M>(a: seq<Sent<T, M>>, b: seq<Sent<T, M>>, t: T)
    ensures CountTo(a + b, t) == CountTo(a, t) + CountTo(b, t)
    ensures ReceivedBy(a + b, t) == ReceivedBy(a, t) + ReceivedBy(b, t)
  {
    if |a| == 0 {
      assert a + b == b;
    } else {
      assert (a + b)[1..] == a[1..] + b;
      CountAppend(a[1..], b, t);
    }
  }

  /** A fan-out delivers to each target as many times as it is listed. */
  lemma {:induction false} FanOutCount<T, M>(targets: seq<T>, msg: M, t: T)
    ensures CountTo(FanOut(targets, msg), t) == multiset(targets)[t]
  {
    if |targets| == 0 {
    } else {
      var r := FanOut(targets, msg);
      FanOutCount(targets[1..], msg, t);
      assert r[1..] == FanOut(targets[1..], msg);
      assert CountTo(r, t) == (if targets[0] == t then 1 else 0) + CountTo(r[1..], t);
      assert targets == [targets[0]] + targets[1..];
      assert multiset(targets)[t] == multiset{targets[0]}[t] + multiset(targets[1..])[t];
    }
  }

  /** Every call of a fan-out carries its one message. */
  lemma {:induction false} FanOutCarries<T, M>(targets: seq<T>, msg: M, t: T)
    ensures forall m :: m in ReceivedBy(FanOut(targets, msg), t) ==> m == msg
  {
    if |targets| != 0 {
      FanOutCarries(targets[1..], msg, t);
      assert FanOut(targets, msg)[1..] == FanOut(targets[1..], msg);
    }
  }

  /** Fanning out over an enumeration of a set reaches every member exactly
      once and nobody else, whatever the enumeration order. */
  lemma EnumerationFanOut<T, M>(order: seq<T>, s: set<T>, msg: M, t: T)
    requires Enumerates(order, s)
    ensures CountTo(FanOut(order, msg), t) == (if t in s then 1 else 0)
    ensures ReceivedBy(FanOut(order, msg), t) == (if t in s then [msg] else [])
  {
    FanOutCount(order, msg, t);
    FanOutCarries(order, msg, t);
    NoDupMultiplicity(order, t);
    var r := ReceivedBy(FanOut(order, msg), t);
    if t in s {
      assert r[0] in r;
    }
  }

  /** An enumeration of a set is as long as the set is large. */
  lemma EnumerationSize<X>(order: seq<X>, s: set<X>)
    requires Enumerates(order, s)
    ensures |order| == |s|
  {
    var m := multiset(order);
    forall x ensures m[x] == (if x in s then 1 else 0) {
      NoDupMultiplicity(order, x);
    }
    assert m == multiset(s);
  }

  lemma {:induction false} NoDupMultiplicity<X>(xs: seq<X>, x: X)
    requires NoDup(xs)
    ensures multiset(xs)[x] == (if x in xs then 1 else 0)
  {
    if |xs| == 0 {
    } else {
      assert xs == [xs[0]] + xs[1..];
      assert multiset(xs) == multiset{xs[0]} + multiset(xs[1..]);
      assert NoDup(xs[1..]) by {
        forall i, j | 0 <= i < j < |xs[1..]| ensures xs[1..][i] != xs[1..][j] {
          assert xs[1..][i] == xs[i + 1] && xs[1..][j] == xs[j + 1];
        }
      }
      NoDupMultiplicity(xs[1..], x);
      if xs[0] == x {
        assert x !in xs[1..] by {
          forall k | 0 <= k < |xs[1..]| ensures xs[1..][k] != x {
            assert xs[1..][k] == xs[k + 1];
          }
        }
      }
    }
  }
}
