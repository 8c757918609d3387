/** Python's `list.sort(key=lambda x: x[1], reverse=...)` on a list of
    `(hop, score)` tuples, which the ranking policies call. CPython's sort is
    stable, also with `reverse=True`: elements with equal keys keep their
    original relative order. The model is an insertion sort, proved to sort,
    to permute and to be stable. */
module Sorting {
  import opened Common

  /** A `(hop, score)` tuple. */
  type Scored = (Node, Score)

  /** Key `a` may come before key `b`: `a <= b` ascending, `a >= b` with `reverse=True`. */
  predicate InOrder(descending: bool, a: Score, b: Score)
  {
    if descending then AtMost(b, a) else AtMost(a, b)
  }

  /** Every key is an ordinary float or infinity, never NaN. */
  predicate Comparable(s: seq<Scored>)
  {
    forall i :: 0 <= i < |s| ==> !s[i].1.NaN?
  }

  predicate SortedBy(s: seq<Scored>, descending: bool)
  {
    forall i, j :: 0 <= i < j < |s| ==> InOrder(descending, s[i].1, s[j].1)
  }

  /** The tuples whose key is `k`, in their order in `s`. */
  function WithKey(s: seq<Scored>, k: Score): (r: seq<Scored>)
    ensures |r| <= |s|
  {
    if s == [] then []
    else if s[0].1 == k then [s[0]] + WithKey(s[1..], k)
    else WithKey(s[1..], k)
  }

  /** The hops of a list of tuples: `[hop[0] for hop in s]`. */
  function Hops(s: seq<Scored>): (r: seq<Node>)
    ensures |r| == |s|
  {
    if s == [] then [] else [s[0].0] + Hops(s[1..])
  }

  lemma {:induction false} HopsAt(s: seq<Scored>, i: nat)
    requires i < |s|
    ensures Hops(s)[i] == s[i].0
  {
    if i > 0 {
      HopsAt(s[1..], i - 1);
    }
  }

  /** Puts `x` in front of the first tuple it may precede. */
  function Insert(x: Scored, s: seq<Scored>, descending: bool): (r: seq<Scored>)
    ensures multiset(r) == multiset(s) + multiset{x}
  {
    if s == [] then [x]
    else if InOrder(descending, x.1, s[0].1) then [x] + s
    else
      assert s == [s[0]] + s[1..];
      [s[0]] + Insert(x, s[1..], descending)
  }

  /** `s.sort(key=lambda x: x[1], reverse=descending)`. */
  function SortByScore(s: seq<Scored>, descending: bool): seq<Scored>
  {
    if s == [] then [] else Insert(s[0], SortByScore(s[1..], descending), descending)
  }

  /** The sorted list holds exactly the tuples of the input. */
  lemma {:induction false} SortPermutes(s: seq<Scored>, descending: bool)
    ensures multiset(SortByScore(s, descending)) == multiset(s)
  {
    if s != [] {
      SortPermutes(s[1..], descending);
      assert s == [s[0]] + s[1..];
    }
  }

  lemma {:induction false} InsertSorted(x: Scored, s: seq<Scored>, descending: bool)
    requires !x.1.NaN? && Comparable(s) && SortedBy(s, descending)
    ensures SortedBy(Insert(x, s, descending), descending)
  {
    if s != [] && !InOrder(descending, x.1, s[0].1) {
      var t := s[1..];
      assert Comparable(t) && SortedBy(t, descending) by {
        forall i | 0 <= i < |t| ensures t[i] == s[i + 1] { }
      }
      assert forall i :: 0 <= i < |t| ==> InOrder(descending, s[0].1, t[i].1) by {
        forall i | 0 <= i < |t| ensures InOrder(descending, s[0].1, t[i].1) {
          assert t[i] == s[i + 1];
        }
      }
      InsertSorted(x, t, descending);
      PrecedesInsert(s[0], x, t, descending);
      ConsSorted(s[0], Insert(x, t, descending), descending);
    }
  }

  /** A tuple that may precede `x` and every tuple of `t` may precede every
      tuple of `Insert(x, t)`. */
  lemma PrecedesInsert(y: Scored, x: Scored, t: seq<Scored>, descending: bool)
    requires !x.1.NaN? && !y.1.NaN? && !InOrder(descending, x.1, y.1)
    requires forall i :: 0 <= i < |t| ==> InOrder(descending, y.1, t[i].1)
    ensures forall i :: 0 <= i < |Insert(x, t, descending)| ==> InOrder(descending, y.1, Insert(x, t, descending)[i].1)
  {
    var r := Insert(x, t, descending);
    forall i | 0 <= i < |r| ensures InOrder(descending, y.1, r[i].1) {
      assert r[i] in multiset(r);
      if r[i] != x {
        assert r[i] in multiset(t);
        var k :| 0 <= k < |t| && t[k] == r[i];
      }
    }
  }

  /** A sorted list stays sorted under a head that may precede all of it. */
  lemma ConsSorted(y: Scored, r: seq<Scored>, descending: bool)
    requires SortedBy(r, descending)
    requires forall i :: 0 <= i < |r| ==> InOrder(descending, y.1, r[i].1)
    ensures SortedBy([y] + r, descending)
  {
    var w := [y] + r;
    forall i, j | 0 <= i < j < |w| ensures InOrder(descending, w[i].1, w[j].1) {
      assert w[j] == r[j - 1];
      if i > 0 {
        assert w[i] == r[i - 1];
      }
    }
  }

  /** The sorted list is in key order (ascending, or descending with `reverse=True`). */
  lemma {:induction false} SortSorts(s: seq<Scored>, descending: bool)
    requires Comparable(s)
    ensures SortedBy(SortByScore(s, descending), descending)
  {
    if s != [] {
      var t := s[1..];
      assert Comparable(t) by {
        forall i | 0 <= i < |t| ensures t[i] == s[i + 1] { }
      }
      SortSorts(t, descending);
      SortPermutes(t, descending);
      var u := SortByScore(t, descending);
      assert Comparable(u) by {
        forall i | 0 <= i < |u| ensures !u[i].1.NaN? {
          assert u[i] in multiset(u);
          var k :| 0 <= k < |t| && t[k] == u[i];
        }
      }
      InsertSorted(s[0], u, descending);
    }
  }

  lemma {:induction false} InsertStable(x: Scored, s: seq<Scored>, descending: bool, k: Score)
    requires !x.1.NaN?
    ensures WithKey(Insert(x, s, descending), k)
         == if x.1 == k then [x] + WithKey(s, k) else WithKey(s, k)
  {
    if s == [] {
    } else if InOrder(descending, x.1, s[0].1) {
      assert ([x] + s)[1..] == s;
    } else {
      // s[0] is strictly on the far side of x, so it does not share x's key
      assert s[0].1 != x.1;
      InsertStable(x, s[1..], descending, k);
      assert ([s[0]] + Insert(x, s[1..], descending))[1..] == Insert(x, s[1..], descending);
    }
  }

  /** Stability: for every key, the tuples with that key appear in the
      sorted list in the same order as in the input. */
  lemma {:induction false} SortStable(s: seq<Scored>, descending: bool, k: Score)
    requires Comparable(s)
    ensures WithKey(SortByScore(s, descending), k) == WithKey(s, k)
  {
    if s != [] {
      var t := s[1..];
      assert Comparable(t) by {
        forall i | 0 <= i < |t| ensures t[i] == s[i + 1] { }
      }
      SortStable(t, descending, k);
      InsertStable(s[0], SortByScore(t, descending), descending, k);
    }
  }

  /** The hops of the sorted list are the hops of the input, rearranged. */
  lemma {:induction false} HopsPermute(s: seq<Scored>, t: seq<Scored>)
    requires multiset(s) == multiset(t)
    ensures multiset(Hops(s)) == multiset(Hops(t))
  {
    if s != [] {
      var x := s[0];
      assert x in multiset(t);
      var k :| 0 <= k < |t| && t[k] == x;
      var t' := t[..k] + t[k + 1..];
      TailMultiset(s, t, k);
      HopsPermute(s[1..], t');
      HopsRemoveAt(t, k);
      assert Hops(s) == [x.0] + Hops(s[1..]);
    }
  }

  lemma TailMultiset(s: seq<Scored>, t: seq<Scored>, k: nat)
    requires s != [] && k < |t| && t[k] == s[0] && multiset(s) == multiset(t)
    ensures multiset(s[1..]) == multiset(t[..k] + t[k + 1..])
  {
    assert t == t[..k] + [t[k]] + t[k + 1..];
    assert s == [s[0]] + s[1..];
    assert multiset(t[..k] + t[k + 1..]) == multiset(t) - multiset{t[k]};
  }

  lemma HopsRemoveAt(t: seq<Scored>, k: nat)
    requires k < |t|
    ensures multiset(Hops(t)) == multiset(Hops(t[..k] + t[k + 1..])) + multiset{t[k].0}
  {
    SplitAt(t, k);
    HopsSplit(t[..k], t[k], t[k + 1..]);
  }

  /** Taking one tuple out of a list takes its hop out of the hops. */
  lemma HopsSplit(a: seq<Scored>, x: Scored, b: seq<Scored>)
    ensures multiset(Hops(a + [x] + b)) == multiset(Hops(a + b)) + multiset{x.0}
  {
    HopsAppend(a + [x], b);
    HopsAppend(a, [x]);
    HopsAppend(a, b);
    assert Hops([x]) == [x.0];
  }

  lemma {:induction false} HopsAppend(a: seq<Scored>, b: seq<Scored>)
    ensures Hops(a + b) == Hops(a) + Hops(b)
  {
    if a == [] {
      assert a + b == b;
    } else {
      HopsAppend(a[1..], b);
      assert (a + b)[0] == a[0] && (a + b)[1..] == a[1..] + b;
      calc {
        Hops(a + b);
        [a[0].0] + Hops(a[1..] + b);
        [a[0].0] + (Hops(a[1..]) + Hops(b));
        { AppendAssoc([a[0].0], Hops(a[1..]), Hops(b)); }
        ([a[0].0] + Hops(a[1..])) + Hops(b);
      }
    }
  }
}
