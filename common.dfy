/** Values shared by every part of the routing simulator model: node names,
    directed edges, optional values, distances and flow values that may be
    infinite, and Python float scores (which may be infinite or NaN). */
module Common {

  /** Router / topology node names. The simulator accepts `str | int`; the
      model uses integers, which also gives the total order that Python's
      `sorted` needs on edge tuples. */
  type Node = int

  /** A directed edge (tail, head), as a Python tuple `(u, v)`. */
  type Edge = (Node, Node)

  datatype Option<+T> = None | Some(value: T)

  /** A shortest-path length or a flow value: a natural number or `float('inf')`. */
  datatype ENat = Fin(n: nat) | Inf

  /** A Python float as the routing policies use it. */
  datatype Score = NegInf | Real(r: real) | PosInf | NaN

  /** Python's `a > b` on floats: false whenever either side is NaN. */
  predicate Greater(a: Score, b: Score)
  {
    match (a, b)
    case (NaN, _) => false
    case (_, NaN) => false
    case (NegInf, _) => false
    case (Real(x), NegInf) => true
    case (Real(x), Real(y)) => x > y
    case (Real(_), PosInf) => false
    case (PosInf, PosInf) => false
    case (PosInf, _) => true
  }

  /** Python's `a <= b` on floats. */
  predicate AtMost(a: Score, b: Score)
  {
    !a.NaN? && !b.NaN? && !Greater(a, b)
  }

  /** `a > b` is a strict order: transitive (NaN is never related). */
  lemma GreaterTransitive(a: Score, b: Score, c: Score)
    requires Greater(a, b) && Greater(b, c)
    ensures Greater(a, c)
  {
  }

  /** Python's `k * s` for a finite real `k`; `0 * inf` is NaN. */
  function Times(k: real, s: Score): (r: Score)
    ensures s.Real? ==> r == Real(k * s.r)
    ensures s.NaN? || (k == 0.0 && !s.Real?) ==> r.NaN?
  {
    match s
    case Real(_) => Real(k * s.r)
    case NaN => NaN
    case PosInf => if k > 0.0 then PosInf else if k < 0.0 then NegInf else NaN
    case NegInf => if k > 0.0 then NegInf else if k < 0.0 then PosInf else NaN
  }

  /** Python's `a + b` on floats; `inf + -inf` is NaN. */
  function Plus(a: Score, b: Score): (r: Score)
    ensures a.Real? && b.Real? ==> r == Real(a.r + b.r)
    ensures a.NaN? || b.NaN? ==> r.NaN?
  {
    match (a, b)
    case (NaN, _) => NaN
    case (_, NaN) => NaN
    case (Real(x), Real(y)) => Real(x + y)
    case (PosInf, NegInf) => NaN
    case (NegInf, PosInf) => NaN
    case (PosInf, _) => PosInf
    case (_, PosInf) => PosInf
    case (NegInf, _) => NegInf
    case (_, NegInf) => NegInf
  }

  /** A distance or flow value as a float. */
  function AsScore(x: ENat): (r: Score)
    ensures x.Inf? <==> r.PosInf?
  {
    match x
    case Fin(n) => Real(n as real)
    case Inf => PosInf
  }

  /** No element occurs twice. */
  predicate Distinct<T(==)>(s: seq<T>)
  {
    forall i, j :: 0 <= i < j < |s| ==> s[i] != s[j]
  }

  function Last<T>(s: seq<T>): T
    requires s != []
  {
    s[|s| - 1]
  }

  /** The elements of a sequence, as a set. */
  function Elements<T>(s: seq<T>): set<T>
  {
    set x | x in s
  }

  /** A duplicate-free sequence drawn from a finite set is no longer than the set. */
  lemma {:induction false} DistinctWithin<T>(s: seq<T>, u: set<T>)
    requires Distinct(s)
    requires forall i :: 0 <= i < |s| ==> s[i] in u
    ensures |s| <= |u|
  {
    if s != [] {
      var x := s[|s| - 1];
      var rest := s[..|s| - 1];
      assert x !in rest by {
        forall i | 0 <= i < |rest| ensures rest[i] != x {
          assert rest[i] == s[i];
        }
      }
      assert forall i :: 0 <= i < |rest| ==> rest[i] in u - {x} by {
        forall i | 0 <= i < |rest| ensures rest[i] in u - {x} {
          assert rest[i] == s[i];
        }
      }
      DistinctWithin(rest, u - {x});
    }
  }

  /** Removing an element that is still outside `b` shrinks `u - b` by one. */
  lemma GrowShrinks<T>(u: set<T>, b: set<T>, a: set<T>, x: T)
    requires b <= a && x in u && x in a && x !in b
    ensures |u - a| < |u - b|
  {
    assert u - a <= (u - b) - {x};
    SubsetCard(u - a, (u - b) - {x});
  }

  lemma {:induction false} SubsetCard<T>(a: set<T>, b: set<T>)
    requires a <= b
    ensures |a| <= |b|
  {
    if a != {} {
      var x :| x in a;
      SubsetCard(a - {x}, b - {x});
    }
  }

  lemma DistinctTail<T>(s: seq<T>)
    requires s != [] && Distinct(s)
    ensures s[0] !in s[1..] && Distinct(s[1..])
  {
    forall j | 0 <= j < |s[1..]| ensures s[1..][j] != s[0] {
      assert s[1..][j] == s[j + 1];
    }
  }

  /** In a duplicate-free sequence every element occurs once. */
  lemma {:induction false} DistinctOnce<T>(s: seq<T>, x: T)
    requires Distinct(s)
    ensures multiset(s)[x] <= 1
  {
    if s != [] {
      DistinctTail(s);
      DistinctOnce(s[1..], x);
      assert s == [s[0]] + s[1..];
      if x == s[0] {
        assert x !in multiset(s[1..]);
      }
    }
  }

  /** A rearrangement of a duplicate-free sequence is duplicate-free. */
  lemma DistinctPermutation<T>(s: seq<T>, t: seq<T>)
    requires Distinct(s) && multiset(s) == multiset(t)
    ensures Distinct(t)
  {
    forall i, j | 0 <= i < j < |t| ensures t[i] != t[j] {
      DistinctOnce(s, t[i]);
      RepeatCounted(t, i, j);
    }
  }

  lemma RepeatCounted<T>(t: seq<T>, i: nat, j: nat)
    requires i < j < |t|
    ensures t[i] == t[j] ==> multiset(t)[t[i]] >= 2
  {
    assert t == t[..j] + [t[j]] + t[j + 1..];
    assert t[i] in multiset(t[..j]);
  }

  /** A sequence is its prefix, one element and its suffix. */
  lemma SplitAt<T>(t: seq<T>, k: nat)
    requires k < |t|
    ensures t == t[..k] + [t[k]] + t[k + 1..]
  {
  }

  /** Concatenation is associative. */
  lemma AppendAssoc<T>(a: seq<T>, b: seq<T>, c: seq<T>)
    ensures (a + b) + c == a + (b + c)
  {
  }

  lemma ElementsAppend<T>(s: seq<T>, x: T)
    ensures Elements(s + [x]) == Elements(s) + {x}
  {
  }

  /** A duplicate-free sequence has as many elements as its set. */
  lemma {:induction false} DistinctCard<T>(s: seq<T>)
    requires Distinct(s)
    ensures |Elements(s)| == |s|
  {
    if s != [] {
      var rest := s[..|s| - 1];
      assert s == rest + [Last(s)];
      assert Distinct(rest) by {
        forall i, j | 0 <= i < j < |rest| ensures rest[i] != rest[j] {
          assert rest[i] == s[i] && rest[j] == s[j];
        }
      }
      assert Last(s) !in Elements(rest) by {
        forall i | 0 <= i < |rest| ensures rest[i] != Last(s) {
          assert rest[i] == s[i];
        }
      }
      DistinctCard(rest);
      ElementsAppend(rest, Last(s));
    }
  }
}
