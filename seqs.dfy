/** Sequence helpers shared by the table models: an order-preserving filter
    (a boolean row mask) and the concatenation of a list of tables. */
module Seqs {
  /** The elements of s that satisfy keep, in their original order. */
  function Filter<T(!new)>(s: seq<T>, keep: T -> bool): (r: seq<T>)
    ensures |r| <= |s|
    ensures forall k :: 0 <= k < |r| ==> keep(r[k])
    ensures forall x :: x in r <==> x in s && keep(x)
  {
    if s == [] then []
    else
      var init := s[..|s| - 1];
      assert s == init + [s[|s| - 1]];
      Filter(init, keep) + (if keep(s[|s| - 1]) then [s[|s| - 1]] else [])
  }

  /** No element occurs twice. */
  predicate Distinct<T(==)>(s: seq<T>) {
    forall i, j :: 0 <= i < j < |s| ==> s[i] != s[j]
  }

  lemma DistinctSnoc<T>(a: seq<T>, x: T)
    requires Distinct(a) && x !in a
    ensures Distinct(a + [x])
  {
    forall i, j | 0 <= i < j < |a + [x]|
      ensures (a + [x])[i] != (a + [x])[j]
    {
      if j == |a| {
        assert (a + [x])[i] == a[i];
      } else {
        assert (a + [x])[i] == a[i] && (a + [x])[j] == a[j];
      }
    }
  }

  /** Filtering a sequence without repetitions gives one without repetitions. */
  lemma {:induction false} FilterDistinct<T(!new)>(s: seq<T>, keep: T -> bool)
    requires Distinct(s)
    ensures Distinct(Filter(s, keep))
    decreases |s|
  {
    if s != [] {
      var init, last := s[..|s| - 1], s[|s| - 1];
      assert forall i, j :: 0 <= i < j < |init| ==> init[i] == s[i] && init[j] == s[j];
      FilterDistinct(init, keep);
      if keep(last) {
        assert last !in init by {
          forall k | 0 <= k < |init| ensures init[k] != last {
            assert init[k] == s[k];
          }
        }
        DistinctSnoc(Filter(init, keep), last);
      } else {
        assert Filter(s, keep) == Filter(init, keep) + [];
      }
    }
  }

  lemma {:induction false} FilterConcat<T(!new)>(a: seq<T>, b: seq<T>, keep: T -> bool)
    ensures Filter(a + b, keep) == Filter(a, keep) + Filter(b, keep)
    decreases |b|
  {
    if b == [] {
      assert a + b == a;
    } else {
      var b', x := b[..|b| - 1], b[|b| - 1];
      var tail := if keep(x) then [x] else [];
      FilterConcat(a, b', keep);
      assert (a + b)[..|a + b| - 1] == a + b';
      assert Filter(a + b, keep) == Filter(a + b', keep) + tail;
      assert Filter(b, keep) == Filter(b', keep) + tail;
      assert Filter(a, keep) + Filter(b', keep) + tail == Filter(a, keep) + (Filter(b', keep) + tail);
    }
  }

  /** Filtering keeps everything when every element passes. */
  lemma {:induction false} FilterAll<T(!new)>(s: seq<T>, keep: T -> bool)
    requires forall k :: 0 <= k < |s| ==> keep(s[k])
    ensures Filter(s, keep) == s
    decreases |s|
  {
    if s != [] {
      FilterAll(s[..|s| - 1], keep);
    }
  }

  /** Filtering keeps nothing when no element passes. */
  lemma FilterNone<T(!new)>(s: seq<T>, keep: T -> bool)
    requires forall k :: 0 <= k < |s| ==> !keep(s[k])
    ensures Filter(s, keep) == []
  {
  }

  /** Filtering keeps exactly s[j] when it is the only element that passes. */
  lemma {:induction false} FilterSingle<T(!new)>(s: seq<T>, keep: T -> bool, j: nat)
    requires j < |s| && keep(s[j])
    requires forall i :: 0 <= i < |s| && i != j ==> !keep(s[i])
    ensures Filter(s, keep) == [s[j]]
    decreases |s|
  {
    var init := s[..|s| - 1];
    assert forall i :: 0 <= i < |init| ==> init[i] == s[i];
    if j == |s| - 1 {
      FilterNone(init, keep);
      assert Filter(s, keep) == Filter(init, keep) + [s[j]];
    } else {
      FilterSingle(init, keep, j);
      assert Filter(s, keep) == Filter(init, keep) + [];
    }
  }

  /** The tables of a list, concatenated in order. */
  function Concat<T(!new)>(parts: seq<seq<T>>): (r: seq<T>)
    ensures forall x :: x in r <==> exists j :: 0 <= j < |parts| && x in parts[j]
  {
    if parts == [] then []
    else
      var init := parts[..|parts| - 1];
      var r := Concat(init) + parts[|parts| - 1];
      assert forall x :: x in r <==> exists j :: 0 <= j < |parts| && x in parts[j] by {
        forall x ensures x in r <==> exists j :: 0 <= j < |parts| && x in parts[j] {
          if x in Concat(init) {
            var j :| 0 <= j < |init| && x in init[j];
            assert parts[j] == init[j];
          }
          if exists j :: 0 <= j < |parts| && x in parts[j] {
            var j :| 0 <= j < |parts| && x in parts[j];
            if j < |init| { assert init[j] == parts[j]; }
          }
        }
      }
      r
  }

  function SumLengths<T(!new)>(parts: seq<seq<T>>): nat
  {
    if parts == [] then 0 else SumLengths(parts[..|parts| - 1]) + |parts[|parts| - 1]|
  }

  /** The concatenation is as long as all the tables together. */
  lemma {:induction false} ConcatLength<T(!new)>(parts: seq<seq<T>>)
    ensures |Concat(parts)| == SumLengths(parts)
  {
    if parts != [] {
      ConcatLength(parts[..|parts| - 1]);
    }
  }

  lemma ConcatSnoc<T(!new)>(parts: seq<seq<T>>, last: seq<T>)
    ensures Concat(parts + [last]) == Concat(parts) + last
  {
    assert (parts + [last])[..|parts|] == parts;
  }
}
