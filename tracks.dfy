/**
 * Per-track resampling (modelo.py, and its single-track copy in visualizacion.py):
 * fixes are sorted by date, their depth codes parsed, their positions projected to
 * planar coordinates, duplicate elapsed times dropped (first kept), missing depths
 * forward- then backward-filled, and the series resampled onto a six-hour grid over
 * [min t, max t): positions by linear interpolation, depth by nearest knot, rounded
 * and clipped to the classes 0..3.
 */
module Tracks {
  import opened Wrappers
  import Numerals

  /** The resampling step: six hours, in seconds. */
  const Step: int := 6 * 3600

  /** One row of a track table: the parsed date in whole seconds, the geodetic
      position in degrees and the raw depth code of column `lc`. */
  datatype Fix = Fix(date: int, lon: real, lat: real, lc: string)

  /** The WGS84 <-> Web-Mercator transformer: forward maps (lon, lat) to (x, y),
      inverse maps (x, y) back.  Its arithmetic is not part of the model. */
  datatype Projection = Projection(forward: (real, real) -> (real, real), inverse: (real, real) -> (real, real))

  /** A projected fix: elapsed seconds since the first fix, planar position, parsed depth. */
  datatype Knot = Knot(t: int, x: real, y: real, depth: Option<int>)

  /** A resampled point before the inverse projection. */
  datatype PlanarSample = PlanarSample(t: int, x: real, y: real, depth: int)

  /** A resampled point in geodetic coordinates. */
  datatype GeoSample = GeoSample(t: int, lon: real, lat: real, depth: int)

  /** A row of one shark's trajectory table: t_s, lon, lat, Profundidad, id_tiburon, year. */
  datatype Point = Point(t: int, lon: real, lat: real, depth: int, id: string, year: int)

  datatype TrackError = SourceUnavailable | InsufficientSamples

  // ----- sorting by date -----

  predicate SortedByDate(s: seq<Fix>) {
    forall i, j :: 0 <= i < j < |s| ==> s[i].date <= s[j].date
  }

  /** Inserts f after every fix whose date is not later than f's. */
  function InsertByDate(f: Fix, s: seq<Fix>): (r: seq<Fix>)
    requires SortedByDate(s)
    ensures |r| == |s| + 1
    ensures SortedByDate(r)
    ensures forall x :: x in r <==> x == f || x in s
  {
    if s == [] || f.date < s[0].date then
      InsertFront(f, s);
      [f] + s
    else
      var rest := InsertByDate(f, s[1..]);
      InsertBehind(f, s, rest);
      [s[0]] + rest
  }

  lemma InsertFront(f: Fix, s: seq<Fix>)
    requires SortedByDate(s) && (s == [] || f.date < s[0].date)
    ensures SortedByDate([f] + s)
  {
    forall x | x in s
      ensures f.date <= x.date
    {
      var k :| 0 <= k < |s| && s[k] == x;
      assert s[0].date <= s[k].date;
    }
    ConsSorted(f, s);
  }

  lemma InsertBehind(f: Fix, s: seq<Fix>, rest: seq<Fix>)
    requires SortedByDate(s) && s != [] && s[0].date <= f.date
    requires SortedByDate(rest) && forall x :: x in rest <==> x == f || x in s[1..]
    ensures SortedByDate([s[0]] + rest)
    ensures forall x :: x in [s[0]] + rest <==> x == f || x in s
  {
    assert s == [s[0]] + s[1..];
    forall x | x in rest
      ensures s[0].date <= x.date
    {
      if x != f {
        var m :| 0 <= m < |s[1..]| && s[1..][m] == x;
        assert s[m + 1] == x;
        assert s[0].date <= s[m + 1].date;
      }
    }
    ConsSorted(s[0], rest);
  }

  lemma ConsSorted(a: Fix, s: seq<Fix>)
    requires SortedByDate(s)
    requires forall x :: x in s ==> a.date <= x.date
    ensures SortedByDate([a] + s)
  {
    forall i, j | 0 <= i < j < |[a] + s|
      ensures ([a] + s)[i].date <= ([a] + s)[j].date
    {
      assert ([a] + s)[j] == s[j - 1];
      if i > 0 {
        assert ([a] + s)[i] == s[i - 1];
      } else {
        assert s[j - 1] in s;
      }
    }
  }

  /** sort_values("date"): the fixes in date order (a permutation: SortPermutes). */
  function SortByDate(s: seq<Fix>): (r: seq<Fix>)
    ensures |r| == |s|
    ensures SortedByDate(r)
    ensures forall x :: x in r <==> x in s
  {
    if s == [] then []
    else
      assert s == s[..|s| - 1] + [s[|s| - 1]];
      InsertByDate(s[|s| - 1], SortByDate(s[..|s| - 1]))
  }

  /** Inserting adds exactly one copy of f. */
  lemma {:induction false} InsertPermutes(f: Fix, s: seq<Fix>)
    requires SortedByDate(s)
    ensures multiset(InsertByDate(f, s)) == multiset(s) + multiset{f}
    decreases |s|
  {
    if s != [] && f.date >= s[0].date {
      InsertPermutes(f, s[1..]);
      assert s == [s[0]] + s[1..];
    }
  }

  /** The sorted table holds the same fixes, each as often as before. */
  lemma {:induction false} SortPermutes(s: seq<Fix>)
    ensures multiset(SortByDate(s)) == multiset(s)
    decreases |s|
  {
    if s != [] {
      SortPermutes(s[..|s| - 1]);
      SortStep(s);
      MultisetSnoc(s);
    }
  }

  lemma MultisetSnoc(s: seq<Fix>)
    requires s != []
    ensures multiset(s) == multiset(s[..|s| - 1]) + multiset{s[|s| - 1]}
  {
    assert s == s[..|s| - 1] + [s[|s| - 1]];
  }

  lemma SortStep(s: seq<Fix>)
    requires s != []
    ensures multiset(SortByDate(s)) == multiset(SortByDate(s[..|s| - 1])) + multiset{s[|s| - 1]}
  {
    var sorted := SortByDate(s[..|s| - 1]);
    InsertPermutes(s[|s| - 1], sorted);
    assert SortByDate(s) == InsertByDate(s[|s| - 1], sorted);
  }

  function EarliestDate(s: seq<Fix>): (m: int)
    requires |s| > 0
    ensures forall i :: 0 <= i < |s| ==> m <= s[i].date
    ensures exists i :: 0 <= i < |s| && s[i].date == m
  {
    if |s| == 1 then s[0].date
    else
      var m := EarliestDate(s[1..]);
      if s[0].date <= m then s[0].date else m
  }

  function LatestDate(s: seq<Fix>): (m: int)
    requires |s| > 0
    ensures forall i :: 0 <= i < |s| ==> s[i].date <= m
    ensures exists i :: 0 <= i < |s| && s[i].date == m
  {
    if |s| == 1 then s[0].date
    else
      var m := LatestDate(s[1..]);
      if s[0].date >= m then s[0].date else m
  }

  /** The fixes hold at least two different dates. */
  predicate HasTwoDates(s: seq<Fix>) {
    exists i, j :: 0 <= i < |s| && 0 <= j < |s| && s[i].date != s[j].date
  }

  lemma TwoDatesIffSpread(s: seq<Fix>)
    requires |s| > 0
    ensures HasTwoDates(s) <==> EarliestDate(s) < LatestDate(s)
  {
    if EarliestDate(s) < LatestDate(s) {
      var i :| 0 <= i < |s| && s[i].date == EarliestDate(s);
      var j :| 0 <= j < |s| && s[j].date == LatestDate(s);
      assert s[i].date != s[j].date;
    }
  }

  /** After the sort, the first and last fixes carry the earliest and latest dates. */
  lemma SortedEnds(s: seq<Fix>)
    requires |s| > 0
    ensures |SortByDate(s)| == |s|
    ensures SortByDate(s)[0].date == EarliestDate(s)
    ensures SortByDate(s)[|s| - 1].date == LatestDate(s)
  {
    var p := SortByDate(s);
    SortedFirst(s, p);
    SortedLast(s, p);
  }

  lemma SortedFirst(s: seq<Fix>, p: seq<Fix>)
    requires |s| > 0 && |p| == |s| && SortedByDate(p) && forall x :: x in p <==> x in s
    ensures p[0].date == EarliestDate(s)
  {
    var e := EarliestDate(s);
    var i :| 0 <= i < |s| && s[i].date == e;
    assert s[i] in s;
    var a :| 0 <= a < |p| && p[a] == s[i];
    assert p[0].date <= p[a].date;
    assert p[0] in p;
    var a' :| 0 <= a' < |s| && s[a'] == p[0];
    assert e <= s[a'].date;
  }

  lemma SortedLast(s: seq<Fix>, p: seq<Fix>)
    requires |s| > 0 && |p| == |s| && SortedByDate(p) && forall x :: x in p <==> x in s
    ensures p[|p| - 1].date == LatestDate(s)
  {
    var l := LatestDate(s);
    var j :| 0 <= j < |s| && s[j].date == l;
    assert s[j] in s;
    var b :| 0 <= b < |p| && p[b] == s[j];
    assert p[b].date <= p[|p| - 1].date;
    assert p[|p| - 1] in p;
    var b' :| 0 <= b' < |s| && s[b'] == p[|p| - 1];
    assert s[b'].date <= l;
  }

  // ----- projection, elapsed time and duplicate removal -----

  /** Parses each depth code, projects each position and measures time from t0. */
  function ToKnots(p: Projection, s: seq<Fix>, t0: int): (r: seq<Knot>)
    ensures |r| == |s|
    ensures forall i :: 0 <= i < |s| ==> r[i].t == s[i].date - t0
    ensures forall i :: 0 <= i < |s| ==> (r[i].x, r[i].y) == p.forward(s[i].lon, s[i].lat)
    ensures forall i :: 0 <= i < |s| ==> r[i].depth == Numerals.ParseInt(s[i].lc)
  {
    seq(|s|, i requires 0 <= i < |s| =>
      var xy := p.forward(s[i].lon, s[i].lat);
      Knot(s[i].date - t0, xy.0, xy.1, Numerals.ParseInt(s[i].lc)))
  }

  function Times(ks: seq<Knot>): seq<int> { seq(|ks|, i requires 0 <= i < |ks| => ks[i].t) }
  function Xs(ks: seq<Knot>): seq<real> { seq(|ks|, i requires 0 <= i < |ks| => ks[i].x) }
  function Ys(ks: seq<Knot>): seq<real> { seq(|ks|, i requires 0 <= i < |ks| => ks[i].y) }
  function Depths(ks: seq<Knot>): seq<Option<int>> { seq(|ks|, i requires 0 <= i < |ks| => ks[i].depth) }

  function TimeSet(ks: seq<Knot>): set<int> { set i | 0 <= i < |ks| :: ks[i].t }

  predicate Nondecreasing(ks: seq<Knot>) {
    forall i, j :: 0 <= i < j < |ks| ==> ks[i].t <= ks[j].t
  }

  predicate StrictlyIncreasing(ts: seq<int>) {
    forall i, j :: 0 <= i < j < |ts| ==> ts[i] < ts[j]
  }

  lemma TimeSetCons(x: Knot, s: seq<Knot>)
    ensures TimeSet([x] + s) == {x.t} + TimeSet(s)
  {
    var b := [x] + s;
    forall t | t in TimeSet(b)
      ensures t in {x.t} + TimeSet(s)
    {
      var i :| 0 <= i < |b| && b[i].t == t;
      if i > 0 { assert b[i] == s[i - 1]; }
    }
    forall t | t in TimeSet(s)
      ensures t in TimeSet(b)
    {
      var i :| 0 <= i < |s| && s[i].t == t;
      assert b[i + 1] == s[i];
    }
    assert x.t == b[0].t;
  }

  /** drop_duplicates(subset="t_s"): keeps the first knot of every elapsed time. */
  function DropDuplicateTimes(ks: seq<Knot>): seq<Knot>
  {
    DedupFrom(ks, {})
  }

  /** The scan behind DropDuplicateTimes: drops every knot whose time is in seen
      or was kept before. */
  function DedupFrom(ks: seq<Knot>, seen: set<int>): seq<Knot>
  {
    if ks == [] then []
    else if ks[0].t in seen then DedupFrom(ks[1..], seen)
    else [ks[0]] + DedupFrom(ks[1..], seen + {ks[0].t})
  }

  /** The scan keeps knots of the input whose times were not seen, every such
      time, and each only once. */
  lemma {:induction false} DedupFromFacts(ks: seq<Knot>, seen: set<int>)
    ensures var r := DedupFrom(ks, seen);
      && (forall k :: 0 <= k < |r| ==> r[k] in ks && r[k].t !in seen)
      && TimeSet(r) == TimeSet(ks) - seen
      && (forall i, j :: 0 <= i < j < |r| ==> r[i].t != r[j].t)
    decreases |ks|
  {
    if ks != [] {
      var x, tail := ks[0], ks[1..];
      assert ks == [x] + tail;
      TimeSetCons(x, tail);
      if x.t in seen {
        DedupFromFacts(tail, seen);
      } else {
        var rest := DedupFrom(tail, seen + {x.t});
        DedupFromFacts(tail, seen + {x.t});
        TimeSetCons(x, rest);
        KeptFacts(x, tail, seen, rest);
        assert DedupFrom(ks, seen) == [x] + rest;
      }
    }
  }

  lemma KeptFacts(x: Knot, tail: seq<Knot>, seen: set<int>, rest: seq<Knot>)
    requires x.t !in seen
    requires forall k :: 0 <= k < |rest| ==> rest[k] in tail && rest[k].t !in seen + {x.t}
    requires forall i, j :: 0 <= i < j < |rest| ==> rest[i].t != rest[j].t
    ensures var r := [x] + rest;
      && (forall k :: 0 <= k < |r| ==> r[k] in [x] + tail && r[k].t !in seen)
      && (forall i, j :: 0 <= i < j < |r| ==> r[i].t != r[j].t)
  {
    var r := [x] + rest;
    forall k | 0 <= k < |r|
      ensures r[k] in [x] + tail && r[k].t !in seen
    {
      if k > 0 { assert r[k] == rest[k - 1]; }
    }
    forall i, j | 0 <= i < j < |r|
      ensures r[i].t != r[j].t
    {
      assert r[j] == rest[j - 1];
      if i > 0 { assert r[i] == rest[i - 1]; }
    }
  }

  /** The duplicate removal keeps every elapsed time, and each only once. */
  lemma DedupTimes(ks: seq<Knot>)
    ensures TimeSet(DropDuplicateTimes(ks)) == TimeSet(ks)
    ensures var r := DropDuplicateTimes(ks);
      forall i, j :: 0 <= i < j < |r| ==> r[i].t != r[j].t
  {
    DedupFromFacts(ks, {});
  }

  /** A kept knot comes from the input, and no earlier knot has its time. */
  lemma {:induction false} DedupFromKeepsFirst(ks: seq<Knot>, seen: set<int>, k: nat)
    requires k < |DedupFrom(ks, seen)|
    ensures exists i :: (0 <= i < |ks| && DedupFrom(ks, seen)[k] == ks[i]
      && ks[i].t !in seen && ks[i].t !in TimeSet(ks[..i]))
    decreases |ks|
  {
    var x, tail := ks[0], ks[1..];
    if x.t in seen {
      DedupFromKeepsFirst(tail, seen, k);
      var i :| 0 <= i < |tail| && DedupFrom(tail, seen)[k] == tail[i]
        && tail[i].t !in seen && tail[i].t !in TimeSet(tail[..i]);
      assert ks[..i + 1] == [x] + tail[..i];
      TimeSetCons(x, tail[..i]);
      assert ks[i + 1] == tail[i];
    } else if k == 0 {
      assert ks[..0] == [];
      assert DedupFrom(ks, seen)[0] == ks[0];
    } else {
      var rest := DedupFrom(tail, seen + {x.t});
      assert DedupFrom(ks, seen)[k] == rest[k - 1];
      DedupFromKeepsFirst(tail, seen + {x.t}, k - 1);
      var i :| 0 <= i < |tail| && rest[k - 1] == tail[i]
        && tail[i].t !in seen + {x.t} && tail[i].t !in TimeSet(tail[..i]);
      assert ks[..i + 1] == [x] + tail[..i];
      TimeSetCons(x, tail[..i]);
      assert ks[i + 1] == tail[i];
    }
  }

  /** The kept knot of each time is the first knot with that time. */
  lemma DedupKeepsFirst(ks: seq<Knot>, k: nat)
    requires k < |DropDuplicateTimes(ks)|
    ensures exists i :: 0 <= i < |ks| && DropDuplicateTimes(ks)[k] == ks[i] && ks[i].t !in TimeSet(ks[..i])
  {
    DedupFromKeepsFirst(ks, {}, k);
  }

  /** On time-sorted knots the scan yields strictly increasing times. */
  lemma {:induction false} DedupFromIncreases(ks: seq<Knot>, seen: set<int>)
    requires Nondecreasing(ks)
    ensures StrictlyIncreasing(Times(DedupFrom(ks, seen)))
    decreases |ks|
  {
    if ks != [] {
      var x, tail := ks[0], ks[1..];
      NondecreasingTail(ks);
      if x.t in seen {
        DedupFromIncreases(tail, seen);
      } else {
        var rest := DedupFrom(tail, seen + {x.t});
        DedupFromIncreases(tail, seen + {x.t});
        DedupFromFacts(tail, seen + {x.t});
        forall m | 0 <= m < |rest| ensures x.t < rest[m].t {
          var i :| 0 <= i < |tail| && tail[i] == rest[m];
          assert ks[i + 1] == tail[i];
        }
        ConsIncreases(x, rest);
        assert DedupFrom(ks, seen) == [x] + rest;
      }
    }
  }

  lemma NondecreasingTail(ks: seq<Knot>)
    requires ks != [] && Nondecreasing(ks)
    ensures Nondecreasing(ks[1..])
  {
    var tail := ks[1..];
    forall i, j | 0 <= i < j < |tail| ensures tail[i].t <= tail[j].t {
      assert tail[i] == ks[i + 1] && tail[j] == ks[j + 1];
    }
  }

  lemma ConsIncreases(x: Knot, rest: seq<Knot>)
    requires StrictlyIncreasing(Times(rest))
    requires forall m :: 0 <= m < |rest| ==> x.t < rest[m].t
    ensures StrictlyIncreasing(Times([x] + rest))
  {
    var r := [x] + rest;
    forall a, b | 0 <= a < b < |r| ensures Times(r)[a] < Times(r)[b] {
      assert Times(r)[b] == rest[b - 1].t;
      if a > 0 {
        assert Times(r)[a] == rest[a - 1].t;
        assert Times(rest)[a - 1] == rest[a - 1].t && Times(rest)[b - 1] == rest[b - 1].t;
      }
    }
  }

  lemma DedupOfSortedIncreases(ks: seq<Knot>)
    requires Nondecreasing(ks)
    ensures StrictlyIncreasing(Times(DropDuplicateTimes(ks)))
  {
    DedupFromIncreases(ks, {});
  }

  /** On sorted knots, duplicate removal keeps the first and the last elapsed time. */
  lemma DedupEnds(ks: seq<Knot>)
    requires |ks| > 0 && Nondecreasing(ks)
    ensures |DropDuplicateTimes(ks)| > 0
    ensures DropDuplicateTimes(ks)[0].t == ks[0].t
    ensures DropDuplicateTimes(ks)[|DropDuplicateTimes(ks)| - 1].t == ks[|ks| - 1].t
  {
    var r := DropDuplicateTimes(ks);
    DedupOfSortedIncreases(ks);
    DedupTimes(ks);
    assert ks[0].t in TimeSet(ks) && ks[|ks| - 1].t in TimeSet(ks);
    assert |r| > 0;
    assert r[0].t in TimeSet(ks) && r[|r| - 1].t in TimeSet(ks);
    var a :| 0 <= a < |r| && r[a].t == ks[0].t;
    var b :| 0 <= b < |r| && r[b].t == ks[|ks| - 1].t;
    assert Times(r)[0] == r[0].t && Times(r)[a] == r[a].t;
    assert Times(r)[b] == r[b].t && Times(r)[|r| - 1] == r[|r| - 1].t;
  }

  // ----- depth filling: ffill() then bfill() -----

  function FFillFrom(s: seq<Option<int>>, carry: Option<int>): (r: seq<Option<int>>)
    ensures |r| == |s|
  {
    if s == [] then []
    else
      var c := if s[0].Some? then s[0] else carry;
      [c] + FFillFrom(s[1..], c)
  }

  function FFill(s: seq<Option<int>>): (r: seq<Option<int>>)
    ensures |r| == |s|
  {
    FFillFrom(s, None)
  }

  function BFill(s: seq<Option<int>>): (r: seq<Option<int>>)
    ensures |r| == |s|
  {
    if s == [] then []
    else
      var rest := BFill(s[1..]);
      [if s[0].Some? then s[0] else if rest == [] then None else rest[0]] + rest
  }

  /** depth.ffill().bfill() */
  function FillDepths(s: seq<Option<int>>): (r: seq<Option<int>>)
    ensures |r| == |s|
  {
    BFill(FFill(s))
  }

  lemma {:induction false} FFillPresent(s: seq<Option<int>>, carry: Option<int>, i: nat)
    requires i < |s| && s[i].Some?
    ensures FFillFrom(s, carry)[i] == s[i]
  {
    if i > 0 {
      FFillPresent(s[1..], if s[0].Some? then s[0] else carry, i - 1);
    }
  }

  lemma {:induction false} FFillLeading(s: seq<Option<int>>, carry: Option<int>, i: nat)
    requires i < |s| && forall k :: 0 <= k <= i ==> s[k].None?
    ensures FFillFrom(s, carry)[i] == carry
  {
    if i > 0 {
      FFillLeading(s[1..], carry, i - 1);
    }
  }

  lemma {:induction false} FFillGap(s: seq<Option<int>>, carry: Option<int>, j: nat, i: nat)
    requires j < i < |s| && s[j].Some?
    requires forall k :: j < k <= i ==> s[k].None?
    ensures FFillFrom(s, carry)[i] == s[j]
  {
    if j == 0 {
      FFillLeading(s[1..], s[0], i - 1);
    } else {
      FFillGap(s[1..], if s[0].Some? then s[0] else carry, j - 1, i - 1);
    }
  }

  lemma {:induction false} BFillPresent(s: seq<Option<int>>, i: nat)
    requires i < |s| && s[i].Some?
    ensures BFill(s)[i] == s[i]
  {
    if i > 0 {
      BFillPresent(s[1..], i - 1);
    }
  }

  lemma {:induction false} BFillGap(s: seq<Option<int>>, i: nat, j: nat)
    requires i < j < |s| && s[j].Some?
    requires forall k :: i <= k < j ==> s[k].None?
    ensures BFill(s)[i] == s[j]
  {
    if i > 0 {
      BFillGap(s[1..], i - 1, j - 1);
    } else if j == 1 {
      BFillPresent(s[1..], 0);
    } else {
      BFillGap(s[1..], 0, j - 1);
    }
  }

  lemma {:induction false} BFillTrailing(s: seq<Option<int>>, i: nat)
    requires i < |s| && forall k :: i <= k < |s| ==> s[k].None?
    ensures BFill(s)[i] == None
  {
    if i > 0 {
      BFillTrailing(s[1..], i - 1);
    } else if |s| > 1 {
      BFillTrailing(s[1..], 0);
    }
  }

  /** Present depths are kept as they are. */
  lemma FillKeepsPresent(s: seq<Option<int>>, i: nat)
    requires i < |s| && s[i].Some?
    ensures FillDepths(s)[i] == s[i]
  {
    FFillPresent(s, None, i);
    BFillPresent(FFill(s), i);
  }

  /** A gap after a present depth takes the nearest earlier present depth. */
  lemma FillFromEarlier(s: seq<Option<int>>, j: nat, i: nat)
    requires j < i < |s| && s[j].Some?
    requires forall k :: j < k <= i ==> s[k].None?
    ensures FillDepths(s)[i] == s[j]
  {
    FFillGap(s, None, j, i);
    BFillPresent(FFill(s), i);
  }

  /** Leading gaps take the first present depth. */
  lemma FillLeadingFromFirst(s: seq<Option<int>>, i: nat, j: nat)
    requires i < j < |s| && s[j].Some?
    requires forall k :: 0 <= k < j ==> s[k].None?
    ensures FillDepths(s)[i] == s[j]
  {
    var f := FFill(s);
    forall k | i <= k < j
      ensures f[k].None?
    {
      FFillLeading(s, None, k);
    }
    FFillPresent(s, None, j);
    BFillGap(f, i, j);
  }

  /** A series with no depth at all stays missing everywhere. */
  lemma FillAllMissing(s: seq<Option<int>>, i: nat)
    requires i < |s| && forall k :: 0 <= k < |s| ==> s[k].None?
    ensures FillDepths(s)[i] == None
  {
    var f := FFill(s);
    forall k | 0 <= k < |s|
      ensures f[k].None?
    {
      FFillLeading(s, None, k);
    }
    BFillTrailing(f, i);
  }
  /** A gap after the present depth s[j] is filled. */
  lemma {:induction false} FillSomeFrom(s: seq<Option<int>>, j: nat, i: nat)
    requires j <= i < |s| && s[j].Some?
    ensures FillDepths(s)[i].Some?
    decreases i - j
  {
    if forall k :: j < k <= i ==> s[k].None? {
      if j == i {
        FillKeepsPresent(s, i);
      } else {
        FillFromEarlier(s, j, i);
      }
    } else {
      var k :| j < k <= i && s[k].Some?;
      FillSomeFrom(s, k, i);
    }
  }

  /** A gap before the present depth s[j] is filled. */
  lemma {:induction false} FillSomeBefore(s: seq<Option<int>>, i: nat, j: nat)
    requires i < j < |s| && s[j].Some?
    ensures FillDepths(s)[i].Some?
    decreases j
  {
    if forall k :: 0 <= k < j ==> s[k].None? {
      FillLeadingFromFirst(s, i, j);
    } else {
      var k :| 0 <= k < j && s[k].Some?;
      if k <= i {
        FillSomeFrom(s, k, i);
      } else {
        FillSomeBefore(s, i, k);
      }
    }
  }

  /** After ffill().bfill() a depth is missing exactly when the series has no depth at all. */
  lemma FillMissingIffNoDepth(s: seq<Option<int>>, i: nat)
    requires i < |s|
    ensures FillDepths(s)[i].None? <==> forall k :: 0 <= k < |s| ==> s[k].None?
  {
    if forall k :: 0 <= k < |s| ==> s[k].None? {
      FillAllMissing(s, i);
    } else {
      var j :| 0 <= j < |s| && s[j].Some?;
      if j <= i {
        FillSomeFrom(s, j, i);
      } else {
        FillSomeBefore(s, i, j);
      }
    }
  }


  // ----- the time grid: np.arange(lo, hi, step) -----

  function Grid(lo: int, hi: int, step: int): (r: seq<int>)
    requires step > 0
    ensures forall k :: 0 <= k < |r| ==> r[k] == lo + k * step && r[k] < hi
    ensures lo < hi ==> |r| > 0 && hi <= lo + |r| * step
    ensures lo >= hi ==> r == []
    decreases hi - lo
  {
    if lo >= hi then [] else
      var rest := Grid(lo + step, hi, step);
      GridCons(lo, hi, step, rest);
      [lo] + rest
  }

  /** One more grid point in front: the closed form of the recursion in Grid. */
  lemma GridCons(lo: int, hi: int, step: int, rest: seq<int>)
    requires step > 0 && lo < hi
    requires forall k :: 0 <= k < |rest| ==> rest[k] == lo + step + k * step && rest[k] < hi
    requires lo + step < hi ==> hi <= lo + step + |rest| * step
    requires lo + step >= hi ==> rest == []
    ensures forall k :: 0 <= k < |rest| + 1 ==> ([lo] + rest)[k] == lo + k * step && ([lo] + rest)[k] < hi
    ensures hi <= lo + (|rest| + 1) * step
  {
    forall k | 0 <= k < |rest| + 1
      ensures ([lo] + rest)[k] == lo + k * step && ([lo] + rest)[k] < hi
    {
      if k > 0 {
        assert ([lo] + rest)[k] == rest[k - 1];
        assert (k - 1) * step + step == k * step;
      }
    }
    assert |rest| * step + step == (|rest| + 1) * step;
  }

  lemma {:induction false} MulLess(i: int, j: int, step: int)
    requires i < j && step > 0
    ensures i * step < j * step
    decreases j - i
  {
    if j == i + 1 {
      assert j * step == i * step + step;
    } else {
      MulLess(i, j - 1, step);
      assert j * step == (j - 1) * step + step;
    }
  }

  lemma GridIncreases(lo: int, hi: int, step: int)
    requires step > 0
    ensures StrictlyIncreasing(Grid(lo, hi, step))
  {
    var g := Grid(lo, hi, step);
    forall i, j | 0 <= i < j < |g|
      ensures g[i] < g[j]
    {
      assert g[i] == lo + i * step && g[j] == lo + j * step;
      MulLess(i, j, step);
    }
  }

  /** Every multiple of the step strictly below hi is on the grid. */
  lemma GridComplete(lo: int, hi: int, step: int, k: nat)
    requires step > 0 && lo + k * step < hi
    ensures k < |Grid(lo, hi, step)| && Grid(lo, hi, step)[k] == lo + k * step
  {
  }

  // ----- interpolation: interp1d(kind="linear"/"nearest", fill_value="extrapolate") -----

  /** np.searchsorted(ts, q, side="left") from index i: the first index whose time is not below q. */
  function SearchLeft(ts: seq<int>, q: int, i: nat): (r: nat)
    requires i <= |ts|
    ensures i <= r <= |ts|
    ensures forall k :: i <= k < r ==> ts[k] < q
    ensures r < |ts| ==> q <= ts[r]
    decreases |ts| - i
  {
    if i == |ts| || q <= ts[i] then i else SearchLeft(ts, q, i + 1)
  }

  function Clip(v: int, lo: int, hi: int): int
    requires lo <= hi
  {
    if v < lo then lo else if v > hi then hi else v
  }

  /** The straight line through (t0, v0) and (t1, v1), evaluated at q. */
  function Blend(t0: int, v0: real, t1: int, v1: real, q: int): real
    requires t0 < t1
  {
    (v1 - v0) / ((t1 - t0) as real) * ((q - t0) as real) + v0
  }

  /** Linear interpolation with extrapolation: the segment of the first knot not
      before q (clipped to [1, n-1]) and its predecessor. */
  function LinearAt(ts: seq<int>, vs: seq<real>, q: int): (r: real)
    requires 2 <= |ts| == |vs| && StrictlyIncreasing(ts)
    ensures forall i :: 0 <= i < |ts| - 1 && ts[i] < q <= ts[i + 1] ==>
      r == Blend(ts[i], vs[i], ts[i + 1], vs[i + 1], q)
    ensures q <= ts[0] ==> r == Blend(ts[0], vs[0], ts[1], vs[1], q)
    ensures ts[|ts| - 1] < q ==> r == Blend(ts[|ts| - 2], vs[|ts| - 2], ts[|ts| - 1], vs[|ts| - 1], q)
  {
    var hi := Clip(SearchLeft(ts, q, 0), 1, |ts| - 1);
    Blend(ts[hi - 1], vs[hi - 1], ts[hi], vs[hi], q)
  }

  /** Interpolation reproduces the observed value at every observed time. */
  lemma LinearAtKnot(ts: seq<int>, vs: seq<real>, k: nat)
    requires 2 <= |ts| == |vs| && StrictlyIncreasing(ts) && k < |ts|
    ensures LinearAt(ts, vs, ts[k]) == vs[k]
  {
    if k > 0 {
      var d := (ts[k] - ts[k - 1]) as real;
      assert (vs[k] - vs[k - 1]) / d * d == vs[k] - vs[k - 1];
    }
  }

  lemma BlendBetween(t0: int, v0: real, t1: int, v1: real, q: int)
    requires t0 < q <= t1
    ensures var r := Blend(t0, v0, t1, v1, q); (v0 <= r <= v1) || (v1 <= r <= v0)
  {
    var d := (t1 - t0) as real;
    var e := (q - t0) as real;
    var lambda := e / d;
    assert 0.0 < lambda <= 1.0;
    var delta := v1 - v0;
    assert delta / d * e == delta * lambda;
    assert delta - delta * lambda == delta * (1.0 - lambda);
    if delta >= 0.0 {
      assert delta * lambda >= 0.0;
      assert delta * (1.0 - lambda) >= 0.0;
    } else {
      assert delta * lambda <= 0.0;
      assert delta * (1.0 - lambda) <= 0.0;
    }
  }

  /** Between two adjacent knots the interpolated value lies between their values. */
  lemma LinearWithinSegment(ts: seq<int>, vs: seq<real>, i: nat, q: int)
    requires 2 <= |ts| == |vs| && StrictlyIncreasing(ts) && i + 1 < |ts|
    requires ts[i] <= q <= ts[i + 1]
    ensures var r := LinearAt(ts, vs, q);
      (vs[i] <= r <= vs[i + 1]) || (vs[i + 1] <= r <= vs[i])
  {
    if q == ts[i] {
      LinearAtKnot(ts, vs, i);
    } else {
      BlendBetween(ts[i], vs[i], ts[i + 1], vs[i + 1], q);
    }
  }

  /** Nearest-knot selection: the first knot whose midpoint with its successor is
      not below q (a query exactly on a midpoint takes the earlier knot). */
  function NearestFrom(ts: seq<int>, q: int, i: nat): (r: nat)
    requires i < |ts|
    ensures i <= r < |ts|
    ensures forall k :: i <= k < r ==> ts[k] + ts[k + 1] < 2 * q
    ensures r < |ts| - 1 ==> 2 * q <= ts[r] + ts[r + 1]
    decreases |ts| - i
  {
    if i == |ts| - 1 || 2 * q <= ts[i] + ts[i + 1] then i else NearestFrom(ts, q, i + 1)
  }

  function NearestIndex(ts: seq<int>, q: int): nat
    requires |ts| > 0
  {
    NearestFrom(ts, q, 0)
  }

  function Dist(a: int, b: int): nat { if a >= b then a - b else b - a }

  /** The chosen knot is a closest one, and strictly closer than every earlier knot. */
  lemma NearestIsClosest(ts: seq<int>, q: int, j: nat)
    requires |ts| > 0 && StrictlyIncreasing(ts) && j < |ts|
    ensures var n := NearestIndex(ts, q);
      Dist(q, ts[n]) <= Dist(q, ts[j]) && (j < n ==> Dist(q, ts[n]) < Dist(q, ts[j]))
  {
    var n := NearestIndex(ts, q);
    if j < n {
      assert ts[n - 1] + ts[n] < 2 * q;
      assert j == n - 1 || ts[j] < ts[n - 1];
    } else if n < j {
      assert 2 * q <= ts[n] + ts[n + 1];
      assert j == n + 1 || ts[n + 1] < ts[j];
    }
  }

  /** np.clip(np.round(z).astype(int), 0, 3).  A nearest-knot depth is a knot
      value, so rounding leaves it unchanged; a missing depth (NaN) casts to the
      most negative integer, which the clip raises to 0. */
  function DepthClass(z: Option<int>): (d: int)
    ensures 0 <= d <= 3
    ensures z.Some? && 0 <= z.value <= 3 ==> d == z.value
    ensures z.Some? && z.value > 3 ==> d == 3
    ensures (z.None? || z.value < 0) ==> d == 0
  {
    match z
    case None => 0
    case Some(v) => if v < 0 then 0 else if v > 3 then 3 else v
  }

  /** Resamples deduplicated knots onto the grid [t0, tmax) of step Step. */
  function ResampleKnots(ks: seq<Knot>): (r: seq<PlanarSample>)
    requires |ks| >= 2 && StrictlyIncreasing(Times(ks))
    ensures |r| > 0 && ks[|ks| - 1].t <= ks[0].t + |r| * Step
    ensures forall k :: 0 <= k < |r| ==>
      r[k].t == ks[0].t + k * Step && r[k].t < ks[|ks| - 1].t && 0 <= r[k].depth <= 3
  {
    var ts := Times(ks);
    var filled := FillDepths(Depths(ks));
    var grid := Grid(ts[0], ts[|ts| - 1], Step);
    seq(|grid|, k requires 0 <= k < |grid| =>
      PlanarSample(grid[k], LinearAt(ts, Xs(ks), grid[k]), LinearAt(ts, Ys(ks), grid[k]),
                   DepthClass(filled[NearestIndex(ts, grid[k])])))
  }

  /** Each resampled position is the linear interpolation of the knots at its time,
      and each depth class is the filled depth of a closest knot. */
  lemma ResampledValues(ks: seq<Knot>, k: nat)
    requires |ks| >= 2 && StrictlyIncreasing(Times(ks)) && k < |ResampleKnots(ks)|
    ensures var s := ResampleKnots(ks)[k];
      var n := NearestIndex(Times(ks), s.t);
      && s.x == LinearAt(Times(ks), Xs(ks), s.t)
      && s.y == LinearAt(Times(ks), Ys(ks), s.t)
      && s.depth == DepthClass(FillDepths(Depths(ks))[n])
      && forall j :: 0 <= j < |ks| ==> Dist(s.t, ks[n].t) <= Dist(s.t, ks[j].t)
  {
    var s := ResampleKnots(ks)[k];
    forall j | 0 <= j < |ks|
      ensures Dist(s.t, ks[NearestIndex(Times(ks), s.t)].t) <= Dist(s.t, ks[j].t)
    {
      NearestIsClosest(Times(ks), s.t, j);
    }
  }

  function Unproject(p: Projection, ss: seq<PlanarSample>): (r: seq<GeoSample>)
    ensures |r| == |ss|
    ensures forall k :: 0 <= k < |ss| ==> r[k].t == ss[k].t && r[k].depth == ss[k].depth
    ensures forall k :: 0 <= k < |ss| ==> (r[k].lon, r[k].lat) == p.inverse(ss[k].x, ss[k].y)
  {
    seq(|ss|, k requires 0 <= k < |ss| =>
      var ll := p.inverse(ss[k].x, ss[k].y);
      GeoSample(ss[k].t, ll.0, ll.1, ss[k].depth))
  }

  /** The knots of a track: sorted by date, timed from the first fix, projected,
      with duplicate times removed. */
  function Knots(p: Projection, fixes: seq<Fix>): seq<Knot>
  {
    var sorted := SortByDate(fixes);
    if sorted == [] then [] else DropDuplicateTimes(ToKnots(p, sorted, sorted[0].date))
  }

  /** The knots have strictly increasing times, from 0 to the track's duration. */
  lemma KnotsSpan(p: Projection, fixes: seq<Fix>)
    ensures StrictlyIncreasing(Times(Knots(p, fixes)))
    ensures fixes == [] ==> Knots(p, fixes) == []
    ensures fixes != [] ==> |Knots(p, fixes)| > 0 && Knots(p, fixes)[0].t == 0
    ensures fixes != [] ==> Knots(p, fixes)[|Knots(p, fixes)| - 1].t == LatestDate(fixes) - EarliestDate(fixes)
  {
    var sorted := SortByDate(fixes);
    if fixes != [] {
      SortedEnds(fixes);
      KnotsOfSorted(p, sorted, EarliestDate(fixes), LatestDate(fixes));
    }
  }

  /** The knots built from date-sorted fixes whose first and last dates are e and l. */
  lemma KnotsOfSorted(p: Projection, sorted: seq<Fix>, e: int, l: int)
    requires |sorted| > 0 && SortedByDate(sorted)
    requires sorted[0].date == e && sorted[|sorted| - 1].date == l
    ensures var ks := DropDuplicateTimes(ToKnots(p, sorted, sorted[0].date));
      StrictlyIncreasing(Times(ks)) && |ks| > 0 && ks[0].t == 0 && ks[|ks| - 1].t == l - e
  {
    var raw := ToKnots(p, sorted, sorted[0].date);
    SortedKnots(p, sorted, sorted[0].date);
    DedupEnds(raw);
    DedupOfSortedIncreases(raw);
    assert raw[0].t == 0;
    assert raw[|raw| - 1].t == l - e;
  }

  lemma SortedKnots(p: Projection, s: seq<Fix>, t0: int)
    requires SortedByDate(s)
    ensures Nondecreasing(ToKnots(p, s, t0))
  {
    var r := ToKnots(p, s, t0);
    forall i, j | 0 <= i < j < |r|
      ensures r[i].t <= r[j].t
    {
      assert r[i].t == s[i].date - t0 && r[j].t == s[j].date - t0;
    }
  }

  /** The resampling shared by both scripts; fails when fewer than two distinct
      times remain (interp1d refuses a single knot; an empty table has no first date). */
  function Resample(p: Projection, fixes: seq<Fix>): Result<seq<GeoSample>, TrackError>
  {
    var ks := Knots(p, fixes);
    if |ks| < 2 then Failure(InsufficientSamples)
    else
      KnotsSpan(p, fixes);
      Success(Unproject(p, ResampleKnots(ks)))
  }

  /** Samples of knots starting at 0 are at 0, Step, 2*Step, ... below the last
      knot time, which they cover. */
  lemma SampleTimes(p: Projection, ks: seq<Knot>, span: int)
    requires |ks| >= 2 && StrictlyIncreasing(Times(ks))
    requires ks[0].t == 0 && ks[|ks| - 1].t == span
    ensures var r := Unproject(p, ResampleKnots(ks));
      && |r| > 0 && span <= |r| * Step
      && forall k :: 0 <= k < |r| ==> r[k].t == k * Step && r[k].t < span && 0 <= r[k].depth <= 3
  {
  }

  /** What the resampling guarantees: it succeeds exactly when the fixes hold two
      distinct dates, and then yields times 0, Step, 2*Step, ... strictly below the
      track's duration, covering it, with depth classes in [0, 3]. */
  lemma ResampleShape(p: Projection, fixes: seq<Fix>)
    ensures Resample(p, fixes).Success? <==> HasTwoDates(fixes)
    ensures Resample(p, fixes).Failure? ==> Resample(p, fixes).error == InsufficientSamples
    ensures Resample(p, fixes).Success? ==>
      var r := Resample(p, fixes).value;
      var span := LatestDate(fixes) - EarliestDate(fixes);
      && |r| > 0 && span <= |r| * Step
      && forall k :: 0 <= k < |r| ==> r[k].t == k * Step && r[k].t < span && 0 <= r[k].depth <= 3
  {
    EnoughKnots(p, fixes);
    var ks := Knots(p, fixes);
    if |ks| >= 2 {
      KnotsSpan(p, fixes);
      assert fixes != [];
      var span := LatestDate(fixes) - EarliestDate(fixes);
      assert StrictlyIncreasing(Times(ks));
      assert ks[0].t == 0 && ks[|ks| - 1].t == span;
      SampleTimes(p, ks, span);
    }
  }

  /** At least two knots remain exactly when the fixes hold two distinct dates. */
  lemma EnoughKnots(p: Projection, fixes: seq<Fix>)
    ensures |Knots(p, fixes)| >= 2 <==> HasTwoDates(fixes)
  {
    KnotsSpan(p, fixes);
    if fixes != [] {
      TwoDatesIffSpread(fixes);
      var ks := Knots(p, fixes);
      if |ks| >= 2 {
        assert Times(ks)[0] < Times(ks)[|ks| - 1];
      }
    }
  }

  /** One shark's trajectory table: the resampled points stamped with the shark's
      id and the calendar year of its first (earliest) fix. */
  function ResampleTrack(p: Projection, yearOf: int -> int, id: string, fixes: seq<Fix>): (r: Result<seq<Point>, TrackError>)
    ensures r.Success? <==> Resample(p, fixes).Success?
    ensures r.Failure? ==> r.error == Resample(p, fixes).error
    ensures r.Success? ==> |r.value| == |Resample(p, fixes).value| && |fixes| > 0
    ensures r.Success? ==> forall k :: 0 <= k < |r.value| ==>
      var s := Resample(p, fixes).value[k];
      r.value[k] == Point(s.t, s.lon, s.lat, s.depth, id, yearOf(EarliestDate(fixes)))
  {
    match Resample(p, fixes)
    case Failure(e) => Failure(e)
    case Success(ss) =>
      assert |SortByDate(fixes)| == |fixes|;
      var year := yearOf(EarliestDate(fixes));
      Success(seq(|ss|, k requires 0 <= k < |ss| => Point(ss[k].t, ss[k].lon, ss[k].lat, ss[k].depth, id, year)))
  }

  /** The worked case: depth codes "2" and "A" parse to 2 and to missing. */
  lemma ScenarioCodes()
    ensures Numerals.ParseInt("2") == Some(2) && Numerals.ParseInt("A") == None
  {
    Numerals.ParseShow(2);
    assert Numerals.DigitChar(2) == '2';
    assert Numerals.NatDigits(2) == "2";
    LetterCode();
  }

  lemma LetterCode()
    ensures Numerals.ParseInt("A") == None
  {
    var a := "A";
    assert a[0] == 'A';
    assert !Numerals.IsSpace(a[0]) && !Numerals.IsDigit(a[0]) && !Numerals.IsSign(a[0]);
    Numerals.ParseRejectsForeign(a, 0);
  }

  lemma ScenarioGrid()
    ensures Grid(0, 43200, Step) == [0, 21600]
  {
    assert Grid(43200, 43200, Step) == [];
    assert Grid(21600, 43200, Step) == [21600];
  }

  /** The worked case: knots at 0 s (x 0, depth 2) and 43200 s (x 100, depth
      missing) give samples at 0 s and 21600 s, at x 0 and 50, both of depth 2. */
  lemma TwoKnotScenario()
    ensures ResampleKnots([Knot(0, 0.0, 0.0, Some(2)), Knot(43200, 100.0, 0.0, None)])
         == [PlanarSample(0, 0.0, 0.0, 2), PlanarSample(21600, 50.0, 0.0, 2)]
  {
    var ks := [Knot(0, 0.0, 0.0, Some(2)), Knot(43200, 100.0, 0.0, None)];
    ScenarioKnots(ks);
    ScenarioGrid();
    var r := ResampleKnots(ks);
    assert |r| == 2;
    ScenarioSample(ks, 0);
    ScenarioSample(ks, 1);
  }

  lemma ScenarioKnots(ks: seq<Knot>)
    requires ks == [Knot(0, 0.0, 0.0, Some(2)), Knot(43200, 100.0, 0.0, None)]
    ensures Times(ks) == [0, 43200] && StrictlyIncreasing(Times(ks))
    ensures FillDepths(Depths(ks)) == [Some(2), Some(2)]
  {
    var ds := Depths(ks);
    assert ds == [Some(2), None];
    FillKeepsPresent(ds, 0);
    FillFromEarlier(ds, 0, 1);
  }

  lemma ScenarioSample(ks: seq<Knot>, k: nat)
    requires ks == [Knot(0, 0.0, 0.0, Some(2)), Knot(43200, 100.0, 0.0, None)]
    requires k < 2
    ensures |ResampleKnots(ks)| == 2
    ensures ResampleKnots(ks)[k] == [PlanarSample(0, 0.0, 0.0, 2), PlanarSample(21600, 50.0, 0.0, 2)][k]
  {
    ScenarioKnots(ks);
    ScenarioGrid();
    var ts := Times(ks);
    var t := k * Step;
    assert NearestIndex(ts, t) == 0;
    if k == 0 {
      LinearAtKnot(ts, Xs(ks), 0);
      LinearAtKnot(ts, Ys(ks), 0);
    } else {
      assert LinearAt(ts, Xs(ks), 21600) == Blend(0, 0.0, 43200, 100.0, 21600) == 50.0;
      assert LinearAt(ts, Ys(ks), 21600) == Blend(0, 0.0, 43200, 0.0, 21600) == 0.0;
    }
  }
}
