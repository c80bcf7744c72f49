/**
 * The environmental part of the training script (modelo.py): the combined
 * table is loaded and its columns renamed, both sides round latitude and
 * longitude to two decimals, and a left join on (rounded lat, rounded lon,
 * year) attaches temperature and chlorophyll to each trajectory row. Any
 * failure to load or select the table leaves both values missing in every row.
 */
module Fusion {
  import opened Wrappers
  import Seqs
  import Columns
  import opened Merge
  import opened Tracks

  const EnvRenaming: map<string, string> := map[
    "latitude" := "lat", "longitude" := "lon", "concentracion_clorofila" := "Cloro_Media",
    "temperatura" := "Temp_Media", "year" := "year"]

  /** The columns the join selects from the environmental table. */
  const EnvSelection: seq<string> := ["lat", "lon", "year", "Temp_Media", "Cloro_Media"]

  /** Whether a header of the combined file survives the rename and the selection. */
  predicate Loadable(columns: seq<string>)
  {
    Columns.HasAll(Columns.Rename(columns, EnvRenaming), EnvSelection)
  }

  /** The environmental rows, or None when the file is missing (FileNotFoundError)
      or lacks a selected column (KeyError); in the rows, chl is the
      Cloro_Media column and temp the Temp_Media column. */
  function LoadEnvironment(file: Option<Columns.Table<EnvRow>>): (r: Option<seq<EnvRow>>)
    ensures r.Some? <==> file.Some? && Loadable(file.value.columns)
    ensures r.Some? ==> r.value == file.value.rows
  {
    if file.Some? && Loadable(file.value.columns) then Some(file.value.rows) else None
  }

  /** A trajectory row with the environmental values attached. */
  datatype Record = Record(point: Point, temp: Option<real>, chl: Option<real>)

  function PointKey(round2: real -> real, p: Point): Key
  {
    Key(round2(p.lat), round2(p.lon), p.year)
  }

  function EnvRowKey(round2: real -> real, e: EnvRow): Key
  {
    Key(round2(e.lat), round2(e.lon), e.year)
  }

  predicate SameKey(round2: real -> real, p: Point, e: EnvRow)
  {
    EnvRowKey(round2, e) == PointKey(round2, p)
  }

  /** The environmental rows whose rounded key is the point's. */
  function EnvMatches(round2: real -> real, p: Point, env: seq<EnvRow>): seq<EnvRow>
  {
    Seqs.Filter(env, (e: EnvRow) => SameKey(round2, p, e))
  }

  function JoinPoint(round2: real -> real, p: Point, env: seq<EnvRow>): seq<Record>
  {
    var ms := EnvMatches(round2, p, env);
    if ms == [] then [Record(p, None, None)]
    else seq(|ms|, j requires 0 <= j < |ms| => Record(p, ms[j].temp, ms[j].chl))
  }

  /** pd.merge(trajectories, env, left_on=keys, right_on=keys, how='left'). */
  function LeftJoin(round2: real -> real, pts: seq<Point>, env: seq<EnvRow>): seq<Record>
  {
    if pts == [] then []
    else LeftJoin(round2, pts[..|pts| - 1], env) + JoinPoint(round2, pts[|pts| - 1], env)
  }

  /** Every row with both environmental values missing (the except branches). */
  function Missing(pts: seq<Point>): (r: seq<Record>)
    ensures |r| == |pts|
    ensures forall k :: 0 <= k < |r| ==> r[k].point == pts[k] && r[k].temp.None? && r[k].chl.None?
  {
    seq(|pts|, k requires 0 <= k < |pts| => Record(pts[k], None, None))
  }

  /** The join step of the script: the left join when the table loads, the
      all-missing fallback otherwise. */
  function Attach(round2: real -> real, pts: seq<Point>, file: Option<Columns.Table<EnvRow>>): seq<Record>
  {
    match LoadEnvironment(file)
    case None => Missing(pts)
    case Some(env) => LeftJoin(round2, pts, env)
  }

  /** When the table does not load, every row keeps its point and has both
      values missing. */
  lemma AttachFallback(round2: real -> real, pts: seq<Point>, file: Option<Columns.Table<EnvRow>>)
    requires file.None? || !Loadable(file.value.columns)
    ensures Attach(round2, pts, file) == Missing(pts)
  {
  }

  /** The rows of the left join, stated independently of how LeftJoin builds
      them: a point with its values from a row with its rounded key, or a
      point that has no such row with both values missing. */
  lemma {:induction false} LeftJoinMembers(round2: real -> real, pts: seq<Point>, env: seq<EnvRow>, rec: Record)
    ensures rec in LeftJoin(round2, pts, env) <==> (rec.point in pts &&
      ((exists e :: e in env && SameKey(round2, rec.point, e) && rec.temp == e.temp && rec.chl == e.chl)
      || ((forall e :: e in env ==> !SameKey(round2, rec.point, e)) && rec.temp.None? && rec.chl.None?)))
    decreases |pts|
  {
    if pts != [] {
      var init, p := pts[..|pts| - 1], pts[|pts| - 1];
      LeftJoinMembers(round2, init, env, rec);
      assert pts == init + [p];
      assert rec in LeftJoin(round2, pts, env) <==> rec in LeftJoin(round2, init, env) || rec in JoinPoint(round2, p, env);
      JoinPointMembers(round2, p, env, rec);
    }
  }

  lemma JoinPointMembers(round2: real -> real, p: Point, env: seq<EnvRow>, rec: Record)
    ensures rec in JoinPoint(round2, p, env) <==> (rec.point == p &&
      ((exists e :: e in env && SameKey(round2, p, e) && rec.temp == e.temp && rec.chl == e.chl)
      || ((forall e :: e in env ==> !SameKey(round2, p, e)) && rec.temp.None? && rec.chl.None?)))
  {
    var ms := EnvMatches(round2, p, env);
    var keep := (e: EnvRow) => SameKey(round2, p, e);
    if ms != [] {
      assert ms[0] in env && keep(ms[0]);
      if rec in JoinPoint(round2, p, env) {
        var j :| 0 <= j < |ms| && JoinPoint(round2, p, env)[j] == rec;
        assert ms[j] in env && keep(ms[j]);
      }
      if rec.point == p && exists e :: e in env && SameKey(round2, p, e) && rec.temp == e.temp && rec.chl == e.chl {
        var e :| e in env && SameKey(round2, p, e) && rec.temp == e.temp && rec.chl == e.chl;
        assert e in ms;
        var j :| 0 <= j < |ms| && ms[j] == e;
        assert JoinPoint(round2, p, env)[j] == rec;
      }
    }
  }

  /** No two environmental rows share a rounded key. */
  predicate UniqueKeys(round2: real -> real, env: seq<EnvRow>)
  {
    forall i, j :: 0 <= i < j < |env| ==> EnvRowKey(round2, env[i]) != EnvRowKey(round2, env[j])
  }

  /** The environmental table as a map from rounded key to row (a later row
      replaces an earlier one with the same key). */
  function Index(round2: real -> real, env: seq<EnvRow>): map<Key, EnvRow>
  {
    if env == [] then map[]
    else Index(round2, env[..|env| - 1])[EnvRowKey(round2, env[|env| - 1]) := env[|env| - 1]]
  }

  lemma {:induction false} IndexDomain(round2: real -> real, env: seq<EnvRow>, k: Key)
    ensures k in Index(round2, env) <==> exists j :: 0 <= j < |env| && EnvRowKey(round2, env[j]) == k
    decreases |env|
  {
    if env != [] {
      var init := env[..|env| - 1];
      IndexDomain(round2, init, k);
      if exists j :: 0 <= j < |init| && EnvRowKey(round2, init[j]) == k {
        var j :| 0 <= j < |init| && EnvRowKey(round2, init[j]) == k;
        assert env[j] == init[j];
      }
      if exists j :: 0 <= j < |env| && EnvRowKey(round2, env[j]) == k {
        var j :| 0 <= j < |env| && EnvRowKey(round2, env[j]) == k;
        if j < |init| { assert init[j] == env[j]; }
      }
    }
  }

  lemma {:induction false} IndexAt(round2: real -> real, env: seq<EnvRow>, j: nat)
    requires UniqueKeys(round2, env) && j < |env|
    ensures EnvRowKey(round2, env[j]) in Index(round2, env)
    ensures Index(round2, env)[EnvRowKey(round2, env[j])] == env[j]
    decreases |env|
  {
    IndexDomain(round2, env, EnvRowKey(round2, env[j]));
    var init := env[..|env| - 1];
    if j < |env| - 1 {
      assert UniqueKeys(round2, init) by {
        forall a, b | 0 <= a < b < |init| ensures EnvRowKey(round2, init[a]) != EnvRowKey(round2, init[b]) {
          assert init[a] == env[a] && init[b] == env[b];
        }
      }
      IndexAt(round2, init, j);
      assert init[j] == env[j];
      assert EnvRowKey(round2, env[j]) != EnvRowKey(round2, env[|env| - 1]);
    }
  }

  /** The value a map lookup attaches to a point. */
  function Lookup(index: map<Key, EnvRow>, round2: real -> real, p: Point): Record
  {
    var k := PointKey(round2, p);
    if k in index then Record(p, index[k].temp, index[k].chl) else Record(p, None, None)
  }

  lemma JoinPointUnique(round2: real -> real, p: Point, env: seq<EnvRow>)
    requires UniqueKeys(round2, env)
    ensures JoinPoint(round2, p, env) == [Lookup(Index(round2, env), round2, p)]
  {
    var k := PointKey(round2, p);
    var keep := (e: EnvRow) => SameKey(round2, p, e);
    IndexDomain(round2, env, k);
    if exists j :: 0 <= j < |env| && EnvRowKey(round2, env[j]) == k {
      var j :| 0 <= j < |env| && EnvRowKey(round2, env[j]) == k;
      forall i | 0 <= i < |env| && i != j ensures !keep(env[i]) {
        if i < j { assert EnvRowKey(round2, env[i]) != EnvRowKey(round2, env[j]); }
        else { assert EnvRowKey(round2, env[j]) != EnvRowKey(round2, env[i]); }
      }
      Seqs.FilterSingle(env, keep, j);
      IndexAt(round2, env, j);
    } else {
      Seqs.FilterNone(env, keep);
    }
  }

  /** With unique keys on the environmental side the left join is a map
      lookup: one row per point, in order, holding the values stored under its
      rounded key, or missing values when there are none. */
  lemma {:induction false} LeftJoinIsLookup(round2: real -> real, pts: seq<Point>, env: seq<EnvRow>)
    requires UniqueKeys(round2, env)
    ensures LeftJoin(round2, pts, env) == seq(|pts|, i requires 0 <= i < |pts| => Lookup(Index(round2, env), round2, pts[i]))
    decreases |pts|
  {
    if pts != [] {
      var init := pts[..|pts| - 1];
      LeftJoinIsLookup(round2, init, env);
      JoinPointUnique(round2, pts[|pts| - 1], env);
    }
  }
}
