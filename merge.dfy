/**
 * The combination of the chlorophyll and temperature tables
 * (creacion_archivos.py): the chlorophyll column is renamed, then the two
 * tables are joined with a full outer join on (latitude, longitude, year), so
 * that every key of either table appears and the side that lacks it is missing.
 */
module Merge {
  import opened Wrappers
  import Seqs
  import Columns

  datatype Key = Key(lat: real, lon: real, year: int)

  /** A row of the chlorophyll table; the value itself may be missing (NaN). */
  datatype ChlRow = ChlRow(lat: real, lon: real, year: int, chl: Option<real>)

  /** A row of the temperature table. */
  datatype TempRow = TempRow(lat: real, lon: real, year: int, temp: Option<real>)

  /** A row of the combined table. */
  datatype EnvRow = EnvRow(lat: real, lon: real, year: int, chl: Option<real>, temp: Option<real>)

  datatype MergeError = MissingFile | MissingKeyColumn

  const KeyColumns: seq<string> := ["latitude", "longitude", "year"]
  const ChlRenaming: map<string, string> := map["clorofila" := "concentracion_clorofila"]
  const TempRenaming: map<string, string> := map["temperatura" := "temperatura"]

  function ChlKey(c: ChlRow): Key { Key(c.lat, c.lon, c.year) }
  function TempKey(t: TempRow): Key { Key(t.lat, t.lon, t.year) }
  function EnvKey(r: EnvRow): Key { Key(r.lat, r.lon, r.year) }

  function ChlKeys(cs: seq<ChlRow>): set<Key> { set c | c in cs :: ChlKey(c) }
  function TempKeys(ts: seq<TempRow>): set<Key> { set t | t in ts :: TempKey(t) }
  function EnvKeys(rs: seq<EnvRow>): set<Key> { set r | r in rs :: EnvKey(r) }

  /** A key found on both sides: both values are carried over. */
  function Joined(c: ChlRow, t: TempRow): EnvRow { EnvRow(c.lat, c.lon, c.year, c.chl, t.temp) }
  /** A key found only in the chlorophyll table: the temperature is missing. */
  function ChlOnly(c: ChlRow): EnvRow { EnvRow(c.lat, c.lon, c.year, c.chl, None) }
  /** A key found only in the temperature table: the chlorophyll is missing. */
  function TempOnly(t: TempRow): EnvRow { EnvRow(t.lat, t.lon, t.year, None, t.temp) }

  /** The temperature rows with the key of c. */
  function Partners(c: ChlRow, ts: seq<TempRow>): seq<TempRow>
  {
    Seqs.Filter(ts, (t: TempRow) => TempKey(t) == ChlKey(c))
  }

  /** The rows the join produces for one chlorophyll row: one per partner, or
      the row alone when it has none. */
  function MergeRow(c: ChlRow, ts: seq<TempRow>): seq<EnvRow>
  {
    var ps := Partners(c, ts);
    if ps == [] then [ChlOnly(c)] else seq(|ps|, j requires 0 <= j < |ps| => Joined(c, ps[j]))
  }

  function LeftRows(cs: seq<ChlRow>, ts: seq<TempRow>): seq<EnvRow>
  {
    if cs == [] then [] else LeftRows(cs[..|cs| - 1], ts) + MergeRow(cs[|cs| - 1], ts)
  }

  /** The temperature rows whose key does not occur in the chlorophyll table. */
  function Unmatched(cs: seq<ChlRow>, ts: seq<TempRow>): seq<TempRow>
  {
    Seqs.Filter(ts, (t: TempRow) => TempKey(t) !in ChlKeys(cs))
  }

  function RightRows(cs: seq<ChlRow>, ts: seq<TempRow>): seq<EnvRow>
  {
    var u := Unmatched(cs, ts);
    seq(|u|, j requires 0 <= j < |u| => TempOnly(u[j]))
  }

  /** pd.merge(chl, temp, on=[latitude, longitude, year], how='outer') on the rows. */
  function OuterMerge(cs: seq<ChlRow>, ts: seq<TempRow>): seq<EnvRow>
  {
    LeftRows(cs, ts) + RightRows(cs, ts)
  }

  /** The rows a full outer join consists of, stated independently of how
      OuterMerge builds them. */
  ghost predicate InOuterJoin(cs: seq<ChlRow>, ts: seq<TempRow>, r: EnvRow)
  {
    || (exists c, t :: c in cs && t in ts && ChlKey(c) == TempKey(t) && r == Joined(c, t))
    || (exists c :: c in cs && ChlKey(c) !in TempKeys(ts) && r == ChlOnly(c))
    || (exists t :: t in ts && TempKey(t) !in ChlKeys(cs) && r == TempOnly(t))
  }

  lemma PartnersEmpty(c: ChlRow, ts: seq<TempRow>)
    ensures Partners(c, ts) == [] <==> ChlKey(c) !in TempKeys(ts)
  {
    var keep := (t: TempRow) => TempKey(t) == ChlKey(c);
    if ChlKey(c) in TempKeys(ts) {
      var t :| t in ts && TempKey(t) == ChlKey(c);
      assert keep(t);
      assert t in Partners(c, ts);
    }
    if Partners(c, ts) != [] {
      var t := Partners(c, ts)[0];
      assert t in ts && keep(t);
      assert TempKey(t) in TempKeys(ts);
    }
  }

  lemma MergeRowMembers(c: ChlRow, ts: seq<TempRow>, r: EnvRow)
    ensures r in MergeRow(c, ts) <==>
      || (exists t :: t in ts && TempKey(t) == ChlKey(c) && r == Joined(c, t))
      || (ChlKey(c) !in TempKeys(ts) && r == ChlOnly(c))
  {
    PartnersEmpty(c, ts);
    var ps := Partners(c, ts);
    if ps != [] {
      if r in MergeRow(c, ts) {
        var j :| 0 <= j < |ps| && MergeRow(c, ts)[j] == r;
        assert ps[j] in ps;
      }
      if exists t :: t in ts && TempKey(t) == ChlKey(c) && r == Joined(c, t) {
        var t :| t in ts && TempKey(t) == ChlKey(c) && r == Joined(c, t);
        assert t in ps;
        var j :| 0 <= j < |ps| && ps[j] == t;
        assert MergeRow(c, ts)[j] == r;
      }
    }
  }

  lemma {:induction false} LeftRowsMembers(cs: seq<ChlRow>, ts: seq<TempRow>, r: EnvRow)
    ensures r in LeftRows(cs, ts) <==> exists c :: c in cs && r in MergeRow(c, ts)
    decreases |cs|
  {
    if cs != [] {
      var init, last := cs[..|cs| - 1], cs[|cs| - 1];
      LeftRowsMembers(init, ts, r);
      assert LeftRows(cs, ts) == LeftRows(init, ts) + MergeRow(last, ts);
      assert r in LeftRows(cs, ts) <==> r in LeftRows(init, ts) || r in MergeRow(last, ts);
      InInitOrLast(cs);
      if exists c :: c in cs && r in MergeRow(c, ts) {
        var c :| c in cs && r in MergeRow(c, ts);
        if c != last { assert c in init; }
      }
    }
  }

  lemma InInitOrLast(cs: seq<ChlRow>)
    requires cs != []
    ensures forall c :: c in cs <==> c in cs[..|cs| - 1] || c == cs[|cs| - 1]
  {
    assert cs == cs[..|cs| - 1] + [cs[|cs| - 1]];
  }

  lemma RightRowsMembers(cs: seq<ChlRow>, ts: seq<TempRow>, r: EnvRow)
    ensures r in RightRows(cs, ts) <==> exists t :: t in ts && TempKey(t) !in ChlKeys(cs) && r == TempOnly(t)
  {
    var u := Unmatched(cs, ts);
    if r in RightRows(cs, ts) {
      var j :| 0 <= j < |u| && RightRows(cs, ts)[j] == r;
      assert u[j] in u;
    }
    if exists t :: t in ts && TempKey(t) !in ChlKeys(cs) && r == TempOnly(t) {
      var t :| t in ts && TempKey(t) !in ChlKeys(cs) && r == TempOnly(t);
      assert t in u;
      var j :| 0 <= j < |u| && u[j] == t;
      assert RightRows(cs, ts)[j] == r;
    }
  }

  /** OuterMerge produces exactly the rows of a full outer join. */
  lemma OuterMergeMembers(cs: seq<ChlRow>, ts: seq<TempRow>, r: EnvRow)
    ensures r in OuterMerge(cs, ts) <==> InOuterJoin(cs, ts, r)
  {
    assert r in OuterMerge(cs, ts) <==> r in LeftRows(cs, ts) || r in RightRows(cs, ts);
    LeftRowsMembers(cs, ts, r);
    RightRowsMembers(cs, ts, r);
    if r in LeftRows(cs, ts) {
      var c :| c in cs && r in MergeRow(c, ts);
      MergeRowMembers(c, ts, r);
      assert InOuterJoin(cs, ts, r);
    }
    if InOuterJoin(cs, ts, r) {
      if exists c, t :: c in cs && t in ts && ChlKey(c) == TempKey(t) && r == Joined(c, t) {
        var c, t :| c in cs && t in ts && ChlKey(c) == TempKey(t) && r == Joined(c, t);
        MergeRowMembers(c, ts, r);
        assert r in LeftRows(cs, ts);
      } else if exists c :: c in cs && ChlKey(c) !in TempKeys(ts) && r == ChlOnly(c) {
        var c :| c in cs && ChlKey(c) !in TempKeys(ts) && r == ChlOnly(c);
        MergeRowMembers(c, ts, r);
        assert r in LeftRows(cs, ts);
      } else {
        assert r in RightRows(cs, ts);
      }
    }
  }

  /** The keys of the combined table are the keys of either input. */
  lemma MergeKeys(cs: seq<ChlRow>, ts: seq<TempRow>)
    ensures EnvKeys(OuterMerge(cs, ts)) == ChlKeys(cs) + TempKeys(ts)
  {
    var out := OuterMerge(cs, ts);
    forall k | k in EnvKeys(out)
      ensures k in ChlKeys(cs) + TempKeys(ts)
    {
      var r :| r in out && EnvKey(r) == k;
      OuterMergeMembers(cs, ts, r);
    }
    forall k | k in ChlKeys(cs) + TempKeys(ts)
      ensures k in EnvKeys(out)
    {
      if k in ChlKeys(cs) {
        var c :| c in cs && ChlKey(c) == k;
        if k in TempKeys(ts) {
          var t :| t in ts && TempKey(t) == k;
          OuterMergeMembers(cs, ts, Joined(c, t));
          assert EnvKey(Joined(c, t)) == k;
        } else {
          OuterMergeMembers(cs, ts, ChlOnly(c));
          assert EnvKey(ChlOnly(c)) == k;
        }
      } else {
        var t :| t in ts && TempKey(t) == k;
        OuterMergeMembers(cs, ts, TempOnly(t));
        assert EnvKey(TempOnly(t)) == k;
      }
    }
  }

  /** A key only the chlorophyll table has: its rows carry a chlorophyll value of
      that table and a missing temperature. */
  lemma ChlOnlyKey(cs: seq<ChlRow>, ts: seq<TempRow>, r: EnvRow)
    requires r in OuterMerge(cs, ts) && EnvKey(r) !in TempKeys(ts)
    ensures r.temp == None
    ensures exists c :: c in cs && ChlKey(c) == EnvKey(r) && r.chl == c.chl
  {
    OuterMergeMembers(cs, ts, r);
  }

  /** A key only the temperature table has: its rows carry a temperature of
      that table and a missing chlorophyll value. */
  lemma TempOnlyKey(cs: seq<ChlRow>, ts: seq<TempRow>, r: EnvRow)
    requires r in OuterMerge(cs, ts) && EnvKey(r) !in ChlKeys(cs)
    ensures r.chl == None
    ensures exists t :: t in ts && TempKey(t) == EnvKey(r) && r.temp == t.temp
  {
    OuterMergeMembers(cs, ts, r);
  }

  /** A key both tables have: each of its rows carries both input values. */
  lemma SharedKey(cs: seq<ChlRow>, ts: seq<TempRow>, r: EnvRow)
    requires r in OuterMerge(cs, ts) && EnvKey(r) in ChlKeys(cs) && EnvKey(r) in TempKeys(ts)
    ensures exists c, t :: (c in cs && t in ts && ChlKey(c) == EnvKey(r) && TempKey(t) == EnvKey(r)
      && r.chl == c.chl && r.temp == t.temp)
  {
    OuterMergeMembers(cs, ts, r);
  }

  predicate UniqueChlKeys(cs: seq<ChlRow>)
  {
    forall i, j :: 0 <= i < j < |cs| ==> ChlKey(cs[i]) != ChlKey(cs[j])
  }

  predicate UniqueTempKeys(ts: seq<TempRow>)
  {
    forall i, j :: 0 <= i < j < |ts| ==> TempKey(ts[i]) != TempKey(ts[j])
  }

  /** The rows of a combined table with the given key, in order. */
  function RowsAt(rows: seq<EnvRow>, k: Key): seq<EnvRow>
  {
    Seqs.Filter(rows, (r: EnvRow) => EnvKey(r) == k)
  }

  lemma MergeRowKeys(c: ChlRow, ts: seq<TempRow>)
    ensures forall m :: 0 <= m < |MergeRow(c, ts)| ==> EnvKey(MergeRow(c, ts)[m]) == ChlKey(c)
  {
  }

  lemma RowsAtUniform(rows: seq<EnvRow>, owner: Key, k: Key)
    requires forall m :: 0 <= m < |rows| ==> EnvKey(rows[m]) == owner
    ensures RowsAt(rows, k) == if owner == k then rows else []
  {
    if owner == k {
      Seqs.FilterAll(rows, (r: EnvRow) => EnvKey(r) == k);
    } else {
      Seqs.FilterNone(rows, (r: EnvRow) => EnvKey(r) == k);
    }
  }

  lemma {:induction false} LeftRowsAt(cs: seq<ChlRow>, ts: seq<TempRow>, i: nat, n: nat)
    requires UniqueChlKeys(cs)
    requires i < |cs| && n <= |cs|
    ensures RowsAt(LeftRows(cs[..n], ts), ChlKey(cs[i])) == if i < n then MergeRow(cs[i], ts) else []
  {
    if n > 0 {
      var k := ChlKey(cs[i]);
      var prefix, last := cs[..n - 1], cs[n - 1];
      assert cs[..n][..n - 1] == prefix;
      assert LeftRows(cs[..n], ts) == LeftRows(prefix, ts) + MergeRow(last, ts);
      LeftRowsAt(cs, ts, i, n - 1);
      Seqs.FilterConcat(LeftRows(prefix, ts), MergeRow(last, ts), (r: EnvRow) => EnvKey(r) == k);
      MergeRowKeys(last, ts);
      RowsAtUniform(MergeRow(last, ts), ChlKey(last), k);
      assert RowsAt(LeftRows(cs[..n], ts), k) == RowsAt(LeftRows(prefix, ts), k) + RowsAt(MergeRow(last, ts), k);
      if i == n - 1 {
        assert RowsAt(LeftRows(prefix, ts), k) == [];
        assert RowsAt(MergeRow(last, ts), k) == MergeRow(cs[i], ts);
        assert [] + MergeRow(cs[i], ts) == MergeRow(cs[i], ts);
      } else {
        assert ChlKey(last) != k by {
          if i < n - 1 { assert ChlKey(cs[i]) != ChlKey(cs[n - 1]); }
          else { assert ChlKey(cs[n - 1]) != ChlKey(cs[i]); }
        }
        assert RowsAt(MergeRow(last, ts), k) == [];
        var before := RowsAt(LeftRows(prefix, ts), k);
        assert before + [] == before;
      }
    } else {
      assert cs[..n] == [];
    }
  }

  /** With unique keys on both sides, a key both tables have gives exactly one
      combined row, holding both input values. */
  lemma SharedKeyUnique(cs: seq<ChlRow>, ts: seq<TempRow>, i: nat, j: nat)
    requires UniqueChlKeys(cs) && UniqueTempKeys(ts)
    requires i < |cs| && j < |ts| && ChlKey(cs[i]) == TempKey(ts[j])
    ensures RowsAt(OuterMerge(cs, ts), ChlKey(cs[i])) == [Joined(cs[i], ts[j])]
  {
    var c, k := cs[i], ChlKey(cs[i]);
    var keep := (t: TempRow) => TempKey(t) == ChlKey(c);
    forall m | 0 <= m < |ts| && m != j
      ensures !keep(ts[m])
    {
      if m < j { assert TempKey(ts[m]) != TempKey(ts[j]); }
      else { assert TempKey(ts[j]) != TempKey(ts[m]); }
    }
    Seqs.FilterSingle(ts, keep, j);
    assert Partners(c, ts) == [ts[j]];
    assert MergeRow(c, ts) == [Joined(c, ts[j])];
    assert cs[..|cs|] == cs;
    LeftRowsAt(cs, ts, i, |cs|);
    assert k in ChlKeys(cs);
    forall m | 0 <= m < |RightRows(cs, ts)|
      ensures EnvKey(RightRows(cs, ts)[m]) != k
    {
      assert Unmatched(cs, ts)[m] in Unmatched(cs, ts);
    }
    Seqs.FilterNone(RightRows(cs, ts), (r: EnvRow) => EnvKey(r) == k);
    Seqs.FilterConcat(LeftRows(cs, ts), RightRows(cs, ts), (r: EnvRow) => EnvKey(r) == k);
  }

  /** The header pd.merge produces: the left columns in order, then the right
      columns that are not join keys; a non-key column present on both sides is
      suffixed _x on the left and _y on the right. A key column missing on
      either side is a KeyError. */
  function MergeColumns(left: seq<string>, right: seq<string>, on: seq<string>): Option<seq<string>>
  {
    if !Columns.HasAll(left, on) || !Columns.HasAll(right, on) then None
    else
      var extra := NonKeys(right, on);
      Some(seq(|left|, i requires 0 <= i < |left| => Suffixed(left[i], on, right, "_x"))
        + seq(|extra|, i requires 0 <= i < |extra| => Suffixed(extra[i], on, left, "_y")))
  }

  /** The columns of cols that are not join keys, in order. */
  function NonKeys(cols: seq<string>, on: seq<string>): seq<string>
  {
    Seqs.Filter(cols, (c: string) => c !in on)
  }

  lemma NonKeysSingle(cols: seq<string>, on: seq<string>, j: nat)
    requires j < |cols| && cols[j] !in on
    requires forall i :: 0 <= i < |cols| && i != j ==> cols[i] in on
    ensures NonKeys(cols, on) == [cols[j]]
  {
    Seqs.FilterSingle(cols, (c: string) => c !in on, j);
  }

  lemma MergeColumnsAt(left: seq<string>, right: seq<string>, on: seq<string>)
    requires Columns.HasAll(left, on) && Columns.HasAll(right, on)
    ensures var r := MergeColumns(left, right, on);
      var extra := NonKeys(right, on);
      && r.Some? && |r.value| == |left| + |extra|
      && (forall i :: 0 <= i < |left| ==> r.value[i] == Suffixed(left[i], on, right, "_x"))
      && (forall i :: 0 <= i < |extra| ==> r.value[|left| + i] == Suffixed(extra[i], on, left, "_y"))
  {
  }

  function Suffixed(c: string, on: seq<string>, other: seq<string>, suffix: string): string
  {
    if c !in on && c in other then c + suffix else c
  }

  /** A name that already ends in one of the suffixes the merge appends. */
  predicate HasMergeSuffix(c: string) {
    |c| >= 2 && c[|c| - 2] == '_' && (c[|c| - 1] == 'x' || c[|c| - 1] == 'y')
  }

  predicate NoMergeSuffix(cols: seq<string>) {
    forall c :: c in cols ==> !HasMergeSuffix(c)
  }

  /** Every join key appears in the merged header, under its own name. */
  lemma MergeColumnsKeys(left: seq<string>, right: seq<string>, on: seq<string>)
    requires Columns.HasAll(left, on) && Columns.HasAll(right, on)
    ensures MergeColumns(left, right, on).Some?
    ensures forall c :: c in on ==> c in MergeColumns(left, right, on).value
  {
    MergeColumnsAt(left, right, on);
    var r := MergeColumns(left, right, on).value;
    forall c | c in on
      ensures c in r
    {
      var i :| 0 <= i < |left| && left[i] == c;
      assert r[i] == c;
    }
  }

  lemma AppendSuffix(c: string, suffix: string)
    requires suffix == "_x" || suffix == "_y"
    ensures HasMergeSuffix(c + suffix) && (c + suffix)[|c| + 1] == suffix[1]
    ensures (c + suffix)[..|c|] == c
  {
  }

  /** Two different unsuffixed names stay different on the same side of the merge. */
  lemma SuffixedInjective(u: string, v: string, on: seq<string>, other: seq<string>, suffix: string)
    requires u != v && !HasMergeSuffix(u) && !HasMergeSuffix(v)
    requires suffix == "_x" || suffix == "_y"
    ensures Suffixed(u, on, other, suffix) != Suffixed(v, on, other, suffix)
  {
    AppendSuffix(u, suffix);
    AppendSuffix(v, suffix);
  }

  /** A left column and a right non-key column never get the same merged name. */
  lemma SidesDiffer(u: string, v: string, on: seq<string>, left: seq<string>, right: seq<string>)
    requires u in left && v !in on && !HasMergeSuffix(u) && !HasMergeSuffix(v)
    ensures Suffixed(u, on, right, "_x") != Suffixed(v, on, left, "_y")
  {
    AppendSuffix(u, "_x");
    AppendSuffix(v, "_y");
  }

  /** The suffixes do their job: when neither header repeats a name or uses a
      merge suffix, the merged header repeats no name. */
  lemma MergeColumnsDistinct(left: seq<string>, right: seq<string>, on: seq<string>)
    requires Columns.HasAll(left, on) && Columns.HasAll(right, on)
    requires Seqs.Distinct(left) && Seqs.Distinct(right)
    requires NoMergeSuffix(left) && NoMergeSuffix(right)
    ensures MergeColumns(left, right, on).Some?
    ensures Seqs.Distinct(MergeColumns(left, right, on).value)
  {
    MergeColumnsAt(left, right, on);
    var r := MergeColumns(left, right, on).value;
    var extra := NonKeys(right, on);
    Seqs.FilterDistinct(right, (c: string) => c !in on);
    forall i, j | 0 <= i < j < |r|
      ensures r[i] != r[j]
    {
      if j < |left| {
        SuffixedInjective(left[i], left[j], on, right, "_x");
      } else if |left| <= i {
        var u, v := extra[i - |left|], extra[j - |left|];
        assert u in extra && v in extra;
        SuffixedInjective(u, v, on, left, "_y");
      } else {
        var v := extra[j - |left|];
        assert v in extra;
        SidesDiffer(left[i], v, on, left, right);
      }
    }
  }

  /** The script as a whole: read both tables (a missing file ends it), rename
      the value columns, and merge. */
  function Combine(chl: Option<Columns.Table<ChlRow>>, temp: Option<Columns.Table<TempRow>>): (r: Result<Columns.Table<EnvRow>, MergeError>)
    ensures r.Failure? <==> chl.None? || temp.None? || MergeColumns(Columns.Rename(chl.value.columns, ChlRenaming), Columns.Rename(temp.value.columns, TempRenaming), KeyColumns).None?
    ensures chl.None? || temp.None? ==> r == Failure(MissingFile)
    ensures r.Success? ==> r.value.rows == OuterMerge(chl.value.rows, temp.value.rows)
  {
    if chl.None? || temp.None? then Failure(MissingFile)
    else
      var columns := MergeColumns(Columns.Rename(chl.value.columns, ChlRenaming), Columns.Rename(temp.value.columns, TempRenaming), KeyColumns);
      if columns.None? then Failure(MissingKeyColumn)
      else Success(Columns.Table(columns.value, OuterMerge(chl.value.rows, temp.value.rows)))
  }

  /** The chlorophyll column is renamed and every other column keeps its name. */
  lemma ChlorophyllRenamed(header: seq<string>, i: nat)
    requires i < |header|
    ensures Columns.Rename(header, ChlRenaming)[i] == if header[i] == "clorofila" then "concentracion_clorofila" else header[i]
  {
    Columns.RenameOne(header, "clorofila", "concentracion_clorofila", i);
  }

  /** The temperature rename maps the column to itself: the header is unchanged. */
  lemma TemperatureRenameIsIdentity(header: seq<string>)
    ensures Columns.Rename(header, TempRenaming) == header
  {
  }
}
