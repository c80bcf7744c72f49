/**
 * The training targets of modelo.py: within each shark's rows, in table order,
 * a row's target is the position of the next row of the same shark
 * (groupby(id).shift(-1)); the last row of each shark has no target and is
 * dropped (dropna on the target columns).
 */
module Labels {
  import opened Wrappers
  import Seqs
  import opened Fusion

  /** A training example: the row and the longitude and latitude it moves to. */
  datatype Example = Example(record: Record, lonNext: real, latNext: real)

  function IdOf(r: Record): string { r.point.id }

  /** The first position at or after from whose row belongs to entity id. */
  function FirstOf(rows: seq<Record>, id: string, from: nat): (r: Option<nat>)
    requires from <= |rows|
    ensures r.Some? ==> (from <= r.value < |rows| && IdOf(rows[r.value]) == id
      && forall k :: from <= k < r.value ==> IdOf(rows[k]) != id)
    ensures r.None? ==> forall k :: from <= k < |rows| ==> IdOf(rows[k]) != id
    decreases |rows| - from
  {
    if from == |rows| then None
    else if IdOf(rows[from]) == id then Some(from)
    else FirstOf(rows, id, from + 1)
  }

  /** The position of the next row of the same entity as row i, if any. */
  function NextOf(rows: seq<Record>, i: nat): Option<nat>
    requires i < |rows|
  {
    FirstOf(rows, IdOf(rows[i]), i + 1)
  }

  /** The example row i yields: none for the last row of its entity. */
  function ExampleAt(rows: seq<Record>, i: nat): seq<Example>
    requires i < |rows|
  {
    match NextOf(rows, i)
    case None => []
    case Some(j) => [Example(rows[i], rows[j].point.lon, rows[j].point.lat)]
  }

  function ExamplesFrom(rows: seq<Record>, i: nat): seq<Example>
    requires i <= |rows|
    decreases |rows| - i
  {
    if i == |rows| then [] else ExampleAt(rows, i) + ExamplesFrom(rows, i + 1)
  }

  /** The labelled table: the shifted targets, with the rows that lack one dropped. */
  function BuildExamples(rows: seq<Record>): seq<Example>
  {
    ExamplesFrom(rows, 0)
  }

  /** Row j is the next row of row i's entity. */
  ghost predicate IsNext(rows: seq<Record>, i: nat, j: nat)
  {
    i < j < |rows| && IdOf(rows[j]) == IdOf(rows[i]) && forall k :: i < k < j ==> IdOf(rows[k]) != IdOf(rows[i])
  }

  lemma {:induction false} ExamplesFromMembers(rows: seq<Record>, i: nat, x: Example)
    requires i <= |rows|
    ensures x in ExamplesFrom(rows, i) ==>
      exists a: nat, b: nat :: i <= a && IsNext(rows, a, b) && x == Example(rows[a], rows[b].point.lon, rows[b].point.lat)
    decreases |rows| - i
  {
    if i < |rows| && x in ExamplesFrom(rows, i) {
      if x in ExampleAt(rows, i) {
        var j := NextOf(rows, i).value;
        assert IsNext(rows, i, j);
      } else {
        ExamplesFromMembers(rows, i + 1, x);
      }
    }
  }

  /** Every target comes from the next row of the same entity: no row is
      labelled with another shark's position. */
  lemma LabelsFromNextOfEntity(rows: seq<Record>, x: Example)
    requires x in BuildExamples(rows)
    ensures exists a: nat, b: nat :: IsNext(rows, a, b) && x == Example(rows[a], rows[b].point.lon, rows[b].point.lat)
  {
    ExamplesFromMembers(rows, 0, x);
  }

  /** The converse: every row with a next row of its entity yields its example. */
  lemma {:induction false} ExamplesFromHas(rows: seq<Record>, i: nat, a: nat, b: nat)
    requires i <= a && IsNext(rows, a, b)
    ensures Example(rows[a], rows[b].point.lon, rows[b].point.lat) in ExamplesFrom(rows, i)
    decreases a - i
  {
    var x := Example(rows[a], rows[b].point.lon, rows[b].point.lat);
    if i == a {
      NextOfIsNext(rows, a, b);
      assert ExampleAt(rows, a) == [x];
      assert ExamplesFrom(rows, a) == [x] + ExamplesFrom(rows, a + 1);
    } else {
      ExamplesFromHas(rows, i + 1, a, b);
      assert ExamplesFrom(rows, i) == ExampleAt(rows, i) + ExamplesFrom(rows, i + 1);
    }
  }

  /** The search finds exactly the next row of the entity. */
  lemma NextOfIsNext(rows: seq<Record>, a: nat, b: nat)
    requires IsNext(rows, a, b)
    ensures NextOf(rows, a) == Some(b)
  {
    assert IdOf(rows[b]) == IdOf(rows[a]);
  }

  /** The labelled table holds exactly the rows that have a next row of their
      entity, each labelled with that next row's position. */
  lemma BuildExamplesIff(rows: seq<Record>, x: Example)
    ensures x in BuildExamples(rows) <==>
      exists a: nat, b: nat :: IsNext(rows, a, b) && x == Example(rows[a], rows[b].point.lon, rows[b].point.lat)
  {
    ExamplesFromMembers(rows, 0, x);
    if exists a: nat, b: nat :: IsNext(rows, a, b) && x == Example(rows[a], rows[b].point.lon, rows[b].point.lat) {
      var a: nat, b: nat :| IsNext(rows, a, b) && x == Example(rows[a], rows[b].point.lon, rows[b].point.lat);
      ExamplesFromHas(rows, 0, a, b);
    }
  }

  function RowsOf(rows: seq<Record>, id: string): seq<Record>
  {
    Seqs.Filter(rows, (r: Record) => IdOf(r) == id)
  }

  function ExamplesOf(xs: seq<Example>, id: string): seq<Example>
  {
    Seqs.Filter(xs, (x: Example) => IdOf(x.record) == id)
  }

  lemma ExamplesOfConcat(a: seq<Example>, b: seq<Example>, id: string)
    ensures ExamplesOf(a + b, id) == ExamplesOf(a, id) + ExamplesOf(b, id)
  {
    Seqs.FilterConcat(a, b, (x: Example) => IdOf(x.record) == id);
  }

  lemma RowsOfConcat(a: seq<Record>, b: seq<Record>, id: string)
    ensures RowsOf(a + b, id) == RowsOf(a, id) + RowsOf(b, id)
  {
    Seqs.FilterConcat(a, b, (r: Record) => IdOf(r) == id);
  }

  /** Row i has a successor in its entity exactly when a later row belongs to it. */
  lemma NextExists(rows: seq<Record>, i: nat)
    requires i < |rows|
    ensures NextOf(rows, i).Some? <==> |RowsOf(rows[i + 1..], IdOf(rows[i]))| > 0
  {
    var id := IdOf(rows[i]);
    var rest := rows[i + 1..];
    match NextOf(rows, i) {
      case Some(j) =>
        assert rows[j] == rest[j - i - 1];
        assert rows[j] in RowsOf(rest, id);
      case None =>
        assert forall k :: 0 <= k < |rest| ==> IdOf(rest[k]) != id by {
          forall k | 0 <= k < |rest| ensures IdOf(rest[k]) != id {
            assert rest[k] == rows[i + 1 + k];
          }
        }
        Seqs.FilterNone(rest, (r: Record) => IdOf(r) == id);
    }
  }

  lemma RowsOfSingle(r: Record, id: string)
    ensures RowsOf([r], id) == if IdOf(r) == id then [r] else []
  {
    assert [r][..0] == [];
  }

  lemma ExamplesOfAt(rows: seq<Record>, i: nat, id: string)
    requires i < |rows|
    ensures ExamplesOf(ExampleAt(rows, i), id) == if IdOf(rows[i]) == id then ExampleAt(rows, i) else []
  {
    var here := ExampleAt(rows, i);
    if here != [] { assert here[..0] == []; }
  }

  /** The examples of an entity from position i split into row i's and the rest's. */
  lemma ExamplesFromStep(rows: seq<Record>, i: nat, id: string)
    requires i < |rows|
    ensures |ExamplesOf(ExamplesFrom(rows, i), id)| ==
      |ExamplesOf(ExampleAt(rows, i), id)| + |ExamplesOf(ExamplesFrom(rows, i + 1), id)|
  {
    ExamplesOfConcat(ExampleAt(rows, i), ExamplesFrom(rows, i + 1), id);
  }

  lemma RowsFromStep(rows: seq<Record>, i: nat, id: string)
    requires i < |rows|
    ensures |RowsOf(rows[i..], id)| == (if IdOf(rows[i]) == id then 1 else 0) + |RowsOf(rows[i + 1..], id)|
  {
    assert rows[i..] == [rows[i]] + rows[i + 1..];
    RowsOfConcat([rows[i]], rows[i + 1..], id);
    RowsOfSingle(rows[i], id);
  }

  /** Row i yields an example of its entity exactly when a later row belongs to it. */
  lemma ExampleAtCount(rows: seq<Record>, i: nat, id: string)
    requires i < |rows|
    ensures |ExamplesOf(ExampleAt(rows, i), id)| ==
      if IdOf(rows[i]) == id && |RowsOf(rows[i + 1..], id)| > 0 then 1 else 0
  {
    ExamplesOfAt(rows, i, id);
    NextExists(rows, i);
  }

  lemma {:induction false} ExamplesFromCount(rows: seq<Record>, i: nat, id: string)
    requires i <= |rows|
    ensures |ExamplesOf(ExamplesFrom(rows, i), id)| == if |RowsOf(rows[i..], id)| == 0 then 0 else |RowsOf(rows[i..], id)| - 1
    decreases |rows| - i
  {
    if i < |rows| {
      ExamplesFromCount(rows, i + 1, id);
      ExamplesFromStep(rows, i, id);
      RowsFromStep(rows, i, id);
      ExampleAtCount(rows, i, id);
    } else {
      assert rows[i..] == [];
    }
  }

  /** Each entity with n rows contributes n - 1 examples (none when it has no
      rows): exactly its last row is dropped. */
  lemma ExamplesPerEntity(rows: seq<Record>, id: string)
    ensures |ExamplesOf(BuildExamples(rows), id)| == if |RowsOf(rows, id)| == 0 then 0 else |RowsOf(rows, id)| - 1
  {
    ExamplesFromCount(rows, 0, id);
    assert rows[0..] == rows;
  }
}
