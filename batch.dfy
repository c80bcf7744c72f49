/**
 * The batch over the list of shark tables (modelo.py): each table is resampled
 * under its own id; a table that is missing or fails is skipped with its cause,
 * and the run is fatal only when no table succeeds.
 */
module Batch {
  import opened Wrappers
  import Numerals
  import opened Tracks
  import Seqs

  /** The id of the i-th table (counted from 0): "TIBURON_" followed by i + 1. */
  function TrackId(i: nat): string
  {
    "TIBURON_" + Numerals.Show(i + 1)
  }

  /** Different tables get different ids. */
  lemma TrackIdInjective(i: nat, j: nat)
    ensures TrackId(i) == TrackId(j) ==> i == j
  {
    if TrackId(i) == TrackId(j) {
      var n := |"TIBURON_"|;
      assert TrackId(i)[n..] == Numerals.Show(i + 1);
      assert TrackId(j)[n..] == Numerals.Show(j + 1);
      Numerals.ShowInjective(i + 1, j + 1);
    }
  }

  /** A skipped table and the reason it was skipped. */
  datatype Skip = Skip(id: string, cause: TrackError)

  datatype BatchError = EmptyBatch

  /** The result of the i-th table; None stands for a file that could not be read. */
  function Outcome(p: Projection, yearOf: int -> int, tracks: seq<Option<seq<Fix>>>, i: nat): Result<seq<Point>, TrackError>
    requires i < |tracks|
  {
    match tracks[i]
    case None => Failure(SourceUnavailable)
    case Some(fixes) => ResampleTrack(p, yearOf, TrackId(i), fixes)
  }

  /** The results of all tables, in order. */
  function Outcomes(p: Projection, yearOf: int -> int, tracks: seq<Option<seq<Fix>>>): seq<Result<seq<Point>, TrackError>>
  {
    seq(|tracks|, i requires 0 <= i < |tracks| => Outcome(p, yearOf, tracks, i))
  }

  /** The rows of the successful tables among the first n, concatenated in order. */
  function Collected(outs: seq<Result<seq<Point>, TrackError>>, n: nat): seq<Point>
    requires n <= |outs|
  {
    if n == 0 then []
    else Collected(outs, n - 1) + (if outs[n - 1].Success? then outs[n - 1].value else [])
  }

  /** The skipped tables among the first n, in order, with their causes. */
  function Skipped(outs: seq<Result<seq<Point>, TrackError>>, n: nat): seq<Skip>
    requires n <= |outs|
  {
    if n == 0 then []
    else Skipped(outs, n - 1) + (if outs[n - 1].Failure? then [Skip(TrackId(n - 1), outs[n - 1].error)] else [])
  }

  predicate SomeSucceeded(outs: seq<Result<seq<Point>, TrackError>>, n: nat)
    requires n <= |outs|
  {
    exists i :: 0 <= i < n && outs[i].Success?
  }

  /** The loop of the script: appends each successful trajectory to the list of
      trajectories and reports each failure; concatenates the list at the end,
      or fails when it is empty. */
  method ResampleBatch(p: Projection, yearOf: int -> int, tracks: seq<Option<seq<Fix>>>)
    returns (r: Result<seq<Point>, BatchError>, skipped: seq<Skip>)
    ensures var outs := Outcomes(p, yearOf, tracks);
      && (r.Success? <==> SomeSucceeded(outs, |tracks|))
      && (r.Success? ==> r.value == Collected(outs, |tracks|))
      && (r.Failure? ==> r.error == EmptyBatch)
      && skipped == Skipped(outs, |tracks|)
  {
    ghost var outs := Outcomes(p, yearOf, tracks);
    var trajectories: seq<seq<Point>> := [];
    skipped := [];
    var i := 0;
    while i < |tracks|
      invariant 0 <= i <= |tracks|
      invariant Seqs.Concat(trajectories) == Collected(outs, i)
      invariant (|trajectories| > 0) <==> SomeSucceeded(outs, i)
      invariant skipped == Skipped(outs, i)
    {
      var id := TrackId(i);
      var outcome: Result<seq<Point>, TrackError>;
      match tracks[i] {
        case None =>
          outcome := Failure(SourceUnavailable);
        case Some(fixes) =>
          outcome := ResampleTrack(p, yearOf, id, fixes);
      }
      assert outcome == outs[i];
      assert Skipped(outs, i + 1) == Skipped(outs, i) + (if outs[i].Failure? then [Skip(id, outs[i].error)] else []);
      assert Collected(outs, i + 1) == Collected(outs, i) + (if outs[i].Success? then outs[i].value else []);
      if outcome.Success? {
        Seqs.ConcatSnoc(trajectories, outcome.value);
        trajectories := trajectories + [outcome.value];
        assert SomeSucceeded(outs, i + 1) by { assert outs[i].Success?; }
      } else {
        skipped := skipped + [Skip(id, outcome.error)];
        assert SomeSucceeded(outs, i + 1) == SomeSucceeded(outs, i);
      }
      i := i + 1;
    }
    if |trajectories| == 0 {
      r := Failure(EmptyBatch);
    } else {
      r := Success(Seqs.Concat(trajectories));
    }
  }

  /** Every row of a successful table carries that table's tag. */
  ghost predicate Tagged(outs: seq<Result<seq<Point>, TrackError>>, tag: nat -> string)
  {
    forall i, k :: 0 <= i < |outs| && outs[i].Success? && 0 <= k < |outs[i].value| ==> outs[i].value[k].id == tag(i)
  }

  ghost predicate Injective(tag: nat -> string)
  {
    forall a: nat, b: nat :: tag(a) == tag(b) ==> a == b
  }

  lemma TrackIdsInjective()
    ensures Injective(TrackId)
  {
    forall a: nat, b: nat
      ensures TrackId(a) == TrackId(b) ==> a == b
    {
      TrackIdInjective(a, b);
    }
  }

  lemma OutcomesTagged(p: Projection, yearOf: int -> int, tracks: seq<Option<seq<Fix>>>)
    ensures Tagged(Outcomes(p, yearOf, tracks), TrackId)
  {
    var outs := Outcomes(p, yearOf, tracks);
    forall i, k | 0 <= i < |outs| && outs[i].Success? && 0 <= k < |outs[i].value|
      ensures outs[i].value[k].id == TrackId(i)
    {
      assert outs[i] == Outcome(p, yearOf, tracks, i);
    }
  }

  /** The rows carrying the given id, in order. */
  function WithId(pts: seq<Point>, id: string): seq<Point>
  {
    Seqs.Filter(pts, (pt: Point) => pt.id == id)
  }

  lemma WithIdConcat(a: seq<Point>, b: seq<Point>, id: string)
    ensures WithId(a + b, id) == WithId(a, id) + WithId(b, id)
  {
    Seqs.FilterConcat(a, b, (pt: Point) => pt.id == id);
  }

  lemma WithIdUniform(pts: seq<Point>, owner: string, id: string)
    requires forall k :: 0 <= k < |pts| ==> pts[k].id == owner
    ensures WithId(pts, id) == if owner == id then pts else []
  {
    if owner == id {
      Seqs.FilterAll(pts, (pt: Point) => pt.id == id);
    } else {
      Seqs.FilterNone(pts, (pt: Point) => pt.id == id);
    }
  }

  lemma {:induction false} CollectedLacksLaterIds(outs: seq<Result<seq<Point>, TrackError>>, tag: nat -> string, n: nat, i: nat)
    requires Tagged(outs, tag) && Injective(tag)
    requires n <= i < |outs|
    ensures WithId(Collected(outs, n), tag(i)) == []
  {
    if n > 0 {
      CollectedLacksLaterIds(outs, tag, n - 1, i);
      var part := if outs[n - 1].Success? then outs[n - 1].value else [];
      assert Collected(outs, n) == Collected(outs, n - 1) + part;
      WithIdConcat(Collected(outs, n - 1), part, tag(i));
      WithIdUniform(part, tag(n - 1), tag(i));
    }
  }

  /** One step of the collection, for any id. */
  lemma CollectedStep(outs: seq<Result<seq<Point>, TrackError>>, n: nat, id: string)
    requires 0 < n <= |outs|
    ensures WithId(Collected(outs, n), id) ==
      WithId(Collected(outs, n - 1), id) + WithId(if outs[n - 1].Success? then outs[n - 1].value else [], id)
  {
    var part := if outs[n - 1].Success? then outs[n - 1].value else [];
    assert Collected(outs, n) == Collected(outs, n - 1) + part;
    WithIdConcat(Collected(outs, n - 1), part, id);
  }

  /** One step of the collection: the rows with table i's id gained from table n - 1. */
  lemma TaggedStep(outs: seq<Result<seq<Point>, TrackError>>, tag: nat -> string, n: nat, i: nat)
    requires Tagged(outs, tag) && Injective(tag)
    requires i < n <= |outs|
    ensures WithId(Collected(outs, n), tag(i)) ==
      WithId(Collected(outs, n - 1), tag(i)) + (if i == n - 1 && outs[i].Success? then outs[i].value else [])
  {
    CollectedStep(outs, n, tag(i));
    var part := if outs[n - 1].Success? then outs[n - 1].value else [];
    assert forall k :: 0 <= k < |part| ==> part[k].id == tag(n - 1);
    WithIdUniform(part, tag(n - 1), tag(i));
    if i != n - 1 {
      assert tag(n - 1) != tag(i);
    }
  }

  lemma {:induction false} TaggedAllOrNothing(outs: seq<Result<seq<Point>, TrackError>>, tag: nat -> string, n: nat, i: nat)
    requires Tagged(outs, tag) && Injective(tag)
    requires i < n <= |outs|
    ensures WithId(Collected(outs, n), tag(i)) == if outs[i].Success? then outs[i].value else []
  {
    TaggedStep(outs, tag, n, i);
    var gained := if i == n - 1 && outs[i].Success? then outs[i].value else [];
    if i == n - 1 {
      CollectedLacksLaterIds(outs, tag, n - 1, i);
      assert [] + gained == gained;
    } else {
      TaggedAllOrNothing(outs, tag, n - 1, i);
      assert gained == [];
      assert WithId(Collected(outs, n - 1), tag(i)) + [] == WithId(Collected(outs, n - 1), tag(i));
    }
  }

  /** Every table contributes its whole trajectory or nothing: the rows of the
      batch that carry a table's id are exactly that table's resampled rows when
      it succeeded, and there are none when it was skipped. */
  lemma EntityAllOrNothing(p: Projection, yearOf: int -> int, tracks: seq<Option<seq<Fix>>>, i: nat)
    requires i < |tracks|
    ensures var out := Outcome(p, yearOf, tracks, i);
      WithId(Collected(Outcomes(p, yearOf, tracks), |tracks|), TrackId(i)) == if out.Success? then out.value else []
  {
    OutcomesTagged(p, yearOf, tracks);
    TrackIdsInjective();
    TaggedAllOrNothing(Outcomes(p, yearOf, tracks), TrackId, |tracks|, i);
  }
}
