/**
 * The data preparation of modelo.py from end to end: the batch of shark
 * tracks, the environmental join and the labelled training table.
 */
module Training {
  import opened Wrappers
  import Columns
  import Seqs
  import opened Tracks
  import opened Batch
  import opened Merge
  import opened Fusion
  import opened Labels

  /** Resamples every table (a fatal error when none succeeds), attaches the
      environmental values and builds the labelled examples. */
  method PrepareTrainingTable(p: Projection, yearOf: int -> int, round2: real -> real,
                              tracks: seq<Option<seq<Fix>>>, envFile: Option<Columns.Table<EnvRow>>)
    returns (r: Result<seq<Example>, BatchError>, skipped: seq<Skip>)
    ensures var outs := Outcomes(p, yearOf, tracks);
      && (r.Success? <==> SomeSucceeded(outs, |tracks|))
      && (r.Failure? ==> r.error == EmptyBatch)
      && (r.Success? ==> r.value == BuildExamples(Attach(round2, Collected(outs, |tracks|), envFile)))
      && skipped == Skipped(outs, |tracks|)
  {
    var trajectories;
    trajectories, skipped := ResampleBatch(p, yearOf, tracks);
    if trajectories.Failure? {
      r := Failure(trajectories.error);
    } else {
      var records := Attach(round2, trajectories.value, envFile);
      r := Success(BuildExamples(records));
    }
  }

  /** The join keeps the trajectory rows one to one, in order, when the
      environmental table does not load or has unique rounded keys. */
  lemma AttachKeepsPoints(round2: real -> real, pts: seq<Point>, file: Option<Columns.Table<EnvRow>>)
    requires LoadEnvironment(file).None? || UniqueKeys(round2, LoadEnvironment(file).value)
    ensures |Attach(round2, pts, file)| == |pts|
    ensures forall k :: 0 <= k < |pts| ==> Attach(round2, pts, file)[k].point == pts[k]
  {
    if LoadEnvironment(file).Some? {
      LeftJoinIsLookup(round2, pts, LoadEnvironment(file).value);
    }
  }

  /** Dropping the last record drops one row of its id from each side. */
  lemma RowsOfSnoc(recs: seq<Record>, id: string)
    requires recs != []
    ensures |RowsOf(recs, id)| == |RowsOf(recs[..|recs| - 1], id)| + (if IdOf(recs[|recs| - 1]) == id then 1 else 0)
  {
    var n := |recs| - 1;
    assert recs == recs[..n] + [recs[n]];
    RowsOfConcat(recs[..n], [recs[n]], id);
    RowsOfSingle(recs[n], id);
  }

  lemma WithIdSnoc(pts: seq<Point>, id: string)
    requires pts != []
    ensures |WithId(pts, id)| == |WithId(pts[..|pts| - 1], id)| + (if pts[|pts| - 1].id == id then 1 else 0)
  {
    var n := |pts| - 1;
    assert pts == pts[..n] + [pts[n]];
    WithIdConcat(pts[..n], [pts[n]], id);
    WithIdUniform([pts[n]], pts[n].id, id);
  }

  lemma {:induction false} SameIdCount(recs: seq<Record>, pts: seq<Point>, id: string)
    requires |recs| == |pts|
    requires forall k :: 0 <= k < |pts| ==> recs[k].point == pts[k]
    ensures |RowsOf(recs, id)| == |WithId(pts, id)|
    decreases |pts|
  {
    if pts != [] {
      var n := |pts| - 1;
      SameIdCount(recs[..n], pts[..n], id);
      RowsOfSnoc(recs, id);
      WithIdSnoc(pts, id);
      assert IdOf(recs[n]) == pts[n].id;
    }
  }

  /** Each shark whose table was resampled into n points contributes n - 1
      training examples, and a skipped shark none (when the environmental
      table does not load or has unique rounded keys). */
  lemma ExamplesPerShark(p: Projection, yearOf: int -> int, round2: real -> real,
                         tracks: seq<Option<seq<Fix>>>, envFile: Option<Columns.Table<EnvRow>>, i: nat)
    requires i < |tracks|
    requires LoadEnvironment(envFile).None? || UniqueKeys(round2, LoadEnvironment(envFile).value)
    ensures var out := Outcome(p, yearOf, tracks, i);
      var pts := Collected(Outcomes(p, yearOf, tracks), |tracks|);
      |ExamplesOf(BuildExamples(Attach(round2, pts, envFile)), TrackId(i))| == if out.Success? then |out.value| - 1 else 0
  {
    var out := Outcome(p, yearOf, tracks, i);
    var pts := Collected(Outcomes(p, yearOf, tracks), |tracks|);
    var recs := Attach(round2, pts, envFile);
    EntityAllOrNothing(p, yearOf, tracks, i);
    AttachKeepsPoints(round2, pts, envFile);
    SameIdCount(recs, pts, TrackId(i));
    ExamplesPerEntity(recs, TrackId(i));
    if out.Success? {
      ResampleShape(p, tracks[i].value);
    }
  }
}
