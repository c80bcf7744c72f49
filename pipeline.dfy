/**
 * The hand-off between the scripts through CSV headers: the combination
 * script renames only a column called "clorofila" and the training script
 * selects "concentracion_clorofila" and "temperatura", while the converters
 * write "chlorophyll" and "temperature".
 */
module Pipeline {
  import opened Wrappers
  import Columns
  import Merge
  import Fusion
  import Tracks
  import Converters
  import Seqs

  const ConverterMerged: seq<string> := ["latitude", "longitude", "chlorophyll", "year", "temperature"]
  const SpanishMerged: seq<string> := ["latitude", "longitude", "concentracion_clorofila", "year", "temperatura"]

  lemma MergeOfConverterHeaders()
    ensures Merge.MergeColumns(
      Columns.Rename(Converters.OutputColumns(Converters.Chlorophyll), Merge.ChlRenaming),
      Columns.Rename(Converters.OutputColumns(Converters.Temperature), Merge.TempRenaming),
      Merge.KeyColumns) == Some(ConverterMerged)
  {
    var chl := Columns.Rename(Converters.OutputColumns(Converters.Chlorophyll), Merge.ChlRenaming);
    var temp := Columns.Rename(Converters.OutputColumns(Converters.Temperature), Merge.TempRenaming);
    assert chl == ["latitude", "longitude", "chlorophyll", "year"];
    assert temp == ["latitude", "longitude", "temperature", "year"];
    assert Columns.HasAll(chl, Merge.KeyColumns) && Columns.HasAll(temp, Merge.KeyColumns);
    assert "chlorophyll" !in temp && "temperature" !in chl;
    Merge.NonKeysSingle(temp, Merge.KeyColumns, 2);
    Merge.MergeColumnsAt(chl, temp, Merge.KeyColumns);
    var r := Merge.MergeColumns(chl, temp, Merge.KeyColumns).value;
    assert r[4] == "temperature";
    assert forall i :: 0 <= i < 4 ==> r[i] == chl[i];
    assert r == ConverterMerged;
  }

  /** Merged converter output fed to the training script fails its column
      selection, so every trajectory row gets missing environmental values. */
  lemma ConverterOutputFallsBack(round2: real -> real, pts: seq<Tracks.Point>, rows: seq<Merge.EnvRow>)
    ensures !Fusion.Loadable(ConverterMerged)
    ensures Fusion.Attach(round2, pts, Some(Columns.Table(ConverterMerged, rows))) == Fusion.Missing(pts)
  {
    var renamed := Columns.Rename(ConverterMerged, Fusion.EnvRenaming);
    assert renamed == ["lat", "lon", "chlorophyll", "year", "temperature"];
    assert "Temp_Media" !in renamed;
  }

  /** The Spanish headers merge into the five columns of SpanishMerged. */
  lemma SpanishHeadersMerge()
    ensures Merge.MergeColumns(
      Columns.Rename(["latitude", "longitude", "clorofila", "year"], Merge.ChlRenaming),
      Columns.Rename(["latitude", "longitude", "temperatura", "year"], Merge.TempRenaming),
      Merge.KeyColumns) == Some(SpanishMerged)
  {
    var chl := Columns.Rename(["latitude", "longitude", "clorofila", "year"], Merge.ChlRenaming);
    var temp := Columns.Rename(["latitude", "longitude", "temperatura", "year"], Merge.TempRenaming);
    assert chl == ["latitude", "longitude", "concentracion_clorofila", "year"];
    assert temp == ["latitude", "longitude", "temperatura", "year"];
    assert Columns.HasAll(chl, Merge.KeyColumns) && Columns.HasAll(temp, Merge.KeyColumns);
    assert "concentracion_clorofila" !in temp && "temperatura" !in chl;
    Merge.NonKeysSingle(temp, Merge.KeyColumns, 2);
    Merge.MergeColumnsAt(chl, temp, Merge.KeyColumns);
    var r := Merge.MergeColumns(chl, temp, Merge.KeyColumns).value;
    assert r[4] == "temperatura";
    assert forall i :: 0 <= i < 4 ==> r[i] == chl[i];
    assert r == SpanishMerged;
  }

  /** Tables with the Spanish column names go through both scripts. */
  lemma SpanishHeadersLoad()
    ensures Merge.MergeColumns(
      Columns.Rename(["latitude", "longitude", "clorofila", "year"], Merge.ChlRenaming),
      Columns.Rename(["latitude", "longitude", "temperatura", "year"], Merge.TempRenaming),
      Merge.KeyColumns) == Some(SpanishMerged)
    ensures Fusion.Loadable(SpanishMerged)
  {
    SpanishHeadersMerge();
    var renamed := Columns.Rename(SpanishMerged, Fusion.EnvRenaming);
    assert renamed == ["lat", "lon", "Cloro_Media", "year", "Temp_Media"];
  }
}
