/**
 * The viewer script (visualizacion.py): it resamples one shark track with the
 * same steps as the training script, and picks the colour range of a map
 * layer from the layer's variable name.
 */
module Viewer {
  import opened Wrappers
  import opened Tracks

  /** The single track shown by the viewer; the script has no error handling,
      so a track that cannot be interpolated ends it (None). */
  function ShowTrack(p: Projection, fixes: seq<Fix>): (r: Option<seq<GeoSample>>)
    ensures r.Some? <==> HasTwoDates(fixes)
    ensures r.Some? ==> |r.value| > 0 && forall k :: 0 <= k < |r.value| ==> r.value[k].t == k * Step && 0 <= r.value[k].depth <= 3
  {
    ResampleShape(p, fixes);
    match Resample(p, fixes)
    case Success(ss) => Some(ss)
    case Failure(_) => None
  }

  /** The viewer and the training script compute the same samples: the viewer
      shows a track exactly when the batch keeps it, and the batch rows are the
      viewer's samples with the id and year added. */
  lemma ViewerMatchesBatch(p: Projection, yearOf: int -> int, id: string, fixes: seq<Fix>)
    ensures ShowTrack(p, fixes).Some? <==> ResampleTrack(p, yearOf, id, fixes).Success?
    ensures ShowTrack(p, fixes).Some? ==>
      var ss := ShowTrack(p, fixes).value;
      var rows := ResampleTrack(p, yearOf, id, fixes).value;
      |rows| == |ss| && forall k :: 0 <= k < |ss| ==>
        rows[k].t == ss[k].t && rows[k].lon == ss[k].lon && rows[k].lat == ss[k].lat && rows[k].depth == ss[k].depth
  {
    ResampleShape(p, fixes);
  }

  /** str.lower on ASCII letters; other characters are kept. */
  function LowerChar(c: char): (d: char)
    ensures 'A' <= c <= 'Z' ==> 'a' <= d <= 'z' && d as int - c as int == 32
    ensures !('A' <= c <= 'Z') ==> d == c
  {
    if 'A' <= c <= 'Z' then (c as int + 32) as char else c
  }

  function Lower(s: string): (r: string)
    ensures |r| == |s|
  {
    seq(|s|, i requires 0 <= i < |s| => LowerChar(s[i]))
  }

  predicate OccursAt(s: string, sub: string, i: nat)
  {
    i + |sub| <= |s| && s[i..i + |sub|] == sub
  }

  /** Python's `sub in s` for strings. */
  predicate Contains(s: string, sub: string)
  {
    exists i: nat :: i <= |s| && OccursAt(s, sub, i)
  }

  lemma ChlorContainsChl(s: string)
    ensures Contains(s, "chlor") ==> Contains(s, "chl")
  {
    if Contains(s, "chlor") {
      var i: nat :| i <= |s| && OccursAt(s, "chlor", i);
      assert s[i..i + 3] == s[i..i + 5][..3];
      assert OccursAt(s, "chl", i);
    }
  }

  /** The colour range of a layer: (0, 1) for a chlorophyll variable, the
      default range (None) otherwise. */
  function ColorLimits(name: string): (r: Option<(int, int)>)
    ensures r.Some? <==> Contains(Lower(name), "chl")
    ensures r.Some? ==> r.value == (0, 1)
  {
    var low := Lower(name);
    ChlorContainsChl(low);
    if Contains(low, "chl") || Contains(low, "chlor") then Some((0, 1)) else None
  }

  lemma ColorLimitsOfLayers()
    ensures ColorLimits("chlor_a") == Some((0, 1))
    ensures ColorLimits("CHL") == Some((0, 1))
    ensures ColorLimits("sst") == None
  {
    assert OccursAt(Lower("chlor_a"), "chl", 0);
    assert OccursAt(Lower("CHL"), "chl", 0);
    var low := Lower("sst");
    assert low[0] == 's';
    assert !OccursAt(low, "chl", 0);
  }
}
