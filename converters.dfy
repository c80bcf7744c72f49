/**
 * The two NetCDF-to-CSV converters (chloro_convertir_nc_a_csv.py and
 * temp_convertir_nc_a_csv.py). Each one walks the files of a folder, converts
 * every ".nc" file into a table of (latitude, longitude, value, year) rows,
 * dropping cells that are missing or equal to the variable's fill value, and
 * writes the concatenation of those tables when there is at least one.
 */
module Converters {
  import opened Wrappers
  import Seqs
  import Numerals
  import Columns

  /** s[i..i + 4] matches the pattern 20\d{2}. */
  predicate YearAt(s: string, i: nat)
  {
    i + 4 <= |s| && s[i] == '2' && s[i + 1] == '0' && Numerals.IsDigit(s[i + 2]) && Numerals.IsDigit(s[i + 3])
  }

  /** The leftmost match at or after from (re.search). */
  function FirstYearAt(s: string, from: nat): (r: Option<nat>)
    requires from <= |s|
    ensures r.Some? ==> from <= r.value && YearAt(s, r.value) && forall k: nat :: from <= k < r.value ==> !YearAt(s, k)
    ensures r.None? ==> forall k: nat :: from <= k ==> !YearAt(s, k)
    decreases |s| - from
  {
    if from == |s| then None
    else if YearAt(s, from) then Some(from)
    else FirstYearAt(s, from + 1)
  }

  /** The number the four matched characters denote. */
  function YearValue(s: string, i: nat): int
    requires YearAt(s, i)
  {
    2000 + 10 * Numerals.DigitValue(s[i + 2]) + Numerals.DigitValue(s[i + 3])
  }

  /** extraer_año: the leftmost "20dd" of the file name as a number, or None. */
  function ExtractYear(name: string): (r: Option<int>)
    ensures r.None? <==> forall k: nat :: !YearAt(name, k)
    ensures r.Some? ==> exists i: nat :: YearAt(name, i) && (forall k: nat :: k < i ==> !YearAt(name, k)) && r.value == YearValue(name, i)
    ensures r.Some? ==> 2000 <= r.value <= 2099
  {
    match FirstYearAt(name, 0)
    case None => None
    case Some(i) => Some(YearValue(name, i))
  }

  lemma FourDigitValue(d: string)
    requires |d| == 4 && forall k :: 0 <= k < 4 ==> Numerals.IsDigit(d[k])
    ensures Numerals.NumeralValue(d) == 1000 * Numerals.DigitValue(d[0]) + 100 * Numerals.DigitValue(d[1])
      + 10 * Numerals.DigitValue(d[2]) + Numerals.DigitValue(d[3])
  {
    var d1, d2, d3 := d[..1], d[..2], d[..3];
    assert d1[..0] == [];
    assert Numerals.NumeralValue(d1) == Numerals.DigitValue(d[0]);
    assert d2[..1] == d1;
    assert Numerals.NumeralValue(d2) == 10 * Numerals.NumeralValue(d1) + Numerals.DigitValue(d[1]);
    assert d3[..2] == d2;
    assert Numerals.NumeralValue(d3) == 10 * Numerals.NumeralValue(d2) + Numerals.DigitValue(d[2]);
    assert d[..3] == d3;
  }

  /** The matched text read with Python's int() gives the same number. */
  lemma YearIsPythonInt(s: string, i: nat)
    requires YearAt(s, i)
    ensures Numerals.ParseInt(s[i..i + 4]) == Some(YearValue(s, i))
  {
    var d := s[i..i + 4];
    assert d[0] == '2' && d[1] == '0' && d[2] == s[i + 2] && d[3] == s[i + 3];
    assert forall k :: 0 <= k < 4 ==> Numerals.IsDigit(d[k]);
    assert Numerals.IsNumeral(d);
    FourDigitValue(d);
    assert Numerals.DigitValue(d[0]) == 2 && Numerals.DigitValue(d[1]) == 0;
    assert Numerals.NumeralValue(d) == YearValue(s, i);
    Numerals.ParseUnsignedDigits(d);
  }

  /** One grid cell of a variable: its coordinates and its value (None for NaN). */
  datatype Cell = Cell(lat: real, lon: real, value: Option<real>)

  /** A data variable of a dataset: its name, the names of its coordinates, its
      cells and its _FillValue attribute. */
  datatype Variable = Variable(name: string, coords: seq<string>, cells: seq<Cell>, fill: Option<real>)

  /** The data variables of an opened dataset, in order. */
  datatype Dataset = Dataset(vars: seq<Variable>)

  datatype Kind = Chlorophyll | Temperature

  /** An output row: latitude, longitude, the value and the year of its file. */
  datatype Row = Row(lat: real, lon: real, value: real, year: Option<int>)

  datatype ConvertError = Unreadable | NoVariable | MissingColumn

  /** ds[name]: the variable of that name. */
  function Find(vars: seq<Variable>, name: string): (r: Option<Variable>)
    ensures r.Some? ==> r.value in vars && r.value.name == name
    ensures r.None? ==> forall v :: v in vars ==> v.name != name
  {
    if vars == [] then None
    else if vars[0].name == name then Some(vars[0])
    else Find(vars[1..], name)
  }

  /** The variable a converter reads: chlor_a, or else the first data variable
      (an IndexError when there is none), for chlorophyll; sst for temperature. */
  function ChooseVariable(kind: Kind, ds: Dataset): (r: Option<Variable>)
    ensures r.Some? ==> r.value in ds.vars
    ensures kind == Chlorophyll ==>
      if exists v :: v in ds.vars && v.name == "chlor_a" then r.Some? && r.value.name == "chlor_a"
      else r == if ds.vars == [] then None else Some(ds.vars[0])
    ensures kind == Temperature ==>
      (r.Some? <==> exists v :: v in ds.vars && v.name == "sst") && (r.Some? ==> r.value.name == "sst")
  {
    match kind
    case Chlorophyll =>
      var target := Find(ds.vars, "chlor_a");
      if target.Some? then target else if ds.vars == [] then None else Some(ds.vars[0])
    case Temperature => Find(ds.vars, "sst")
  }

  function ValueColumn(kind: Kind): string
  {
    match kind
    case Chlorophyll => "chlorophyll"
    case Temperature => "temperature"
  }

  /** The columns every converted table has, in order. */
  function OutputColumns(kind: Kind): seq<string>
  {
    ["latitude", "longitude", ValueColumn(kind), "year"]
  }

  /** The columns of da.to_dataframe().reset_index() with the year added. */
  function FrameColumns(v: Variable): seq<string>
  {
    v.coords + [v.name, "year"]
  }

  function Renaming(kind: Kind, v: Variable): map<string, string>
  {
    map["lat" := "latitude", "lon" := "longitude", v.name := ValueColumn(kind)]
  }

  /** A cell survives the mask and the dropna: present and not the fill value. */
  predicate Kept(fill: Option<real>, c: Cell)
  {
    c.value.Some? && (fill.None? || c.value.value != fill.value)
  }

  function ToRow(c: Cell, year: Option<int>): Row
    requires c.value.Some?
  {
    Row(c.lat, c.lon, c.value.value, year)
  }

  /** The valid cells of a variable as rows, in order. */
  function Valid(v: Variable, year: Option<int>): seq<Row>
  {
    var kept := Seqs.Filter(v.cells, (c: Cell) => Kept(v.fill, c));
    seq(|kept|, i requires 0 <= i < |kept| => ToRow(kept[i], year))
  }

  /** One file: choose the variable, mask, convert, stamp the year, rename,
      drop missing values and select the output columns. */
  function ConvertFile(kind: Kind, name: string, ds: Dataset): (r: Result<Columns.Table<Row>, ConvertError>)
    ensures r.Success? ==> r.value.columns == OutputColumns(kind)
  {
    match ChooseVariable(kind, ds)
    case None => Failure(NoVariable)
    case Some(v) =>
      if !Columns.HasAll(Columns.Rename(FrameColumns(v), Renaming(kind, v)), OutputColumns(kind)) then Failure(MissingColumn)
      else Success(Columns.Table(OutputColumns(kind), Valid(v, ExtractYear(name))))
  }

  /** The rows of a converted file are exactly its kept cells, each stamped with
      the year of the file name: no row holds a missing or a fill value. */
  lemma ValidRows(v: Variable, year: Option<int>, row: Row)
    ensures row in Valid(v, year) <==> exists c :: c in v.cells && Kept(v.fill, c) && row == ToRow(c, year)
  {
    var keep := (c: Cell) => Kept(v.fill, c);
    var kept := Seqs.Filter(v.cells, keep);
    if row in Valid(v, year) {
      var i :| 0 <= i < |kept| && Valid(v, year)[i] == row;
      assert kept[i] in kept;
    }
    if exists c :: c in v.cells && Kept(v.fill, c) && row == ToRow(c, year) {
      var c :| c in v.cells && Kept(v.fill, c) && row == ToRow(c, year);
      assert keep(c);
      assert c in kept;
      var i :| 0 <= i < |kept| && kept[i] == c;
      assert Valid(v, year)[i] == row;
    }
  }

  lemma ConvertedRows(kind: Kind, name: string, ds: Dataset, row: Row)
    requires ConvertFile(kind, name, ds).Success?
    ensures var v := ChooseVariable(kind, ds).value;
      row in ConvertFile(kind, name, ds).value.rows <==>
        exists c :: c in v.cells && c.value == Some(row.value) && v.fill != Some(row.value)
          && row == Row(c.lat, c.lon, row.value, ExtractYear(name))
  {
    var v := ChooseVariable(kind, ds).value;
    ValidRows(v, ExtractYear(name), row);
  }

  predicate IsNetCdf(name: string)
  {
    |name| >= 3 && name[|name| - 3..] == ".nc"
  }

  /** Opening a file; None stands for a file xarray cannot open. */
  function Open(open: string -> Option<Dataset>, kind: Kind, name: string): Result<Columns.Table<Row>, ConvertError>
  {
    match open(name)
    case None => Failure(Unreadable)
    case Some(ds) => ConvertFile(kind, name, ds)
  }

  /** The row lists gathered from the first n entries of the listing, or the
      first file that stopped the script together with its error. */
  function Frames(kind: Kind, listing: seq<string>, open: string -> Option<Dataset>, n: nat): Result<seq<seq<Row>>, (string, ConvertError)>
    requires n <= |listing|
  {
    if n == 0 then Success([])
    else
      match Frames(kind, listing, open, n - 1)
      case Failure(stop) => Failure(stop)
      case Success(frames) =>
        var name := listing[n - 1];
        if !IsNetCdf(name) then Success(frames)
        else
          match Open(open, kind, name)
          case Failure(e) => Failure((name, e))
          case Success(t) => Success(frames + [t.rows])
  }

  /** What a run leaves behind. */
  datatype Run = Written(table: Columns.Table<Row>) | NothingWritten | Aborted(file: string, error: ConvertError)

  /** The script: the loop over the listing, then the concatenation and the
      write, or the message that nothing was obtained. */
  method ConvertFolder(kind: Kind, listing: seq<string>, open: string -> Option<Dataset>) returns (run: Run)
    ensures match Frames(kind, listing, open, |listing|)
      case Failure(stop) => run == Aborted(stop.0, stop.1)
      case Success(frames) =>
        run == if frames == [] then NothingWritten else Written(Columns.Table(OutputColumns(kind), Seqs.Concat(frames)))
  {
    var combined: seq<seq<Row>> := [];
    var i := 0;
    while i < |listing|
      invariant 0 <= i <= |listing|
      invariant Frames(kind, listing, open, i) == Success(combined)
    {
      var name := listing[i];
      if IsNetCdf(name) {
        var converted := Open(open, kind, name);
        if converted.Failure? {
          FailureStops(kind, listing, open, i + 1, |listing|);
          return Aborted(name, converted.error);
        }
        combined := combined + [converted.value.rows];
      }
      i := i + 1;
    }
    if combined == [] {
      run := NothingWritten;
    } else {
      run := Written(Columns.Table(OutputColumns(kind), Seqs.Concat(combined)));
    }
  }

  /** Once a file stops the script, later entries change nothing. */
  lemma {:induction false} FailureStops(kind: Kind, listing: seq<string>, open: string -> Option<Dataset>, n: nat, m: nat)
    requires n <= m <= |listing|
    requires Frames(kind, listing, open, n).Failure?
    ensures Frames(kind, listing, open, m) == Frames(kind, listing, open, n)
    decreases m - n
  {
    if n < m {
      FailureStops(kind, listing, open, n, m - 1);
    }
  }

  /** Nothing is gathered exactly when the listing has no ".nc" file. */
  lemma {:induction false} NoFramesIffNoNetCdf(kind: Kind, listing: seq<string>, open: string -> Option<Dataset>, n: nat)
    requires n <= |listing|
    requires Frames(kind, listing, open, n).Success?
    ensures Frames(kind, listing, open, n).value == [] <==> forall k :: 0 <= k < n ==> !IsNetCdf(listing[k])
  {
    if n > 0 {
      NoFramesIffNoNetCdf(kind, listing, open, n - 1);
    }
  }

  /** Every gathered table is the rows of some ".nc" file of the listing. */
  lemma {:induction false} FramesAreFiles(kind: Kind, listing: seq<string>, open: string -> Option<Dataset>, n: nat, j: nat)
    requires n <= |listing|
    requires Frames(kind, listing, open, n).Success?
    requires j < |Frames(kind, listing, open, n).value|
    ensures exists k :: (0 <= k < n && IsNetCdf(listing[k]) && Open(open, kind, listing[k]).Success?
      && Frames(kind, listing, open, n).value[j] == Open(open, kind, listing[k]).value.rows)
  {
    var frames := Frames(kind, listing, open, n).value;
    var before := Frames(kind, listing, open, n - 1).value;
    if j < |before| {
      FramesAreFiles(kind, listing, open, n - 1, j);
      var k :| 0 <= k < n - 1 && IsNetCdf(listing[k]) && Open(open, kind, listing[k]).Success?
        && before[j] == Open(open, kind, listing[k]).value.rows;
      assert frames[j] == before[j];
    } else {
      assert frames == before + [Open(open, kind, listing[n - 1]).value.rows];
    }
  }

  /** The ".nc" entries of a listing, in listing order. */
  function NcFiles(names: seq<string>): seq<string>
  {
    Seqs.Filter(names, IsNetCdf)
  }

  /** The ".nc" entries of the first n names: those of the first n - 1, then name n - 1 if it is one. */
  lemma NcFilesStep(listing: seq<string>, n: nat)
    requires 0 < n <= |listing|
    ensures NcFiles(listing[..n]) == NcFiles(listing[..n - 1]) + (if IsNetCdf(listing[n - 1]) then [listing[n - 1]] else [])
  {
    assert listing[..n][..n - 1] == listing[..n - 1];
  }

  /** A successful gathering of n entries extends that of the first n - 1. */
  lemma FramesStep(kind: Kind, listing: seq<string>, open: string -> Option<Dataset>, n: nat)
    requires 0 < n <= |listing|
    requires Frames(kind, listing, open, n).Success?
    ensures Frames(kind, listing, open, n - 1).Success?
    ensures IsNetCdf(listing[n - 1]) ==> (Open(open, kind, listing[n - 1]).Success? &&
      Frames(kind, listing, open, n).value == Frames(kind, listing, open, n - 1).value + [Open(open, kind, listing[n - 1]).value.rows])
    ensures !IsNetCdf(listing[n - 1]) ==> Frames(kind, listing, open, n).value == Frames(kind, listing, open, n - 1).value
  {
  }

  /** The gathered tables are the rows of the ".nc" files, one table per file,
      in listing order. */
  lemma {:induction false} FramesFollowListing(kind: Kind, listing: seq<string>, open: string -> Option<Dataset>, n: nat)
    requires n <= |listing|
    requires Frames(kind, listing, open, n).Success?
    ensures |Frames(kind, listing, open, n).value| == |NcFiles(listing[..n])|
    ensures forall j :: 0 <= j < |NcFiles(listing[..n])| ==>
      (Open(open, kind, NcFiles(listing[..n])[j]).Success? &&
       Frames(kind, listing, open, n).value[j] == Open(open, kind, NcFiles(listing[..n])[j]).value.rows)
  {
    if n == 0 {
      assert listing[..0] == [];
    } else {
      FramesStep(kind, listing, open, n);
      FramesFollowListing(kind, listing, open, n - 1);
      NcFilesStep(listing, n);
      var frames, before := Frames(kind, listing, open, n).value, Frames(kind, listing, open, n - 1).value;
      var files, earlier := NcFiles(listing[..n]), NcFiles(listing[..n - 1]);
      if IsNetCdf(listing[n - 1]) {
        forall j | 0 <= j < |files|
          ensures Open(open, kind, files[j]).Success? && frames[j] == Open(open, kind, files[j]).value.rows
        {
          if j < |earlier| {
            assert files[j] == earlier[j] && frames[j] == before[j];
          } else {
            assert files[j] == listing[n - 1];
          }
        }
      } else {
        assert files == earlier && frames == before;
      }
    }
  }

  /** A written table has as many rows as the converted files together. */
  lemma WrittenRowCount(kind: Kind, listing: seq<string>, open: string -> Option<Dataset>)
    requires Frames(kind, listing, open, |listing|).Success?
    ensures |Seqs.Concat(Frames(kind, listing, open, |listing|).value)| == Seqs.SumLengths(Frames(kind, listing, open, |listing|).value)
  {
    Seqs.ConcatLength(Frames(kind, listing, open, |listing|).value);
  }
}
