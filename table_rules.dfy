/**
  The rules shared by both Table classes (quantools/table/_table.py and its
  older copy quantools/table/table.py): which file types may be loaded, how
  the constructor looks for a column to use as a datetime index, which
  columns count as numeric, and how differenced numeric columns are written
  back into a table.
 */
module TableRules {
  import opened Wrappers
  import opened Data

  /** `__authorized_filetype__` */
  const AuthorizedFileTypes: seq<string> := ["csv", "json", "excel", "txt"]

  /** The position of the last dot in `s`, or -1 when it has none. */
  function LastDot(s: string): (i: int)
    ensures -1 <= i < |s|
    ensures i >= 0 ==> s[i] == '.'
    ensures forall k :: i < k < |s| ==> s[k] != '.'
  {
    if |s| == 0 then -1
    else if s[|s| - 1] == '.' then |s| - 1
    else LastDot(s[..|s| - 1])
  }

  /** `s.split(".")[-1]`: the text after the last dot, or all of `s` when it has none. */
  function LastSegment(s: string): (r: string)
    ensures |r| <= |s| && r == s[|s| - |r|..]
    ensures '.' !in r
    ensures r == s || s[|s| - |r| - 1] == '.'
  {
    s[LastDot(s) + 1..]
  }

  /** `base + "." + ext` has file type `ext` whenever `ext` holds no dot. */
  lemma LastSegmentAfterDot(base: string, ext: string)
    requires '.' !in ext
    ensures LastSegment(base + "." + ext) == ext
  {
    var s := base + "." + ext;
    assert s[|base|] == '.';
    assert forall k :: |base| < k < |s| ==> s[k] == ext[k - |base| - 1];
    assert LastDot(s) == |base|;
    assert s[|base| + 1..] == ext;
  }

  /** The file-type check of the constructor, for a `data` that is a path. */
  function CheckFileType(path: string): (r: Result<string, Error>)
    ensures r.Success? <==> LastSegment(path) in AuthorizedFileTypes
    ensures r.Success? ==> r.value == LastSegment(path) && r.value[..] == path[|path| - |r.value|..]
    ensures r.Failure? ==> r.error == UnsupportedFileType(LastSegment(path))
  {
    var ext := LastSegment(path);
    if ext in AuthorizedFileTypes then Success(ext) else Failure(UnsupportedFileType(ext))
  }

  /**
    Every authorized extension after a dot is accepted, and only the part
    after the last dot counts: a second extension decides the outcome, and a
    path that is nothing but an authorized name passes too.
   */
  lemma FileTypeByLastDot(base: string, ext: string)
    requires '.' !in ext
    ensures CheckFileType(base + "." + ext).Success? <==> ext in AuthorizedFileTypes
    ensures ext in AuthorizedFileTypes ==> CheckFileType(ext) == Success(ext)
  {
    LastSegmentAfterDot(base, ext);
    assert LastSegment(ext) == ext;
  }

  /** One element of the two date patterns: `\d` or a literal character. */
  datatype PatternItem = AnyDigit | Literal(c: char)

  /** `\d{4}-\d{2}-\d{2}` */
  const IsoDate: seq<PatternItem> :=
    [AnyDigit, AnyDigit, AnyDigit, AnyDigit, Literal('-'), AnyDigit, AnyDigit, Literal('-'), AnyDigit, AnyDigit]

  /** `\d{2}/\d{2}/\d{4}` */
  const DayFirstDate: seq<PatternItem> :=
    [AnyDigit, AnyDigit, Literal('/'), AnyDigit, AnyDigit, Literal('/'), AnyDigit, AnyDigit, AnyDigit, AnyDigit]

  predicate IsDigit(c: char) {
    '0' <= c <= '9'
  }

  predicate ItemMatches(p: PatternItem, c: char) {
    match p
    case AnyDigit => IsDigit(c)
    case Literal(l) => c == l
  }

  /** `re.match(pattern, s)`: the pattern matches a prefix of `s`; the rest of `s` is not looked at. */
  predicate MatchesAtStart(pat: seq<PatternItem>, s: string)
    decreases |pat|
  {
    pat == [] || (|s| > 0 && ItemMatches(pat[0], s[0]) && MatchesAtStart(pat[1..], s[1..]))
  }

  /** The recursive matcher agrees with a position-by-position reading of the pattern. */
  lemma {:induction false} MatchesAtStartPositional(pat: seq<PatternItem>, s: string)
    ensures MatchesAtStart(pat, s) <==>
            |pat| <= |s| && forall i :: 0 <= i < |pat| ==> ItemMatches(pat[i], s[i])
    decreases |pat|
  {
    if pat != [] && |s| > 0 {
      MatchesAtStartPositional(pat[1..], s[1..]);
      if |pat| <= |s| && forall i :: 0 <= i < |pat| ==> ItemMatches(pat[i], s[i]) {
        assert forall i :: 0 <= i < |pat| - 1 ==> pat[1..][i] == pat[i + 1] && s[1..][i] == s[i + 1];
      }
      if MatchesAtStart(pat, s) {
        forall i | 0 <= i < |pat|
          ensures ItemMatches(pat[i], s[i])
        {
          if i > 0 {
            assert pat[1..][i - 1] == pat[i] && s[1..][i - 1] == s[i];
          }
        }
      }
    }
  }

  /** Whatever follows a match does not change it. */
  lemma MatchIgnoresSuffix(pat: seq<PatternItem>, s: string, t: string)
    ensures MatchesAtStart(pat, s) ==> MatchesAtStart(pat, s + t)
  {
    MatchesAtStartPositional(pat, s);
    MatchesAtStartPositional(pat, s + t);
  }

  /**
    The text test of the constructor: either date pattern at the start of the
    string. Both patterns are ten characters long and put digits first,
    second and last.
   */
  predicate LooksLikeDate(s: string)
    ensures LooksLikeDate(s) ==> |s| >= 10 && IsDigit(s[0]) && IsDigit(s[1]) && IsDigit(s[9])
  {
    MatchesAtStartPositional(IsoDate, s);
    MatchesAtStartPositional(DayFirstDate, s);
    MatchesAtStart(IsoDate, s) || MatchesAtStart(DayFirstDate, s)
  }

  /** No string is read under both patterns: they differ in the fifth character. */
  lemma DatePatternsDisjoint(s: string)
    ensures !(MatchesAtStart(IsoDate, s) && MatchesAtStart(DayFirstDate, s))
  {
    MatchesAtStartPositional(IsoDate, s);
    MatchesAtStartPositional(DayFirstDate, s);
    assert IsoDate[4] == Literal('-') && DayFirstDate[4] == AnyDigit;
  }

  /** A year-first date is recognised. */
  lemma IsoDateAccepted()
    ensures LooksLikeDate("2021-03-04")
  {
    var iso := "2021-03-04";
    assert ItemMatches(IsoDate[0], iso[0]);
    assert ItemMatches(IsoDate[1], iso[1]);
    assert ItemMatches(IsoDate[2], iso[2]);
    assert ItemMatches(IsoDate[3], iso[3]);
    assert ItemMatches(IsoDate[4], iso[4]);
    assert ItemMatches(IsoDate[5], iso[5]);
    assert ItemMatches(IsoDate[6], iso[6]);
    assert ItemMatches(IsoDate[7], iso[7]);
    assert ItemMatches(IsoDate[8], iso[8]);
    assert ItemMatches(IsoDate[9], iso[9]);
    MatchesAtStartPositional(IsoDate, iso);
  }

  /** A day-first date is recognised. */
  lemma DayFirstDateAccepted()
    ensures LooksLikeDate("04/03/2021")
  {
    var dayFirst := "04/03/2021";
    assert ItemMatches(DayFirstDate[0], dayFirst[0]);
    assert ItemMatches(DayFirstDate[1], dayFirst[1]);
    assert ItemMatches(DayFirstDate[2], dayFirst[2]);
    assert ItemMatches(DayFirstDate[3], dayFirst[3]);
    assert ItemMatches(DayFirstDate[4], dayFirst[4]);
    assert ItemMatches(DayFirstDate[5], dayFirst[5]);
    assert ItemMatches(DayFirstDate[6], dayFirst[6]);
    assert ItemMatches(DayFirstDate[7], dayFirst[7]);
    assert ItemMatches(DayFirstDate[8], dayFirst[8]);
    assert ItemMatches(DayFirstDate[9], dayFirst[9]);
    MatchesAtStartPositional(DayFirstDate, dayFirst);
  }

  /** Another separator, or anything before the date, is not a date to the constructor. */
  lemma DatesRejected()
    ensures !LooksLikeDate("2021/03/04")
    ensures !LooksLikeDate(" 2021-03-04")
  {
    var slashed := "2021/03/04";
    var padded := " 2021-03-04";
    MatchesAtStartPositional(IsoDate, slashed);
    assert !ItemMatches(IsoDate[4], slashed[4]);
    MatchesAtStartPositional(DayFirstDate, slashed);
    assert !ItemMatches(DayFirstDate[2], slashed[2]);
    MatchesAtStartPositional(IsoDate, padded);
    assert !ItemMatches(IsoDate[0], padded[0]);
    MatchesAtStartPositional(DayFirstDate, padded);
    assert !ItemMatches(DayFirstDate[0], padded[0]);
  }

  /**
    A first value as the constructor's type tests see it: a Python `str`, a
    Python `int`, a value the datetime-dtype test accepts, or anything else
    (floats, numpy scalars, None, ...).
   */
  datatype Cell = Text(text: string) | PyInt(i: int) | DatetimeValue | OtherValue

  /** How a column chosen as index is converted first. */
  datatype Conversion = ParseDates | FromUnixSeconds | AlreadyDatetime

  /** `1e9`: an integer first value above it is read as seconds since the epoch. */
  const UnixThreshold: int := 1000000000

  /** Whether a first value makes its column the index, and how the column is converted. */
  function Qualifies(v: Cell): (c: Option<Conversion>)
    ensures c == Some(ParseDates) <==> v.Text? && LooksLikeDate(v.text)
    ensures c == Some(FromUnixSeconds) <==> v.PyInt? && v.i > UnixThreshold
    ensures c == Some(AlreadyDatetime) <==> v.DatetimeValue?
  {
    match v
    case Text(t) => if LooksLikeDate(t) then Some(ParseDates) else None
    case PyInt(i) => if i > UnixThreshold then Some(FromUnixSeconds) else None
    case DatetimeValue => Some(AlreadyDatetime)
    case OtherValue => None
  }

  /**
    A column: numeric (pandas selects it with `include="number"`; its cells
    are numpy scalars, which are neither `str` nor `int`) or of object dtype.
   */
  datatype ColumnData = Numbers(values: Series) | Objects(cells: seq<Cell>)
  datatype Column = Column(name: string, data: ColumnData)

  /** A frame before the constructor's scan: its columns and whether its index is of datetime dtype. */
  datatype Frame = Frame(columns: seq<Column>, datetimeIndex: bool)

  /** The index of a Table: the one it was built with, or a column moved into it. */
  datatype Index = GivenIndex(isDatetime: bool) | ColumnIndex(column: string, conversion: Conversion) {
    predicate IsDatetime() {
      match this
      case GivenIndex(d) => d
      case ColumnIndex(_, _) => true
    }
  }

  /** `self[col][0]`: None when the column has no first row (pandas raises KeyError). */
  function FirstValue(d: ColumnData): (v: Option<Cell>)
    ensures d.Numbers? && v.Some? ==> v.value == OtherValue
    ensures v.Some? <==> (if d.Numbers? then |d.values| > 0 else |d.cells| > 0)
  {
    match d
    case Numbers(vs) => if |vs| == 0 then None else Some(OtherValue)
    case Objects(cs) => if |cs| == 0 then None else Some(cs[0])
  }

  /** The column is looked at and passed over by the scan. */
  predicate PassedOver(c: Column) {
    FirstValue(c.data).Some? && Qualifies(FirstValue(c.data).value).None?
  }

  /**
    The scan of the constructor from column `i` on: the first column whose
    first value qualifies, or the first column without a first value (an
    error), whichever comes first; None when every column is passed over.
   */
  function ScanFrom(cols: seq<Column>, i: nat): (r: Result<Option<(nat, Conversion)>, Error>)
    requires i <= |cols|
    ensures r.Success? && r.value.Some? ==>
              var j := r.value.value.0;
              && i <= j < |cols|
              && FirstValue(cols[j].data).Some?
              && Qualifies(FirstValue(cols[j].data).value) == Some(r.value.value.1)
              && forall k :: i <= k < j ==> PassedOver(cols[k])
    ensures r == Success(None) <==> forall k :: i <= k < |cols| ==> PassedOver(cols[k])
    ensures r.Failure? ==>
              exists j :: i <= j < |cols| && FirstValue(cols[j].data).None? && r.error == MissingFirstValue(cols[j].name)
                          && forall k :: i <= k < j ==> PassedOver(cols[k])
    decreases |cols| - i
  {
    if i == |cols| then Success(None)
    else
      var first := FirstValue(cols[i].data);
      if first.None? then Failure(MissingFirstValue(cols[i].name))
      else
        var conv := Qualifies(first.value);
        if conv.Some? then Success(Some((i, conv.value)))
        else ScanFrom(cols, i + 1)
  }

  /** The `for col in self.columns` loop of the constructor, with its `found` flag and `break`. */
  method FindDatetimeColumn(cols: seq<Column>) returns (r: Result<Option<(nat, Conversion)>, Error>)
    ensures r == ScanFrom(cols, 0)
  {
    var found := false;
    var hit: Option<(nat, Conversion)> := None;
    var i := 0;
    while i < |cols|
      invariant 0 <= i <= |cols|
      invariant !found && hit.None?
      invariant ScanFrom(cols, i) == ScanFrom(cols, 0)
    {
      var first := FirstValue(cols[i].data);
      if first.None? {
        return Failure(MissingFirstValue(cols[i].name));
      }
      var conv := Qualifies(first.value);
      if conv.Some? {
        hit := Some((i, conv.value));
        found := true;
        break;
      }
      i := i + 1;
    }
    return Success(hit);
  }

  function RemoveAt<T>(s: seq<T>, j: nat): (r: seq<T>)
    requires j < |s|
    ensures |r| == |s| - 1
    ensures forall k :: 0 <= k < j ==> r[k] == s[k]
    ensures forall k :: j <= k < |r| ==> r[k] == s[k + 1]
  {
    s[..j] + s[j + 1..]
  }

  /**
    The constructor after the frame is built: with `ts` set and an index not
    of datetime dtype, the first qualifying column is converted and moved
    into the index.
   */
  function Construct(f: Frame, ts: bool): (r: Result<(seq<Column>, Index), Error>)
    ensures !ts || f.datetimeIndex ==> r == Success((f.columns, GivenIndex(f.datetimeIndex)))
    ensures r.Failure? ==>
              && ts && !f.datetimeIndex
              && exists j :: 0 <= j < |f.columns| && FirstValue(f.columns[j].data).None?
                             && r.error == MissingFirstValue(f.columns[j].name)
                             && forall k :: 0 <= k < j ==> PassedOver(f.columns[k])
    ensures r.Success? && r.value.1.ColumnIndex? ==>
              exists j :: 0 <= j < |f.columns| && f.columns[j].name == r.value.1.column &&
                          r.value.0 == RemoveAt(f.columns, j) &&
                          FirstValue(f.columns[j].data).Some? &&
                          Qualifies(FirstValue(f.columns[j].data).value) == Some(r.value.1.conversion) &&
                          forall k :: 0 <= k < j ==> PassedOver(f.columns[k])
    ensures ts && r.Success? && !r.value.1.IsDatetime() ==>
              r.value.0 == f.columns && forall k :: 0 <= k < |f.columns| ==> PassedOver(f.columns[k])
  {
    if !ts || f.datetimeIndex then Success((f.columns, GivenIndex(f.datetimeIndex)))
    else
      match ScanFrom(f.columns, 0)
      case Failure(e) => Failure(e)
      case Success(None) => Success((f.columns, GivenIndex(false)))
      case Success(Some(hit)) => Success((RemoveAt(f.columns, hit.0), ColumnIndex(f.columns[hit.0].name, hit.1)))
  }

  /**
    Building a Table from a Table's own columns and index changes nothing:
    the scan either is skipped (datetime index) or passes over every column
    again. This covers only a rebuild from the same columns and index; a
    derived frame that has lost row 0, as `dropna` leaves a differenced
    column, makes the scan raise (module `TableSearch`).
   */
  lemma ConstructIdempotent(f: Frame, ts: bool)
    requires Construct(f, ts).Success?
    ensures var t := Construct(f, ts).value;
            Construct(Frame(t.0, t.1.IsDatetime()), ts) == Success((t.0, GivenIndex(t.1.IsDatetime())))
  {
  }

  /** The path to read and its file type; reading the file is outside the model. */
  type Reader = (string, string) -> Frame

  /** `data`: a path to a file, or anything pandas builds a frame from. */
  datatype Source = Path(path: string) | InMemory(frame: Frame)

  /**
    The whole constructor: the file-type check, then the read and the scan.
    A `json` path never gets read: `pd.read_json` is passed a `header`
    argument it does not accept and raises TypeError.
   */
  function Load(data: Source, ts: bool, read: Reader): (r: Result<(seq<Column>, Index), Error>)
    ensures data.Path? && LastSegment(data.path) !in AuthorizedFileTypes ==>
              r == Failure(UnsupportedFileType(LastSegment(data.path)))
    ensures data.Path? && LastSegment(data.path) in AuthorizedFileTypes && LastSegment(data.path) != "json" ==>
              r == Construct(read(data.path, LastSegment(data.path)), ts)
    ensures data.Path? && LastSegment(data.path) == "json" ==> r == Failure(UnexpectedKeyword("header"))
    ensures data.InMemory? ==> r == Construct(data.frame, ts)
  {
    match data
    case Path(p) =>
      (match CheckFileType(p)
       case Failure(e) => Failure(e)
       case Success(ext) =>
         if ext == "json" then Failure(UnexpectedKeyword("header"))
         else Construct(read(p, ext), ts))
    case InMemory(f) => Construct(f, ts)
  }

  /**
    The body of `Table.__init__`: check the file type of a path and read it,
    or take the frame as given; then, with `ts` set and an index not of
    datetime dtype, run the scan and move the column it finds into the index.
   */
  method RunConstructor(data: Source, ts: bool, read: Reader) returns (r: Result<(seq<Column>, Index), Error>)
    ensures r == Load(data, ts, read)
  {
    var frame: Frame;
    match data {
      case Path(p) =>
        var fileType := CheckFileType(p);
        if fileType.Failure? {
          return Failure(fileType.error);
        }
        if fileType.value == "json" {
          return Failure(UnexpectedKeyword("header"));
        }
        frame := read(p, fileType.value);
      case InMemory(f) =>
        frame := f;
    }
    r := ScanFrame(frame, ts);
  }

  /** The part of `Table.__init__` after the frame is built: the search for a datetime column. */
  method ScanFrame(frame: Frame, ts: bool) returns (r: Result<(seq<Column>, Index), Error>)
    ensures r == Construct(frame, ts)
  {
    var columns := frame.columns;
    var index := GivenIndex(frame.datetimeIndex);
    if ts && !frame.datetimeIndex {
      var hit := FindDatetimeColumn(frame.columns);
      if hit.Failure? {
        return Failure(hit.error);
      }
      if hit.value.Some? {
        var j := hit.value.value.0;
        columns := RemoveAt(frame.columns, j);
        index := ColumnIndex(frame.columns[j].name, hit.value.value.1);
      }
    }
    return Success((columns, index));
  }

  /** `select_dtypes(include="number")`: the numeric columns, in table order. */
  function NumericColumns(cols: seq<Column>): (r: seq<NamedSeries>)
    ensures |r| <= |cols|
    ensures (forall k :: 0 <= k < |cols| ==> !cols[k].data.Numbers?) ==> r == []
  {
    if cols == [] then []
    else
      var head := if cols[0].data.Numbers? then [NamedSeries(cols[0].name, cols[0].data.values)] else [];
      head + NumericColumns(cols[1..])
  }

  /** A numeric column is selected under its name; any other column is not. */
  lemma NumericColumnsSingleton(c: Column)
    ensures c.data.Numbers? ==> NumericColumns([c]) == [NamedSeries(c.name, c.data.values)]
    ensures !c.data.Numbers? ==> NumericColumns([c]) == []
  {
    assert [c][1..] == [];
  }

  /**
    `select_dtypes` keeps table order: the selection of two blocks of
    columns is the selection of each, joined. With `NumericColumnsSingleton`
    this fixes the selection of every table.
   */
  lemma {:induction false} NumericColumnsAppend(cs: seq<Column>, ds: seq<Column>)
    ensures NumericColumns(cs + ds) == NumericColumns(cs) + NumericColumns(ds)
  {
    if cs != [] {
      assert (cs + ds)[0] == cs[0];
      assert (cs + ds)[1..] == cs[1..] + ds;
      NumericColumnsAppend(cs[1..], ds);
    } else {
      assert cs + ds == ds;
    }
  }

  /** Numeric series seen again as table columns. */
  function AsColumns(ns: seq<NamedSeries>): (cs: seq<Column>)
    ensures |cs| == |ns|
    ensures forall k :: 0 <= k < |ns| ==> cs[k] == Column(ns[k].name, Numbers(ns[k].values))
  {
    seq(|ns|, k requires 0 <= k < |ns| => Column(ns[k].name, Numbers(ns[k].values)))
  }

  /**
    The scan run over numeric columns only never moves a column into the
    index (their first values are numpy scalars); it fails exactly when some
    column has no rows.
   */
  lemma NumericScanFindsNothing(ns: seq<NamedSeries>)
    ensures ScanFrom(AsColumns(ns), 0).Success? ==> ScanFrom(AsColumns(ns), 0) == Success(None)
    ensures ScanFrom(AsColumns(ns), 0).Failure? <==> exists k :: 0 <= k < |ns| && |ns[k].values| == 0
  {
    var cs := AsColumns(ns);
    var r := ScanFrom(cs, 0);
    if exists k :: 0 <= k < |ns| && |ns[k].values| == 0 {
      var k :| 0 <= k < |ns| && |ns[k].values| == 0;
      assert !PassedOver(cs[k]);
    }
  }

  /**
    `self.loc[:, num.columns] = diffed`: the numeric columns, in order,
    receive the differenced series; every other column is kept.
   */
  function WriteBack(cols: seq<Column>, diffed: seq<Series>): (r: seq<Column>)
    requires |diffed| == |NumericColumns(cols)|
    ensures |r| == |cols|
    decreases |cols|
  {
    if cols == [] then []
    else if cols[0].data.Numbers? then
      [Column(cols[0].name, Numbers(diffed[0]))] + WriteBack(cols[1..], diffed[1..])
    else
      [cols[0]] + WriteBack(cols[1..], diffed)
  }

  /**
    Write-back keeps the table's shape: same columns, names and kinds, and
    every non-numeric column untouched.
   */
  lemma {:induction false} WriteBackShape(cols: seq<Column>, diffed: seq<Series>)
    requires |diffed| == |NumericColumns(cols)|
    ensures var r := WriteBack(cols, diffed);
            && |r| == |cols|
            && (forall k :: 0 <= k < |cols| ==> r[k].name == cols[k].name && r[k].data.Numbers? == cols[k].data.Numbers?)
            && (forall k :: 0 <= k < |cols| && !cols[k].data.Numbers? ==> r[k] == cols[k])
    decreases |cols|
  {
    if cols != [] {
      var r := WriteBack(cols, diffed);
      if cols[0].data.Numbers? {
        WriteBackShape(cols[1..], diffed[1..]);
        assert r[1..] == WriteBack(cols[1..], diffed[1..]);
      } else {
        WriteBackShape(cols[1..], diffed);
        assert r[1..] == WriteBack(cols[1..], diffed);
      }
    }
  }

  /**
    The numeric columns read back after write-back are exactly the
    differenced series, in order, under their old names.
   */
  lemma {:induction false} WriteBackNumeric(cols: seq<Column>, diffed: seq<Series>)
    requires |diffed| == |NumericColumns(cols)|
    ensures var r := WriteBack(cols, diffed);
            && |NumericColumns(r)| == |diffed|
            && forall j :: 0 <= j < |diffed| ==> NumericColumns(r)[j] == NamedSeries(NumericColumns(cols)[j].name, diffed[j])
    decreases |cols|
  {
    if cols != [] {
      var r := WriteBack(cols, diffed);
      if cols[0].data.Numbers? {
        var rest := WriteBack(cols[1..], diffed[1..]);
        WriteBackNumeric(cols[1..], diffed[1..]);
        assert r[0] == Column(cols[0].name, Numbers(diffed[0])) && r[1..] == rest;
        assert NumericColumns(r) == [NamedSeries(cols[0].name, diffed[0])] + NumericColumns(rest);
        assert NumericColumns(cols) == [NamedSeries(cols[0].name, cols[0].data.values)] + NumericColumns(cols[1..]);
        forall j | 0 <= j < |diffed|
          ensures NumericColumns(r)[j] == NamedSeries(NumericColumns(cols)[j].name, diffed[j])
        {
          if j > 0 {
            assert NumericColumns(r)[j] == NumericColumns(rest)[j - 1];
            assert NumericColumns(cols)[j] == NumericColumns(cols[1..])[j - 1];
            assert diffed[j] == diffed[1..][j - 1];
          }
        }
      } else {
        var rest := WriteBack(cols[1..], diffed);
        WriteBackNumeric(cols[1..], diffed);
        assert r[0] == cols[0] && r[1..] == rest;
        assert NumericColumns(r) == NumericColumns(rest);
        assert NumericColumns(cols) == NumericColumns(cols[1..]);
      }
    }
  }
}
