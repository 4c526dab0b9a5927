/** `get_csv_data` once the delimited file has been read: schema selection,
    the timestamp text of each row, and the reducer. */
module Csv {
  import opened Wrappers
  import opened Fill
  import opened Collections
  import opened Frames

  /** One field as the reader typed it; a missing field is `None`. */
  datatype Field = Text(s: string) | Number(x: real)

  /** What `pd.read_csv` produced: the header row and one column per field. */
  datatype CsvTable = CsvTable(header: seq<string>, columns: seq<Column<Field>>, rows: nat) {
    predicate Valid() {
      && |header| == |columns|
      && forall j :: 0 <= j < |columns| ==> |columns[j]| == rows
    }
  }

  /** The ValueError pandas raises when a name list of the wrong width is
      assigned to `df.columns`: the schema has `schemaWidth` names, the file
      `fileWidth` fields. */
  datatype CsvError = LengthMismatch(schemaWidth: nat, fileWidth: nat)

  const DailySchema: seq<string> := ["Date", "Open", "High", "Low", "Price", "TickVol", "Vol", "Spread"]
  const IntradaySchema: seq<string> := ["Date", "Time", "Open", "High", "Low", "Price", "TickVol", "Vol", "Spread"]

  /** The names assigned by position: daily bars have no `Time` field. */
  function Schema(dailyBars: bool): (s: seq<string>)
    ensures |s| == if dailyBars then 8 else 9
    ensures s[0] == "Date" && (!dailyBars ==> s[1] == "Time")
    ensures s[PriceAt(dailyBars)] == "Price"
    ensures Distinct(s)
  {
    if dailyBars then DailySchema else IntradaySchema
  }

  /** The position of the `Price` field in the schema. */
  function PriceAt(dailyBars: bool): (k: nat)
  {
    if dailyBars then 4 else 5
  }

  function AsText(c: Option<Field>): (s: Option<string>)
  {
    if c.Some? && c.value.Text? then Some(c.value.s) else None
  }

  /** The text handed to `pd.to_datetime` for one row: `Date`, or
      `Date + " " + Time`. `None` stands for a field that is missing or was
      not read as text. */
  function StampText(t: CsvTable, dailyBars: bool, row: nat): (stamp: Option<string>)
    requires t.Valid() && |t.columns| == |Schema(dailyBars)| && row < t.rows
    ensures dailyBars ==> stamp == AsText(t.columns[0][row])
    ensures !dailyBars && AsText(t.columns[0][row]).Some? && AsText(t.columns[1][row]).Some? ==>
              stamp == Some(AsText(t.columns[0][row]).value + " " + AsText(t.columns[1][row]).value)
    ensures !dailyBars && (AsText(t.columns[0][row]).None? || AsText(t.columns[1][row]).None?) ==> stamp.None?
  {
    var date := AsText(t.columns[0][row]);
    if dailyBars then date
    else
      var time := AsText(t.columns[1][row]);
      if date.Some? && time.Some? then Some(date.value + " " + time.value) else None
  }

  /** `get_csv_data`: rename the columns by position (failing on a width
      mismatch), index the rows by their timestamp text, then reduce to
      `Price` and keep the filled result. */
  function CsvData(t: CsvTable, dailyBars: bool, dropOther: bool): (r: Result<Frame<Option<string>, Field>, CsvError>)
    requires t.Valid()
    ensures r.Failure? <==> |t.columns| != (if dailyBars then 8 else 9)
    ensures r.Failure? ==> r.error == LengthMismatch(|Schema(dailyBars)|, |t.columns|)
    ensures r.Success? ==> r.value.Valid() && |r.value.index| == t.rows
    ensures r.Success? ==> forall i :: 0 <= i < t.rows ==> r.value.index[i] == StampText(t, dailyBars, i)
    ensures r.Success? && !dropOther ==> r.value.names == Schema(dailyBars) && r.value.columns == t.columns
    ensures r.Success? && dropOther ==> r.value.names == ["Price"] && |r.value.columns| == 1
    ensures r.Success? && dropOther ==> r.value.columns == [FillGaps(t.columns[PriceAt(dailyBars)])]
    ensures r.Success? && dropOther ==>
              forall i :: 0 <= i < t.rows && t.columns[PriceAt(dailyBars)][i].Some?
                ==> r.value.columns[0][i] == t.columns[PriceAt(dailyBars)][i]
    ensures r.Success? && dropOther && (exists i :: 0 <= i < t.rows && t.columns[PriceAt(dailyBars)][i].Some?) ==>
              forall i :: 0 <= i < t.rows ==> r.value.columns[0][i].Some?
  {
    var schema := Schema(dailyBars);
    if |t.columns| != |schema| then Failure(LengthMismatch(|schema|, |t.columns|))
    else
      var index := seq(t.rows, i requires 0 <= i < t.rows => StampText(t, dailyBars, i));
      var df := Frame(index, schema, t.columns);
      if !dropOther then Success(df)
      else
        var price := t.columns[PriceAt(dailyBars)];
        DropAllExceptUnique(df, "Price", PriceAt(dailyBars));
        Success(DropAllExcept(df, "Price").returned)
  }

  /** A nine-field file read as daily bars fails instead of misaligning the
      data; read as intraday bars it is accepted. */
  lemma CsvWidthMismatch(t: CsvTable)
    requires t.Valid() && |t.columns| == 9
    ensures CsvData(t, true, true) == Failure(LengthMismatch(8, 9))
    ensures CsvData(t, false, true).Success?
  {
  }
}
