/** `get_mt5_data`: the authorization guard, the timeframe table, the choice
    of history request, and the frame built from the terminal's answer. */
module Mt5 {
  import opened Wrappers
  import opened Fill
  import opened Frames
  import opened Collections

  /** The terminal's `TIMEFRAME_*` constants, as an enumeration. */
  datatype Timeframe =
    | M1 | M2 | M3 | M4 | M5 | M6 | M10 | M12 | M15 | M20 | M30
    | H1 | H2 | H3 | H4 | H6 | H8 | H12
    | D1 | W1 | MN1

  /** The 21-entry table from timeframe code to terminal constant. */
  const Timeframes: map<string, Timeframe> := map[
    "M1" := M1, "M2" := M2, "M3" := M3, "M4" := M4, "M5" := M5, "M6" := M6,
    "M10" := M10, "M12" := M12, "M15" := M15, "M20" := M20, "M30" := M30,
    "H1" := H1, "H2" := H2, "H3" := H3, "H4" := H4, "H6" := H6, "H8" := H8, "H12" := H12,
    "D1" := D1, "W1" := W1, "MN1" := MN1]

  /** The code a timeframe is written as. */
  function Code(tf: Timeframe): (code: string)
  {
    match tf
    case M1 => "M1"   case M2 => "M2"   case M3 => "M3"   case M4 => "M4"
    case M5 => "M5"   case M6 => "M6"   case M10 => "M10" case M12 => "M12"
    case M15 => "M15" case M20 => "M20" case M30 => "M30"
    case H1 => "H1"   case H2 => "H2"   case H3 => "H3"   case H4 => "H4"
    case H6 => "H6"   case H8 => "H8"   case H12 => "H12"
    case D1 => "D1"   case W1 => "W1"   case MN1 => "MN1"
  }

  /** Every timeframe is found under its own code. */
  lemma TimeframeRoundTrip()
    ensures forall tf :: Code(tf) in Timeframes && Timeframes[Code(tf)] == tf
  {
  }

  /** Every key names the timeframe it maps to. */
  lemma TimeframeCodeOfKey(k: string)
    requires k in Timeframes
    ensures Code(Timeframes[k]) == k
  {
  }

  /** The codes of the table, in the order the source lists them. */
  const TimeframeCodes: seq<string> := [
    "M1", "M2", "M3", "M4", "M5", "M6", "M10", "M12", "M15", "M20", "M30",
    "H1", "H2", "H3", "H4", "H6", "H8", "H12", "D1", "W1", "MN1"]

  /** The keys are exactly the 21 listed codes, `M1` to `MN1`. */
  lemma TimeframeCount()
    ensures Timeframes.Keys == set c | c in TimeframeCodes
    ensures |Timeframes| == 21
  {
    assert Timeframes.Keys == set c | c in TimeframeCodes;
    assert Distinct(TimeframeCodes);
    DistinctCard(TimeframeCodes);
  }

  /** An instant handed to the terminal; its calendar meaning is the terminal's. */
  type DateTime = int

  /** A history request to the terminal: `copy_rates_range` or
      `copy_rates_from_pos` (whose last argument the source names `end_pos`). */
  datatype Request =
    | ByRange(timeframe: Timeframe, start: DateTime, end: DateTime)
    | ByPosition(timeframe: Timeframe, startPos: int, endPos: int)

  /** The requests issued, in order: one per complete pair, the date pair
      first. */
  function Requests(tf: Timeframe, startDate: Option<DateTime>, endDate: Option<DateTime>,
                    startPos: Option<int>, endPos: Option<int>): (qs: seq<Request>)
    ensures |qs| == (if startDate.Some? && endDate.Some? then 1 else 0) + (if startPos.Some? && endPos.Some? then 1 else 0)
    ensures forall j :: 0 <= j < |qs| ==> qs[j].timeframe == tf
    ensures startDate.Some? && endDate.Some? ==> qs[0] == ByRange(tf, startDate.value, endDate.value)
    ensures startPos.Some? && endPos.Some? ==> qs[|qs| - 1] == ByPosition(tf, startPos.value, endPos.value)
  {
    (if startDate.Some? && endDate.Some? then [ByRange(tf, startDate.value, endDate.value)] else [])
    + (if startPos.Some? && endPos.Some? then [ByPosition(tf, startPos.value, endPos.value)] else [])
  }

  /** The request whose answer the code keeps: the last one issued. */
  function Chosen(tf: Timeframe, startDate: Option<DateTime>, endDate: Option<DateTime>,
                  startPos: Option<int>, endPos: Option<int>): (q: Option<Request>)
    ensures startPos.Some? && endPos.Some? ==> q == Some(ByPosition(tf, startPos.value, endPos.value))
    ensures !(startPos.Some? && endPos.Some?) && startDate.Some? && endDate.Some? ==>
              q == Some(ByRange(tf, startDate.value, endDate.value))
    ensures q.None? <==> !(startPos.Some? && endPos.Some?) && !(startDate.Some? && endDate.Some?)
  {
    var qs := Requests(tf, startDate, endDate, startPos, endPos);
    if |qs| == 0 then None else Some(qs[|qs| - 1])
  }

  /** The terminal's structured array: the `time` field in epoch seconds and
      the other named fields. */
  datatype Rates = Rates(time: seq<int>, fields: seq<string>, values: seq<Column<real>>) {
    predicate Valid() {
      && |fields| == |values|
      && forall j :: 0 <= j < |values| ==> |values[j]| == |time|
    }
  }

  /** `pd.DataFrame(rates)` indexed by `Datetime`: the `time` field stays a
      column as well. */
  function RatesFrame(rates: Rates): (df: Frame<DateTime, real>)
    requires rates.Valid()
    ensures df.Valid() && df.index == rates.time
    ensures df.names == ["time"] + rates.fields && df.columns[1..] == rates.values
    ensures forall i :: 0 <= i < |rates.time| ==> df.columns[0][i] == Some(rates.time[i] as real)
  {
    var times := seq(|rates.time|, i requires 0 <= i < |rates.time| => Some(rates.time[i] as real));
    Frame(rates.time, ["time"] + rates.fields, [times] + rates.values)
  }

  /** The terminal answers with a well-formed array or with `None`. */
  ghost predicate WellFormed(terminal: Request -> Option<Rates>)
  {
    forall q :: terminal(q).Some? ==> terminal(q).value.Valid()
  }

  /** The request the guards let through, if any. */
  function Fetch(authorized: bool, timeframe: string,
                 startDate: Option<DateTime>, endDate: Option<DateTime>,
                 startPos: Option<int>, endPos: Option<int>): (q: Option<Request>)
    ensures !authorized ==> q.None?
    ensures timeframe !in Timeframes ==> q.None?
    ensures q.Some? ==> q.value.timeframe == Timeframes[timeframe]
    ensures authorized && timeframe in Timeframes ==>
              q == Chosen(Timeframes[timeframe], startDate, endDate, startPos, endPos)
  {
    if !authorized then None
    else if timeframe !in Timeframes then None
    else Chosen(Timeframes[timeframe], startDate, endDate, startPos, endPos)
  }

  /** As written, lines 152-157: build the frame, drop in place, rename.
      The filled frame `drop_all_except` returns is thrown away. */
  function Mt5Frame(rates: Rates, dropOther: bool): (df: Frame<DateTime, real>)
    requires rates.Valid()
    ensures df.Valid() && df.index == rates.time
    ensures !dropOther ==> df.columns == RatesFrame(rates).columns
    ensures !dropOther ==> |df.names| == |rates.fields| + 1 && df.names[0] == "time"
    ensures !dropOther ==> forall j :: 0 <= j < |rates.fields| ==>
              df.names[j + 1] == if rates.fields[j] == "close" then "Price" else rates.fields[j]
    ensures dropOther ==> forall j :: 0 <= j < |df.names| ==> df.names[j] == "Price"
    ensures dropOther ==> (|df.names| == 0 <==> "close" !in rates.fields)
    ensures dropOther ==> |df.columns| == |Positions(RatesFrame(rates).names, "close")|
    ensures dropOther ==> forall j :: 0 <= j < |df.columns| ==>
              df.columns[j] == RatesFrame(rates).columns[Positions(RatesFrame(rates).names, "close")[j]]
  {
    var frame := RatesFrame(rates);
    var kept := if dropOther then DropAllExcept(frame, "close").inPlace else frame;
    Rename(kept, "close", "Price")
  }

  /** Corrected: keep the frame `drop_all_except` returns. */
  function Mt5FrameFilled(rates: Rates, dropOther: bool): (df: Frame<DateTime, real>)
    requires rates.Valid()
    ensures df.Valid() && df.index == rates.time
    ensures !dropOther ==> df == Mt5Frame(rates, false)
    ensures dropOther ==> forall j :: 0 <= j < |df.names| ==> df.names[j] == "Price"
    ensures dropOther ==> (|df.names| == 0 <==> "close" !in rates.fields)
    ensures dropOther ==> |df.columns| == |Mt5Frame(rates, true).columns|
    ensures dropOther ==> forall j :: 0 <= j < |df.columns| ==> df.columns[j] == FillGaps(Mt5Frame(rates, true).columns[j])
  {
    var frame := RatesFrame(rates);
    var kept := if dropOther then DropAllExcept(frame, "close").returned else frame;
    Rename(kept, "close", "Price")
  }

  /** `get_mt5_data` as written: guards, the chosen request, the terminal's
      answer, then the frame with its gaps. */
  function Mt5Data(authorized: bool, timeframe: string,
                   startDate: Option<DateTime>, endDate: Option<DateTime>,
                   startPos: Option<int>, endPos: Option<int>,
                   dropOther: bool, terminal: Request -> Option<Rates>): (r: Option<Frame<DateTime, real>>)
    requires WellFormed(terminal)
    ensures !authorized ==> r.None?
    ensures timeframe !in Timeframes ==> r.None?
    ensures authorized && timeframe in Timeframes ==>
              var q := Chosen(Timeframes[timeframe], startDate, endDate, startPos, endPos);
              && (r.Some? <==> q.Some? && terminal(q.value).Some?)
              && (r.Some? ==> r.value == Mt5Frame(terminal(q.value).value, dropOther))
  {
    var q := Fetch(authorized, timeframe, startDate, endDate, startPos, endPos);
    if q.None? then None
    else
      var rates := terminal(q.value);
      if rates.None? then None else Some(Mt5Frame(rates.value, dropOther))
  }

  /** Corrected `get_mt5_data`: the same guards and request, with the
      filled frame. */
  function Mt5DataFilled(authorized: bool, timeframe: string,
                         startDate: Option<DateTime>, endDate: Option<DateTime>,
                         startPos: Option<int>, endPos: Option<int>,
                         dropOther: bool, terminal: Request -> Option<Rates>): (r: Option<Frame<DateTime, real>>)
    requires WellFormed(terminal)
    ensures r.Some? <==> Mt5Data(authorized, timeframe, startDate, endDate, startPos, endPos, dropOther, terminal).Some?
    ensures authorized && timeframe in Timeframes ==>
              var q := Chosen(Timeframes[timeframe], startDate, endDate, startPos, endPos);
              r.Some? ==> r.value == Mt5FrameFilled(terminal(q.value).value, dropOther)
  {
    var q := Fetch(authorized, timeframe, startDate, endDate, startPos, endPos);
    if q.None? then None
    else
      var rates := terminal(q.value);
      if rates.None? then None else Some(Mt5FrameFilled(rates.value, dropOther))
  }

  /** Called without authorization, the adapter yields `None` whatever the
      other arguments and whatever the terminal would answer. */
  lemma Mt5Unauthorized(timeframe: string, startDate: Option<DateTime>, endDate: Option<DateTime>,
                        startPos: Option<int>, endPos: Option<int>, dropOther: bool,
                        terminal: Request -> Option<Rates>)
    requires WellFormed(terminal)
    ensures Mt5Data(false, timeframe, startDate, endDate, startPos, endPos, dropOther, terminal).None?
    ensures Mt5DataFilled(false, timeframe, startDate, endDate, startPos, endPos, dropOther, terminal).None?
  {
  }

  /** With a unique `close` field the result is that field, renamed and
      unfilled. */
  lemma Mt5Unfilled(rates: Rates, i: nat)
    requires rates.Valid()
    requires "time" !in rates.fields
    requires Distinct(rates.fields)
    requires i < |rates.fields| && rates.fields[i] == "close"
    ensures Mt5Frame(rates, true) == Frame(rates.time, ["Price"], [rates.values[i]])
  {
    var df := RatesFrame(rates);
    forall a, b | 0 <= a < b < |df.names|
      ensures df.names[a] != df.names[b]
    {
      if a > 0 {
        assert df.names[a] == rates.fields[a - 1] && df.names[b] == rates.fields[b - 1];
      } else {
        assert df.names[b] == rates.fields[b - 1];
      }
    }
    assert df.names[i + 1] == "close";
    DropAllExceptUnique(df, "close", i + 1);
    assert df.columns[i + 1] == rates.values[i];
  }

  /** A `close` field `[1, _]` comes back with its gap, although the reducer
      would have filled it with 1. */
  lemma Mt5GapSurvives()
    ensures var rates := Rates([60, 120], ["close"], [[Some(1.0), None]]);
            Mt5Data(true, "M1", None, None, Some(0), Some(2), true, (q: Request) => Some(rates))
              == Some(Frame([60, 120], ["Price"], [[Some(1.0), None]]))
  {
    var rates := Rates([60, 120], ["close"], [[Some(1.0), None]]);
    var terminal := (q: Request) => Some(rates);
    assert Code(M1) == "M1";
    TimeframeRoundTrip();
    assert Chosen(M1, None, None, Some(0), Some(2)) == Some(ByPosition(M1, 0, 2));
    assert Mt5Data(true, "M1", None, None, Some(0), Some(2), true, terminal) == Some(Mt5Frame(rates, true));
    Mt5Unfilled(rates, 0);
  }
}
