/** `get_yfinance_data` once the vendor's history request has answered. */
module YFinance {
  import opened Wrappers
  import opened Fill
  import opened Collections
  import opened Frames

  /** As written: `rates` is the frame `Ticker(...).history(...)` returned.
      The drop of `drop_all_except` happens in place, but its filled result
      is thrown away, so the price column keeps its gaps. */
  function YFinanceData<I>(rates: Frame<I, real>, dropOther: bool): (df: Frame<I, real>)
    requires rates.Valid()
    ensures df.Valid() && df.index == rates.index
    ensures !dropOther ==> df.columns == rates.columns && |df.names| == |rates.names|
    ensures !dropOther ==> forall j :: 0 <= j < |rates.names| && rates.names[j] != "Close" ==> df.names[j] == rates.names[j]
    ensures !dropOther ==> forall j :: 0 <= j < |rates.names| && rates.names[j] == "Close" ==> df.names[j] == "Price"
    ensures dropOther ==> forall j :: 0 <= j < |df.names| ==> df.names[j] == "Price"
    ensures dropOther ==> (|df.names| == 0 <==> "Close" !in rates.names)
    ensures dropOther ==> |df.columns| == |Positions(rates.names, "Close")|
    ensures dropOther ==> forall j :: 0 <= j < |df.columns| ==> df.columns[j] == rates.columns[Positions(rates.names, "Close")[j]]
  {
    var kept := if dropOther then DropAllExcept(rates, "Close").inPlace else rates;
    Rename(kept, "Close", "Price")
  }

  /** With unique column names, the result is the raw close column, gaps and all. */
  lemma YFinanceUnfilled<I>(rates: Frame<I, real>, i: nat)
    requires rates.Valid()
    requires Distinct(rates.names)
    requires i < |rates.names| && rates.names[i] == "Close"
    ensures YFinanceData(rates, true) == Frame(rates.index, ["Price"], [rates.columns[i]])
  {
    DropAllExceptUnique(rates, "Close", i);
  }

  /** A close column `[1, _]` comes back with its gap, although the reducer
      would have filled it with 1. */
  lemma YFinanceGapSurvives()
    ensures var rates := Frame([10, 11], ["Open", "Close"], [[Some(1.0), Some(2.0)], [Some(1.0), None]]);
            && YFinanceData(rates, true).columns == [[Some(1.0), None]]
            && DropAllExcept(rates, "Close").returned.columns == [[Some(1.0), Some(1.0)]]
  {
    var close: Column<real> := [Some(1.0), None];
    var rates := Frame([10, 11], ["Open", "Close"], [[Some(1.0), Some(2.0)], close]);
    YFinanceUnfilled(rates, 1);
    DropAllExceptUnique(rates, "Close", 1);
    CloseGapFilled(close);
  }

  lemma CloseGapFilled(close: Column<real>)
    requires close == [Some(1.0), None]
    ensures FillGaps(close) == [Some(1.0), Some(1.0)]
  {
    assert LastSeen(close, 1) == Some(1.0);
  }

  /** Corrected: keep the frame `drop_all_except` returns, as the CSV path does. */
  function YFinanceDataFilled<I>(rates: Frame<I, real>, dropOther: bool): (df: Frame<I, real>)
    requires rates.Valid()
    ensures df.Valid() && df.index == rates.index
    ensures !dropOther ==> df == YFinanceData(rates, false)
    ensures dropOther ==> forall j :: 0 <= j < |df.names| ==> df.names[j] == "Price"
    ensures dropOther ==> (|df.names| == 0 <==> "Close" !in rates.names)
    ensures dropOther ==> |df.columns| == |YFinanceData(rates, true).columns|
    ensures dropOther ==> forall j :: 0 <= j < |df.columns| ==> df.columns[j] == FillGaps(YFinanceData(rates, true).columns[j])
  {
    var kept := if dropOther then DropAllExcept(rates, "Close").returned else rates;
    Rename(kept, "Close", "Price")
  }

  /** The corrected adapter leaves no gap in a close column that has a value,
      and changes none of its values. */
  lemma YFinanceFilledHasNoGap<I>(rates: Frame<I, real>, i: nat)
    requires rates.Valid()
    requires Distinct(rates.names)
    requires i < |rates.names| && rates.names[i] == "Close"
    requires exists k :: 0 <= k < |rates.index| && rates.columns[i][k].Some?
    ensures var df := YFinanceDataFilled(rates, true);
            && df.names == ["Price"]
            && (forall k :: 0 <= k < |rates.index| ==> df.columns[0][k].Some?)
            && (forall k :: 0 <= k < |rates.index| && rates.columns[i][k].Some? ==> df.columns[0][k] == rates.columns[i][k])
  {
    DropAllExceptUnique(rates, "Close", i);
    FillLeavesNoGap(rates.columns[i]);
    FillKeepsValues(rates.columns[i]);
  }
}
