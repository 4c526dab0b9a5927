/** `get_freq`: a case-insensitive lookup of a period code in a fixed table
    of descriptions. */
module Frequency {
  import opened Wrappers
  import opened Collections

  /** The 25 period codes and their descriptions, exactly as the source
      spells them (note the capital in "Yearly" for `YE`). */
  const Periods: map<string, string> := map[
    "B" := "business day",
    "C" := "custom business day",
    "D" := "daily",
    "WE" := "weekly",
    "ME" := "monthly",
    "YE" := "Yearly",
    "BM" := "business month end",
    "CBM" := "custom business month end",
    "MS" := "month start",
    "BMS" := "business month start",
    "CBMS" := "custom business month start",
    "Q" := "quarterly",
    "BQ" := "business quarter end",
    "QS" := "quarter start",
    "BQS" := "business quarter start",
    "Y" := "yearly",
    "A" := "yearly",
    "BA" := "business year end",
    "AS" := "year start",
    "BAS" := "business year start",
    "H" := "hourly",
    "T" := "minutely",
    "S" := "secondly",
    "L" := "milliseconds",
    "U" := "microseconds"]

  /** The codes of the table, in the order the source lists them. */
  const PeriodCodes: seq<string> := [
    "B", "C", "D", "WE", "ME", "YE", "BM", "CBM", "MS", "BMS", "CBMS", "Q", "BQ",
    "QS", "BQS", "Y", "A", "BA", "AS", "BAS", "H", "T", "S", "L", "U"]

  /** The table has 25 entries, one per listed code. */
  lemma PeriodCount()
    ensures Periods.Keys == set c | c in PeriodCodes
    ensures |Periods| == 25
  {
    assert Periods.Keys == set c | c in PeriodCodes;
    assert Distinct(PeriodCodes);
    DistinctCard(PeriodCodes);
  }

  predicate IsLowerAscii(c: char) { 'a' <= c <= 'z' }

  predicate IsUpperAscii(c: char) { 'A' <= c <= 'Z' }

  /** `str.upper` on one character, for the ASCII letters. */
  function UpperChar(c: char): (u: char)
    ensures !IsLowerAscii(u)
    ensures IsLowerAscii(c) ==> IsUpperAscii(u) && u as int + 32 == c as int
    ensures !IsLowerAscii(c) ==> u == c
  {
    if IsLowerAscii(c) then (c as int - 32) as char else c
  }

  /** `str.lower` on one character, for the ASCII letters. */
  function LowerChar(c: char): (l: char)
    ensures IsUpperAscii(c) ==> IsLowerAscii(l) && UpperChar(l) == c
    ensures !IsUpperAscii(c) ==> l == c
  {
    if IsUpperAscii(c) then (c as int + 32) as char else c
  }

  /** `str.upper`: every lower-case letter raised, nothing else touched. */
  function Upper(s: string): (u: string)
    ensures |u| == |s|
    ensures forall i :: 0 <= i < |s| ==> u[i] == UpperChar(s[i])
  {
    if |s| == 0 then "" else [UpperChar(s[0])] + Upper(s[1..])
  }

  function Lower(s: string): (l: string)
    ensures |l| == |s|
    ensures forall i :: 0 <= i < |s| ==> l[i] == LowerChar(s[i])
  {
    if |s| == 0 then "" else [LowerChar(s[0])] + Lower(s[1..])
  }

  /** Raising twice is raising once. */
  lemma UpperIdempotent(s: string)
    ensures Upper(Upper(s)) == Upper(s)
  {
  }

  /** Raising a lowered word of capitals gives the word back. */
  lemma UpperOfLower(s: string)
    requires forall i :: 0 <= i < |s| ==> IsUpperAscii(s[i])
    ensures Upper(Lower(s)) == s
  {
  }

  /** `get_freq`: look the raised code up in the table. */
  function GetFreq(period: string): (r: Option<string>)
    ensures r.Some? <==> Upper(period) in Periods
    ensures r.Some? ==> r.value == Periods[Upper(period)]
  {
    var key := Upper(period);
    if key in Periods then Some(Periods[key]) else None
  }

  /** Two codes that raise to the same text get the same answer; in
      particular a code and its raised form do. */
  lemma GetFreqCaseInsensitive(p: string, q: string)
    requires Upper(p) == Upper(q)
    ensures GetFreq(p) == GetFreq(q)
    ensures GetFreq(p) == GetFreq(Upper(p))
  {
    UpperIdempotent(p);
  }

  /** Every key is written in capitals. */
  lemma KeysAreCapitals()
    ensures forall k, i :: k in Periods && 0 <= i < |k| ==> IsUpperAscii(k[i])
  {
  }

  /** Every code of the table is also found written in lower case. */
  lemma GetFreqLowerCase(k: string)
    requires k in Periods
    ensures GetFreq(Lower(k)) == Some(Periods[k])
    ensures GetFreq(k) == Some(Periods[k])
  {
    KeysAreCapitals();
    UpperOfLower(k);
    assert Upper(k) == k;
  }

  /** No key is longer than four characters, so no longer code is found. */
  lemma GetFreqLongCode(p: string)
    requires |p| > 4
    ensures GetFreq(p).None?
  {
  }

  /** The fixed answers: `d` and `D` are daily, `A` and `Y` yearly, `YE`
      "Yearly" with a capital, and `ZZ` is unknown. */
  lemma GetFreqValues()
    ensures GetFreq("d") == GetFreq("D") == Some("daily")
    ensures GetFreq("A") == GetFreq("Y") == Some("yearly")
    ensures GetFreq("YE") == GetFreq("ye") == Some("Yearly")
    ensures GetFreq("ZZ").None?
  {
    assert Upper("d") == "D";
    assert Upper("A") == "A" && Upper("Y") == "Y";
    assert Upper("ye") == "YE";
    assert Upper("ZZ") == "ZZ";
  }
}
