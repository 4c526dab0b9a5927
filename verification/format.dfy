/** The NaN guard of the display formatters `to_percent`, `to_percent_num`
    and `to_float`. The digits themselves come from Python's fixed-point
    rendering, which stays a parameter. */
module Format {
  import opened Wrappers

  /** A float as the formatters see it: not-a-number, or a real value. */
  datatype Num = NaN | Val(x: real)

  /** `format(x, ".{d}f")`: the fixed-point rendering with `d` digits. */
  type FixedRenderer = (real, nat) -> string

  /** The ValueErrors of a format spec whose precision Python rejects: a
      negative one (`".-1f"`, a spec missing its precision) or one above
      `MaxPrecision` ("precision too big"). */
  datatype FormatError = BadPrecision(decimals: int) | PrecisionTooBig(decimals: int)

  /** The largest precision CPython's float formatting accepts (INT_MAX). */
  const MaxPrecision: int := 2147483647

  /** `to_percent`: `".2%"` renders `x * 100` in fixed point with two digits
      and appends a percent sign. */
  function ToPercent(n: Num, fixed: FixedRenderer): (s: string)
    ensures n.NaN? ==> s == "-"
    ensures n.Val? ==> s == ToPercentNum(n, fixed) + "%"
  {
    match n
    case NaN => "-"
    case Val(x) => fixed(x * 100.0, 2) + "%"
  }

  /** `to_percent_num`: the same digits without the percent sign. */
  function ToPercentNum(n: Num, fixed: FixedRenderer): (s: string)
    ensures n.NaN? ==> s == "-"
    ensures n.Val? ==> ToFloat(Val(n.x * 100.0), 2, fixed) == Success(s)
  {
    match n
    case NaN => "-"
    case Val(x) => fixed(x * 100.0, 2)
  }

  /** `to_float`: fixed point with `decimals` digits; the NaN check comes
      before the format spec is built, so NaN gives "-" even for a bad
      precision. */
  function ToFloat(n: Num, decimals: int, fixed: FixedRenderer): (r: Result<string, FormatError>)
    ensures n.NaN? ==> r == Success("-")
    ensures n.Val? ==> (r.Failure? <==> decimals < 0 || decimals > MaxPrecision)
    ensures r.Failure? && decimals < 0 ==> r.error == BadPrecision(decimals)
    ensures r.Failure? && decimals > MaxPrecision ==> r.error == PrecisionTooBig(decimals)
    ensures n.Val? && 0 <= decimals <= MaxPrecision ==> r == Success(fixed(n.x, decimals))
  {
    match n
    case NaN => Success("-")
    case Val(x) =>
      if decimals < 0 then Failure(BadPrecision(decimals))
      else if decimals > MaxPrecision then Failure(PrecisionTooBig(decimals))
      else Success(fixed(x, decimals))
  }

  /** Python never renders a number as "-", so each formatter gives "-"
      exactly for NaN. */
  lemma DashOnlyForNaN(n: Num, decimals: int, fixed: FixedRenderer)
    requires forall y: real, d: nat :: fixed(y, d) != "-"
    ensures ToPercent(n, fixed) == "-" <==> n.NaN?
    ensures ToPercentNum(n, fixed) == "-" <==> n.NaN?
    ensures ToFloat(n, decimals, fixed) == Success("-") <==> n.NaN?
  {
    if n.Val? {
      var s := ToPercentNum(n, fixed);
      assert ToPercent(n, fixed) == s + "%";
      assert |ToPercent(n, fixed)| == |s| + 1;
      if |s| == 0 {
        assert ToPercent(n, fixed) == "%";
      }
    }
  }
}
