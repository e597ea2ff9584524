/** The sort key `PaperList` derives from a paper's year. */
module YearOrder {
  import opened Papers
  import opened JsNumbers

  /** The key an undated paper gets: it sorts as if it were from the far future. */
  const Sentinel: int := 9999

  /** `typeof year === 'string' ? parseInt(year) || 9999 : year`. The `|| 9999`
      replaces every falsy parse (NaN, 0), so a textual year never has key 0. */
  function YearKey(y: Year): (k: int)
    ensures y.Num? ==> k == y.n
    ensures y.Str? ==> k != 0
    ensures y.Str? && k != Sentinel ==> ParseInt(y.s) == Int(k)
  {
    match y
    case Num(n) => n
    case Str(s) =>
      var parsed := ParseInt(s);
      if ParsedTruthy(parsed) then parsed.value else Sentinel
  }

  /** A textual year starting with a decimal number has that number as its key, unless
      the number is 0, which is falsy and gives the sentinel: "2025+" has key 2025. */
  lemma KeyOfLeadingDecimal(d: string, rest: string)
    requires |d| > 0 && forall i :: 0 <= i < |d| ==> IsDecimalDigit(d[i])
    requires rest == [] || !IsDecimalDigit(rest[0])
    requires !(d == "0" && rest != [] && (rest[0] == 'x' || rest[0] == 'X'))
    ensures YearKey(Str(d + rest)) == if DigitsValue(d, 10) == 0 then Sentinel else DigitsValue(d, 10)
  {
    ParseIntLeadingDecimal(d, rest);
  }

  /** A textual year without a leading number gets the sentinel: "TBD" has key 9999. */
  lemma KeyOfNoLeadingDigit(s: string)
    requires s != [] && !IsStrWhiteSpace(s[0]) && !IsDecimalDigit(s[0])
    requires s[0] != '+' && s[0] != '-'
    ensures YearKey(Str(s)) == Sentinel
  {
    ParseIntNoLeadingDigit(s);
  }

  /** Writing a non-zero numeric year as text does not change its key: the number 2024
      and the label "2024" sort alike. The number 0 does not: its text parses to a
      falsy 0 and takes the sentinel. */
  lemma KeyOfYearText(n: int)
    ensures YearKey(Str(NumberToString(n))) == if n == 0 then Sentinel else YearKey(Num(n))
  {
    ParseIntNumberToString(n);
  }
}
