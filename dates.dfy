/**
 * parse_date of collect.py: "mm/dd/yyyy" split on '/', each field through int(),
 * then datetime.date(year, month, day) with its range and leap-year checks.
 */
module Dates {
  import opened Wrappers
  import Text
  import Search

  datatype Date = Date(year: int, month: int, day: int)

  /** The ValueError raised by the unpacking, by int() or by date(). */
  datatype DateError = NotANumber | WrongFieldCount | OutOfRange

  const MinYear: int := 1
  const MaxYear: int := 9999

  /** The Gregorian rule that date() applies. */
  predicate IsLeapYear(y: int) {
    y % 4 == 0 && (y % 100 != 0 || y % 400 == 0)
  }

  function DaysInMonth(y: int, m: int): (n: int)
    requires 1 <= m <= 12
    ensures 28 <= n <= 31
    ensures n == 29 <==> m == 2 && IsLeapYear(y)
  {
    if m == 2 then (if IsLeapYear(y) then 29 else 28)
    else if m == 4 || m == 6 || m == 9 || m == 11 then 30
    else 31
  }

  /** The dates that date(year, month, day) accepts. */
  predicate IsValid(d: Date) {
    && MinYear <= d.year <= MaxYear
    && 1 <= d.month <= 12
    && 1 <= d.day <= DaysInMonth(d.year, d.month)
  }

  /** s.join over one separator character. */
  function Join(fields: seq<string>, sep: char): string
    requires |fields| >= 1
  {
    if |fields| == 1 then fields[0] else fields[0] + [sep] + Join(fields[1..], sep)
  }

  /** s.split(sep): the pieces between separators, always at least one. */
  function Split(s: string, sep: char): (fields: seq<string>)
    ensures |fields| >= 1
    ensures forall i :: 0 <= i < |fields| ==> sep !in fields[i]
    ensures Join(fields, sep) == s
    decreases |s|
  {
    match Search.FirstIndexOf(s, sep)
    case None => [s]
    case Some(i) =>
      var rest := Split(s[i + 1..], sep);
      assert sep !in s[..i] by {
        forall j | 0 <= j < i ensures s[..i][j] != sep {}
      }
      assert s == s[..i] + [sep] + s[i + 1..];
      [s[..i]] + rest
  }

  /** Splitting undoes joining when no piece holds the separator. */
  lemma {:induction false} SplitJoin(fields: seq<string>, sep: char)
    requires |fields| >= 1
    requires forall i :: 0 <= i < |fields| ==> sep !in fields[i]
    ensures Split(Join(fields, sep), sep) == fields
  {
    var s := Join(fields, sep);
    if |fields| > 1 {
      var f := fields[0];
      var tail := Join(fields[1..], sep);
      assert s == f + [sep] + tail;
      assert s[|f|] == sep;
      assert forall j :: 0 <= j < |f| ==> s[j] == f[j];
      assert Search.FirstIndexOf(s, sep) == Some(|f|);
      assert s[..|f|] == f;
      assert s[|f| + 1..] == tail;
      SplitJoin(fields[1..], sep);
    }
  }

  /** Every field passes int(). */
  predicate AllNumbers(fields: seq<string>) {
    forall i :: 0 <= i < |fields| ==> Text.ParseInt(fields[i]).Some?
  }

  /** parse_date: month, day and year from "m/d/y", then date(year, month, day). */
  function ParseDate(text: string): (r: Result<Date, DateError>)
    ensures r.Success? ==> IsValid(r.value)
  {
    var fields := Split(text, '/');
    if !AllNumbers(fields) then Failure(NotANumber)
    else if |fields| != 3 then Failure(WrongFieldCount)
    else
      var d := Date(Text.ParseInt(fields[2]).value, Text.ParseInt(fields[0]).value, Text.ParseInt(fields[1]).value);
      if IsValid(d) then Success(d) else Failure(OutOfRange)
  }

  /** A string parses to `d` exactly when it has three numeric fields m/d/y naming the valid date `d`. */
  lemma ParseDateExactly(text: string, d: Date)
    ensures ParseDate(text) == Success(d) <==>
      var f := Split(text, '/');
      && |f| == 3
      && Text.ParseInt(f[0]) == Some(d.month)
      && Text.ParseInt(f[1]) == Some(d.day)
      && Text.ParseInt(f[2]) == Some(d.year)
      && IsValid(d)
  {
    var f := Split(text, '/');
    if |f| == 3 && Text.ParseInt(f[0]) == Some(d.month) && Text.ParseInt(f[1]) == Some(d.day)
      && Text.ParseInt(f[2]) == Some(d.year) && IsValid(d)
    {
      assert AllNumbers(f) by {
        forall i | 0 <= i < |f| ensures Text.ParseInt(f[i]).Some? {
          assert i == 0 || i == 1 || i == 2;
        }
      }
    }
  }

  /** The American rendering m/d/yyyy without leading zeros. */
  function FormatDate(d: Date): string
    requires IsValid(d)
  {
    Text.DecimalString(d.month) + "/" + Text.DecimalString(d.day) + "/" + Text.DecimalString(d.year)
  }

  /** Every valid date survives a round trip through its m/d/y rendering. */
  lemma ParseFormatted(d: Date)
    requires IsValid(d)
    ensures ParseDate(FormatDate(d)) == Success(d)
  {
    var fields := [Text.DecimalString(d.month), Text.DecimalString(d.day), Text.DecimalString(d.year)];
    assert Split(FormatDate(d), '/') == fields by {
      assert Join(fields[2..], '/') == fields[2];
      assert Join(fields[1..], '/') == fields[1] + "/" + fields[2];
      assert Join(fields, '/') == FormatDate(d);
      forall i | 0 <= i < 3 ensures '/' !in fields[i] {
        assert forall k :: 0 <= k < |fields[i]| ==> Text.IsDigit(fields[i][k]);
      }
      SplitJoin(fields, '/');
    }
    Text.ParseDecimal(d.month);
    Text.ParseDecimal(d.day);
    Text.ParseDecimal(d.year);
    ParseDateExactly(FormatDate(d), d);
  }
}
