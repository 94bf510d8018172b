/**
 * Text helpers of collect.py: extract_text (non-breaking spaces to spaces,
 * then Python 3's str.strip) and the decimal conversions the scraper relies on,
 * str(n) and int(s), the latter restricted to ASCII digit strings.
 */
module Text {
  import opened Wrappers

  const Nbsp: char := '\U{A0}'

  /** Python 3's str.isspace for one character (the Unicode white space of Python 3). */
  predicate IsSpace(c: char) {
    || c == ' ' || c == '\t' || c == '\n' || c == '\r'
    || c == '\U{B}' || c == '\U{C}'
    || ('\U{1C}' <= c <= '\U{1F}')
    || c == '\U{85}' || c == Nbsp || c == '\U{1680}'
    || ('\U{2000}' <= c <= '\U{200A}')
    || c == '\U{2028}' || c == '\U{2029}' || c == '\U{202F}' || c == '\U{205F}' || c == '\U{3000}'
  }

  /** s.replace('\xa0', ' ') */
  function NbspToSpace(s: string): string {
    if s == [] then [] else [if s[0] == Nbsp then ' ' else s[0]] + NbspToSpace(s[1..])
  }

  /** s.lstrip() */
  function TrimStart(s: string): (r: string)
    ensures |r| <= |s|
  {
    if |s| > 0 && IsSpace(s[0]) then TrimStart(s[1..]) else s
  }

  /** s.rstrip() */
  function TrimEnd(s: string): (r: string)
    ensures |r| <= |s|
  {
    if |s| > 0 && IsSpace(s[|s| - 1]) then TrimEnd(s[..|s| - 1]) else s
  }

  /** str.strip() */
  function Strip(s: string): string {
    TrimEnd(TrimStart(s))
  }

  /** extract_text: the element's text with non-breaking spaces made plain and the ends trimmed. */
  function ExtractText(raw: string): string {
    Strip(NbspToSpace(raw))
  }

  /** replace() turns every non-breaking space into a plain one and leaves every other character. */
  lemma {:induction false} NbspToSpaceSpec(s: string)
    ensures |NbspToSpace(s)| == |s|
    ensures forall i :: 0 <= i < |s| ==> NbspToSpace(s)[i] == (if s[i] == Nbsp then ' ' else s[i])
    ensures Nbsp !in NbspToSpace(s)
  {
    if s != [] {
      NbspToSpaceSpec(s[1..]);
      var r := NbspToSpace(s);
      assert r[1..] == NbspToSpace(s[1..]);
    }
  }

  /** lstrip() drops exactly the leading white space: what is left is a suffix that does not start with any. */
  lemma {:induction false} TrimStartSpec(s: string)
    ensures var r := TrimStart(s);
      && |r| <= |s| && r == s[|s| - |r|..]
      && (forall i :: 0 <= i < |s| - |r| ==> IsSpace(s[i]))
      && (r != [] ==> !IsSpace(r[0]))
  {
    if |s| > 0 && IsSpace(s[0]) {
      TrimStartSpec(s[1..]);
    }
  }

  /** rstrip() drops exactly the trailing white space: what is left is a prefix that does not end with any. */
  lemma {:induction false} TrimEndSpec(s: string)
    ensures var r := TrimEnd(s);
      && |r| <= |s| && r == s[..|r|]
      && (forall i :: |r| <= i < |s| ==> IsSpace(s[i]))
      && (r != [] ==> !IsSpace(r[|r| - 1]))
  {
    if |s| > 0 && IsSpace(s[|s| - 1]) {
      TrimEndSpec(s[..|s| - 1]);
    }
  }

  /** extract_text leaves no non-breaking space and no white space at either end, and never lengthens. */
  lemma ExtractTextClean(raw: string)
    ensures var r := ExtractText(raw);
      && |r| <= |raw|
      && Nbsp !in r
      && (r != [] ==> !IsSpace(r[0]) && !IsSpace(r[|r| - 1]))
  {
    var plain := NbspToSpace(raw);
    var left := TrimStart(plain);
    var r := TrimEnd(left);
    NbspToSpaceSpec(raw);
    TrimStartSpec(plain);
    TrimEndSpec(left);
    assert Nbsp !in left;
    assert r != [] ==> r[0] == left[0];
  }

  /** [extract_text(e) for e in elements] */
  function Texts(raws: seq<string>): (r: seq<string>)
    ensures |r| == |raws| && forall i :: 0 <= i < |raws| ==> r[i] == ExtractText(raws[i])
  {
    seq(|raws|, i requires 0 <= i < |raws| => ExtractText(raws[i]))
  }

  /** Applying extract_text to its own output changes nothing. */
  lemma ExtractTextIdempotent(raw: string)
    ensures ExtractText(ExtractText(raw)) == ExtractText(raw)
  {
    var r := ExtractText(raw);
    ExtractTextClean(raw);
    NbspToSpaceUnchanged(r);
    StripUnchanged(r);
  }

  lemma NbspToSpaceUnchanged(s: string)
    requires Nbsp !in s
    ensures NbspToSpace(s) == s
  {
    NbspToSpaceSpec(s);
  }

  lemma StripUnchanged(s: string)
    requires s != [] ==> !IsSpace(s[0]) && !IsSpace(s[|s| - 1])
    ensures Strip(s) == s
  {
    assert TrimStart(s) == s;
  }

  /** strip() keeps a middle slice of its input and drops only white space around it. */
  lemma StripIsTrimmedSlice(s: string)
    ensures var i, r := |s| - |TrimStart(s)|, TrimEnd(TrimStart(s));
      && i + |r| <= |s| && r == s[i..i + |r|]
      && (forall k :: 0 <= k < i ==> IsSpace(s[k]))
      && (forall k :: i + |r| <= k < |s| ==> IsSpace(s[k]))
  {
    var left := TrimStart(s);
    var r := TrimEnd(left);
    var i := |s| - |left|;
    TrimStartSpec(s);
    TrimEndSpec(left);
    assert r == s[i..i + |r|] by {
      SliceOfSuffix(s, i, |r|);
    }
    assert forall k :: i + |r| <= k < |s| ==> IsSpace(s[k]) by {
      forall k | i + |r| <= k < |s| ensures IsSpace(s[k]) {
        assert s[k] == left[k - i];
      }
    }
  }

  lemma SliceOfSuffix(s: string, i: nat, n: nat)
    requires i + n <= |s|
    ensures s[i..][..n] == s[i..i + n]
  {
  }

  function DigitChar(d: nat): char
    requires d < 10
  {
    ('0' as int + d) as char
  }

  predicate IsDigit(c: char) { '0' <= c <= '9' }

  /** str(n) for a non-negative integer: its decimal digits, without leading zeros. */
  function DecimalString(n: nat): (s: string)
    ensures |s| > 0 && forall i :: 0 <= i < |s| ==> IsDigit(s[i])
    ensures |s| > 1 ==> s[0] != '0'
  {
    if n < 10 then [DigitChar(n)] else DecimalString(n / 10) + [DigitChar(n % 10)]
  }

  /** str(n) for any integer. */
  function IntString(n: int): (s: string)
    ensures |s| > 0
  {
    if n < 0 then "-" + DecimalString(-n) else DecimalString(n)
  }

  /** The value of a string of ASCII digits. */
  function DigitsValue(s: string): nat
    requires forall i :: 0 <= i < |s| ==> IsDigit(s[i])
  {
    if s == [] then 0
    else
      assert IsDigit(s[|s| - 1]);
      DigitsValue(s[..|s| - 1]) * 10 + (s[|s| - 1] as int - '0' as int)
  }

  /** int(s), where only non-empty ASCII digit strings are numbers. */
  function ParseInt(s: string): (r: Option<nat>)
    ensures r.Some? <==> |s| > 0 && forall i :: 0 <= i < |s| ==> IsDigit(s[i])
  {
    if |s| > 0 && forall i :: 0 <= i < |s| ==> IsDigit(s[i]) then Some(DigitsValue(s)) else None
  }

  /** int(str(n)) == n */
  lemma {:induction false} ParseDecimal(n: nat)
    ensures ParseInt(DecimalString(n)) == Some(n)
  {
    var s := DecimalString(n);
    if n < 10 {
      assert s[..|s| - 1] == [];
      assert DigitsValue(s) == DigitsValue([]) * 10 + (DigitChar(n) as int - '0' as int) == n;
    } else {
      ParseDecimal(n / 10);
      assert s[..|s| - 1] == DecimalString(n / 10);
      assert DigitsValue(DecimalString(n / 10)) == n / 10;
    }
  }

  /** str is injective on non-negative integers. */
  lemma DecimalStringInjective(m: nat, n: nat)
    requires DecimalString(m) == DecimalString(n)
    ensures m == n
  {
    ParseDecimal(m);
    ParseDecimal(n);
  }

  function Pow10(k: nat): (r: nat)
    ensures r >= 1
  {
    if k == 0 then 1 else 10 * Pow10(k - 1)
  }

  /** A number whose decimal string has at most k characters is below 10^k. */
  lemma {:induction false} DecimalStringBound(n: nat, k: nat)
    requires |DecimalString(n)| <= k
    ensures n < Pow10(k)
  {
    if n >= 10 {
      DecimalStringBound(n / 10, k - 1);
    }
  }
}
