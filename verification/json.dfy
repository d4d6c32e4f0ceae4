/**
  The data values a site is rendered against: the JSON document loaded as
  the global context, and the values the engine builds for each render.
 */
module Json {
  import opened Results

  /** A JSON value as the template engine sees it; numbers are integers. */
  datatype Value =
    | Null
    | Bool(b: bool)
    | Int(i: int)
    | Str(s: string)
    | List(items: seq<Value>)
    | Object(fields: map<string, Value>)

  predicate IsDigit(c: char)
  {
    '0' <= c <= '9'
  }

  predicate AllDigits(s: string)
  {
    forall k :: 0 <= k < |s| ==> IsDigit(s[k])
  }

  function DigitChar(d: nat): (c: char)
    requires d < 10
    ensures IsDigit(c)
  {
    (48 + d) as char
  }

  function DigitValue(c: char): (d: nat)
    requires IsDigit(c)
    ensures d < 10
  {
    c as int - 48
  }

  /** The decimal text of `n`: digits only, and no leading zero unless `n` is zero. */
  function NatToString(n: nat): (s: string)
    ensures |s| >= 1 && AllDigits(s)
    ensures s[0] == '0' ==> s == "0"
    decreases n
  {
    if n < 10 then [DigitChar(n)]
    else NatToString(n / 10) + [DigitChar(n % 10)]
  }

  /** The number a string of decimal digits denotes. */
  function DecimalValue(s: string): nat
    requires AllDigits(s)
  {
    if |s| == 0 then 0 else DecimalValue(s[..|s| - 1]) * 10 + DigitValue(s[|s| - 1])
  }

  /** The decimal text of an integer, with a leading `-` when it is negative. */
  function IntToString(i: int): string
  {
    if i < 0 then "-" + NatToString(-i) else NatToString(i)
  }

  /** Reads back an optionally signed decimal integer. */
  function ParseInt(s: string): Option<int>
  {
    if |s| > 1 && s[0] == '-' && AllDigits(s[1..]) then Some(0 - DecimalValue(s[1..]) as int)
    else if |s| > 0 && AllDigits(s) then Some(DecimalValue(s))
    else None
  }

  lemma {:induction false} NatToStringRoundTrip(n: nat)
    ensures DecimalValue(NatToString(n)) == n
    decreases n
  {
    if n >= 10 {
      var s := NatToString(n / 10);
      NatToStringRoundTrip(n / 10);
      assert (s + [DigitChar(n % 10)])[..|s|] == s;
    }
  }

  /** Printing an integer and reading it back gives the integer. */
  lemma IntToStringRoundTrip(i: int)
    ensures ParseInt(IntToString(i)) == Some(i)
  {
    if i < 0 {
      var s := IntToString(i);
      assert s[1..] == NatToString(-i);
      NatToStringRoundTrip(-i);
    } else {
      NatToStringRoundTrip(i);
      assert IntToString(i)[0] != '-';
    }
  }

  /** Distinct integers print differently, so distinct integer ids name distinct files. */
  lemma IntToStringInjective(i: int, j: int)
    ensures IntToString(i) == IntToString(j) ==> i == j
  {
    IntToStringRoundTrip(i);
    IntToStringRoundTrip(j);
  }

  /** Canonical decimal text: no leading zero, no `-0`, and no sign without digits. */
  predicate CanonicalInt(s: string)
  {
    && |s| > 0
    && (s[0] == '0' ==> s == "0")
    && (s[0] == '-' ==> |s| > 1 && s[1] != '0')
  }

  /** Integers print canonically, so an id `7` is `7` and never `007` or `-0`. */
  lemma IntToStringCanonical(i: int)
    ensures CanonicalInt(IntToString(i))
  {
    if i < 0 {
      var t := NatToString(-i);
      assert IntToString(i) == "-" + t && ("-" + t)[1] == t[0];
    }
  }

  /**
    The text of a scalar, as the template engine's `to_kstr` gives it; lists,
    objects and null are not scalars.
   */
  function ScalarText(v: Value): (r: Option<string>)
    ensures r.Some? <==> v.Bool? || v.Int? || v.Str?
    ensures v.Str? ==> r == Some(v.s)
    ensures v.Int? ==> r.Some? && ParseInt(r.value) == Some(v.i) && CanonicalInt(r.value)
    ensures v.Bool? ==> r == Some(if v.b then "true" else "false")
  {
    match v
    case Str(s) => Some(s)
    case Int(i) => IntToStringRoundTrip(i); IntToStringCanonical(i); Some(IntToString(i))
    case Bool(b) => Some(if b then "true" else "false")
    case _ => None
  }
}
