/**
 * The .NET text conversions the monitor relies on: decimal formatting of
 * integers (string interpolation of `int`, `ushort`, `uint`), `int.Parse`
 * with the default integer style, `string.Join`, and the dotted-quad text
 * of an IPv4 `IPAddress`.
 */
module Text {
  import opened Bytes
  import opened Wrappers

  predicate IsDigit(c: char) { '0' <= c <= '9' }

  predicate AllDigits(s: string) { forall i :: 0 <= i < |s| ==> IsDigit(s[i]) }

  function DigitChar(d: int): (c: char)
    requires 0 <= d < 10
    ensures IsDigit(c)
  {
    ('0' as int + d) as char
  }

  function DigitValue(c: char): (d: int)
    requires IsDigit(c)
    ensures 0 <= d < 10
  {
    c as int - '0' as int
  }

  /** Decimal text of a natural number: digits only, no leading zero. */
  function NatToString(n: nat): (s: string)
    ensures |s| >= 1 && AllDigits(s)
    ensures |s| > 1 ==> s[0] != '0'
    decreases n
  {
    if n < 10 then [DigitChar(n)] else NatToString(n / 10) + [DigitChar(n % 10)]
  }

  /** The number a string of decimal digits denotes. */
  function DigitsValue(s: string): nat
    requires AllDigits(s)
  {
    if s == [] then 0 else DigitsValue(s[..|s| - 1]) * 10 + DigitValue(s[|s| - 1])
  }

  /** Reading the decimal text of `n` gives back `n`. */
  lemma {:induction false} NatToStringRoundTrip(n: nat)
    ensures DigitsValue(NatToString(n)) == n
    decreases n
  {
    if n >= 10 {
      var s := NatToString(n);
      assert s[..|s| - 1] == NatToString(n / 10);
      NatToStringRoundTrip(n / 10);
    }
  }

  /** Decimal text of an integer, with a leading '-' when negative (invariant culture). */
  function IntToString(i: int): (s: string)
    ensures |s| >= 1
    ensures i < 0 <==> s[0] == '-'
    ensures i >= 0 ==> s == NatToString(i)
  {
    if i < 0 then "-" + NatToString(-i) else NatToString(i)
  }

  /** The characters `int.Parse` skips before and after the number: U+0009 to U+000D and the space. */
  predicate IsWhite(c: char) { c == ' ' || '\t' <= c <= '\r' }

  function TrimStart(s: string): (r: string)
    ensures |r| <= |s| && r == s[|s| - |r|..]
    ensures r != [] ==> !IsWhite(r[0])
    ensures forall i :: 0 <= i < |s| - |r| ==> IsWhite(s[i])
  {
    if s != [] && IsWhite(s[0]) then TrimStart(s[1..]) else s
  }

  function TrimEnd(s: string): (r: string)
    ensures |r| <= |s| && r == s[..|r|]
    ensures r != [] ==> !IsWhite(r[|r| - 1])
    ensures forall i :: |r| <= i < |s| ==> IsWhite(s[i])
  {
    if s != [] && IsWhite(s[|s| - 1]) then TrimEnd(s[..|s| - 1]) else s
  }

  predicate InInt32(v: int) { -TwoTo31 <= v < TwoTo31 }

  /**
   * `int.Parse(s)` with NumberStyles.Integer: optional white space around
   * an optional '+' or '-' followed by one or more decimal digits; the value
   * must fit in 32 bits. `None` stands for the FormatException or
   * OverflowException the call raises otherwise.
   */
  function ParseInt(s: string): (r: Option<int32>)
    ensures r.Some? ==> exists i :: 0 <= i < |s| && IsDigit(s[i])
  {
    var t := TrimEnd(TrimStart(s));
    var r := ParseSignedDigits(t);
    if r.Some? then
      assert t[|t| - 1] in s by {
        assert TrimStart(s) == s[|s| - |TrimStart(s)|..];
      }
      r
    else r
  }

  /** An optional sign and then one or more decimal digits, nothing else, within 32 bits. */
  function ParseSignedDigits(t: string): (r: Option<int32>)
    ensures r.Some? ==> t != [] && IsDigit(t[|t| - 1])
  {
    var negative := |t| > 0 && t[0] == '-';
    var digits := if |t| > 0 && (t[0] == '-' || t[0] == '+') then t[1..] else t;
    if digits == [] || !AllDigits(digits) then None
    else
      var n: int := DigitsValue(digits);
      var v := if negative then -n else n;
      if InInt32(v) then Some(v) else None
  }

  /** What `int.Parse` reads back from the decimal text of any 32-bit integer is that integer. */
  lemma IntToStringRoundTrip(v: int32)
    ensures ParseInt(IntToString(v)) == Some(v)
  {
    var s := IntToString(v);
    TrimmedAlready(s);
    var m: nat := if v < 0 then -(v as int) else v;
    NatToStringRoundTrip(m);
    if v < 0 {
      assert s[1..] == NatToString(m);
    }
  }

  lemma TrimmedAlready(s: string)
    requires s != [] && !IsWhite(s[0]) && !IsWhite(s[|s| - 1])
    ensures TrimEnd(TrimStart(s)) == s
  {
  }

  /** `string.Join(sep, parts)`. */
  function Join(sep: string, parts: seq<string>): (r: string)
    ensures parts == [] ==> r == ""
    ensures |parts| == 1 ==> r == parts[0]
    ensures |parts| > 0 ==> |r| == TotalLength(parts) + |sep| * (|parts| - 1)
  {
    if parts == [] then ""
    else if |parts| == 1 then parts[0]
    else parts[0] + sep + Join(sep, parts[1..])
  }

  function TotalLength(parts: seq<string>): nat
  {
    if parts == [] then 0 else |parts[0]| + TotalLength(parts[1..])
  }

  /** `IPAddress.ToString()` of an IPv4 address: the four octets in memory order, in decimal, dot-separated. */
  function IPv4Text(address: uint32): (s: string)
    ensures |s| >= 7
  {
    var o := UInt32Bytes(address);
    NatToString(o[0]) + "." + NatToString(o[1]) + "." + NatToString(o[2]) + "." + NatToString(o[3])
  }
}
