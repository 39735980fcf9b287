/** The .NET number handling used when naming prefab variants: 32-bit `int`
    arithmetic (unchecked, so it wraps), `String.Trim`, `int.TryParse` on a
    trimmed string, and `int.ToString()`. */
module Numbers {

  import opened Wrappers

  const Int32Min: int := -0x8000_0000
  const Int32Max: int := 0x7fff_ffff
  const TwoTo32: int := 0x1_0000_0000

  predicate InInt32(n: int) {
    Int32Min <= n <= Int32Max
  }

  /** The `int` an unchecked C# addition produces for the exact result `n`:
      `n` shifted by multiples of 2^32 into the `int` range. */
  function Wrap32(n: int): (r: int)
    ensures InInt32(r)
    ensures InInt32(n) ==> r == n
    ensures n == Int32Max + 1 ==> r == Int32Min
    decreases if n > Int32Max then n - Int32Max else Int32Min - n
  {
    if n > Int32Max then Wrap32(n - TwoTo32)
    else if n < Int32Min then Wrap32(n + TwoTo32)
    else n
  }

  /** `char.IsWhiteSpace`: the ASCII controls tab to carriage return, space,
      U+0085, U+00A0 and the Unicode space and line/paragraph separators. */
  predicate IsWhiteSpace(c: char) {
    || c == ' '
    || ('\t' <= c <= '\r')
    || c == '\U{0085}' || c == '\U{00A0}' || c == '\U{1680}'
    || ('\U{2000}' <= c <= '\U{200A}')
    || c == '\U{2028}' || c == '\U{2029}' || c == '\U{202F}' || c == '\U{205F}' || c == '\U{3000}'
  }

  /** `TrimStart()`: drops the leading white space and nothing else. */
  function TrimStart(s: string): (r: string)
    ensures |r| <= |s| && r == s[|s| - |r|..]
    ensures |r| == 0 || !IsWhiteSpace(r[0])
    ensures forall k :: 0 <= k < |s| - |r| ==> IsWhiteSpace(s[k])
  {
    if |s| > 0 && IsWhiteSpace(s[0]) then TrimStart(s[1..]) else s
  }

  /** `TrimEnd()`: drops the trailing white space and nothing else. */
  function TrimEnd(s: string): (r: string)
    ensures |r| <= |s| && r == s[..|r|]
    ensures |r| == 0 || !IsWhiteSpace(r[|r| - 1])
    ensures forall k :: |r| <= k < |s| ==> IsWhiteSpace(s[k])
  {
    if |s| > 0 && IsWhiteSpace(s[|s| - 1]) then TrimEnd(s[..|s| - 1]) else s
  }

  /** How many white-space characters `s` starts with. */
  function LeadingSpace(s: string): (n: nat)
    ensures n <= |s|
    ensures forall k :: 0 <= k < n ==> IsWhiteSpace(s[k])
    ensures n == |s| || !IsWhiteSpace(s[n])
  {
    |s| - |TrimStart(s)|
  }

  /** `Trim()`: the text between the leading and the trailing white space. */
  function Trim(s: string): (r: string)
    ensures |r| == 0 || (!IsWhiteSpace(r[0]) && !IsWhiteSpace(r[|r| - 1]))
  {
    TrimEnd(TrimStart(s))
  }

  /** Everything in `s` from index `i` on is white space. */
  predicate SpaceFrom(s: string, i: nat) {
    forall k :: i <= k < |s| ==> IsWhiteSpace(s[k])
  }

  lemma TrimEndLeavesSpace(t: string)
    ensures SpaceFrom(t, |TrimEnd(t)|)
  {
  }

  /** A prefix `r` of the suffix `t` of `s` starting at `i`, followed in
      `t` only by white space, is the slice of `s` at `i`, followed in `s`
      only by white space. */
  lemma PrefixOfSuffix(s: string, i: nat, t: string, r: string)
    requires i <= |s| && t == s[i..] && |r| <= |t| && r == t[..|r|]
    requires SpaceFrom(t, |r|)
    ensures i + |r| <= |s| && r == s[i..i + |r|]
    ensures SpaceFrom(s, i + |r|)
  {
    forall k | i + |r| <= k < |s| ensures IsWhiteSpace(s[k]) {
      assert s[k] == t[k - i];
    }
  }

  /** `Trim` keeps exactly the text after the leading white space and before
      the trailing white space. */
  lemma TrimKeepsMiddle(s: string)
    ensures LeadingSpace(s) + |Trim(s)| <= |s|
    ensures Trim(s) == s[LeadingSpace(s)..LeadingSpace(s) + |Trim(s)|]
    ensures SpaceFrom(s, LeadingSpace(s) + |Trim(s)|)
  {
    var t := TrimStart(s);
    var r := TrimEnd(t);
    TrimEndLeavesSpace(t);
    PrefixOfSuffix(s, |s| - |t|, t, r);
  }

  lemma {:induction false} TrimStartPadding(pad: string, s: string)
    requires forall k :: 0 <= k < |pad| ==> IsWhiteSpace(pad[k])
    requires |s| > 0 && !IsWhiteSpace(s[0])
    ensures TrimStart(pad + s) == s
    decreases |pad|
  {
    if |pad| == 0 {
      assert pad + s == s;
    } else {
      assert (pad + s)[1..] == pad[1..] + s;
      TrimStartPadding(pad[1..], s);
    }
  }

  /** Trimming a string that neither starts nor ends with white space leaves
      it alone, whatever white space precedes it. */
  lemma TrimmedAlready(pad: string, s: string)
    requires forall k :: 0 <= k < |pad| ==> IsWhiteSpace(pad[k])
    requires |s| > 0 && !IsWhiteSpace(s[0]) && !IsWhiteSpace(s[|s| - 1])
    ensures Trim(pad + s) == s
  {
    TrimStartPadding(pad, s);
  }

  predicate IsDigit(c: char) {
    '0' <= c <= '9'
  }

  predicate AllDigits(s: string) {
    forall k :: 0 <= k < |s| ==> IsDigit(s[k])
  }

  function DigitValue(c: char): (d: nat)
    requires IsDigit(c)
    ensures d < 10
  {
    (c as int) - ('0' as int)
  }

  function Digit(d: nat): (c: char)
    requires d < 10
    ensures IsDigit(c) && DigitValue(c) == d
  {
    ('0' as int + d) as char
  }

  /** The value of a run of decimal digits, most significant first. */
  function DigitsValue(s: string): nat
    requires AllDigits(s)
  {
    if |s| == 0 then 0 else DigitsValue(s[..|s| - 1]) * 10 + DigitValue(s[|s| - 1])
  }

  /** `n.ToString()` for a non-negative `n`: its decimal digits without
      leading zeros. */
  function FormatNat(n: nat): (s: string)
    ensures |s| > 0 && AllDigits(s)
    ensures |s| > 1 ==> s[0] != '0'
    decreases n
  {
    if n < 10 then [Digit(n)] else FormatNat(n / 10) + [Digit(n % 10)]
  }

  /** `n.ToString()` for an `int`, with '-' as the negative sign: a minus
      sign exactly for a negative number, then the digits of its magnitude
      without leading zeros. */
  function FormatInt(n: int): (s: string)
    ensures |s| > 0 && !IsWhiteSpace(s[0]) && !IsWhiteSpace(s[|s| - 1])
    ensures s[0] == '-' <==> n < 0
    ensures n >= 0 ==> IsDigit(s[0])
    ensures IsIntegerText(s) && (|Unsigned(s)| > 1 ==> Unsigned(s)[0] != '0')
  {
    if n < 0 then
      var d := FormatNat(-n);
      assert ("-" + d)[1..] == d;
      "-" + d
    else FormatNat(n)
  }

  /** A printed `int` denotes that `int`. */
  lemma FormatIntValue(n: int)
    ensures TextValue(FormatInt(n)) == n
  {
    var s := FormatInt(n);
    if n < 0 {
      var d := FormatNat(-n);
      assert s == "-" + d;
      assert s[1..] == d;
      DigitsOfFormat(-n);
      assert TextValue(s) == -(DigitsValue(d) as int);
    } else {
      assert s == FormatNat(n);
      DigitsOfFormat(n);
    }
  }

  /** A printed `int` is a minus sign or a digit at every position. */
  lemma FormatIntChars(n: int)
    ensures forall k :: 0 <= k < |FormatInt(n)| ==> IsDigit(FormatInt(n)[k]) || FormatInt(n)[k] == '-'
  {
  }

  predicate IsSign(c: char) {
    c == '-' || c == '+'
  }

  /** The text after an optional leading sign. */
  function Unsigned(s: string): (d: string)
    ensures d == s || (|s| > 0 && IsSign(s[0]) && d == s[1..])
  {
    if |s| > 0 && IsSign(s[0]) then s[1..] else s
  }

  /** An optional sign, then at least one ASCII digit, and nothing else. */
  predicate IsIntegerText(s: string) {
    |Unsigned(s)| > 0 && AllDigits(Unsigned(s))
  }

  /** The integer such a text denotes. */
  function TextValue(s: string): int
    requires IsIntegerText(s)
  {
    if s[0] == '-' then -(DigitsValue(Unsigned(s)) as int) else DigitsValue(Unsigned(s))
  }

  /** `int.TryParse` of a trimmed string with the invariant signs: it
      succeeds exactly on an integer text whose value fits an `int`, and
      yields that value. */
  function TryParseInt32(s: string): (r: Option<int>)
    ensures r.Some? <==> IsIntegerText(s) && InInt32(TextValue(s))
    ensures r.Some? ==> r.value == TextValue(s)
  {
    if |s| > 0 && (s[0] == '-' || s[0] == '+') then
      var digits := s[1..];
      if |digits| > 0 && AllDigits(digits) then
        var v: int := if s[0] == '-' then -(DigitsValue(digits) as int) else DigitsValue(digits);
        if InInt32(v) then Some(v) else None
      else None
    else if |s| > 0 && AllDigits(s) then
      var v := DigitsValue(s);
      if InInt32(v) then Some(v) else None
    else None
  }

  /** Reading back the digits of a formatted number gives the number. */
  lemma {:induction false} DigitsOfFormat(n: nat)
    ensures DigitsValue(FormatNat(n)) == n
    decreases n
  {
    var s := FormatNat(n);
    if n >= 10 {
      DigitsOfFormat(n / 10);
      assert s[..|s| - 1] == FormatNat(n / 10);
    } else {
      assert s[..0] == [];
    }
  }

  /** Parsing a formatted `int` gives the `int` back. */
  lemma ParseFormat(n: int)
    requires InInt32(n)
    ensures TryParseInt32(FormatInt(n)) == Some(n)
  {
    FormatIntValue(n);
  }

  lemma {:induction false} ZeroPaddedDigits(d: string)
    requires AllDigits(d)
    ensures AllDigits("0" + d) && DigitsValue("0" + d) == DigitsValue(d)
    decreases |d|
  {
    var z := "0" + d;
    if |d| == 0 {
      assert z[..0] == [];
    } else {
      var init := d[..|d| - 1];
      ZeroPaddedDigits(init);
      assert z[..|z| - 1] == "0" + init;
      assert z[|z| - 1] == d[|d| - 1];
    }
  }

  /** Leading zeros do not change what a string of digits parses to:
      "007" reads as 7. */
  lemma ZeroPaddedParses(d: string)
    requires |d| > 0 && AllDigits(d)
    ensures TryParseInt32("0" + d) == TryParseInt32(d)
  {
    ZeroPaddedDigits(d);
    assert Unsigned("0" + d) == "0" + d;
  }

  /** A digit followed by anything but digits does not parse: "1x" fails. */
  lemma TrailingLetterFails(d: string, c: char)
    requires |d| > 0 && AllDigits(d) && !IsDigit(c)
    ensures TryParseInt32(d + [c]).None?
  {
    var s := d + [c];
    assert s[|s| - 1] == c;
    assert !IsSign(s[0]) by {
      assert s[0] == d[0];
    }
  }
}
