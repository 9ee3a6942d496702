/**
  A model of the two .NET integer/text conversions the resource-type wrapper
  relies on: `Int32.TryParse(string, out int)` and `Int32.ToString()`.

  The parser models the `NumberStyles.Integer` style under the invariant
  culture: optional leading white space, an optional `+` or `-` sign, one or
  more ASCII decimal digits, optional trailing white space, then any number
  of NUL characters (which the runtime tolerates at the very end of the
  text), and a value that must lie in the 32-bit signed range (an overflow
  makes the parse fail).
 */
module NumberParsing {

  const INT32_MIN: int := -0x8000_0000
  const INT32_MAX: int := 0x7FFF_FFFF

  /** The values of a .NET `int`. */
  type Int32 = x: int | INT32_MIN <= x <= INT32_MAX

  predicate InInt32(x: int) {
    INT32_MIN <= x <= INT32_MAX
  }

  /** Outcome of `Int32.TryParse`: the `true` result with its out value, or `false`. */
  datatype ParseResult = Parsed(value: Int32) | Unparsable

  /** White space accepted around a number: TAB, LF, VT, FF, CR and SPACE. */
  predicate IsNumberWhite(c: char) {
    c == ' ' || '\t' <= c <= '\r'
  }

  predicate IsDigit(c: char) {
    '0' <= c <= '9'
  }

  predicate AllNumberWhite(s: string) {
    forall i :: 0 <= i < |s| ==> IsNumberWhite(s[i])
  }

  predicate AllDigits(s: string) {
    forall i :: 0 <= i < |s| ==> IsDigit(s[i])
  }

  predicate AllNul(s: string) {
    forall i :: 0 <= i < |s| ==> s[i] == '\0'
  }

  function DigitValue(c: char): (d: nat)
    requires IsDigit(c)
    ensures d < 10
  {
    (c as int) - ('0' as int)
  }

  function DigitChar(d: nat): (c: char)
    requires d < 10
    ensures IsDigit(c) && DigitValue(c) == d
  {
    (('0' as int) + d) as char
  }

  /** The value of a string of decimal digits, most significant digit first. */
  function DigitsValue(s: string): nat
    requires AllDigits(s)
  {
    if |s| == 0 then 0 else DigitsValue(s[..|s| - 1]) * 10 + DigitValue(s[|s| - 1])
  }

  /** The value a sign and a digit string denote together. */
  function SignedValue(sign: string, digits: string): int
    requires AllDigits(digits)
  {
    var magnitude: int := DigitsValue(digits);
    if sign == "-" then -magnitude else magnitude
  }

  predicate IsSign(sign: string) {
    sign == "" || sign == "+" || sign == "-"
  }

  /** The accepted shape: white space, sign, at least one digit, white space, NULs. */
  predicate IsNumberShape(lead: string, sign: string, digits: string, trail: string, nuls: string) {
    && AllNumberWhite(lead)
    && IsSign(sign)
    && |digits| > 0
    && AllDigits(digits)
    && AllNumberWhite(trail)
    && AllNul(nuls)
  }

  function TrimLeadingWhite(s: string): (t: string)
    ensures |t| <= |s|
    ensures |t| == 0 || !IsNumberWhite(t[0])
  {
    if |s| > 0 && IsNumberWhite(s[0]) then TrimLeadingWhite(s[1..]) else s
  }

  function TrimTrailingWhite(s: string): (t: string)
    ensures |t| <= |s|
    ensures |t| == 0 || !IsNumberWhite(t[|t| - 1])
  {
    if |s| > 0 && IsNumberWhite(s[|s| - 1]) then TrimTrailingWhite(s[..|s| - 1]) else s
  }

  /** Strips the NUL characters the parser tolerates after everything else. */
  function TrimTrailingNul(s: string): (t: string)
    ensures |t| <= |s|
    ensures |t| == 0 || t[|t| - 1] != '\0'
  {
    if |s| > 0 && s[|s| - 1] == '\0' then TrimTrailingNul(s[..|s| - 1]) else s
  }

  /** Splits an optional leading sign off a trimmed number. */
  function SplitSign(s: string): (r: (string, string))
    ensures IsSign(r.0) && r.0 + r.1 == s
  {
    if |s| > 0 && (s[0] == '-' || s[0] == '+') then (s[..1], s[1..]) else ("", s)
  }

  /** Reads a sign and digits from a number already stripped of white space. */
  function ParseSignedDigits(body: string): ParseResult
  {
    var (sign, digits) := SplitSign(body);
    if |digits| == 0 || !AllDigits(digits) then
      Unparsable
    else
      var v := SignedValue(sign, digits);
      if InInt32(v) then Parsed(v) else Unparsable
  }

  /**
    `Int32.TryParse(s, out value)` with `NumberStyles.Integer`, invariant
    culture. `ParseAccepts` and `ParseSound` characterise it completely.
   */
  function TryParseInt32(s: string): (r: ParseResult)
    ensures AllNumberWhite(s) ==> r == Unparsable
  {
    TrimLeadingAllWhite(s);
    ParseSignedDigits(TrimTrailingWhite(TrimTrailingNul(TrimLeadingWhite(s))))
  }

  /** A string of white space alone is trimmed away entirely. */
  lemma {:induction false} TrimLeadingAllWhite(s: string)
    ensures AllNumberWhite(s) ==> TrimLeadingWhite(s) == ""
  {
    if |s| > 0 && AllNumberWhite(s) {
      TrimLeadingAllWhite(s[1..]);
    }
  }

  /** The decimal digits of a natural number, without leading zeros. */
  function NatToDecimal(n: nat): (s: string)
    ensures |s| > 0 && AllDigits(s)
    ensures DigitsValue(s) == n
    ensures s[0] == '0' ==> n == 0
  {
    if n < 10 then
      [DigitChar(n)]
    else
      var prefix := NatToDecimal(n / 10);
      var s := prefix + [DigitChar(n % 10)];
      assert s[..|s| - 1] == prefix;
      s
  }

  /** `Int32.ToString()` under the invariant culture. */
  function Int32ToString(n: Int32): (s: string)
    ensures |s| > 0
    ensures n >= 0 ==> AllDigits(s)
    ensures n < 0 ==> s[0] == '-' && AllDigits(s[1..])
  {
    var m: int := n;
    if m < 0 then "-" + NatToDecimal(-m) else NatToDecimal(m)
  }

  /** What `TrimLeadingWhite` removes is white space, and it removes only a prefix. */
  lemma {:induction false} TrimLeadingWhiteSplit(s: string) returns (lead: string)
    ensures AllNumberWhite(lead) && s == lead + TrimLeadingWhite(s)
  {
    if |s| > 0 && IsNumberWhite(s[0]) {
      var rest := TrimLeadingWhiteSplit(s[1..]);
      lead := [s[0]] + rest;
      assert s == [s[0]] + s[1..];
    } else {
      lead := "";
    }
  }

  /** What `TrimTrailingWhite` removes is white space, and it removes only a suffix. */
  lemma {:induction false} TrimTrailingWhiteSplit(s: string) returns (trail: string)
    ensures AllNumberWhite(trail) && s == TrimTrailingWhite(s) + trail
  {
    if |s| > 0 && IsNumberWhite(s[|s| - 1]) {
      var rest := TrimTrailingWhiteSplit(s[..|s| - 1]);
      trail := rest + [s[|s| - 1]];
      assert s == s[..|s| - 1] + [s[|s| - 1]];
    } else {
      trail := "";
    }
  }

  /** What `TrimTrailingNul` removes is NULs, and it removes only a suffix. */
  lemma {:induction false} TrimTrailingNulSplit(s: string) returns (nuls: string)
    ensures AllNul(nuls) && s == TrimTrailingNul(s) + nuls
  {
    if |s| > 0 && s[|s| - 1] == '\0' {
      var rest := TrimTrailingNulSplit(s[..|s| - 1]);
      nuls := rest + [s[|s| - 1]];
      assert s == s[..|s| - 1] + [s[|s| - 1]];
    } else {
      nuls := "";
    }
  }

  lemma {:induction false} TrimLeadingWhiteOf(lead: string, rest: string)
    requires AllNumberWhite(lead)
    requires |rest| == 0 || !IsNumberWhite(rest[0])
    ensures TrimLeadingWhite(lead + rest) == rest
  {
    if |lead| > 0 {
      assert (lead + rest)[1..] == lead[1..] + rest;
      TrimLeadingWhiteOf(lead[1..], rest);
    } else {
      assert lead + rest == rest;
    }
  }

  lemma {:induction false} TrimTrailingWhiteOf(core: string, trail: string)
    requires AllNumberWhite(trail)
    requires |core| == 0 || !IsNumberWhite(core[|core| - 1])
    ensures TrimTrailingWhite(core + trail) == core
  {
    if |trail| > 0 {
      var s := core + trail;
      assert s[..|s| - 1] == core + trail[..|trail| - 1];
      TrimTrailingWhiteOf(core, trail[..|trail| - 1]);
    } else {
      assert core + trail == core;
    }
  }

  lemma {:induction false} TrimTrailingNulOf(core: string, nuls: string)
    requires AllNul(nuls)
    requires |core| == 0 || core[|core| - 1] != '\0'
    ensures TrimTrailingNul(core + nuls) == core
  {
    if |nuls| > 0 {
      var s := core + nuls;
      assert s[..|s| - 1] == core + nuls[..|nuls| - 1];
      TrimTrailingNulOf(core, nuls[..|nuls| - 1]);
    } else {
      assert core + nuls == core;
    }
  }

  /** A sign followed by digits splits back into that sign and those digits. */
  lemma SplitSignOf(sign: string, digits: string)
    requires IsSign(sign) && |digits| > 0 && AllDigits(digits)
    ensures SplitSign(sign + digits) == (sign, digits)
  {
    var core := sign + digits;
    if sign == "" {
      assert core == digits;
      assert IsDigit(core[0]);
    } else {
      assert core[..1] == sign && core[1..] == digits;
    }
  }

  /** Trimming a string of the accepted shape leaves exactly its sign and digits. */
  lemma TrimNumberShape(lead: string, sign: string, digits: string, trail: string, nuls: string)
    requires IsNumberShape(lead, sign, digits, trail, nuls)
    ensures TrimTrailingWhite(TrimTrailingNul(TrimLeadingWhite(lead + sign + digits + trail + nuls))) == sign + digits
  {
    var core := sign + digits;
    var kept := core + trail;
    Nest(lead, sign, digits, trail, nuls);
    assert IsDigit(core[|core| - 1]);
    assert core[0] == '-' || core[0] == '+' || IsDigit(core[0]);
    assert (kept + nuls)[0] == core[0];
    assert kept[|kept| - 1] == if |trail| > 0 then trail[|trail| - 1] else core[|core| - 1];
    TrimLeadingWhiteOf(lead, kept + nuls);
    TrimTrailingNulOf(kept, nuls);
    TrimTrailingWhiteOf(core, trail);
  }

  lemma ParseSignedDigitsOf(sign: string, digits: string)
    requires IsSign(sign) && |digits| > 0 && AllDigits(digits)
    ensures var v := SignedValue(sign, digits);
      ParseSignedDigits(sign + digits) == if InInt32(v) then Parsed(v) else Unparsable
  {
    SplitSignOf(sign, digits);
  }

  /**
    Every string of the accepted shape parses, to the value its sign and
    digits denote when that value fits in 32 bits, and fails otherwise.
   */
  lemma ParseAccepts(lead: string, sign: string, digits: string, trail: string, nuls: string)
    requires IsNumberShape(lead, sign, digits, trail, nuls)
    ensures var v := SignedValue(sign, digits);
      TryParseInt32(lead + sign + digits + trail + nuls) == if InInt32(v) then Parsed(v) else Unparsable
  {
    TrimNumberShape(lead, sign, digits, trail, nuls);
    ParseSignedDigitsOf(sign, digits);
  }

  /**
    Conversely, every successful parse comes from a string of the accepted
    shape, and the value is the one its sign and digits denote.
   */
  lemma ParseSound(s: string) returns (lead: string, sign: string, digits: string, trail: string, nuls: string)
    requires TryParseInt32(s).Parsed?
    ensures IsNumberShape(lead, sign, digits, trail, nuls)
    ensures s == lead + sign + digits + trail + nuls
    ensures TryParseInt32(s).value == SignedValue(sign, digits)
  {
    var afterLead := TrimLeadingWhite(s);
    var kept := TrimTrailingNul(afterLead);
    var body := TrimTrailingWhite(kept);
    lead := TrimLeadingWhiteSplit(s);
    nuls := TrimTrailingNulSplit(afterLead);
    trail := TrimTrailingWhiteSplit(kept);
    sign, digits := SplitSign(body).0, SplitSign(body).1;
    Regroup(s, lead, afterLead, kept, body, sign, digits, trail, nuls);
  }

  /**
    Re-associates the pieces a parsed string is cut into. Kept apart so that
    the sequence reasoning runs without the parser's definitions in scope.
   */
  lemma Regroup(s: string, lead: string, afterLead: string, kept: string, body: string,
                sign: string, digits: string, trail: string, nuls: string)
    requires s == lead + afterLead && afterLead == kept + nuls
    requires kept == body + trail && body == sign + digits
    ensures s == lead + sign + digits + trail + nuls
  {
  }

  /** The same pieces, grouped the way the trimming functions peel them off. */
  lemma Nest(lead: string, sign: string, digits: string, trail: string, nuls: string)
    ensures lead + sign + digits + trail + nuls == lead + ((sign + digits) + trail + nuls)
  {
  }

  /** Empty white space, sign and NULs around a digit string leave it as it is. */
  lemma Unpadded(digits: string)
    ensures "" + "" + digits + "" + "" == digits
    ensures "" + "-" + digits + "" + "" == "-" + digits
  {
  }

  /** A bare digit string parses to its value when that fits in 32 bits. */
  lemma ParseDigits(digits: string)
    requires |digits| > 0 && AllDigits(digits)
    ensures TryParseInt32(digits) == if DigitsValue(digits) <= INT32_MAX then Parsed(DigitsValue(digits)) else Unparsable
  {
    Unpadded(digits);
    ParseAccepts("", "", digits, "", "");
  }

  /** A minus sign and a digit string parse to the negated value when that fits in 32 bits. */
  lemma ParseNegativeDigits(digits: string)
    requires |digits| > 0 && AllDigits(digits)
    ensures TryParseInt32("-" + digits)
         == if DigitsValue(digits) <= -INT32_MIN then Parsed(-(DigitsValue(digits) as int)) else Unparsable
  {
    Unpadded(digits);
    ParseAccepts("", "-", digits, "", "");
  }

  /** Parsing what `Int32.ToString()` prints gives the number back. */
  lemma ParseFormatRoundTrip(n: Int32)
    ensures TryParseInt32(Int32ToString(n)) == Parsed(n)
  {
    var m: int := n;
    if m < 0 {
      ParseNegativeDigits(NatToDecimal(-m));
    } else {
      ParseDigits(NatToDecimal(m));
    }
  }
}
