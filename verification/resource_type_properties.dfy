/**
  Properties of the resource-type model: which strings the constructor
  accepts, the round trips through the conversions and the integer
  constructor, the agreement between the static properties and the names
  `ToString` prints, and ordinal equality.
 */
module ResourceTypeProperties {
  import opened NumberParsing
  import opened ResourceTypes

  /** A `#` never counts as white space, so an integer form is never blank. */
  lemma IntegerFormNotBlank(rest: string)
    ensures !IsNullOrWhiteSpace(NonNull("#" + rest))
  {
    assert ("#" + rest)[0] == '#';
  }

  /** The parse of what follows the `#` in an integer form. */
  lemma IntegerValueOf(rest: string)
    ensures IsInteger(ResourceType("#" + rest))
    ensures IntegerValue(ResourceType("#" + rest))
         == match TryParseInt32(rest) case Parsed(v) => v case Unparsable => -1
  {
    assert ("#" + rest)[1..] == rest;
  }

  /**
    An integer form is accepted exactly when the text after the `#` parses
    to a non-negative 32-bit number, and rejected as out of range otherwise.
   */
  lemma IntegerFormVerdict(rest: string)
    ensures TryParseInt32(rest).Parsed? && TryParseInt32(rest).value >= 0 ==>
      New(NonNull("#" + rest)) == Ok(ResourceType("#" + rest))
    ensures !(TryParseInt32(rest).Parsed? && TryParseInt32(rest).value >= 0) ==>
      New(NonNull("#" + rest)) == Thrown(ArgumentOutOfRangeException)
  {
    IntegerFormNotBlank(rest);
    IntegerValueOf(rest);
  }

  /** A string without a leading `#` is a custom name: accepted unless blank. */
  lemma CustomNameVerdict(s: string)
    requires |s| == 0 || s[0] != '#'
    ensures !IsInteger(ResourceType(s)) && IntegerValue(ResourceType(s)) == -1
    ensures IsNullOrWhiteSpace(NonNull(s)) ==> New(NonNull(s)) == Thrown(ArgumentNullException)
    ensures !IsNullOrWhiteSpace(NonNull(s)) ==> New(NonNull(s)) == Ok(ResourceType(s))
    ensures ToString(ResourceType(s)) == s
  {
  }

  /**
    Every valid integer type is `#`, white space, an optional `+` (or a `-`
    in front of a zero), digits, white space and NULs, and its `IntegerValue`
    is the digits' value, which fits in 32 bits.
   */
  lemma ValidIntegerShape(rt: ResourceType) returns (lead: string, sign: string, digits: string, trail: string, nuls: string)
    requires Valid(rt) && IsInteger(rt)
    ensures rt.raw == "#" + lead + sign + digits + trail + nuls
    ensures IsNumberShape(lead, sign, digits, trail, nuls)
    ensures sign == "-" ==> DigitsValue(digits) == 0
    ensures IntegerValue(rt) == DigitsValue(digits) <= INT32_MAX
  {
    var rest := rt.raw[1..];
    assert rt.raw == "#" + rest;
    IntegerValueOf(rest);
    lead, sign, digits, trail, nuls := ParseSound(rest);
  }

  /*
    The three lemmas below only re-associate concatenations. They are kept
    apart so that this sequence reasoning runs without the definitions of
    the parser and the constructor in scope, where it is costly.
   */

  lemma HashThenText(prefix: string, text: string)
    ensures "#" + prefix + text == "#" + (prefix + text)
  {
  }

  lemma HashThenBare(digits: string, nuls: string)
    ensures "#" + "" + "" + digits + "" + nuls == "#" + digits + nuls
  {
  }

  lemma HashThenRest(lead: string, sign: string, digits: string, trail: string, nuls: string)
    ensures "#" + lead + sign + digits + trail + nuls == "#" + (lead + sign + digits + trail + nuls)
  {
  }

  /** Conversely, every string of that shape is accepted with that value. */
  lemma IntegerShapeAccepted(lead: string, sign: string, digits: string, trail: string, nuls: string)
    requires IsNumberShape(lead, sign, digits, trail, nuls)
    requires sign == "-" ==> DigitsValue(digits) == 0
    requires DigitsValue(digits) <= INT32_MAX
    ensures var s := "#" + lead + sign + digits + trail + nuls;
      New(NonNull(s)) == Ok(ResourceType(s)) && IntegerValue(ResourceType(s)) == DigitsValue(digits)
  {
    var rest := lead + sign + digits + trail + nuls;
    HashThenRest(lead, sign, digits, trail, nuls);
    var v: Int32 := DigitsValue(digits);
    assert TryParseInt32(rest) == Parsed(v) by {
      ParseAccepts(lead, sign, digits, trail, nuls);
      assert SignedValue(sign, digits) == v;
    }
    IntegerFormAccepted("#" + rest, rest, v);
  }

  /** An integer type whose value is a static property's code prints that property's name. */
  lemma ToStringOfListedCode(rt: ResourceType, k: WellKnownType)
    requires IsInteger(rt) && IntegerValue(rt) == Code(k)
    ensures ToString(rt) == PropertyName(k)
  {
    ConstantIsWellKnown(k);
  }

  /** An integer type whose value is no static property's code prints as written. */
  lemma ToStringOfUnlistedCode(rt: ResourceType)
    requires IsInteger(rt) && forall k :: Code(k) != IntegerValue(rt)
    ensures ToString(rt) == rt.raw
  {
    if WellKnownName(IntegerValue(rt)).NonNull? {
      var k := SwitchNamesOnlyConstants(IntegerValue(rt));
      assert false;
    }
  }

  /** `ToString` of an integer type is decided by the switch on its value. */
  lemma ToStringOfCode(rt: ResourceType, code: int)
    requires IsInteger(rt) && IntegerValue(rt) == code
    ensures WellKnownName(code).NonNull? ==> ToString(rt) == WellKnownName(code).value
    ensures WellKnownName(code).Null? ==> ToString(rt) == rt.raw
  {
  }

  /** An integer form whose text after the `#` parses to a non-negative number. */
  lemma IntegerFormAccepted(s: string, rest: string, v: Int32)
    requires s == "#" + rest && TryParseInt32(rest) == Parsed(v) && v >= 0
    ensures New(NonNull(s)) == Ok(ResourceType(s))
    ensures IsInteger(ResourceType(s)) && IntegerValue(ResourceType(s)) == v
  {
    IntegerFormVerdict(rest);
    IntegerValueOf(rest);
  }

  /** An integer form whose text after the `#` does not parse to a non-negative number. */
  lemma IntegerFormRejected(s: string, rest: string)
    requires s == "#" + rest && !(TryParseInt32(rest).Parsed? && TryParseInt32(rest).value >= 0)
    ensures New(NonNull(s)) == Thrown(ArgumentOutOfRangeException)
  {
    IntegerFormVerdict(rest);
  }

  /** `#` followed by digits alone, as in the static properties. */
  lemma DigitLiteral(s: string, digits: string)
    requires s == "#" + digits && |digits| > 0 && AllDigits(digits) && DigitsValue(digits) <= INT32_MAX
    ensures New(NonNull(s)) == Ok(ResourceType(s))
    ensures IsInteger(ResourceType(s)) && IntegerValue(ResourceType(s)) == DigitsValue(digits)
    ensures WellKnownName(DigitsValue(digits)).NonNull? ==> ToString(ResourceType(s)) == WellKnownName(DigitsValue(digits)).value
    ensures WellKnownName(DigitsValue(digits)).Null? ==> ToString(ResourceType(s)) == s
  {
    ParseDigits(digits);
    IntegerFormAccepted(s, digits, DigitsValue(digits));
    ToStringOfCode(ResourceType(s), DigitsValue(digits));
  }

  /** A `#` with nothing after it is refused: the empty text does not parse. */
  lemma HashAloneRejected()
    ensures New(NonNull("#")) == Thrown(ArgumentOutOfRangeException)
  {
    assert "#" + "" == "#";
    IntegerFormRejected("#", "");
  }

  /** `#-N` with N positive is refused, whether or not -N fits in 32 bits. */
  lemma NegativeRejected(digits: string)
    requires |digits| > 0 && AllDigits(digits) && DigitsValue(digits) > 0
    ensures New(NonNull("#-" + digits)) == Thrown(ArgumentOutOfRangeException)
  {
    HashThenText("-", digits);
    ParseNegativeDigits(digits);
    IntegerFormRejected("#-" + digits, "-" + digits);
  }

  /** `#N` with N beyond 2147483647 is refused: the parse overflows. */
  lemma OverflowRejected(digits: string)
    requires |digits| > 0 && AllDigits(digits) && DigitsValue(digits) > INT32_MAX
    ensures New(NonNull("#" + digits)) == Thrown(ArgumentOutOfRangeException)
  {
    ParseDigits(digits);
    IntegerFormRejected("#" + digits, digits);
  }

  /** `#` followed by anything but white space, a sign or a digit is refused. */
  lemma NonNumericRejected(rest: string)
    requires |rest| > 0 && !IsNumberWhite(rest[0]) && !IsDigit(rest[0])
    requires rest[0] != '+' && rest[0] != '-'
    ensures New(NonNull("#" + rest)) == Thrown(ArgumentOutOfRangeException)
  {
    assert "" + rest == rest;
    TrimLeadingWhiteOf("", rest);
    var kept := TrimTrailingNul(rest);
    var nuls := TrimTrailingNulSplit(rest);
    var body := TrimTrailingWhite(kept);
    var trail := TrimTrailingWhiteSplit(kept);
    assert |body| > 0 ==> body[0] == rest[0] by {
      if |body| > 0 {
        assert body[0] == kept[0];
      }
    }
    assert TryParseInt32(rest) == Unparsable by {
      if |body| > 0 {
        assert SplitSign(body) == ("", body);
        assert !IsDigit(body[0]);
      }
    }
    IntegerFormRejected("#" + rest, rest);
  }

  /**
    NULs after the number are tolerated: `#` followed by in-range digits and
    any number of NULs is accepted with the digits' value.
   */
  lemma TrailingNulsAccepted(digits: string, nuls: string)
    requires |digits| > 0 && AllDigits(digits) && DigitsValue(digits) <= INT32_MAX
    requires AllNul(nuls)
    ensures var s := "#" + digits + nuls;
      New(NonNull(s)) == Ok(ResourceType(s)) && IntegerValue(ResourceType(s)) == DigitsValue(digits)
  {
    HashThenBare(digits, nuls);
    IntegerShapeAccepted("", "", digits, "", nuls);
  }

  /** Blank and null strings are refused as null arguments. */
  lemma RejectedBlankStrings()
    ensures New(Null) == Thrown(ArgumentNullException)
    ensures New(NonNull("")) == Thrown(ArgumentNullException)
    ensures New(NonNull(" \t\r\n")) == Thrown(ArgumentNullException)
    ensures New(NonNull("\U{A0}\U{3000}")) == Thrown(ArgumentNullException)
  {
  }

  /** A minus sign in front of zeros is tolerated: `#-0` is the type `None`. */
  lemma SignedZeroAccepted(digits: string)
    requires |digits| > 0 && AllDigits(digits) && DigitsValue(digits) == 0
    ensures var rt := ResourceType("#-" + digits);
      New(NonNull(rt.raw)) == Ok(rt) && IntegerValue(rt) == 0 && ToString(rt) == "None"
  {
    HashThenText("-", digits);
    ParseNegativeDigits(digits);
    IntegerFormAccepted("#-" + digits, "-" + digits, 0);
    ToStringOfCode(ResourceType("#-" + digits), 0);
  }

  /**
    The integer constructor: a non-negative number gives the type `#`
    followed by its decimal digits, whose `IntegerValue` is the number; a
    negative number is refused as out of range.
   */
  lemma FromInt32RoundTrip(n: Int32)
    ensures n >= 0 ==> FromInt32(n) == Ok(ResourceType("#" + NatToDecimal(n)))
    ensures n >= 0 ==> IsInteger(FromInt32(n).value) && IntegerValue(FromInt32(n).value) == n
    ensures n < 0 <==> FromInt32(n) == Thrown(ArgumentOutOfRangeException)
  {
    var text := Int32ToString(n);
    ParseFormatRoundTrip(n);
    IntegerFormVerdict(text);
    IntegerValueOf(text);
  }

  /** Converting an accepted string to a resource type and back gives the string. */
  lemma StringRoundTrip(s: string)
    requires ImplicitFromString(NonNull(s)).Ok?
    ensures ExplicitToString(NonNull(ImplicitFromString(NonNull(s)).value)) == Ok(s)
  {
  }

  /** Converting a valid resource type to its string and back gives the same value. */
  lemma ValueRoundTrip(rt: ResourceType)
    requires Valid(rt)
    ensures ImplicitFromString(NonNull(ExplicitToString(NonNull(rt)).value)) == Ok(rt)
  {
  }

  /**
    Each static property converts without error to an integer type carrying
    its code, which the `ToString` switch maps back to the property's own name.
   */
  lemma ConstantIsWellKnown(k: WellKnownType)
    ensures Constant(k) == Ok(ResourceType(Literal(k)))
    ensures IsInteger(Constant(k).value) && IntegerValue(Constant(k).value) == Code(k)
    ensures WellKnownName(Code(k)) == NonNull(PropertyName(k))
    ensures ToString(Constant(k).value) == PropertyName(k)
  {
    assert WellKnownName(Code(k)) == NonNull(PropertyName(k));
    KnownConstant(k);
  }

  lemma KnownConstant(k: WellKnownType)
    requires WellKnownName(Code(k)) == NonNull(PropertyName(k))
    ensures Constant(k) == Ok(ResourceType(Literal(k)))
    ensures IsInteger(Constant(k).value) && IntegerValue(Constant(k).value) == Code(k)
    ensures ToString(Constant(k).value) == PropertyName(k)
  {
    DigitLiteral(Literal(k), NatToDecimal(Code(k)));
  }

  /** The literals are the ones the class writes, for example `#16` for `Version`. */
  lemma VersionLiteral()
    ensures Literal(Version) == "#16" && Literal(GroupIcon) == "#14"
  {
    assert NatToDecimal(16) == NatToDecimal(1) + [DigitChar(6)];
    assert NatToDecimal(14) == NatToDecimal(1) + [DigitChar(4)];
  }

  /** Every code the `ToString` switch names belongs to a static property of that name. */
  lemma SwitchNamesOnlyConstants(code: int) returns (k: WellKnownType)
    requires WellKnownName(code).NonNull?
    ensures Code(k) == code && WellKnownName(code) == NonNull(PropertyName(k))
  {
    match code
    case 0 => k := None;
    case 1 => k := Cursor;
    case 2 => k := Bitmap;
    case 3 => k := Icon;
    case 4 => k := Menu;
    case 5 => k := Dialog;
    case 6 => k := String;
    case 7 => k := FontDir;
    case 8 => k := Font;
    case 9 => k := Accelerator;
    case 10 => k := RCData;
    case 11 => k := MessageTable;
    case 12 => k := GroupCursor;
    case 14 => k := GroupIcon;
    case 16 => k := Version;
    case 17 => k := DialogInclude;
    case 19 => k := PlugPlay;
    case 20 => k := Vxd;
    case 21 => k := AniCursor;
    case 22 => k := AniIcon;
    case 23 => k := Html;
    case 24 => k := Manifest;
  }

  /**
    `ToString` either passes the raw string through or prints the name of
    the static property whose code the value carries.
   */
  lemma ToStringIsNameOrRaw(rt: ResourceType)
    ensures ToString(rt) == rt.raw
         || exists k :: Code(k) == IntegerValue(rt) && ToString(rt) == PropertyName(k)
  {
    if IsInteger(rt) && WellKnownName(IntegerValue(rt)).NonNull? {
      var k := SwitchNamesOnlyConstants(IntegerValue(rt));
    }
  }

  /**
    Codes without a static property (13, 15, 18, and everything above 24)
    print as written.
   */
  lemma UnlistedCodesPassThrough(code: nat)
    requires code == 13 || code == 15 || code == 18 || 24 < code <= INT32_MAX
    ensures var rt := ResourceType("#" + NatToDecimal(code));
      Valid(rt) && IntegerValue(rt) == code && ToString(rt) == rt.raw
  {
    DigitLiteral("#" + NatToDecimal(code), NatToDecimal(code));
  }

  /**
    A leading zero after the `#` gives a different, equally valid string
    with the same value; when the code is a listed one, `ToString` prints
    both as the same name.
   */
  lemma LeadingZeroPadding(digits: string)
    requires |digits| > 0 && AllDigits(digits) && DigitsValue(digits) <= INT32_MAX
    ensures var plain := ResourceType("#" + digits);
      var padded := ResourceType("#0" + digits);
      && Valid(plain) && Valid(padded)
      && IntegerValue(padded) == IntegerValue(plain) == DigitsValue(digits)
      && (WellKnownName(DigitsValue(digits)).NonNull? ==> ToString(padded) == ToString(plain))
      && !Equals(plain, NonNull(padded))
  {
    LeadingZeroValue(digits);
    HashThenText("0", digits);
    DigitLiteral("#0" + digits, "0" + digits);
    DigitLiteral("#" + digits, digits);
    assert |"#0" + digits| != |"#" + digits|;
  }

  /**
    `ToString` is lossy: for every well-known type, the same code written
    with a leading zero is a valid, unequal value that prints the same name.
   */
  lemma LeadingZeroAlias(k: WellKnownType)
    ensures Constant(k).Ok?
    ensures var canonical := Constant(k).value;
      var padded := ResourceType("#0" + NatToDecimal(Code(k)));
      && Valid(padded) && IntegerValue(padded) == Code(k)
      && ToString(padded) == ToString(canonical) == PropertyName(k)
      && !Equals(canonical, NonNull(padded))
  {
    ConstantIsWellKnown(k);
    LeadingZeroPadding(NatToDecimal(Code(k)));
  }

  /**
    `ToString` is lossy across kinds too: the custom name spelled like a
    static property is a valid, unequal value that prints the same name.
   */
  lemma CustomNameAlias(k: WellKnownType)
    ensures Constant(k).Ok?
    ensures var canonical := Constant(k).value;
      var custom := ResourceType(PropertyName(k));
      && Valid(custom) && !IsInteger(custom)
      && ToString(custom) == ToString(canonical) == PropertyName(k)
      && !Equals(canonical, NonNull(custom))
  {
    ConstantIsWellKnown(k);
    PropertyNameIsCustom(k);
    CustomNameVerdict(PropertyName(k));
  }

  /** Every property name starts with a capital letter. */
  lemma PropertyNameIsCustom(k: WellKnownType)
    ensures |PropertyName(k)| > 0 && 'A' <= PropertyName(k)[0] <= 'Z'
    ensures !IsNullOrWhiteSpace(NonNull(PropertyName(k)))
  {
    var name := PropertyName(k);
    assert 'A' <= name[0] <= 'Z' by {
      match k
      case None =>
      case Cursor =>
      case Bitmap =>
      case Icon =>
      case Menu =>
      case Dialog =>
      case String =>
      case FontDir =>
      case Font =>
      case Accelerator =>
      case RCData =>
      case MessageTable =>
      case GroupCursor =>
      case GroupIcon =>
      case Version =>
      case DialogInclude =>
      case PlugPlay =>
      case Vxd =>
      case AniCursor =>
      case AniIcon =>
      case Html =>
      case Manifest =>
    }
    assert !IsWhiteSpace(name[0]);
  }

  /** A leading zero does not change the value of a digit string. */
  lemma {:induction false} LeadingZeroValue(digits: string)
    requires AllDigits(digits)
    ensures AllDigits("0" + digits) && DigitsValue("0" + digits) == DigitsValue(digits)
  {
    var z := "0" + digits;
    if |digits| > 0 {
      assert z[..|z| - 1] == "0" + digits[..|digits| - 1];
      LeadingZeroValue(digits[..|digits| - 1]);
    } else {
      assert z == "0";
    }
  }

  /** Equality is reflexive, symmetric and transitive, and false against null. */
  lemma EqualsIsEquivalence(a: ResourceType, b: ResourceType, c: ResourceType)
    ensures Equals(a, NonNull(a))
    ensures Equals(a, NonNull(b)) <==> Equals(b, NonNull(a))
    ensures Equals(a, NonNull(b)) && Equals(b, NonNull(c)) ==> Equals(a, NonNull(c))
    ensures !Equals(a, Null)
  {
  }

  /**
    Equality compares raw strings, so equal values share the string the
    hash code is computed from, and `Equals(object)` agrees with it.
   */
  lemma EqualsIsOrdinal(a: ResourceType, b: ResourceType)
    ensures Equals(a, NonNull(b)) <==> a.raw == b.raw
    ensures EqualsObject(a, NonNull(ResourceTypeObject(b))) <==> Equals(a, NonNull(b))
    ensures !EqualsObject(a, NonNull(OtherObject)) && !EqualsObject(a, Null)
  {
  }
}
