# Resource types of the MSI provider's resource editor

This project models `ResourceType`, the small value class the MSI provider's
resource code uses to name a Win32 resource type. A resource type wraps one
string. That string is either:

- an integer type written `#N`, such as `#16` for a version block; or
- a custom type name such as `"TYPELIB"`.

The model covers these parts of the class:

- the string constructor's validation;
- the integer constructor, which prefixes `#` to the decimal form of the number;
- `IsInteger` and `IntegerValue`, which read the `#N` form through `Int32.TryParse`;
- `ToString`, which names the 22 well-known codes;
- ordinal equality;
- the two string conversions;
- the 22 static properties.

The project has three modules:

- `NumberParsing` (`number_parsing.dfy`) models `Int32.TryParse` under
  `NumberStyles.Integer` and `Int32.ToString` with the invariant culture.
  For the parser it proves both directions:
  - every string of the shape white space / sign / digits / white space /
    NULs parses to the value it denotes, when that value fits in 32 bits
    (`ParseAccepts`);
  - every successful parse comes from such a string (`ParseSound`).

  It also proves that printing a number and parsing the result gives the
  number back (`ParseFormatRoundTrip`).
- `ResourceTypes` (`resource_type.dfy`) holds the class itself:
  - C# `null` is `Nullable.Null`;
  - a thrown exception is `Outcome.Thrown`;
  - the wrapped string is `ResourceType.raw`;
  - `Valid` is what the constructor guarantees of every object it returns.
- `ResourceTypeProperties` (`resource_type_properties.dfy`) holds the
  properties:
  - exactly which strings the constructor accepts;
  - the round trips through the integer constructor and the two conversions;
  - the static properties map back to their own names under `ToString`;
  - `ToString` is lossy in two ways, while equality is not;
  - equality is an equivalence that compares the raw strings.

The model keeps several behaviours of the code that are easy to miss:

- `#-0` is accepted and prints as `None`.
- `# 16 ` is accepted and prints as `Version`, because `TryParse` skips white space.
- `#16` followed by NUL characters is accepted with value 16, because the
  runtime's integer parser ignores NULs at the end of the text.
- None of these is `Equals` to the static property it prints as, because
  equality compares the raw strings.
- `#016` and `#16` are different (unequal) values that print the same way.
- `#13`, `#15` and `#18` are valid, but `ToString` prints them as written.

## Model

Every source path below is `src/Microsoft.PackageManagement.MsiProvider/Deployment/Resources/ResourceType.cs`.

| member | source | states |
|---|---|---|
| ResourceTypes.New | src/Microsoft.PackageManagement.MsiProvider/Deployment/Resources/ResourceType.cs:99-112 | The constructor throws `ArgumentNullException` exactly when the string is null or all white space. It succeeds exactly when the string is non-blank and, if it starts with `#`, its integer value is non-negative. Every other non-blank string gets `ArgumentOutOfRangeException`. An accepted object keeps the string unchanged. |
| ResourceTypes.IntegerValue | src/Microsoft.PackageManagement.MsiProvider/Deployment/Resources/ResourceType.cs:132-144 | The value is -1 when the string does not start with `#`, and -1 when the text after the `#` does not parse. When that text parses, the value is the parsed number. |
| ResourceTypes.IsInteger | src/Microsoft.PackageManagement.MsiProvider/Deployment/Resources/ResourceType.cs:127 | A resource type is an integer type exactly when its string is non-empty and its first character is `#`. |
| ResourceTypes.IsWhiteSpace | src/Microsoft.PackageManagement.MsiProvider/Deployment/Resources/ResourceType.cs:101 | `char.IsWhiteSpace` holds for every character `int.TryParse` skips as padding. It never holds for a digit, `#`, a sign or NUL. |
| ResourceTypes.IsNullOrWhiteSpace | src/Microsoft.PackageManagement.MsiProvider/Deployment/Resources/ResourceType.cs:101 | A string passing `string.IsNullOrWhiteSpace` is non-null and non-empty. A string made only of number padding does not pass. |
| ResourceTypes.WellKnownName | src/Microsoft.PackageManagement.MsiProvider/Deployment/Resources/ResourceType.cs:154-178 | The `ToString` switch has a name for a code exactly when the code is in 0..24 and is not 13, 15 or 18. |
| ResourceTypes.ExplicitToString | src/Microsoft.PackageManagement.MsiProvider/Deployment/Resources/ResourceType.cs:234-237 | The explicit conversion to string fails (null dereference) exactly when given null. |
| ResourceTypes.Equals | src/Microsoft.PackageManagement.MsiProvider/Deployment/Resources/ResourceType.cs:199-202 | `Equals(ResourceType)` is true exactly when the other object is non-null and wraps the same string. |
| ResourceTypes.EqualsObject | src/Microsoft.PackageManagement.MsiProvider/Deployment/Resources/ResourceType.cs:189-192 | `Equals(object)` is true exactly when the object is a resource type wrapping the same string. It is false for null and for objects of other classes. |
| NumberParsing.NatToDecimal | src/Microsoft.PackageManagement.MsiProvider/Deployment/Resources/ResourceType.cs:120 | The decimal form of a natural number is a non-empty run of digits that denotes the number. It has no leading zero unless the number is 0. |
| NumberParsing.Int32ToString | src/Microsoft.PackageManagement.MsiProvider/Deployment/Resources/ResourceType.cs:120 | An `int` prints as digits when non-negative, and as `-` followed by digits when negative. |
| NumberParsing.TrimLeadingWhiteSplit | src/Microsoft.PackageManagement.MsiProvider/Deployment/Resources/ResourceType.cs:137 | The parser's leading-white-space skip removes a prefix, and that prefix is all white space. |
| NumberParsing.TrimTrailingWhiteSplit | src/Microsoft.PackageManagement.MsiProvider/Deployment/Resources/ResourceType.cs:137 | The parser's trailing-white-space skip removes a suffix, and that suffix is all white space. |
| NumberParsing.TrimTrailingNulSplit | src/Microsoft.PackageManagement.MsiProvider/Deployment/Resources/ResourceType.cs:137 | The parser's skip of NULs at the end of the text removes a suffix, and that suffix is all NUL characters. |
| NumberParsing.TryParseInt32 | src/Microsoft.PackageManagement.MsiProvider/Deployment/Resources/ResourceType.cs:137 | `int.TryParse` fails on a string made only of white space. `ParseAccepts` and `ParseSound` give its full behaviour. |
| NumberParsing.TrimNumberShape | src/Microsoft.PackageManagement.MsiProvider/Deployment/Resources/ResourceType.cs:137 | On a string of the accepted shape, trimming white space and trailing NULs leaves exactly its sign and digits. |
| NumberParsing.ParseAccepts | src/Microsoft.PackageManagement.MsiProvider/Deployment/Resources/ResourceType.cs:137 | `int.TryParse` of white space, an optional sign, digits, white space and NULs gives the signed value when it fits in 32 bits. Otherwise it fails. |
| NumberParsing.ParseSound | src/Microsoft.PackageManagement.MsiProvider/Deployment/Resources/ResourceType.cs:137 | Every successful `int.TryParse` reads a string of exactly that shape, and its result is the value the sign and digits denote. |
| NumberParsing.ParseDigits | src/Microsoft.PackageManagement.MsiProvider/Deployment/Resources/ResourceType.cs:137 | A bare digit string parses to its value, or fails when the value exceeds 2147483647. |
| NumberParsing.ParseNegativeDigits | src/Microsoft.PackageManagement.MsiProvider/Deployment/Resources/ResourceType.cs:137 | `-` followed by digits parses to the negated value, or fails when it is below -2147483648. |
| NumberParsing.ParseFormatRoundTrip | src/Microsoft.PackageManagement.MsiProvider/Deployment/Resources/ResourceType.cs:120-137 | Parsing what `int.ToString()` prints gives back the same `int`. |
| ResourceTypeProperties.IntegerFormNotBlank | src/Microsoft.PackageManagement.MsiProvider/Deployment/Resources/ResourceType.cs:101 | A string starting with `#` is never null or white space. |
| ResourceTypeProperties.IntegerFormVerdict | src/Microsoft.PackageManagement.MsiProvider/Deployment/Resources/ResourceType.cs:101-111 | `#` plus text is accepted exactly when the text parses to a non-negative `int`. Otherwise it is rejected as out of range. |
| ResourceTypeProperties.CustomNameVerdict | src/Microsoft.PackageManagement.MsiProvider/Deployment/Resources/ResourceType.cs:101-127 | A string not starting with `#` is not an integer type and has value -1. It is rejected as null when blank and accepted otherwise. `ToString` returns it unchanged. |
| ResourceTypeProperties.ValidIntegerShape | src/Microsoft.PackageManagement.MsiProvider/Deployment/Resources/ResourceType.cs:108-142 | Every valid integer type is `#`, white space, a sign, digits, white space and NULs. The sign is `-` only in front of a zero. The value is the digits' value, and it fits in 32 bits. |
| ResourceTypeProperties.IntegerShapeAccepted | src/Microsoft.PackageManagement.MsiProvider/Deployment/Resources/ResourceType.cs:108-142 | Conversely, every string of that shape is accepted, and its integer value is the digits' value. |
| ResourceTypeProperties.ToStringOfListedCode | src/Microsoft.PackageManagement.MsiProvider/Deployment/Resources/ResourceType.cs:150-182 | An integer type whose value is a static property's code prints as that property's name. |
| ResourceTypeProperties.ToStringOfUnlistedCode | src/Microsoft.PackageManagement.MsiProvider/Deployment/Resources/ResourceType.cs:150-182 | An integer type whose value is no static property's code prints as its raw string. |
| ResourceTypeProperties.DigitLiteral | src/Microsoft.PackageManagement.MsiProvider/Deployment/Resources/ResourceType.cs:152-181 | `#` plus digits whose value fits in 32 bits is accepted with that value. `ToString` gives the switch's name for it, or the literal when the switch has none. |
| ResourceTypeProperties.HashAloneRejected | src/Microsoft.PackageManagement.MsiProvider/Deployment/Resources/ResourceType.cs:108-111 | `#` on its own throws `ArgumentOutOfRangeException`. |
| ResourceTypeProperties.NegativeRejected | src/Microsoft.PackageManagement.MsiProvider/Deployment/Resources/ResourceType.cs:108-111 | `#-N` with N > 0 throws `ArgumentOutOfRangeException`, whether or not -N fits in 32 bits. |
| ResourceTypeProperties.OverflowRejected | src/Microsoft.PackageManagement.MsiProvider/Deployment/Resources/ResourceType.cs:136-140 | `#N` with N above 2147483647 throws `ArgumentOutOfRangeException`, because the parse overflows. |
| ResourceTypeProperties.NonNumericRejected | src/Microsoft.PackageManagement.MsiProvider/Deployment/Resources/ResourceType.cs:136-140 | `#` followed by text starting with anything but white space, a sign or a digit throws `ArgumentOutOfRangeException`. |
| ResourceTypeProperties.TrailingNulsAccepted | src/Microsoft.PackageManagement.MsiProvider/Deployment/Resources/ResourceType.cs:108-142 | `#` plus in-range digits plus any number of NULs is accepted, with the digits' value. |
| ResourceTypeProperties.RejectedBlankStrings | src/Microsoft.PackageManagement.MsiProvider/Deployment/Resources/ResourceType.cs:101-104 | Null, empty, ASCII-blank and Unicode-blank strings throw `ArgumentNullException`. |
| ResourceTypeProperties.SignedZeroAccepted | src/Microsoft.PackageManagement.MsiProvider/Deployment/Resources/ResourceType.cs:108-156 | `#-` followed by zeros is accepted, with value 0, and prints as `None`. |
| ResourceTypeProperties.FromInt32RoundTrip | src/Microsoft.PackageManagement.MsiProvider/Deployment/Resources/ResourceType.cs:119-122 | The integer constructor maps n >= 0 to `#` plus n's decimal digits, an integer type whose value is n. It throws `ArgumentOutOfRangeException` exactly when n < 0. |
| ResourceTypeProperties.StringRoundTrip | src/Microsoft.PackageManagement.MsiProvider/Deployment/Resources/ResourceType.cs:218-237 | Converting an accepted string to a resource type and back gives the same string. |
| ResourceTypeProperties.ValueRoundTrip | src/Microsoft.PackageManagement.MsiProvider/Deployment/Resources/ResourceType.cs:218-237 | Converting a valid resource type to a string and back gives the same value. |
| ResourceTypeProperties.ConstantIsWellKnown | src/Microsoft.PackageManagement.MsiProvider/Deployment/Resources/ResourceType.cs:24-88 | Each static property converts without error to an integer type carrying its code. The `ToString` switch maps that code back to the property's own name. |
| ResourceTypeProperties.KnownConstant | src/Microsoft.PackageManagement.MsiProvider/Deployment/Resources/ResourceType.cs:24-88 | A static property whose code the switch names is accepted, carries its code, and prints as that name. |
| ResourceTypeProperties.VersionLiteral | src/Microsoft.PackageManagement.MsiProvider/Deployment/Resources/ResourceType.cs:63-65 | The literals built from the code table are `#14` for `GroupIcon` and `#16` for `Version`, as written in the class. |
| ResourceTypeProperties.SwitchNamesOnlyConstants | src/Microsoft.PackageManagement.MsiProvider/Deployment/Resources/ResourceType.cs:154-178 | Every code the switch names belongs to the static property of that same name. |
| ResourceTypeProperties.ToStringIsNameOrRaw | src/Microsoft.PackageManagement.MsiProvider/Deployment/Resources/ResourceType.cs:150-182 | `ToString` returns either the raw string or the name of the static property whose code is the value. |
| ResourceTypeProperties.UnlistedCodesPassThrough | src/Microsoft.PackageManagement.MsiProvider/Deployment/Resources/ResourceType.cs:152-181 | `#13`, `#15`, `#18` and every `#N` above 24 are valid. They keep their value and print as written. |
| ResourceTypeProperties.LeadingZeroPadding | src/Microsoft.PackageManagement.MsiProvider/Deployment/Resources/ResourceType.cs:132-202 | `#0N` and `#N` are both valid, with the same value, but they are unequal. They print alike when N is a listed code. |
| ResourceTypeProperties.LeadingZeroAlias | src/Microsoft.PackageManagement.MsiProvider/Deployment/Resources/ResourceType.cs:150-202 | For every static property, its code written with a leading zero is a valid value that prints the property's name. That value is not equal to the property. |
| ResourceTypeProperties.CustomNameAlias | src/Microsoft.PackageManagement.MsiProvider/Deployment/Resources/ResourceType.cs:150-202 | The custom name spelled like a static property is valid, is not an integer type, and prints the same name. It is not equal to the property. |
| ResourceTypeProperties.PropertyNameIsCustom | src/Microsoft.PackageManagement.MsiProvider/Deployment/Resources/ResourceType.cs:156-177 | Every name the switch prints starts with a capital letter, so it is neither blank nor an integer form. |
| ResourceTypeProperties.LeadingZeroValue | src/Microsoft.PackageManagement.MsiProvider/Deployment/Resources/ResourceType.cs:137 | A leading zero does not change the value a digit string parses to. |
| ResourceTypeProperties.EqualsIsEquivalence | src/Microsoft.PackageManagement.MsiProvider/Deployment/Resources/ResourceType.cs:199-202 | Equality is reflexive, symmetric and transitive, and it is false against null. |
| ResourceTypeProperties.EqualsIsOrdinal | src/Microsoft.PackageManagement.MsiProvider/Deployment/Resources/ResourceType.cs:189-211 | Two values are equal exactly when their strings are ordinally equal, which is the string the hash code is computed from. `Equals(object)` agrees with `Equals(ResourceType)` and rejects null and other classes. |

## Left out

- `GetHashCode` (lines 208-211) delegates to `string.GetHashCode`, whose value is runtime-specific and randomised. The model keeps only the consequence that equal values wrap equal strings (`EqualsIsOrdinal`).
- Culture: the integer constructor's `"#" + resourceType` and `int.TryParse` use the current culture. The model fixes the invariant culture: ASCII digits, `-` and `+` as signs, and white space U+0009 to U+000D and U+0020. A culture with a different negative sign is not modelled.
- Strings are sequences of Unicode scalar values, not UTF-16 code units. A C# string holding an unpaired surrogate has no counterpart here, although the class accepts such a string as a custom name. For every string the model can represent, the results agree, because no white-space or digit character lies outside the Basic Multilingual Plane.
- Exceptions are modelled as an `Outcome.Thrown` result with the exception's class. Parameter names and messages are left out.
- ResourceTypeProperties.VersionLiteral: checks only two of the 22 literals directly. The static properties are modelled through a code table, and `Literal` spells each code in decimal. Each literal's agreement with the class is therefore the table entry itself.
- `ToString`, `FromInt32`, `ImplicitFromString` and `Constant` carry no contract of their own. Their behaviour is stated by `ToStringOfListedCode`, `ToStringOfUnlistedCode`, `ToStringIsNameOrRaw`, `FromInt32RoundTrip`, `StringRoundTrip` and `ConstantIsWellKnown`.
- `Link.cs` is out of scope: each of its members is a one-line metadata lookup with no logic of its own.
- The MSI provider's package-database code is outside this model.
