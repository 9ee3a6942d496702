/**
  A model of the Win32 resource-type wrapper of the MSI provider's resource
  code. A resource type is kept as the string it was built from: either a
  well-known integer type written `#N`, or a custom type name. Construction
  validates that string; everything else reads it.
 */
module ResourceTypes {
  import opened NumberParsing

  /** A C# reference that may be null. */
  datatype Nullable<T> = Null | NonNull(value: T)

  /** The exceptions the wrapper's members throw. */
  datatype Exception =
    | ArgumentNullException
    | ArgumentOutOfRangeException
    | NullReferenceException

  /** A member's result, or the exception it throws instead. */
  datatype Outcome<T> = Ok(value: T) | Thrown(exception: Exception)

  /**
    The wrapper's state: the raw resource-type string. Values built by `New`
    satisfy `Valid`; the readers below are total, as in the class.
   */
  datatype ResourceType = ResourceType(raw: string)

  /** An object handed to `Equals(object)`: a resource type or something else. */
  datatype Object = ResourceTypeObject(rt: ResourceType) | OtherObject

  /** The well-known types, one per static property of the class. */
  datatype WellKnownType =
    | None | Cursor | Bitmap | Icon | Menu | Dialog | String | FontDir | Font
    | Accelerator | RCData | MessageTable | GroupCursor | GroupIcon | Version
    | DialogInclude | PlugPlay | Vxd | AniCursor | AniIcon | Html | Manifest

  /** The integer code in each static property's `#N` literal. */
  function Code(k: WellKnownType): nat {
    match k
    case None => 0
    case Cursor => 1
    case Bitmap => 2
    case Icon => 3
    case Menu => 4
    case Dialog => 5
    case String => 6
    case FontDir => 7
    case Font => 8
    case Accelerator => 9
    case RCData => 10
    case MessageTable => 11
    case GroupCursor => 12
    case GroupIcon => 14
    case Version => 16
    case DialogInclude => 17
    case PlugPlay => 19
    case Vxd => 20
    case AniCursor => 21
    case AniIcon => 22
    case Html => 23
    case Manifest => 24
  }

  /** The string literal each static property converts: `#` and the code in decimal. */
  function Literal(k: WellKnownType): string {
    "#" + NatToDecimal(Code(k))
  }

  /** The name of each static property. */
  function PropertyName(k: WellKnownType): string {
    match k
    case None => "None"
    case Cursor => "Cursor"
    case Bitmap => "Bitmap"
    case Icon => "Icon"
    case Menu => "Menu"
    case Dialog => "Dialog"
    case String => "String"
    case FontDir => "FontDir"
    case Font => "Font"
    case Accelerator => "Accelerator"
    case RCData => "RCData"
    case MessageTable => "MessageTable"
    case GroupCursor => "GroupCursor"
    case GroupIcon => "GroupIcon"
    case Version => "Version"
    case DialogInclude => "DialogInclude"
    case PlugPlay => "PlugPlay"
    case Vxd => "Vxd"
    case AniCursor => "AniCursor"
    case AniIcon => "AniIcon"
    case Html => "Html"
    case Manifest => "Manifest"
  }

  /**
    `char.IsWhiteSpace`: the Unicode White_Space characters. They include the
    white space a number may be padded with, and never a character that can
    start a number or an integer type.
   */
  predicate IsWhiteSpace(c: char): (b: bool)
    ensures IsNumberWhite(c) ==> b
    ensures b ==> !IsDigit(c) && c != '#' && c != '+' && c != '-' && c != '\0'
  {
    || '\t' <= c <= '\r'
    || c == ' '
    || c == '\U{85}'
    || c == '\U{A0}'
    || c == '\U{1680}'
    || '\U{2000}' <= c <= '\U{200A}'
    || c == '\U{2028}'
    || c == '\U{2029}'
    || c == '\U{202F}'
    || c == '\U{205F}'
    || c == '\U{3000}'
  }

  /**
    `string.IsNullOrWhiteSpace`. A string that passes is non-null and has a
    character that is not white space, so it is never empty; the padding a
    number may carry alone does not pass.
   */
  predicate IsNullOrWhiteSpace(s: Nullable<string>): (b: bool)
    ensures !b ==> s.NonNull? && |s.value| > 0
    ensures s.NonNull? && AllNumberWhite(s.value) ==> b
  {
    match s
    case Null => true
    case NonNull(t) => forall i :: 0 <= i < |t| ==> IsWhiteSpace(t[i])
  }

  /** `IsInteger`: the raw string starts with `#` (ordinal comparison). */
  predicate IsInteger(rt: ResourceType): (b: bool)
    ensures b <==> |rt.raw| > 0 && rt.raw[0] == '#'
  {
    "#" <= rt.raw
  }

  /** `IntegerValue`: the number after the `#`, or -1 when there is none. */
  function IntegerValue(rt: ResourceType): (v: Int32)
    ensures !IsInteger(rt) ==> v == -1
    ensures IsInteger(rt) && TryParseInt32(rt.raw[1..]).Unparsable? ==> v == -1
    ensures IsInteger(rt) && TryParseInt32(rt.raw[1..]).Parsed? ==> v == TryParseInt32(rt.raw[1..]).value
    ensures v != -1 ==> IsInteger(rt) && TryParseInt32(rt.raw[1..]) == Parsed(v)
  {
    if !IsInteger(rt) then
      -1
    else
      match TryParseInt32(rt.raw[1..])
      case Parsed(v) => v
      case Unparsable => -1
  }

  /** What the constructor guarantees of every value it returns. */
  predicate Valid(rt: ResourceType) {
    && !IsNullOrWhiteSpace(NonNull(rt.raw))
    && (IsInteger(rt) ==> IntegerValue(rt) >= 0)
  }

  /** The string constructor `ResourceType(string)`. */
  function New(s: Nullable<string>): (r: Outcome<ResourceType>)
    ensures r == Thrown(ArgumentNullException) <==> IsNullOrWhiteSpace(s)
    ensures r.Ok? <==> s.NonNull? && Valid(ResourceType(s.value))
    ensures r.Ok? ==> r.value.raw == s.value
    ensures r.Thrown? ==> r.exception != NullReferenceException
  {
    if IsNullOrWhiteSpace(s) then
      Thrown(ArgumentNullException)
    else
      var rt := ResourceType(s.value);
      if IsInteger(rt) && IntegerValue(rt) < 0 then Thrown(ArgumentOutOfRangeException) else Ok(rt)
  }

  /** The integer constructor `ResourceType(int)`: `#` followed by the number. */
  function FromInt32(n: Int32): Outcome<ResourceType> {
    New(NonNull("#" + Int32ToString(n)))
  }

  /** The implicit conversion from a string. */
  function ImplicitFromString(s: Nullable<string>): Outcome<ResourceType> {
    New(s)
  }

  /** The explicit conversion to a string: the raw string, unlike `ToString`. */
  function ExplicitToString(rt: Nullable<ResourceType>): (r: Outcome<string>)
    ensures r.Thrown? <==> rt.Null?
  {
    match rt
    case Null => Thrown(NullReferenceException)
    case NonNull(t) => Ok(t.raw)
  }

  /** A static property: the implicit conversion of its literal. */
  function Constant(k: WellKnownType): Outcome<ResourceType> {
    ImplicitFromString(NonNull(Literal(k)))
  }

  /** The `switch` inside `ToString`: a name for each listed integer code. */
  function WellKnownName(code: int): (r: Nullable<string>)
    ensures r.NonNull? <==> 0 <= code <= 24 && code != 13 && code != 15 && code != 18
  {
    match code
    case 0 => NonNull("None")
    case 1 => NonNull("Cursor")
    case 2 => NonNull("Bitmap")
    case 3 => NonNull("Icon")
    case 4 => NonNull("Menu")
    case 5 => NonNull("Dialog")
    case 6 => NonNull("String")
    case 7 => NonNull("FontDir")
    case 8 => NonNull("Font")
    case 9 => NonNull("Accelerator")
    case 10 => NonNull("RCData")
    case 11 => NonNull("MessageTable")
    case 12 => NonNull("GroupCursor")
    case 14 => NonNull("GroupIcon")
    case 16 => NonNull("Version")
    case 17 => NonNull("DialogInclude")
    case 19 => NonNull("PlugPlay")
    case 20 => NonNull("Vxd")
    case 21 => NonNull("AniCursor")
    case 22 => NonNull("AniIcon")
    case 23 => NonNull("Html")
    case 24 => NonNull("Manifest")
    case _ => Null
  }

  /** `ToString`: the well-known name of a listed integer type, else the raw string. */
  function ToString(rt: ResourceType): string {
    if IsInteger(rt) then
      match WellKnownName(IntegerValue(rt))
      case NonNull(name) => name
      case Null => rt.raw
    else
      rt.raw
  }

  /** `Equals(ResourceType)`: non-null and ordinally equal raw strings. */
  function Equals(rt: ResourceType, other: Nullable<ResourceType>): (r: bool)
    ensures r <==> other == NonNull(rt)
  {
    other.NonNull? && rt.raw == other.value.raw
  }

  /** The `as ResourceType` cast: null for anything that is not a resource type. */
  function AsResourceType(obj: Nullable<Object>): Nullable<ResourceType> {
    match obj
    case NonNull(ResourceTypeObject(t)) => NonNull(t)
    case _ => Null
  }

  /** `Equals(object)`: the cast, then `Equals(ResourceType)`. */
  function EqualsObject(rt: ResourceType, obj: Nullable<Object>): (r: bool)
    ensures r <==> obj == NonNull(ResourceTypeObject(rt))
  {
    Equals(rt, AsResourceType(obj))
  }
}
