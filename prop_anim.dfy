/** The keyframe lists of a property animation (`PropAnim`): one list per value kind, with
  * the numeric kind code the binary format stores before the keys. */
module PropAnim {
  import opened Ints

  /** An `f32` as its bit pattern; the animation values are never computed on here. */
  type F32 = U32

  datatype Color4 = Color4(r: F32, g: F32, b: F32, a: F32)
  datatype Quat = Quat(x: F32, y: F32, z: F32, w: F32)
  datatype Vector3 = Vector3(x: F32, y: F32, z: F32)

  datatype AnimEventFloat = AnimEventFloat(value: F32, pos: F32)
  datatype AnimEventColor = AnimEventColor(value: Color4, pos: F32)
  datatype AnimEventObject = AnimEventObject(text1: string, text2: string, pos: F32)
  datatype AnimEventBool = AnimEventBool(value: bool, pos: F32)
  datatype AnimEventQuat = AnimEventQuat(value: Quat, pos: F32)
  datatype AnimEventVector3 = AnimEventVector3(value: Vector3, pos: F32)
  datatype AnimEventSymbol = AnimEventSymbol(text: string, pos: F32)

  /** `PropKeysEvents`: the keys of one property, all of one kind. */
  datatype PropKeysEvents =
    | Float(floats: seq<AnimEventFloat>)
    | Color(colors: seq<AnimEventColor>)
    | Object(objects: seq<AnimEventObject>)
    | Bool(bools: seq<AnimEventBool>)
    | QuatKeys(quats: seq<AnimEventQuat>)
    | Vector3Keys(vectors: seq<AnimEventVector3>)
    | Symbol(symbols: seq<AnimEventSymbol>)

  /** Kind codes run from 0 to this. */
  const MAX_ENUM_VALUE: U32 := 6

  /** `Default`: an empty list of symbol keys. */
  const DEFAULT_EVENTS: PropKeysEvents := Symbol([])

  /** `get_enum_value`: the kind code, in declaration order. */
  function GetEnumValue(e: PropKeysEvents): (r: U32)
    ensures r <= MAX_ENUM_VALUE
  {
    match e
    case Float(_) => 0
    case Color(_) => 1
    case Object(_) => 2
    case Bool(_) => 3
    case QuatKeys(_) => 4
    case Vector3Keys(_) => 5
    case Symbol(_) => 6
  }

  /** `len`: the number of keys, whatever their kind. */
  function Len(e: PropKeysEvents): nat {
    match e
    case Float(evs) => |evs|
    case Color(evs) => |evs|
    case Object(evs) => |evs|
    case Bool(evs) => |evs|
    case QuatKeys(evs) => |evs|
    case Vector3Keys(evs) => |evs|
    case Symbol(evs) => |evs|
  }

  /** `from_enum_value`: an empty list of the kind with that code. Any code above 6
    * panics, so the caller must pass a valid one. */
  function FromEnumValue(value: U32): (e: PropKeysEvents)
    requires value <= MAX_ENUM_VALUE
  {
    match value
    case 0 => Float([])
    case 1 => Color([])
    case 2 => Object([])
    case 3 => Bool([])
    case 4 => QuatKeys([])
    case 5 => Vector3Keys([])
    case 6 => Symbol([])
  }

  /** The same kind with its keys removed. */
  predicate SameKind(a: PropKeysEvents, b: PropKeysEvents) {
    (a.Float? && b.Float?) || (a.Color? && b.Color?) || (a.Object? && b.Object?) || (a.Bool? && b.Bool?)
    || (a.QuatKeys? && b.QuatKeys?) || (a.Vector3Keys? && b.Vector3Keys?) || (a.Symbol? && b.Symbol?)
  }

  /** `from_enum_value` gives an empty list whose code is the one it was given. */
  lemma FromEnumValueRoundTrip(value: U32)
    requires value <= MAX_ENUM_VALUE
    ensures GetEnumValue(FromEnumValue(value)) == value
    ensures Len(FromEnumValue(value)) == 0
  {
  }

  /** The code determines the kind: reading a code back gives the same kind, and it gives
    * the list itself exactly when the list is empty. */
  lemma EnumValueRoundTrip(e: PropKeysEvents)
    ensures SameKind(FromEnumValue(GetEnumValue(e)), e)
    ensures FromEnumValue(GetEnumValue(e)) == e <==> Len(e) == 0
  {
  }

  /** Two lists have the same code exactly when they are of the same kind. */
  lemma EnumValueSeparatesKinds(a: PropKeysEvents, b: PropKeysEvents)
    ensures GetEnumValue(a) == GetEnumValue(b) <==> SameKind(a, b)
  {
  }

  /** The default is the empty symbol list, code 6. */
  lemma DefaultIsEmptySymbols()
    ensures GetEnumValue(DEFAULT_EVENTS) == 6 && Len(DEFAULT_EVENTS) == 0
    ensures DEFAULT_EVENTS == FromEnumValue(6)
  {
  }
}
