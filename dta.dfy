/** The DTA data-array tree (`DataArray`) and its queries, from core/grim/src/dta/mod.rs. */
module Dta {
  import opened Wrappers
  import opened Ints

  /** `DataString`: raw bytes, not required to be UTF-8. */
  datatype DataString = DataString(data: Bytes)

  /** `DataString::from_vec`. */
  function FromVec(data: Bytes): DataString {
    DataString(data)
  }

  /** `DataString::get_raw`. */
  function GetRaw(s: DataString): Bytes {
    s.data
  }

  /** A data string holds exactly the bytes it was made from, and is made from its bytes. */
  lemma DataStringRoundTrip(data: Bytes, s: DataString)
    ensures GetRaw(FromVec(data)) == data
    ensures FromVec(GetRaw(s)) == s
  {
  }

  /** A node of a data array. `Float` keeps the bit pattern of the `f32`; no float arithmetic is
    * done on it. */
  datatype DataArray =
    | Integer(i: I32)
    | Float(bits: U32)
    | Variable(s: DataString)
    | Object(s: DataString)
    | Symbol(s: DataString)
    | KDataUnhandled
    | IfDef(s: DataString)
    | Else
    | EndIf
    | Array(items: seq<DataArray>)
    | Command(items: seq<DataArray>)
    | String(s: DataString)
    | Property(items: seq<DataArray>)
    | Define(s: DataString)
    | Include(s: DataString)
    | Merge(s: DataString)
    | IfNDef(s: DataString)
    | Autorun
    | Undef(s: DataString)
  {
    /** The variants that carry a string. */
    predicate HasString() {
      Variable? || Object? || Symbol? || IfDef? || String? || Define? || Include? || Merge? || IfNDef? || Undef?
    }

    /** The variants that carry a list of nodes. */
    predicate HasItems() {
      Array? || Command? || Property?
    }

    /** The variants that carry nothing. */
    predicate IsMarker() {
      KDataUnhandled? || Else? || EndIf? || Autorun?
    }
  }

  /** The default node, `Integer(0)`. */
  const DEFAULT_NODE: DataArray := Integer(0)

  /** The node type codes of the binary format. Code 3 (functions) has no variant. */
  const NODE_CODES: seq<U32> :=
    [0x00, 0x01, 0x02, 0x04, 0x05, 0x06, 0x07, 0x08, 0x09, 0x10, 0x11, 0x12, 0x13, 0x20, 0x21, 0x22, 0x23, 0x24, 0x25]

  /** `get_enum_value`: the type code a node is written with. */
  function EnumValue(n: DataArray): U32 {
    match n
    case Integer(_) => 0x00
    case Float(_) => 0x01
    case Variable(_) => 0x02
    case Object(_) => 0x04
    case Symbol(_) => 0x05
    case KDataUnhandled => 0x06
    case IfDef(_) => 0x07
    case Else => 0x08
    case EndIf => 0x09
    case Array(_) => 0x10
    case Command(_) => 0x11
    case String(_) => 0x12
    case Property(_) => 0x13
    case Define(_) => 0x20
    case Include(_) => 0x21
    case Merge(_) => 0x22
    case IfNDef(_) => 0x23
    case Autorun => 0x24
    case Undef(_) => 0x25
  }

  /** A node of each variant, with empty payloads: the variant a node type code names. */
  function NodeOfCode(code: U32): (r: Option<DataArray>)
    ensures r.Some? <==> code in NODE_CODES
  {
    match code
    case 0x00 => Some(Integer(0))
    case 0x01 => Some(Float(0))
    case 0x02 => Some(Variable(DataString([])))
    case 0x04 => Some(Object(DataString([])))
    case 0x05 => Some(Symbol(DataString([])))
    case 0x06 => Some(KDataUnhandled)
    case 0x07 => Some(IfDef(DataString([])))
    case 0x08 => Some(Else)
    case 0x09 => Some(EndIf)
    case 0x10 => Some(Array([]))
    case 0x11 => Some(Command([]))
    case 0x12 => Some(String(DataString([])))
    case 0x13 => Some(Property([]))
    case 0x20 => Some(Define(DataString([])))
    case 0x21 => Some(Include(DataString([])))
    case 0x22 => Some(Merge(DataString([])))
    case 0x23 => Some(IfNDef(DataString([])))
    case 0x24 => Some(Autorun)
    case 0x25 => Some(Undef(DataString([])))
    case _ => None
  }

  /** Two nodes are of the same variant. */
  predicate SameVariant(a: DataArray, b: DataArray) {
    match a
    case Integer(_) => b.Integer?
    case Float(_) => b.Float?
    case Variable(_) => b.Variable?
    case Object(_) => b.Object?
    case Symbol(_) => b.Symbol?
    case KDataUnhandled => b.KDataUnhandled?
    case IfDef(_) => b.IfDef?
    case Else => b.Else?
    case EndIf => b.EndIf?
    case Array(_) => b.Array?
    case Command(_) => b.Command?
    case String(_) => b.String?
    case Property(_) => b.Property?
    case Define(_) => b.Define?
    case Include(_) => b.Include?
    case Merge(_) => b.Merge?
    case IfNDef(_) => b.IfNDef?
    case Autorun => b.Autorun?
    case Undef(_) => b.Undef?
  }

  /** Every variant has its own code: the code of a node names that node's variant, so two
    * nodes share a code exactly when they share a variant. */
  lemma EnumValueDistinct(a: DataArray, b: DataArray)
    ensures EnumValue(a) in NODE_CODES
    ensures NodeOfCode(EnumValue(a)).Some? && SameVariant(a, NodeOfCode(EnumValue(a)).value)
    ensures EnumValue(a) == EnumValue(b) <==> SameVariant(a, b)
  {
  }

  /** The variant a code names is written with that code. */
  lemma NodeOfCodeInverse(code: U32)
    requires NodeOfCode(code).Some?
    ensures EnumValue(NodeOfCode(code).value) == code
  {
  }

  /** Whether the node is `Symbol(symbol)` or `String(symbol)`. */
  predicate IsKey(n: DataArray, symbol: DataString) {
    (n.Symbol? || n.String?) && n.s == symbol
  }

  /** An `Array` whose first element is the key. */
  predicate HeadIsKey(n: DataArray, symbol: DataString) {
    n.Array? && |n.items| > 0 && IsKey(n.items[0], symbol)
  }

  /** `find_value_for_symbol`: for an `Array` whose first element is the key, the elements after
    * it; otherwise the first result found searching the elements in order, depth first.
    * Anything but an `Array` gives `None`. */
  function FindValueForSymbol(n: DataArray, symbol: DataString): (r: Option<seq<DataArray>>)
    decreases n, 1
    ensures !n.Array? ==> r.None?
    ensures HeadIsKey(n, symbol) ==> r == Some(n.items[1..])
  {
    if !n.Array? then None
    else if HeadIsKey(n, symbol) then Some(n.items[1..])
    else FindInItems(n.items, 0, symbol)
  }

  /** The loop of `find_value_for_symbol` over the elements from index `i`. */
  function FindInItems(items: seq<DataArray>, i: nat, symbol: DataString): (r: Option<seq<DataArray>>)
    requires i <= |items|
    decreases items, 0, |items| - i
  {
    if i == |items| then None
    else
      var found := FindValueForSymbol(items[i], symbol);
      if found.Some? then found else FindInItems(items, i + 1, symbol)
  }

  /** `sub` is `n` itself or lies below it through `Array` elements only, the nodes the search
    * visits. */
  ghost predicate Reaches(n: DataArray, sub: DataArray)
    decreases n
  {
    n == sub || (n.Array? && exists i :: 0 <= i < |n.items| && Reaches(n.items[i], sub))
  }

  /** A found value is the tail of a visited `Array` whose head is the key. */
  lemma {:induction false} FindValueSound(n: DataArray, symbol: DataString)
    decreases n, 1
    ensures var r := FindValueForSymbol(n, symbol);
      r.Some? ==> exists sub :: Reaches(n, sub) && HeadIsKey(sub, symbol) && r.value == sub.items[1..]
  {
    var r := FindValueForSymbol(n, symbol);
    if n.Array? && !HeadIsKey(n, symbol) && r.Some? {
      var i := FindInItemsSound(n.items, 0, symbol);
      var sub :| Reaches(n.items[i], sub) && HeadIsKey(sub, symbol) && r.value == sub.items[1..];
      assert Reaches(n, sub);
    } else if r.Some? {
      assert Reaches(n, n);
    }
  }

  lemma {:induction false} FindInItemsSound(items: seq<DataArray>, i: nat, symbol: DataString) returns (k: nat)
    requires i <= |items| && FindInItems(items, i, symbol).Some?
    decreases items, 0, |items| - i
    ensures i <= k < |items|
    ensures exists sub :: Reaches(items[k], sub) && HeadIsKey(sub, symbol) && FindInItems(items, i, symbol).value == sub.items[1..]
  {
    var found := FindValueForSymbol(items[i], symbol);
    if found.Some? {
      FindValueSound(items[i], symbol);
      k := i;
    } else {
      k := FindInItemsSound(items, i + 1, symbol);
    }
  }

  /** When some visited `Array` has the key as its head, the search finds a value. */
  lemma {:induction false} FindValueComplete(n: DataArray, symbol: DataString, sub: DataArray)
    requires Reaches(n, sub) && HeadIsKey(sub, symbol)
    decreases n, 1
    ensures FindValueForSymbol(n, symbol).Some?
  {
    if n != sub && !HeadIsKey(n, symbol) {
      var i :| 0 <= i < |n.items| && Reaches(n.items[i], sub);
      FindValueComplete(n.items[i], symbol, sub);
      FindInItemsComplete(n.items, 0, i, symbol);
    }
  }

  lemma {:induction false} FindInItemsComplete(items: seq<DataArray>, i: nat, j: nat, symbol: DataString)
    requires i <= j < |items| && FindValueForSymbol(items[j], symbol).Some?
    decreases items, 0, |items| - i
    ensures FindInItems(items, i, symbol).Some?
  {
    if i < j && FindValueForSymbol(items[i], symbol).None? {
      FindInItemsComplete(items, i + 1, j, symbol);
    }
  }

  /** A value is found exactly when a visited `Array` has the key as its head. */
  lemma FindValueIff(n: DataArray, symbol: DataString)
    ensures FindValueForSymbol(n, symbol).Some? <==> exists sub :: Reaches(n, sub) && HeadIsKey(sub, symbol)
  {
    FindValueSound(n, symbol);
    if exists sub :: Reaches(n, sub) && HeadIsKey(sub, symbol) {
      var sub :| Reaches(n, sub) && HeadIsKey(sub, symbol);
      FindValueComplete(n, symbol, sub);
    }
  }

  /** The elements are searched in order: no element before the one that yields the value
    * yields anything. */
  lemma {:induction false} FindInItemsFirst(items: seq<DataArray>, i: nat, symbol: DataString) returns (k: nat)
    requires i <= |items| && FindInItems(items, i, symbol).Some?
    decreases |items| - i
    ensures i <= k < |items| && FindInItems(items, i, symbol) == FindValueForSymbol(items[k], symbol)
    ensures forall j :: i <= j < k ==> FindValueForSymbol(items[j], symbol).None?
  {
    if FindValueForSymbol(items[i], symbol).Some? {
      k := i;
    } else {
      k := FindInItemsFirst(items, i + 1, symbol);
    }
  }

  /** `as_integer`: an `Integer` gives its value, a `Float` its value cast to `i32` (by the
    * given conversion, since floats are not modelled), anything else `None`. */
  function AsInteger(n: DataArray, floatToInt: U32 -> I32): (r: Option<I32>)
    ensures n.Integer? ==> r == Some(n.i)
    ensures n.Float? ==> r == Some(floatToInt(n.bits))
    ensures !n.Integer? && !n.Float? ==> r.None?
  {
    match n
    case Integer(i) => Some(i)
    case Float(bits) => Some(floatToInt(bits))
    case _ => None
  }
}
