/** The binary form of data arrays (`RootData::save`/`load`, `save_array`/`load_array`,
  * `save_node`/`load_node`, `save_string`/`load_string`), from core/grim/src/dta/io.rs. */
module DtaIo {
  import opened Wrappers
  import opened Ints
  import opened Stream
  import opened Dta

  /** Why loading fails: a read past the data, a type code with no variant, or code 3
    * (functions), which the source leaves unimplemented and panics on. */
  datatype DtaError = StreamFailed(error: StreamError) | UnknownNodeType(nodeType: U32) | FuncNotSupported

  // ---------------------------------------------------------------------------------------
  // Writing

  /** `save_string`: a `u32` length (`len() as u32`, wrapping) and the bytes. */
  function StringBytes(e: Endian, s: DataString): (r: Bytes)
    ensures |r| == 4 + |s.data|
  {
    EncodeUnsigned(e, W32, WrapU32(|s.data|)) + s.data
  }

  /** How many arrays (`Array`, `Command`, `Property`) a node holds, itself included: the
    * number of times saving it increments the id counter. */
  function ArrayCount(n: DataArray): nat
    decreases n, 1
  {
    if n.HasItems() then 1 + ItemsArrayCount(n.items) else 0
  }

  function ItemsArrayCount(items: seq<DataArray>): nat
    decreases items, 0
  {
    if items == [] then 0 else ArrayCount(items[0]) + ItemsArrayCount(items[1..])
  }

  /** What `save_node` writes after the type code of a node without items. Markers write an
    * `i32` zero. */
  function LeafPayload(e: Endian, n: DataArray): (r: Bytes)
    requires !n.HasItems()
    ensures |r| >= 4
  {
    if n.Integer? then EncodeSigned(e, W32, n.i)
    else if n.Float? then EncodeUnsigned(e, W32, n.bits)
    else if n.HasString() then StringBytes(e, n.s)
    else EncodeSigned(e, W32, 0)
  }

  /** What `save_node` writes for `n` when the id counter is `id`: the type code, then the
    * payload. */
  function NodeBytes(e: Endian, n: DataArray, id: nat): (r: Bytes)
    decreases n, 2
    ensures |r| >= 8
  {
    EncodeUnsigned(e, W32, EnumValue(n)) + PayloadBytes(e, n, id)
  }

  /** What `save_node` writes after the type code. */
  function PayloadBytes(e: Endian, n: DataArray, id: nat): (r: Bytes)
    decreases n, 1
    ensures |r| >= 4
  {
    if n.HasItems() then ArrayBytes(e, n.items, id) else LeafPayload(e, n)
  }

  /** What `save_array` writes: a `u16` count (`len() as u16`, truncating), the id as a `u32`
    * (the counter wraps), then each node with the counter one higher. */
  function ArrayBytes(e: Endian, items: seq<DataArray>, id: nat): (r: Bytes)
    decreases items, 1
    ensures |r| >= 6
  {
    EncodeUnsigned(e, W16, |items| % 0x1_0000) + EncodeUnsigned(e, W32, WrapU32(id)) + ItemsBytes(e, items, id + 1)
  }

  /** The nodes one after another, each starting from the counter its predecessors left. */
  function ItemsBytes(e: Endian, items: seq<DataArray>, id: nat): Bytes
    decreases items, 0
  {
    if items == [] then [] else NodeBytes(e, items[0], id) + ItemsBytes(e, items[1..], id + ArrayCount(items[0]))
  }

  lemma ItemsBytesCons(e: Endian, items: seq<DataArray>, id: nat, next: nat)
    requires items != [] && next == id + ArrayCount(items[0])
    ensures ItemsBytes(e, items, id) == NodeBytes(e, items[0], id) + ItemsBytes(e, items[1..], next)
  {
    var head, tail := items[0], items[1..];
    var a, b := NodeBytes(e, head, id), ItemsBytes(e, tail, next);
    assert ItemsBytes(e, items, id) == a + b;
  }

  lemma ItemsArrayCountCons(items: seq<DataArray>)
    requires items != []
    ensures ItemsArrayCount(items) == ArrayCount(items[0]) + ItemsArrayCount(items[1..])
  {
  }

  // ---------------------------------------------------------------------------------------
  // Reading

  function ReadU32(e: Endian, data: Bytes, pos: nat): (r: Result<U32, DtaError>)
    ensures r.Ok? <==> pos + 4 <= |data|
    ensures r.Ok? ==> r.value == DecodeUnsigned(e, data[pos..pos + 4])
  {
    match ReadUnsignedAt(e, W32, data, pos)
    case Ok(v) => Ok(v)
    case Err(err) => Err(StreamFailed(err))
  }

  /** `load_string` at `pos`: a `u32` length and that many bytes. */
  function StringAt(e: Endian, data: Bytes, pos: nat): (r: Result<(DataString, nat), DtaError>)
    ensures r.Ok? ==> r.value.1 == pos + 4 + |r.value.0.data| <= |data|
  {
    var length :- ReadU32(e, data, pos);
    match ReadAt(data, pos + 4, length)
    case Err(err) => Err(StreamFailed(err))
    case Ok(bytes) => Ok((DataString(bytes), pos + 4 + length))
  }

  /** How far reading may still go from `pos`: the cursor never passes 4 bytes beyond the
    * end (a marker seeks over its 4 bytes without reading them). */
  function Room(data: Bytes, pos: nat): nat {
    if pos <= |data| + 4 then |data| + 4 - pos else 0
  }

  /** `load_node` at `pos`: the node and the cursor after it. The type code selects the
    * variant; code 3 (functions) is unsupported and a code of no variant is an error. */
  function NodeAt(e: Endian, data: Bytes, pos: nat): (r: Result<(DataArray, nat), DtaError>)
    decreases Room(data, pos), 2
    ensures r.Ok? ==> pos + 8 <= r.value.1 <= |data| + 4
  {
    var code :- ReadU32(e, data, pos);
    if code == 0x03 then Err(FuncNotSupported)
    else match NodeOfCode(code)
    case None => Err(UnknownNodeType(code))
    case Some(kind) => PayloadAt(e, data, pos + 4, kind)
  }

  /** The payload at `p`, just after a type code, for a node of the variant of `kind`: an
    * `i32`, an `f32` (kept as bits), a string, an array, or 4 bytes that are skipped. */
  function PayloadAt(e: Endian, data: Bytes, p: nat, kind: DataArray): (r: Result<(DataArray, nat), DtaError>)
    requires p <= |data|
    decreases Room(data, p), 1
    ensures r.Ok? ==> p + 4 <= r.value.1 <= |data| + 4
    ensures r.Ok? ==> SameVariant(kind, r.value.0)
  {
    if kind.Integer? then
      match ReadSignedAt(e, W32, data, p)
      case Ok(i) => Ok((Integer(i), p + 4))
      case Err(err) => Err(StreamFailed(err))
    else if kind.Float? then
      var bits :- ReadU32(e, data, p);
      Ok((Float(bits), p + 4))
    else if kind.HasString() then
      var t :- StringAt(e, data, p);
      Ok((kind.(s := t.0), t.1))
    else if kind.HasItems() then
      var t :- ArrayAt(e, data, p);
      Ok((kind.(items := t.0), t.1))
    else
      Ok((kind, p + 4))
  }

  /** `load_array` at `pos`: a `u16` count, a `u32` id that is ignored, then that many nodes. */
  function ArrayAt(e: Endian, data: Bytes, pos: nat): (r: Result<(seq<DataArray>, nat), DtaError>)
    decreases Room(data, pos), 0
    ensures r.Ok? ==> pos + 6 <= r.value.1 <= |data| + 4
  {
    match ReadUnsignedAt(e, W16, data, pos)
    case Err(err) => Err(StreamFailed(err))
    case Ok(count) =>
      var _ :- ReadU32(e, data, pos + 2);
      NodesAt(e, data, pos + 6, count)
  }

  /** `count` nodes read one after another from `pos`. */
  function NodesAt(e: Endian, data: Bytes, pos: nat, count: nat): (r: Result<(seq<DataArray>, nat), DtaError>)
    decreases Room(data, pos), 3, count
    ensures r.Ok? ==> |r.value.0| == count && pos <= r.value.1
    ensures r.Ok? && pos <= |data| + 4 ==> r.value.1 <= |data| + 4
  {
    if count == 0 then Ok(([], pos))
    else
      var h := NodeAt(e, data, pos);
      if h.Err? then Err(h.error)
      else
        var t := NodesAt(e, data, h.value.1, count - 1);
        if t.Err? then Err(t.error) else Ok(([h.value.0] + t.value.0, t.value.1))
  }

  /** The count one less than `count`, named: both give the same reading. */
  lemma NodesAtPred(e: Endian, data: Bytes, pos: nat, count: nat, rest: nat)
    requires count > 0 && rest == count - 1
    ensures NodesAt(e, data, pos, count - 1) == NodesAt(e, data, pos, rest)
  {
  }

  /** Reading several nodes is reading the first, then the rest from where it ended. */
  lemma ItemsStep(e: Endian, data: Bytes, pos: nat, head: DataArray, tail: seq<DataArray>, count: nat, next: nat, end: nat)
    requires count > 0
    requires NodeAt(e, data, pos).Ok? && NodeAt(e, data, pos).value.0 == head && NodeAt(e, data, pos).value.1 == next
    requires NodesAt(e, data, next, count - 1).Ok?
    requires NodesAt(e, data, next, count - 1).value.0 == tail && NodesAt(e, data, next, count - 1).value.1 == end
    ensures NodesAt(e, data, pos, count).Ok?
    ensures NodesAt(e, data, pos, count).value.0 == [head] + tail && NodesAt(e, data, pos, count).value.1 == end
  {
  }

  // ---------------------------------------------------------------------------------------
  // Saving then loading

  /** A node whose counts and lengths fit the widths they are written with: every array has
    * fewer than 65536 items (`len() as u16`) and every string fewer than 2^32 bytes. */
  predicate Encodable(n: DataArray)
    decreases n, 1
  {
    if n.HasItems() then |n.items| < 0x1_0000 && ItemsEncodable(n.items)
    else if n.HasString() then |n.s.data| < U32_LIMIT
    else true
  }

  predicate ItemsEncodable(items: seq<DataArray>)
    decreases items, 0
  {
    forall i :: 0 <= i < |items| ==> Encodable(items[i])
  }

  /** Filling the payload of the node of a variant's code with a node's payload gives back that
    * node. */
  lemma KindUpdate(n: DataArray, kind: DataArray)
    requires SameVariant(n, kind)
    ensures n.HasString() ==> kind.HasString() && kind.(s := n.s) == n
    ensures n.HasItems() ==> kind.HasItems() && kind.(items := n.items) == n
    ensures n.IsMarker() ==> kind == n
    ensures n.Integer? ==> kind.Integer?
    ensures n.Float? ==> kind.Float?
    ensures !n.HasString() ==> !kind.HasString()
    ensures !n.HasItems() ==> !kind.HasItems()
  {
  }

  /** `load_string` reads back what `save_string` wrote. */
  lemma StringRoundTrip(e: Endian, s: DataString, data: Bytes, pos: nat)
    requires |s.data| < U32_LIMIT
    requires MatchAt(data, StringBytes(e, s), pos)
    ensures StringAt(e, data, pos).Ok?
    ensures StringAt(e, data, pos).value.0 == s && StringAt(e, data, pos).value.1 == pos + |StringBytes(e, s)|
  {
    var len := EncodeUnsigned(e, W32, WrapU32(|s.data|));
    WindowSplit(data, pos, pos + 4, len, s.data);
    ReadUnsignedWindow(e, W32, data, pos, |s.data|);
    var bytes := ReadAt(data, pos + 4, |s.data|);
    assert bytes.value == data[pos + 4..pos + 4 + |s.data|];
  }

  /** `load_node` reads back what `save_node` wrote, whatever the id counter was. */
  lemma {:induction false} NodeRoundTrip(e: Endian, n: DataArray, id: nat, data: Bytes, pos: nat)
    requires Encodable(n)
    requires MatchAt(data, NodeBytes(e, n, id), pos)
    decreases n, 2
    ensures NodeAt(e, data, pos).Ok?
    ensures NodeAt(e, data, pos).value.0 == n && NodeAt(e, data, pos).value.1 == pos + |NodeBytes(e, n, id)|
  {
    var p := pos + 4;
    NodeBytesSplit(e, n, id, data, pos, p);
    var kind := NodeAtKind(e, n, data, pos, p);
    PayloadRoundTrip(e, n, kind, id, data, p);
  }

  /** A window holding a saved node holds its type code, then its payload. */
  lemma NodeBytesSplit(e: Endian, n: DataArray, id: nat, data: Bytes, pos: nat, p: nat)
    requires p == pos + 4
    requires MatchAt(data, NodeBytes(e, n, id), pos)
    ensures ReadU32(e, data, pos) == Ok(EnumValue(n))
    ensures |NodeBytes(e, n, id)| == 4 + |PayloadBytes(e, n, id)|
    ensures MatchAt(data, PayloadBytes(e, n, id), p)
  {
    WindowSplit(data, pos, p, EncodeUnsigned(e, W32, EnumValue(n)), PayloadBytes(e, n, id));
    ReadUnsignedWindow(e, W32, data, pos, EnumValue(n));
  }

  /** After the type code of `n`, loading goes on with the payload of `n`'s variant. */
  lemma NodeAtKind(e: Endian, n: DataArray, data: Bytes, pos: nat, p: nat) returns (kind: DataArray)
    requires p == pos + 4 && p <= |data| && ReadU32(e, data, pos) == Ok(EnumValue(n))
    ensures SameVariant(n, kind)
    ensures NodeAt(e, data, pos) == PayloadAt(e, data, p, kind)
  {
    EnumValueDistinct(n, n);
    assert EnumValue(n) != 0x03;
    kind := NodeOfCode(EnumValue(n)).value;
  }

  lemma {:induction false} PayloadRoundTrip(e: Endian, n: DataArray, kind: DataArray, id: nat, data: Bytes, p: nat)
    requires Encodable(n) && SameVariant(n, kind)
    requires MatchAt(data, PayloadBytes(e, n, id), p)
    decreases n, 1
    ensures PayloadAt(e, data, p, kind).Ok?
    ensures PayloadAt(e, data, p, kind).value.0 == n
    ensures PayloadAt(e, data, p, kind).value.1 == p + |PayloadBytes(e, n, id)|
  {
    KindUpdate(n, kind);
    if n.HasItems() {
      ArrayRoundTrip(e, n.items, id, data, p);
    } else {
      LeafRoundTrip(e, n, kind, data, p);
    }
  }

  lemma LeafRoundTrip(e: Endian, n: DataArray, kind: DataArray, data: Bytes, p: nat)
    requires Encodable(n) && SameVariant(n, kind) && !n.HasItems()
    requires MatchAt(data, LeafPayload(e, n), p)
    ensures PayloadAt(e, data, p, kind).Ok?
    ensures PayloadAt(e, data, p, kind).value.0 == n
    ensures PayloadAt(e, data, p, kind).value.1 == p + |LeafPayload(e, n)|
  {
    KindUpdate(n, kind);
    if n.HasString() {
      StringPayloadRoundTrip(e, n, kind, data, p);
    } else if n.Integer? {
      ReadSignedWindow(e, W32, data, p, n.i);
    } else if n.Float? {
      ReadUnsignedWindow(e, W32, data, p, n.bits);
    }
  }

  lemma StringPayloadRoundTrip(e: Endian, n: DataArray, kind: DataArray, data: Bytes, p: nat)
    requires n.HasString() && |n.s.data| < U32_LIMIT && SameVariant(n, kind)
    requires MatchAt(data, StringBytes(e, n.s), p)
    ensures PayloadAt(e, data, p, kind).Ok?
    ensures PayloadAt(e, data, p, kind).value.0 == n
    ensures PayloadAt(e, data, p, kind).value.1 == p + |StringBytes(e, n.s)|
  {
    KindUpdate(n, kind);
    StringRoundTrip(e, n.s, data, p);
  }

  lemma EncodableTail(items: seq<DataArray>)
    requires items != [] && ItemsEncodable(items)
    ensures ItemsEncodable(items[1..])
  {
    forall i | 0 <= i < |items| - 1 ensures Encodable(items[1..][i]) {
      assert items[1..][i] == items[i + 1];
    }
  }

  /** `load_array` reads back what `save_array` wrote. */
  lemma {:induction false} ArrayRoundTrip(e: Endian, items: seq<DataArray>, id: nat, data: Bytes, pos: nat)
    requires |items| < 0x1_0000 && ItemsEncodable(items)
    requires MatchAt(data, ArrayBytes(e, items, id), pos)
    decreases items, 1
    ensures ArrayAt(e, data, pos).Ok?
    ensures ArrayAt(e, data, pos).value.0 == items && ArrayAt(e, data, pos).value.1 == pos + |ArrayBytes(e, items, id)|
  {
    var next, p, n := id + 1, pos + 6, |items|;
    ArrayHeader(e, items, id, next, data, pos, p, n);
    ItemsRoundTrip(e, items, next, data, p, n);
  }

  /** A window holding a saved array starts with its count, which loading reads, and its id,
    * which loading skips; its nodes follow. */
  lemma ArrayHeader(e: Endian, items: seq<DataArray>, id: nat, next: nat, data: Bytes, pos: nat, p: nat, n: nat)
    requires n == |items| < 0x1_0000 && next == id + 1 && p == pos + 6
    requires MatchAt(data, ArrayBytes(e, items, id), pos)
    ensures ArrayAt(e, data, pos) == NodesAt(e, data, p, n)
    ensures MatchAt(data, ItemsBytes(e, items, next), p)
    ensures |ArrayBytes(e, items, id)| == 6 + |ItemsBytes(e, items, next)|
  {
    var count, ident, body := EncodeUnsigned(e, W16, n), EncodeUnsigned(e, W32, WrapU32(id)), ItemsBytes(e, items, next);
    ArrayBytesSplit(e, items, id, next);
    CountBytes(e, items, n);
    var q := pos + 2;
    WindowSplit(data, pos, q, count, ident + body);
    WindowSplit(data, q, p, ident, body);
    ReadUnsignedWindow(e, W16, data, pos, n);
    ArrayAtNodes(e, data, pos, p, n);
  }

  /** A count below 2^16 is written as itself. */
  lemma CountBytes(e: Endian, items: seq<DataArray>, n: nat)
    requires n == |items| < 0x1_0000
    ensures EncodeUnsigned(e, W16, |items| % 0x1_0000) == EncodeUnsigned(e, W16, n)
  {
    var m := |items| % 0x1_0000;
    assert m == n;
  }

  /** A saved array is its count, its id, then its nodes numbered from `next`. */
  lemma ArrayBytesSplit(e: Endian, items: seq<DataArray>, id: nat, next: nat)
    requires next == id + 1
    ensures ArrayBytes(e, items, id) == EncodeUnsigned(e, W16, |items| % 0x1_0000) + (EncodeUnsigned(e, W32, WrapU32(id)) + ItemsBytes(e, items, next))
  {
  }

  /** After its count and id, an array is its nodes. */
  lemma ArrayAtNodes(e: Endian, data: Bytes, pos: nat, p: nat, count: nat)
    requires p == pos + 6 && p <= |data| && ReadUnsignedAt(e, W16, data, pos) == Ok(count)
    ensures ArrayAt(e, data, pos) == NodesAt(e, data, p, count)
  {
  }

  /** The first of several nodes reads back, and the rest of the bytes follow it. */
  lemma {:induction false} ItemsHead(e: Endian, items: seq<DataArray>, id: nat, id1: nat, data: Bytes, pos: nat) returns (next: nat)
    requires items != [] && ItemsEncodable(items) && id1 == id + ArrayCount(items[0])
    requires MatchAt(data, ItemsBytes(e, items, id), pos)
    decreases items, 0, 0
    ensures NodeAt(e, data, pos).Ok? && NodeAt(e, data, pos).value.0 == items[0] && NodeAt(e, data, pos).value.1 == next
    ensures next + |ItemsBytes(e, items[1..], id1)| == pos + |ItemsBytes(e, items, id)|
    ensures MatchAt(data, ItemsBytes(e, items[1..], id1), next)
  {
    ItemsBytesCons(e, items, id, id1);
    var a, b := NodeBytes(e, items[0], id), ItemsBytes(e, items[1..], id1);
    next := pos + |a|;
    WindowSplit(data, pos, next, a, b);
    NodeRoundTrip(e, items[0], id, data, pos);
  }

  lemma {:induction false} ItemsRoundTrip(e: Endian, items: seq<DataArray>, id: nat, data: Bytes, pos: nat, count: nat)
    requires ItemsEncodable(items) && count == |items|
    requires MatchAt(data, ItemsBytes(e, items, id), pos)
    decreases items, 0, 1
    ensures NodesAt(e, data, pos, count).Ok?
    ensures NodesAt(e, data, pos, count).value.0 == items
    ensures NodesAt(e, data, pos, count).value.1 == pos + |ItemsBytes(e, items, id)|
  {
    if items != [] {
      var head, tail := items[0], items[1..];
      var id1 := id + ArrayCount(head);
      var next := ItemsHead(e, items, id, id1, data, pos);
      EncodableTail(items);
      var end := pos + |ItemsBytes(e, items, id)|;
      var rest := count - 1;
      ItemsRoundTrip(e, tail, id1, data, next, rest);
      NodesAtPred(e, data, next, count, rest);
      ItemsStep(e, data, pos, head, tail, count, next, end);
      assert [head] + tail == items;
    }
  }

  /** A loaded node carries the type code it was read with: loading accepts exactly the codes
    * saving writes. */
  lemma NodeAtCode(e: Endian, data: Bytes, pos: nat)
    requires NodeAt(e, data, pos).Ok?
    ensures ReadU32(e, data, pos) == Ok(EnumValue(NodeAt(e, data, pos).value.0))
  {
    var code := ReadU32(e, data, pos).value;
    var kind := NodeOfCode(code).value;
    assert NodeAt(e, data, pos) == PayloadAt(e, data, pos + 4, kind);
    NodeOfCodeInverse(code);
    EnumValueDistinct(kind, NodeAt(e, data, pos).value.0);
  }

  /** Code 3 is the unsupported function node; any other code of no variant is an
    * `UnknownNodeType` error carrying the code. */
  lemma NodeAtBadCode(e: Endian, data: Bytes, pos: nat)
    requires pos + 4 <= |data|
    ensures ReadU32(e, data, pos).value == 0x03 ==> NodeAt(e, data, pos) == Err(FuncNotSupported)
    ensures ReadU32(e, data, pos).value != 0x03 && ReadU32(e, data, pos).value !in NODE_CODES ==>
      NodeAt(e, data, pos) == Err(UnknownNodeType(ReadU32(e, data, pos).value))
  {
  }

  // ---------------------------------------------------------------------------------------
  // The id counter

  /** The nodes `save_node` visits for `n`, in order: `n` itself, then those of its items. */
  function Visited(n: DataArray): seq<DataArray>
    decreases n, 1
  {
    [n] + if n.HasItems() then ItemsVisited(n.items) else []
  }

  function ItemsVisited(items: seq<DataArray>): seq<DataArray>
    decreases items, 0
  {
    if items == [] then [] else Visited(items[0]) + ItemsVisited(items[1..])
  }

  /** How many of the nodes are arrays. */
  function Arrays(s: seq<DataArray>): nat {
    if s == [] then 0 else (if s[0].HasItems() then 1 else 0) + Arrays(s[1..])
  }

  lemma {:induction false} ArraysConcat(a: seq<DataArray>, b: seq<DataArray>)
    ensures Arrays(a + b) == Arrays(a) + Arrays(b)
  {
    if a == [] {
      assert a + b == b;
    } else {
      assert (a + b)[1..] == a[1..] + b;
      ArraysConcat(a[1..], b);
    }
  }

  /** Saving a node moves the counter on by the number of arrays among the nodes it visits:
    * once per array, nested ones included. */
  lemma {:induction false} ArrayCountIsArraysVisited(n: DataArray)
    decreases n, 1
    ensures ArrayCount(n) == Arrays(Visited(n))
  {
    var below := if n.HasItems() then ItemsVisited(n.items) else [];
    ArraysConcat([n], below);
    if n.HasItems() {
      ItemsArrayCountIsArraysVisited(n.items);
    }
  }

  lemma {:induction false} ItemsArrayCountIsArraysVisited(items: seq<DataArray>)
    decreases items, 0
    ensures ItemsArrayCount(items) == Arrays(ItemsVisited(items))
  {
    if items != [] {
      ArrayCountIsArraysVisited(items[0]);
      ItemsArrayCountIsArraysVisited(items[1..]);
      ArraysConcat(Visited(items[0]), ItemsVisited(items[1..]));
    }
  }

  // ---------------------------------------------------------------------------------------
  // The root, and saving and loading through a stream

  /** What `RootData::save` writes: a boolean "has data", then the top-level array numbered from
    * id 0 when there is one. */
  function RootBytes(e: Endian, data: seq<DataArray>): Bytes {
    if data == [] then [0] else [1] + ArrayBytes(e, data, 0)
  }

  /** `RootData::load` at `pos`: any nonzero flag byte means an array follows. */
  function RootAt(e: Endian, data: Bytes, pos: nat): (r: Result<(seq<DataArray>, nat), DtaError>)
    ensures r.Ok? ==> pos + 1 <= r.value.1
  {
    match ReadUnsignedAt(e, W8, data, pos)
    case Err(err) => Err(StreamFailed(err))
    case Ok(flag) => if flag == 0 then Ok(([], pos + 1)) else ArrayAt(e, data, pos + 1)
  }

  /** A saved root loads back as the same nodes, provided every array has fewer than 65536
    * elements and every string fewer than 2^32 bytes. */
  lemma RootRoundTrip(e: Endian, items: seq<DataArray>, data: Bytes, pos: nat)
    requires |items| < 0x1_0000 && ItemsEncodable(items)
    requires MatchAt(data, RootBytes(e, items), pos)
    ensures RootAt(e, data, pos) == Ok((items, pos + |RootBytes(e, items)|))
  {
    if items == [] {
      ReadUnsignedWindow(e, W8, data, pos, 0);
    } else {
      var flag, body := [1 as U8], ArrayBytes(e, items, 0);
      var p := pos + 1;
      WindowSplit(data, pos, p, flag, body);
      ReadUnsignedWindow(e, W8, data, pos, 1);
      ArrayRoundTrip(e, items, 0, data, p);
    }
  }

  /** Loading at the position a root was saved to gives the root back, whatever the stream
    * held before. */
  lemma SaveThenLoad(e: Endian, items: seq<DataArray>, data: Bytes, pos: nat)
    requires |items| < 0x1_0000 && ItemsEncodable(items) && pos <= |data|
    ensures RootAt(e, WriteAt(data, pos, RootBytes(e, items)), pos) == Ok((items, pos + |RootBytes(e, items)|))
  {
    var d := RootBytes(e, items);
    var w := WriteAt(data, pos, d);
    ReadAfterWrite(data, pos, d);
    assert w[pos..pos + |d|] == ReadAt(w, pos, |d|).value;
    RootRoundTrip(e, items, w, pos);
  }

  /** A load result without the cursor. */
  function Value<T>(t: Result<(T, nat), DtaError>): (r: Result<T, DtaError>)
    ensures r.Ok? <==> t.Ok?
    ensures t.Ok? ==> r.value == t.value.0
    ensures t.Err? ==> r.error == t.error
  {
    if t.Ok? then Ok(t.value.0) else Err(t.error)
  }

  /** `nodes` in front of the nodes a read gives; an error stays an error. */
  function Prepend(nodes: seq<DataArray>, t: Result<(seq<DataArray>, nat), DtaError>): (r: Result<(seq<DataArray>, nat), DtaError>)
    ensures r.Ok? <==> t.Ok?
    ensures t.Ok? ==> r.value.0 == nodes + t.value.0 && r.value.1 == t.value.1
    ensures t.Err? ==> r.error == t.error
  {
    if t.Err? then Err(t.error) else Ok((nodes + t.value.0, t.value.1))
  }

  /** Putting two runs of nodes in front, one after the other, puts their concatenation. */
  lemma PrependTwice(nodes: seq<DataArray>, more: seq<DataArray>, t: Result<(seq<DataArray>, nat), DtaError>)
    ensures Prepend(nodes, Prepend(more, t)) == Prepend(nodes + more, t)
  {
    if t.Ok? {
      assert nodes + (more + t.value.0) == (nodes + more) + t.value.0;
    }
  }

  lemma PrependNothing(t: Result<(seq<DataArray>, nat), DtaError>)
    ensures Prepend([], t) == t
  {
    if t.Ok? {
      assert [] + t.value.0 == t.value.0;
    }
  }

  /** Reading `count` nodes is reading one, then `rest` more from where it ended. */
  lemma NodesAtUnfold(e: Endian, data: Bytes, pos: nat, count: nat, rest: nat)
    requires count > 0 && rest == count - 1
    ensures var h := NodeAt(e, data, pos);
      NodesAt(e, data, pos, count) == if h.Err? then Err(h.error) else Prepend([h.value.0], NodesAt(e, data, h.value.1, rest))
  {
    var h := NodeAt(e, data, pos);
    if h.Ok? {
      NodesAtPred(e, data, h.value.1, count, rest);
    }
  }

  /** The size bound of a Rust vector, `isize::MAX` bytes, which keeps a 4-byte seek from
    * wrapping around. */
  const MAX_STREAM_LENGTH: nat := 0x8000_0000_0000_0000

  /** `save_string`: the length as a `u32`, then the raw bytes. */
  method SaveString(writer: BinaryStream, s: DataString) returns (r: Result<(), StreamError>)
    modifies writer.stream
    ensures r.Ok? <==> writer.stream.writable && old(writer.stream.position) <= |old(writer.stream.data)|
    ensures r.Ok? ==> writer.stream.data == WriteAt(old(writer.stream.data), old(writer.stream.position), StringBytes(writer.endian, s))
    ensures r.Ok? ==> writer.stream.position == old(writer.stream.position) + |StringBytes(writer.endian, s)|
  {
    ghost var d0, p0 := writer.stream.data, writer.stream.position;
    var raw := GetRaw(s);
    r := writer.WriteUnsigned(W32, WrapU32(|raw|));
    if r.Err? {
      return;
    }
    ghost var p1 := writer.stream.position;
    r := writer.stream.WriteBytes(raw);
    WriteAtConcat(d0, p0, p1, EncodeUnsigned(writer.endian, W32, WrapU32(|raw|)), raw);
  }

  /** `save_node`: the type code, then the payload. The id counter moves on past every array
    * saved; the new counter is the result. Once the type code is written the stream stays
    * writable, so only that first write can fail. */
  method SaveNode(writer: BinaryStream, n: DataArray, id: nat) returns (r: Result<nat, StreamError>)
    modifies writer.stream
    decreases n, 2
    ensures r.Ok? <==> writer.stream.writable && old(writer.stream.position) <= |old(writer.stream.data)|
    ensures r.Ok? ==> writer.stream.data == WriteAt(old(writer.stream.data), old(writer.stream.position), NodeBytes(writer.endian, n, id))
    ensures r.Ok? ==> writer.stream.position == old(writer.stream.position) + |NodeBytes(writer.endian, n, id)|
    ensures r.Ok? ==> r.value == id + ArrayCount(n)
  {
    ghost var d0, p0 := writer.stream.data, writer.stream.position;
    var w := writer.WriteUnsigned(W32, EnumValue(n));
    if w.Err? {
      return Err(w.error);
    }
    ghost var p1 := writer.stream.position;
    if n.HasItems() {
      r := SaveArray(writer, n.items, id);
    } else {
      if n.Integer? {
        w := writer.WriteSigned(W32, n.i);
      } else if n.Float? {
        w := writer.WriteUnsigned(W32, n.bits);
      } else if n.HasString() {
        w := SaveString(writer, n.s);
      } else {
        w := writer.WriteSigned(W32, 0);
      }
      r := Ok(id);
    }
    WriteAtConcat(d0, p0, p1, EncodeUnsigned(writer.endian, W32, EnumValue(n)), PayloadBytes(writer.endian, n, id));
  }

  /** `save_array`: the element count truncated to `u16`, the id as a `u32`, then each element
    * with the counter one past the array's own id. */
  method SaveArray(writer: BinaryStream, items: seq<DataArray>, id: nat) returns (r: Result<nat, StreamError>)
    modifies writer.stream
    decreases items, 1
    ensures r.Ok? <==> writer.stream.writable && old(writer.stream.position) <= |old(writer.stream.data)|
    ensures r.Ok? ==> writer.stream.data == WriteAt(old(writer.stream.data), old(writer.stream.position), ArrayBytes(writer.endian, items, id))
    ensures r.Ok? ==> writer.stream.position == old(writer.stream.position) + |ArrayBytes(writer.endian, items, id)|
    ensures r.Ok? ==> r.value == id + 1 + ItemsArrayCount(items)
  {
    ghost var e, d0, p0 := writer.endian, writer.stream.data, writer.stream.position;
    var w := writer.WriteUnsigned(W16, |items| % 0x1_0000);
    if w.Err? {
      return Err(w.error);
    }
    ghost var p1 := writer.stream.position;
    w := writer.WriteUnsigned(W32, WrapU32(id));
    ghost var p2 := writer.stream.position;
    ghost var count, ident := EncodeUnsigned(e, W16, |items| % 0x1_0000), EncodeUnsigned(e, W32, WrapU32(id));
    WriteAtConcat(d0, p0, p1, count, ident);
    var next: nat := id + 1;
    ghost var body := ItemsBytes(e, items, next);
    ArrayBytesSplit(e, items, id, next);
    next := SaveItems(writer, items, next);
    WriteAtConcat(d0, p0, p2, count + ident, body);
    assert count + ident + body == count + (ident + body);
    r := Ok(next);
  }

  /** One more element saved: the bytes written so far grow by that element's bytes, and the
    * counter by its arrays. */
  lemma ItemsSuffixStep(e: Endian, items: seq<DataArray>, id: nat, i: nat, i1: nat, next: nat, next1: nat, done: Bytes)
    requires i < |items| && i1 == i + 1 && next1 == next + ArrayCount(items[i])
    requires ItemsBytes(e, items, id) == done + ItemsBytes(e, items[i..], next)
    requires id + ItemsArrayCount(items) == next + ItemsArrayCount(items[i..])
    ensures ItemsBytes(e, items, id) == (done + NodeBytes(e, items[i], next)) + ItemsBytes(e, items[i1..], next1)
    ensures id + ItemsArrayCount(items) == next1 + ItemsArrayCount(items[i1..])
  {
    ItemsBytesCons(e, items[i..], next, next1);
    ItemsArrayCountCons(items[i..]);
    assert items[i..][1..] == items[i1..];
  }

  /** The loop of `save_array` over the elements, on a stream that has taken the array's
    * header and so stays writable. */
  method SaveItems(writer: BinaryStream, items: seq<DataArray>, id: nat) returns (next: nat)
    requires writer.stream.writable && writer.stream.position <= |writer.stream.data|
    modifies writer.stream
    decreases items, 0
    ensures writer.stream.data == WriteAt(old(writer.stream.data), old(writer.stream.position), ItemsBytes(writer.endian, items, id))
    ensures writer.stream.position == old(writer.stream.position) + |ItemsBytes(writer.endian, items, id)|
    ensures next == id + ItemsArrayCount(items)
  {
    ghost var e, d0, p0 := writer.endian, writer.stream.data, writer.stream.position;
    ghost var done: Bytes := [];
    next := id;
    var i := 0;
    while i < |items|
      invariant 0 <= i <= |items|
      invariant ItemsBytes(e, items, id) == done + ItemsBytes(e, items[i..], next)
      invariant id + ItemsArrayCount(items) == next + ItemsArrayCount(items[i..])
      invariant writer.stream.writable && p0 <= |d0|
      invariant writer.stream.data == WriteAt(d0, p0, done)
      invariant writer.stream.position == p0 + |done|
    {
      ghost var q := writer.stream.position;
      var s := SaveNode(writer, items[i], next);
      ghost var node := NodeBytes(e, items[i], next);
      WriteAtConcat(d0, p0, q, done, node);
      var i1 := i + 1;
      ItemsSuffixStep(e, items, id, i, i1, next, s.value, done);
      done := done + node;
      next := s.value;
      i := i1;
    }
    assert done + [] == done;
  }

  /** `load_string`. */
  method LoadString(reader: BinaryStream) returns (r: Result<DataString, DtaError>)
    modifies reader.stream
    ensures reader.stream.data == old(reader.stream.data)
    ensures r == Value(StringAt(reader.endian, old(reader.stream.data), old(reader.stream.position)))
    ensures r.Ok? ==> reader.stream.position == StringAt(reader.endian, old(reader.stream.data), old(reader.stream.position)).value.1
  {
    var length := reader.ReadUnsigned(W32);
    if length.Err? {
      return Err(StreamFailed(length.error));
    }
    var bytes := reader.stream.ReadBytes(length.value);
    if bytes.Err? {
      return Err(StreamFailed(bytes.error));
    }
    r := Ok(FromVec(bytes.value));
  }

  /** `load_node`: the type code, then the payload of that code's variant. */
  method LoadNode(reader: BinaryStream) returns (r: Result<DataArray, DtaError>)
    requires |reader.stream.data| < MAX_STREAM_LENGTH
    modifies reader.stream
    decreases Room(reader.stream.data, reader.stream.position), 2
    ensures reader.stream.data == old(reader.stream.data)
    ensures r == Value(NodeAt(reader.endian, old(reader.stream.data), old(reader.stream.position)))
    ensures r.Ok? ==> reader.stream.position == NodeAt(reader.endian, old(reader.stream.data), old(reader.stream.position)).value.1
  {
    var nodeType := reader.ReadUnsigned(W32);
    if nodeType.Err? {
      return Err(StreamFailed(nodeType.error));
    }
    if nodeType.value == 0x03 {
      return Err(FuncNotSupported);
    }
    var kind := NodeOfCode(nodeType.value);
    if kind.None? {
      return Err(UnknownNodeType(nodeType.value));
    }
    r := LoadPayload(reader, kind.value);
  }

  /** The arms of the match in `load_node`, for the variant of `kind`. A node without a
    * payload seeks over its 4 bytes. */
  method LoadPayload(reader: BinaryStream, kind: DataArray) returns (r: Result<DataArray, DtaError>)
    requires |reader.stream.data| < MAX_STREAM_LENGTH && reader.stream.position <= |reader.stream.data|
    modifies reader.stream
    decreases Room(reader.stream.data, reader.stream.position), 1
    ensures reader.stream.data == old(reader.stream.data)
    ensures r == Value(PayloadAt(reader.endian, old(reader.stream.data), old(reader.stream.position), kind))
    ensures r.Ok? ==> reader.stream.position == PayloadAt(reader.endian, old(reader.stream.data), old(reader.stream.position), kind).value.1
  {
    if kind.Integer? {
      var v := reader.ReadSigned(W32);
      if v.Err? {
        return Err(StreamFailed(v.error));
      }
      r := Ok(Integer(v.value));
    } else if kind.Float? {
      var v := reader.ReadUnsigned(W32);
      if v.Err? {
        return Err(StreamFailed(v.error));
      }
      r := Ok(Float(v.value));
    } else if kind.HasString() {
      var s := LoadString(reader);
      if s.Err? {
        return Err(s.error);
      }
      r := Ok(kind.(s := s.value));
    } else if kind.HasItems() {
      var a := LoadArray(reader);
      if a.Err? {
        return Err(a.error);
      }
      r := Ok(kind.(items := a.value));
    } else {
      reader.stream.Seek(Current(4));
      r := Ok(kind);
    }
  }

  /** `load_array`: the count, the id (read and dropped), then that many nodes. */
  method LoadArray(reader: BinaryStream) returns (r: Result<seq<DataArray>, DtaError>)
    requires |reader.stream.data| < MAX_STREAM_LENGTH
    modifies reader.stream
    decreases Room(reader.stream.data, reader.stream.position), 0
    ensures reader.stream.data == old(reader.stream.data)
    ensures r == Value(ArrayAt(reader.endian, old(reader.stream.data), old(reader.stream.position)))
    ensures r.Ok? ==> reader.stream.position == ArrayAt(reader.endian, old(reader.stream.data), old(reader.stream.position)).value.1
  {
    ghost var e, data, pos := reader.endian, reader.stream.data, reader.stream.position;
    var count := reader.ReadUnsigned(W16);
    if count.Err? {
      return Err(StreamFailed(count.error));
    }
    var id := reader.ReadUnsigned(W32);
    if id.Err? {
      return Err(StreamFailed(id.error));
    }
    ghost var p := reader.stream.position;
    ArrayAtNodes(e, data, pos, p, count.value);
    var nodes: seq<DataArray> := [];
    var left := count.value;
    PrependNothing(NodesAt(e, data, p, left));
    while left > 0
      invariant reader.stream.data == data
      invariant p <= reader.stream.position <= |data| + 4
      invariant NodesAt(e, data, p, count.value) == Prepend(nodes, NodesAt(e, data, reader.stream.position, left))
      decreases left
    {
      ghost var q := reader.stream.position;
      var rest := left - 1;
      NodesAtUnfold(e, data, q, left, rest);
      var node := LoadNode(reader);
      if node.Err? {
        return Err(node.error);
      }
      PrependTwice(nodes, [node.value], NodesAt(e, data, reader.stream.position, rest));
      nodes := nodes + [node.value];
      left := rest;
    }
    assert nodes + [] == nodes;
    r := Ok(nodes);
  }

  /** `RootData`: the top-level nodes of a DTA file. */
  class RootData {
    var data: seq<DataArray>

    /** `RootData::new`: no nodes. */
    constructor()
      ensures data == []
    {
      data := [];
    }

    /** `RootData::save`. */
    method Save(stream: BinaryStream) returns (r: Result<(), StreamError>)
      modifies stream.stream
      ensures r.Ok? <==> stream.stream.writable && old(stream.stream.position) <= |old(stream.stream.data)|
      ensures r.Ok? ==> stream.stream.data == WriteAt(old(stream.stream.data), old(stream.stream.position), RootBytes(stream.endian, data))
      ensures r.Ok? ==> stream.stream.position == old(stream.stream.position) + |RootBytes(stream.endian, data)|
    {
      ghost var d0, p0 := stream.stream.data, stream.stream.position;
      var hasData := data != [];
      r := stream.WriteBoolean(hasData);
      if r.Err? || !hasData {
        return;
      }
      ghost var p1 := stream.stream.position;
      var saved := SaveArray(stream, data, 0);
      WriteAtConcat(d0, p0, p1, [1], ArrayBytes(stream.endian, data, 0));
    }

    /** `RootData::load`: the nodes are cleared first, so they stay empty when loading fails. */
    method Load(stream: BinaryStream) returns (r: Result<(), DtaError>)
      requires |stream.stream.data| < MAX_STREAM_LENGTH
      modifies this, stream.stream
      ensures stream.stream.data == old(stream.stream.data)
      ensures var t := RootAt(stream.endian, old(stream.stream.data), old(stream.stream.position));
        (r.Ok? <==> t.Ok?) && (r.Ok? ==> data == t.value.0 && stream.stream.position == t.value.1) &&
        (r.Err? ==> data == [] && r.error == t.error)
    {
      ghost var d0, p0 := stream.stream.data, stream.stream.position;
      data := [];
      var hasData := stream.ReadBoolean();
      if hasData.Err? {
        return Err(StreamFailed(hasData.error));
      }
      assert stream.stream.position == p0 + 1;
      if hasData.value {
        var loaded := LoadArray(stream);
        if loaded.Err? {
          return Err(loaded.error);
        }
        data := loaded.value;
      }
      r := Ok(());
    }
  }
}

