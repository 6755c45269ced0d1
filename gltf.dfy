/** The glTF accessor builder: typed arrays are packed into one buffer view per stride, and
  * the views are laid out back to back, each padded to four bytes, in one binary buffer
  * (glTF 2.0, section 3.6 "Binary Data Storage"). */
module Gltf {
  import opened Wrappers
  import opened Ints

  // ---- Alignment ----

  /** `align_to_multiple_of_four`: `(n + 3) & !3`, that is `n + 3` with its two low bits
    * cleared. */
  function AlignToMultipleOfFour(n: nat): nat {
    (n + 3) - (n + 3) % 4
  }

  /** Clearing the two low bits of a machine word rounds it down to a multiple of four, the
    * arithmetic form `AlignToMultipleOfFour` uses. */
  lemma MaskRoundsDown(x: bv64)
    ensures x & !3 == x - x % 4
  {
  }

  /** The result is the least multiple of four that is at least `n`. */
  lemma AlignIsLeastMultiple(n: nat, m: nat)
    ensures AlignToMultipleOfFour(n) % 4 == 0
    ensures n <= AlignToMultipleOfFour(n) < n + 4
    ensures m % 4 == 0 && n <= m ==> AlignToMultipleOfFour(n) <= m
  {
  }

  /** Data padded with zeros up to the next multiple of four bytes. */
  function Pad4(data: Bytes): (r: Bytes)
    ensures |r| == AlignToMultipleOfFour(|data|)
  {
    data + seq(AlignToMultipleOfFour(|data|) - |data|, _ => 0)
  }

  // ---- Components and accessors ----

  /** The component types with a `ComponentValue` implementation: `u16` and `f32`. */
  datatype ComponentType = U16 | F32 {
    /** `size`: the byte size of one component. */
    function Size(): (n: nat)
      ensures n == Width().Size()
    {
      match this
      case U16 => 2
      case F32 => 4
    }

    function Width(): Width {
      match this
      case U16 => W16
      case F32 => W32
    }
  }

  /** `encode`: the little-endian bytes of one component. An `f32` is carried as the
    * 32-bit pattern `to_le_bytes` writes. */
  function Encode(t: ComponentType, v: nat): (r: Bytes)
    requires v < Bound(t.Width())
    ensures |r| == t.Size()
  {
    EncodeUnsigned(Little, t.Width(), v)
  }

  datatype AccessorType = Scalar | Vec2 | Vec3 | Vec4 | Mat3 | Mat4

  /** The component counts `add_array` accepts; any other panics. */
  predicate SupportedArity(n: nat) {
    n == 1 || n == 2 || n == 3 || n == 4 || n == 9 || n == 16
  }

  function TypeOfArity(n: nat): AccessorType
    requires SupportedArity(n)
  {
    match n
    case 1 => Scalar
    case 2 => Vec2
    case 3 => Vec3
    case 4 => Vec4
    case 9 => Mat3
    case 16 => Mat4
  }

  /** Components per element of an accessor type. */
  function Arity(t: AccessorType): (n: nat)
    ensures SupportedArity(n)
  {
    match t
    case Scalar => 1
    case Vec2 => 2
    case Vec3 => 3
    case Vec4 => 4
    case Mat3 => 9
    case Mat4 => 16
  }

  /** The accessor type is chosen by the component count, and tells it back. */
  lemma ArityRoundTrip(n: nat, t: AccessorType)
    ensures SupportedArity(n) ==> Arity(TypeOfArity(n)) == n
    ensures TypeOfArity(Arity(t)) == t
  {
  }

  /** `calc_stride`: the bytes of one element. */
  function CalcStride(n: nat, t: ComponentType): nat {
    n * t.Size()
  }

  /** The fields of a `json::Accessor` the builder sets; `min` and `max` are the per-column
    * extremes for `u16` components and are not modelled for `f32`. */
  datatype Accessor = Accessor(
    bufferView: nat,
    byteOffset: nat,
    count: nat,
    componentType: ComponentType,
    accessorType: AccessorType,
    min: Option<seq<nat>>,
    max: Option<seq<nat>>,
    name: Option<string>)

  /** The fields of a `json::buffer::View` the builder sets; every view is in buffer 0. */
  datatype View = View(byteLength: nat, byteOffset: nat, byteStride: Option<nat>)

  /** The fields of the `json::Buffer` that `generate` returns. */
  datatype Buffer = Buffer(byteLength: nat, uri: Option<string>)

  /** An empty name is left out of the JSON. */
  function NameOf(s: string): (r: Option<string>)
    ensures r.Some? <==> s != []
    ensures r.Some? ==> r.value == s
  {
    if s != [] then Some(s) else None
  }

  // ---- Elements ----

  /** An element with `n` components, each in range for the component type. */
  predicate ItemFits(t: ComponentType, n: nat, item: seq<nat>) {
    |item| == n && forall i :: 0 <= i < |item| ==> item[i] < Bound(t.Width())
  }

  predicate ItemsFit(t: ComponentType, n: nat, items: seq<seq<nat>>) {
    forall j :: 0 <= j < |items| ==> ItemFits(t, n, items[j])
  }

  /** The components of one element, encoded one after another. */
  function EncodeItem(t: ComponentType, item: seq<nat>): (r: Bytes)
    requires forall i :: 0 <= i < |item| ==> item[i] < Bound(t.Width())
    ensures |r| == |item| * t.Size()
  {
    if item == [] then []
    else EncodeItem(t, item[..|item| - 1]) + Encode(t, item[|item| - 1])
  }

  /** The data stream `add_array` builds: every element encoded, in order. */
  function EncodeItems(t: ComponentType, n: nat, items: seq<seq<nat>>): Bytes
    requires ItemsFit(t, n, items)
  {
    if items == [] then []
    else EncodeItems(t, n, items[..|items| - 1]) + EncodeItem(t, items[|items| - 1])
  }

  /** The data stream holds exactly one stride of bytes per element. */
  lemma {:induction false} EncodedLength(t: ComponentType, n: nat, items: seq<seq<nat>>)
    requires ItemsFit(t, n, items)
    ensures |EncodeItems(t, n, items)| == |items| * CalcStride(n, t)
  {
    if items != [] {
      var init := items[..|items| - 1];
      assert ItemsFit(t, n, init) by {
        assert forall j :: 0 <= j < |init| ==> init[j] == items[j];
      }
      EncodedLength(t, n, init);
      assert ItemFits(t, n, items[|items| - 1]);
      var stride := CalcStride(n, t);
      var m := |init|;
      assert |EncodeItem(t, items[|items| - 1])| == stride;
      MulSucc(m, stride);
    }
  }

  lemma MulSucc(m: nat, s: nat)
    ensures (m + 1) * s == m * s + s
  {
  }

  function Min(a: nat, b: nat): nat {
    if a <= b then a else b
  }

  function Max(a: nat, b: nat): nat {
    if a <= b then b else a
  }

  /** Every element has `n` components. */
  predicate Shaped(items: seq<seq<nat>>, n: nat) {
    forall j :: 0 <= j < |items| ==> |items[j]| == n
  }

  /** The fold of `get_min` over column `i`, starting from `u16::MAX`. */
  function ColumnMin(items: seq<seq<nat>>, n: nat, i: nat): nat
    requires Shaped(items, n) && i < n
  {
    if items == [] then 0xFFFF
    else Min(ColumnMin(items[..|items| - 1], n, i), items[|items| - 1][i])
  }

  /** The fold of `get_max` over column `i`, starting from `u16::MIN`. */
  function ColumnMax(items: seq<seq<nat>>, n: nat, i: nat): nat
    requires Shaped(items, n) && i < n
  {
    if items == [] then 0
    else Max(ColumnMax(items[..|items| - 1], n, i), items[|items| - 1][i])
  }

  /** For `u16` data, the column minimum and maximum bound every element's component and are
    * attained by some element. */
  lemma {:induction false} ColumnExtremes(items: seq<seq<nat>>, n: nat, i: nat)
    requires Shaped(items, n) && i < n && items != []
    requires forall j :: 0 <= j < |items| ==> items[j][i] <= 0xFFFF
    ensures forall j :: 0 <= j < |items| ==> ColumnMin(items, n, i) <= items[j][i] <= ColumnMax(items, n, i)
    ensures exists j :: 0 <= j < |items| && ColumnMin(items, n, i) == items[j][i]
    ensures exists j :: 0 <= j < |items| && ColumnMax(items, n, i) == items[j][i]
  {
    var init := items[..|items| - 1];
    var last := |items| - 1;
    assert forall j :: 0 <= j < |init| ==> init[j] == items[j];
    assert Shaped(init, n);
    if init == [] {
      assert ColumnMin(items, n, i) == items[0][i];
      assert ColumnMax(items, n, i) == items[0][i];
    } else {
      ColumnExtremes(init, n, i);
      var jn :| 0 <= jn < |init| && ColumnMin(init, n, i) == init[jn][i];
      var jx :| 0 <= jx < |init| && ColumnMax(init, n, i) == init[jx][i];
      if ColumnMin(init, n, i) <= items[last][i] {
        assert ColumnMin(items, n, i) == items[jn][i];
      } else {
        assert ColumnMin(items, n, i) == items[last][i];
      }
      if ColumnMax(init, n, i) <= items[last][i] {
        assert ColumnMax(items, n, i) == items[last][i];
      } else {
        assert ColumnMax(items, n, i) == items[jx][i];
      }
    }
  }

  /** The per-column minima (`mins`) or maxima of elements with `n` components. */
  function Columns(items: seq<seq<nat>>, n: nat, mins: bool): (r: seq<nat>)
    requires Shaped(items, n)
    ensures |r| == n
  {
    seq(n, i requires 0 <= i < n => if mins then ColumnMin(items, n, i) else ColumnMax(items, n, i))
  }

  // ---- Buffer views ----

  /** `working_data`: per stride, the view's index and its data so far. */
  type WorkingData = map<nat, (nat, Bytes)>

  /** The index of the view `update_buffer_view` writes to and the offset the new data gets
    * there. */
  function Slot(wd: WorkingData, stride: nat): (nat, nat) {
    if stride in wd then (wd[stride].0, |wd[stride].1|) else (|wd|, 0)
  }

  /** The working data after the upsert: appended to the stride's view, or a new view. */
  function Upsert(wd: WorkingData, stride: nat, data: Bytes): WorkingData {
    if stride in wd then wd[stride := (wd[stride].0, wd[stride].1 + data)]
    else wd[stride := (|wd|, data)]
  }

  /** Data of one stride goes to that stride's view, after the data already there, at the
    * offset `Slot` reports; a new stride gets the next index and offset 0; no other view
    * changes. */
  lemma UpsertPlacesData(wd: WorkingData, stride: nat, data: Bytes, other: nat)
    ensures stride in Upsert(wd, stride, data)
    ensures Upsert(wd, stride, data)[stride].0 == Slot(wd, stride).0
    ensures Upsert(wd, stride, data)[stride].1[Slot(wd, stride).1..] == data
    ensures stride in wd ==> Upsert(wd, stride, data)[stride].1[..Slot(wd, stride).1] == wd[stride].1
    ensures stride !in wd ==> Slot(wd, stride) == (|wd|, 0)
    ensures other != stride ==> (other in Upsert(wd, stride, data) <==> other in wd)
    ensures other != stride && other in wd ==> Upsert(wd, stride, data)[other] == wd[other]
  {
  }

  /** The view's stride field: left out for stride 64 (inverse bind matrices) and for
    * strides that are not a multiple of four. */
  function StrideField(stride: nat): (r: Option<nat>)
    ensures r.Some? <==> stride != 64 && stride % 4 == 0
    ensures r.Some? ==> r.value == stride
  {
    if stride == 64 then None
    else if stride % 4 == 0 then Some(stride)
    else None
  }

  /** The views in index order: (stride, data) for each. */
  ghost function Entries(wd: WorkingData, order: seq<nat>): (es: seq<(nat, Bytes)>)
    requires forall k :: 0 <= k < |order| ==> order[k] in wd
    ensures |es| == |order|
  {
    seq(|order|, k requires 0 <= k < |order| => (order[k], wd[order[k]].1))
  }

  /** The buffer: each view's data padded to four bytes, in order. */
  function PackData(es: seq<(nat, Bytes)>): Bytes {
    if es == [] then [] else PackData(es[..|es| - 1]) + Pad4(es[|es| - 1].1)
  }

  /** The views: each starts where the previous one's padded data ends. */
  function PackViews(es: seq<(nat, Bytes)>): (vs: seq<View>)
    ensures |vs| == |es|
  {
    if es == [] then []
    else
      var init := es[..|es| - 1];
      PackViews(init)
        + [View(AlignToMultipleOfFour(|es[|es| - 1].1|), |PackData(init)|, StrideField(es[|es| - 1].0))]
  }

  /** View `k` holds entry `k`'s padded data at the offset of everything before it, with the
    * stride field of its stride. */
  lemma {:induction false} ViewsDescribeEntries(es: seq<(nat, Bytes)>, k: nat)
    requires k < |es|
    ensures PackViews(es)[k] == View(AlignToMultipleOfFour(|es[k].1|), |PackData(es[..k])|, StrideField(es[k].0))
  {
    var init := es[..|es| - 1];
    if k < |es| - 1 {
      ViewsDescribeEntries(init, k);
      assert init[..k] == es[..k];
    }
  }

  /** Packing a prefix of the entries gives a prefix of the buffer. */
  lemma {:induction false} PrefixOfPacked(es: seq<(nat, Bytes)>, k: nat)
    requires k <= |es|
    ensures |PackData(es[..k])| <= |PackData(es)| && PackData(es)[..|PackData(es[..k])|] == PackData(es[..k])
  {
    if k == |es| {
      assert es[..k] == es;
    } else {
      var init := es[..|es| - 1];
      assert init[..k] == es[..k];
      PrefixOfPacked(init, k);
    }
  }

  /** Entry `k`'s data sits in the buffer right after the entries before it, followed by its
    * padding. */
  lemma PackDataSplit(es: seq<(nat, Bytes)>, k: nat)
    requires k < |es|
    ensures |PackData(es[..k + 1])| == |PackData(es[..k])| + AlignToMultipleOfFour(|es[k].1|)
    ensures |PackData(es[..k])| + AlignToMultipleOfFour(|es[k].1|) <= |PackData(es)|
    ensures PackData(es)[|PackData(es[..k])|..|PackData(es[..k])| + |es[k].1|] == es[k].1
  {
    var p := PackData(es[..k]);
    var q := Pad4(es[k].1);
    assert es[..k + 1][..k] == es[..k];
    assert PackData(es[..k + 1]) == p + q;
    PrefixOfPacked(es, k + 1);
    AlignIsLeastMultiple(|es[k].1|, 0);
    assert PackData(es)[|p|..|p| + |es[k].1|] == (p + q)[|p|..|p| + |es[k].1|];
  }

  /** The views are contiguous from offset 0, each a multiple of four bytes long, and the
    * buffer ends where the last one does. */
  lemma {:induction false} ViewsContiguous(es: seq<(nat, Bytes)>)
    ensures |es| > 0 ==> PackViews(es)[0].byteOffset == 0
    ensures forall k :: 0 <= k < |es| ==> PackViews(es)[k].byteLength % 4 == 0
    ensures forall k :: 0 <= k < |es| - 1 ==>
      PackViews(es)[k + 1].byteOffset == PackViews(es)[k].byteOffset + PackViews(es)[k].byteLength
    ensures |es| > 0 ==>
      |PackData(es)| == PackViews(es)[|es| - 1].byteOffset + PackViews(es)[|es| - 1].byteLength
    ensures |es| == 0 ==> PackData(es) == []
  {
    forall k | 0 <= k < |es|
      ensures PackViews(es)[k].byteLength % 4 == 0
    {
      ViewsDescribeEntries(es, k);
      AlignIsLeastMultiple(|es[k].1|, 0);
    }
    forall k | 0 <= k < |es| - 1
      ensures PackViews(es)[k + 1].byteOffset == PackViews(es)[k].byteOffset + PackViews(es)[k].byteLength
    {
      ViewsDescribeEntries(es, k);
      ViewsDescribeEntries(es, k + 1);
      PackDataSplit(es, k);
    }
    if |es| > 0 {
      ViewsDescribeEntries(es, 0);
      assert es[..0] == [];
      ViewsDescribeEntries(es, |es| - 1);
    }
  }

  // ---- The builder ----

  class AccessorBuilder {
    /** Key: stride; value: the view's index and data. */
    var workingData: WorkingData
    var accessors: seq<Accessor>
    /** The strides in view-index order. */
    ghost var order: seq<nat>

    /** The view indices are 0 .. |workingData| - 1, one per stride. */
    ghost predicate Valid()
      reads this
    {
      |order| == |workingData|
      && (forall k :: 0 <= k < |order| ==> order[k] in workingData && workingData[order[k]].0 == k)
      && (forall s :: s in workingData ==> s in order)
    }

    /** `AccessorBuilder::new`. */
    constructor ()
      ensures Valid() && workingData == map[] && accessors == []
    {
      workingData := map[];
      accessors := [];
      order := [];
    }

    /** `update_buffer_view`: appends the data to its stride's view, creating the view if
      * needed; returns the view's index and the offset of the data in it. */
    method UpdateBufferView(stride: nat, data: Bytes) returns (idx: nat, offset: nat)
      requires Valid()
      modifies this
      ensures Valid()
      ensures (idx, offset) == Slot(old(workingData), stride)
      ensures workingData == Upsert(old(workingData), stride, data)
      ensures order == if stride in old(workingData) then old(order) else old(order) + [stride]
      ensures accessors == old(accessors)
    {
      var dataSize := |data|;
      var nextIdx := |workingData|;
      if stride in workingData {
        var (i, buff) := workingData[stride];
        workingData := workingData[stride := (i, buff + data)];
      } else {
        workingData := workingData[stride := (nextIdx, data)];
        order := order + [stride];
      }
      idx := workingData[stride].0;
      offset := |workingData[stride].1| - dataSize;
    }

    /** One element of `add_array`'s fold: encodes its components onto the stream and folds
      * them into the running minima and maxima. */
    static method AppendItem(t: ComponentType, n: nat, item: seq<nat>, stream: Bytes,
                             mins: array<nat>, maxs: array<nat>) returns (s: Bytes)
      requires ItemFits(t, n, item) && mins.Length == n && maxs.Length == n && mins != maxs
      modifies mins, maxs
      ensures s == stream + EncodeItem(t, item)
      ensures forall i :: 0 <= i < n ==> mins[i] == Min(old(mins[i]), item[i])
      ensures forall i :: 0 <= i < n ==> maxs[i] == Max(old(maxs[i]), item[i])
    {
      s := stream;
      for i := 0 to n
        invariant s == stream + EncodeItem(t, item[..i])
        invariant forall k :: 0 <= k < i ==> mins[k] == Min(old(mins[k]), item[k])
        invariant forall k :: 0 <= k < i ==> maxs[k] == Max(old(maxs[k]), item[k])
        invariant forall k :: i <= k < n ==> mins[k] == old(mins[k]) && maxs[k] == old(maxs[k])
      {
        var v := item[i];
        assert item[..i + 1][..i] == item[..i];
        s := s + Encode(t, v);
        mins[i] := Min(mins[i], v);
        maxs[i] := Max(maxs[i], v);
      }
      assert item[..n] == item;
    }

    /** `add_array`: an accessor over `items`, each of `n` components of type `t`. No items
      * add nothing and give `None`; otherwise the encoded data goes to the stride's view and
      * the new accessor's index is returned. */
    method AddArray(name: string, t: ComponentType, n: nat, items: seq<seq<nat>>)
      returns (r: Option<nat>)
      requires Valid() && SupportedArity(n) && ItemsFit(t, n, items)
      modifies this
      ensures Valid()
      ensures items == [] ==>
        r == None && workingData == old(workingData) && accessors == old(accessors) && order == old(order)
      ensures items != [] ==>
        r == Some(|old(accessors)|)
        && workingData == Upsert(old(workingData), CalcStride(n, t), EncodeItems(t, n, items))
        && accessors == old(accessors) + [NewAccessor(old(workingData), name, t, n, items)]
    {
      var accType := TypeOfArity(n);
      var dataStream, count, mins, maxs := FoldItems(t, n, items);
      if count == 0 {
        return None;
      }
      var buffIdx, buffOff := UpdateBufferView(CalcStride(n, t), dataStream);
      var accIndex := |accessors|;
      var accessor := Accessor(buffIdx, buffOff, count, t, accType,
        if t == U16 then Some(mins) else None,
        if t == U16 then Some(maxs) else None,
        NameOf(name));
      accessors := accessors + [accessor];
      r := Some(accIndex);
    }

    /** The fold of `add_array`: the encoded data stream, the element count and the running
      * per-column minima and maxima. */
    static method FoldItems(t: ComponentType, n: nat, items: seq<seq<nat>>)
      returns (dataStream: Bytes, count: nat, mins: seq<nat>, maxs: seq<nat>)
      requires ItemsFit(t, n, items)
      ensures Shaped(items, n)
      ensures dataStream == EncodeItems(t, n, items) && count == |items|
      ensures mins == Columns(items, n, true) && maxs == Columns(items, n, false)
    {
      dataStream := [];
      var minArr := new nat[n](_ => 0xFFFF);
      var maxArr := new nat[n](_ => 0);
      count := 0;
      assert items[..0] == [];
      for j := 0 to |items|
        invariant count == j && Shaped(items[..j], n)
        invariant dataStream == EncodeItems(t, n, items[..j])
        invariant forall i :: 0 <= i < n ==> minArr[i] == ColumnMin(items[..j], n, i)
        invariant forall i :: 0 <= i < n ==> maxArr[i] == ColumnMax(items[..j], n, i)
      {
        ItemStep(t, n, items, j);
        dataStream := AppendItem(t, n, items[j], dataStream, minArr, maxArr);
        count := count + 1;
      }
      assert items[..|items|] == items;
      mins := minArr[..];
      maxs := maxArr[..];
    }

    /** `generate_buffer_views`: drains the working data and lays the views out in index
      * order, padding each to four bytes. */
    method GenerateBufferViews() returns (views: seq<View>, allData: Bytes)
      requires Valid()
      modifies this
      ensures Valid() && workingData == map[] && accessors == old(accessors)
      ensures views == PackViews(Entries(old(workingData), old(order)))
      ensures allData == PackData(Entries(old(workingData), old(order)))
    {
      var viewData := workingData;
      ghost var es := Entries(workingData, order);
      ghost var viewOrder := order;
      workingData := map[];
      order := [];
      views := [];
      allData := [];
      for k := 0 to |viewData|
        invariant views == PackViews(es[..k]) && allData == PackData(es[..k])
      {
        assert viewOrder[k] in viewData && viewData[viewOrder[k]].0 == k;
        var stride :| stride in viewData && viewData[stride].0 == k;
        assert stride == viewOrder[k] by {
          var j :| 0 <= j < |viewOrder| && viewOrder[j] == stride;
        }
        var data := viewData[stride].1;
        var paddedSize := AlignToMultipleOfFour(|data|);
        if paddedSize > |data| {
          var diffSize := paddedSize - |data|;
          data := data + seq(diffSize, _ => 0);
        }
        assert data == Pad4(es[k].1);
        var dataSize := |data|;
        var dataOffset := |allData|;
        assert es[..k + 1][..k] == es[..k];
        allData := allData + data;
        views := views + [View(dataSize, dataOffset, StrideField(stride))];
      }
      assert es[..|viewData|] == es;
    }

    /** `generate`: the accessors, the views, the buffer and its bytes; the buffer's length
      * is that of the packed data. */
    method Generate(name: string) returns (accs: seq<Accessor>, views: seq<View>, buffer: Buffer, data: Bytes)
      requires Valid()
      modifies this
      ensures accs == old(accessors)
      ensures views == PackViews(Entries(old(workingData), old(order)))
      ensures data == PackData(Entries(old(workingData), old(order)))
      ensures buffer == Buffer(|data|, NameOf(name))
    {
      views, data := GenerateBufferViews();
      buffer := Buffer(|data|, NameOf(name));
      accs := accessors;
    }
  }

  /** The accessor `add_array` appends for a non-empty `items`. */
  function NewAccessor(wd: WorkingData, name: string, t: ComponentType, n: nat, items: seq<seq<nat>>): Accessor
    requires SupportedArity(n) && ItemsFit(t, n, items)
  {
    var slot := Slot(wd, CalcStride(n, t));
    Accessor(slot.0, slot.1, |items|, t, TypeOfArity(n),
      if t == U16 then Some(Columns(items, n, true)) else None,
      if t == U16 then Some(Columns(items, n, false)) else None,
      NameOf(name))
  }

  /** One step of the element fold: the prefix grows by element `j`. */
  lemma ItemStep(t: ComponentType, n: nat, items: seq<seq<nat>>, j: nat)
    requires ItemsFit(t, n, items) && j < |items|
    ensures ItemFits(t, n, items[j])
    ensures ItemsFit(t, n, items[..j]) && ItemsFit(t, n, items[..j + 1])
    ensures Shaped(items[..j], n) && Shaped(items[..j + 1], n)
    ensures items[..j + 1][..j] == items[..j] && items[..j + 1][j] == items[j]
  {
  }
}
