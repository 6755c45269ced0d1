/** Bone sample sets of character animations (core/grim/src/scene/char_bones_samples/mod.rs):
  * the transform type a bone symbol's extension names, the byte size of one sample of each
  * type under each compression, and the running byte offsets of the seven sample groups. */
module CharBones {
  import opened Wrappers
  import opened Ints

  // ---- Transform type of a bone symbol ----

  /** Index of the first '.' of `s`. */
  function FindDot(s: string): (r: Option<nat>)
    ensures r.None? <==> '.' !in s
    ensures r.Some? ==> r.value < |s| && s[r.value] == '.' && '.' !in s[..r.value]
  {
    if |s| == 0 then None
    else if s[0] == '.' then Some(0)
    else
      match FindDot(s[1..])
      case None => None
      case Some(i) => assert s[1..][..i] == s[1..i + 1]; Some(i + 1)
  }

  /** `to_ascii_lowercase`: 'A' to 'Z' become 'a' to 'z', every other character is kept. */
  function AsciiLower(s: string): (r: string)
    ensures |r| == |s|
  {
    if |s| == 0 then [] else [LowerChar(s[0])] + AsciiLower(s[1..])
  }

  function LowerChar(c: char): char {
    if 'A' <= c <= 'Z' then (c as int + 32) as char else c
  }

  /** The extension naming each transform type: position, scale, quaternion and the three
    * single-axis rotations. */
  function TypeExtension(t: nat): string
    requires t < 6
  {
    EXTENSIONS[t]
  }

  const EXTENSIONS: seq<string> := [".pos", ".scale", ".quat", ".rotx", ".roty", ".rotz"]

  /** The lower-cased text of a name from its first '.', if it has one. */
  function Extension(name: string): (ext: Option<string>)
    ensures ext.None? <==> '.' !in name
  {
    match FindDot(name)
    case None => None
    case Some(i) => Some(AsciiLower(name[i..]))
  }

  /** `get_type_of`: the type named by the symbol's text from its first '.', compared without
    * regard to ASCII case; 7 when there is no '.' or the extension is none of the six. */
  function GetTypeOf(name: string): (r: U32)
    ensures r < 6 || r == 7
    ensures r < 6 ==> Extension(name) == Some(TypeExtension(r))
    ensures r == 7 <==> Extension(name).None? || Extension(name).value !in EXTENSIONS
  {
    match Extension(name)
    case None => 7
    case Some(ext) => ExtensionType(ext)
  }

  /** The type a lower-cased extension names, 7 for none. */
  function ExtensionType(ext: string): (r: U32)
    ensures r < 6 || r == 7
    ensures r < 6 ==> ext == TypeExtension(r)
    ensures r == 7 <==> ext !in EXTENSIONS
  {
    if ext == ".pos" then 0
    else if ext == ".scale" then 1
    else if ext == ".quat" then 2
    else if ext == ".rotx" then 3
    else if ext == ".roty" then 4
    else if ext == ".rotz" then 5
    else 7
  }

  /** Each type's extension names that type. */
  lemma ExtensionTypeOf(t: nat)
    requires t < 6
    ensures ExtensionType(TypeExtension(t)) == t
  {
    if t == 0 {
      assert ExtensionType(".pos") == 0;
    } else if t == 1 {
      assert ExtensionType(".scale") == 1;
    } else if t == 2 {
      assert ExtensionType(".quat") == 2;
    } else if t == 3 {
      assert ExtensionType(".rotx") == 3;
    } else if t == 4 {
      assert ExtensionType(".roty") == 4;
    } else {
      assert ExtensionType(".rotz") == 5;
    }
  }

  /** A dot-free bone name followed by an extension that lower-cases to a type's extension
    * names that type. */
  lemma GetTypeOfAnyCase(bone: string, ext: string, t: nat)
    requires '.' !in bone && t < 6 && |ext| > 0 && ext[0] == '.'
    requires AsciiLower(ext) == TypeExtension(t)
    ensures GetTypeOf(bone + ext) == t
  {
    FindDotAfter(bone, ext);
    assert (bone + ext)[|bone|..] == ext;
    assert Extension(bone + ext) == Some(TypeExtension(t));
    ExtensionTypeOf(t);
  }

  /** A dot-free bone name followed by a type's extension names that type. */
  lemma GetTypeOfExtension(bone: string, t: nat)
    requires '.' !in bone && t < 6
    ensures GetTypeOf(bone + TypeExtension(t)) == t
  {
    LowerKeeps(t);
    GetTypeOfAnyCase(bone, TypeExtension(t), t);
  }

  /** A dot-free prefix moves the first '.' of `rest` along. */
  lemma {:induction false} FindDotAfter(bone: string, rest: string)
    requires '.' !in bone && |rest| > 0 && rest[0] == '.'
    ensures FindDot(bone + rest) == Some(|bone|)
  {
    if |bone| > 0 {
      assert (bone + rest)[1..] == bone[1..] + rest;
      FindDotAfter(bone[1..], rest);
    }
  }

  /** The extensions are in lower case already. */
  lemma LowerKeeps(t: nat)
    requires t < 6
    ensures AsciiLower(TypeExtension(t)) == TypeExtension(t)
  {
    if t == 0 {
      assert AsciiLower(".pos") == ".pos";
    } else if t == 1 {
      assert AsciiLower(".scale") == ".scale";
    } else if t == 2 {
      assert AsciiLower(".quat") == ".quat";
    } else if t == 3 {
      assert AsciiLower(".rotx") == ".rotx";
    } else if t == 4 {
      assert AsciiLower(".roty") == ".roty";
    } else {
      assert AsciiLower(".rotz") == ".rotz";
    }
  }

  /** Case does not matter: an extension names the same type as its lower-case form. */
  lemma GetTypeOfIgnoresCase(bone: string, ext: string)
    requires '.' !in bone && |ext| > 0 && ext[0] == '.'
    ensures GetTypeOf(bone + ext) == GetTypeOf(bone + AsciiLower(ext))
  {
    var lower := AsciiLower(ext);
    LowerTwice(ext);
    assert lower[0] == '.';
    FindDotAfter(bone, ext);
    FindDotAfter(bone, lower);
    assert (bone + ext)[|bone|..] == ext;
    assert (bone + lower)[|bone|..] == lower;
  }

  /** Lower-casing twice is lower-casing once. */
  lemma {:induction false} LowerTwice(s: string)
    ensures AsciiLower(AsciiLower(s)) == AsciiLower(s)
  {
    if |s| > 0 {
      LowerTwice(s[1..]);
      assert AsciiLower(s)[1..] == AsciiLower(s[1..]);
    }
  }

  /** The cases of the source's tests that name no type (those that do are instances of
    * GetTypeOfExtension), for the bone name "bone". */
  lemma GetTypeOfExamples(bone: string)
    requires bone == "bone"
    ensures GetTypeOf("") == 7 && GetTypeOf(bone) == 7
    ensures GetTypeOf(bone + ".") == 7 && GetTypeOf(bone + ".pdf") == 7
  {
    assert '.' !in bone;
    FindDotAfter(bone, ".");
    assert (bone + ".")[|bone|..] == ".";
    FindDotAfter(bone, ".pdf");
    assert (bone + ".pdf")[|bone|..] == ".pdf";
    assert AsciiLower(".pdf") == ".pdf";
  }

  // ---- Sample sizes ----

  /** `get_type_size`: bytes of one sample of type `idx` under the given compression. */
  function TypeSize(compression: U32, idx: nat): (r: U32)
    ensures r in {2, 4, 6, 8, 16}
  {
    if idx < 2 then (if compression < 2 then 16 else 6)
    else if idx != 2 then (if compression == 0 then 4 else 2)
    else if compression > 2 then 4
    else if compression == 0 then 16
    else 8
  }

  /** The table the source's tests fix: rows are compressions 0, 1 and 2, columns the type
    * indices 0 to 6. */
  lemma TypeSizeTable()
    ensures forall i :: 0 <= i < 7 ==> TypeSize(0, i) == [16, 16, 16, 4, 4, 4, 4][i]
    ensures forall i :: 0 <= i < 7 ==> TypeSize(1, i) == [16, 16, 8, 2, 2, 2, 2][i]
    ensures forall i :: 0 <= i < 7 ==> TypeSize(2, i) == [6, 6, 8, 2, 2, 2, 2][i]
  {
  }

  /** A stronger compression never makes a sample larger. */
  lemma TypeSizeShrinks(c1: U32, c2: U32, idx: nat)
    requires c1 <= c2
    ensures TypeSize(c2, idx) <= TypeSize(c1, idx)
  {
  }

  // ---- Group offsets ----

  /** The first `n` computed sizes: entry 0 is 0 and entry `i + 1` adds the samples between
    * count `i` and count `i + 1`, sized by type `i`. The source computes in `u32`; in release
    * builds the subtraction, the product and the sum each wrap (debug builds panic), and
    * wrapping once at the end is the same. */
  function SizesPrefix(compression: U32, counts: seq<U32>, n: nat): (r: seq<U32>)
    requires 1 <= n <= |counts|
    ensures |r| == n && r[0] == 0
  {
    if n == 1 then [0]
    else
      var prev := SizesPrefix(compression, counts, n - 1);
      prev + [WrapU32(prev[n - 2] + (counts[n - 1] - counts[n - 2]) * TypeSize(compression, n - 2))]
  }

  /** `computed_sizes` of seven counts. */
  function ComputedSizes(compression: U32, counts: seq<U32>): (r: seq<U32>)
    requires |counts| == 7
    ensures |r| == 7
  {
    SizesPrefix(compression, counts, 7)
  }

  /** `(v + 0xF) & 0xFFFF_FFF0` in `u32`: clearing the low four bits is rounding down to a
    * multiple of 16. */
  function RoundUp16(v: U32): (r: U32)
    ensures r % 16 == 0
    ensures v + 15 < U32_LIMIT ==> v <= r < v + 16
  {
    WrapU32(v + 15) / 16 * 16
  }

  /** Every entry of the computed sizes follows from the previous one. */
  lemma {:induction false} SizesStep(compression: U32, counts: seq<U32>, n: nat, i: nat)
    requires n <= |counts| && i + 1 < n
    ensures SizesPrefix(compression, counts, n)[i + 1]
      == WrapU32(SizesPrefix(compression, counts, n)[i] + (counts[i + 1] - counts[i]) * TypeSize(compression, i))
    decreases n
  {
    var prev := SizesPrefix(compression, counts, n - 1);
    assert SizesPrefix(compression, counts, n)[..n - 1] == prev;
    if i + 1 < n - 1 {
      SizesStep(compression, counts, n - 1, i);
    }
  }

  /** With nondecreasing counts small enough, nothing wraps: each group takes exactly its
    * samples' bytes, the sizes never decrease, and none exceeds 16 bytes per sample. */
  lemma {:induction false} SizesExact(compression: U32, counts: seq<U32>, n: nat)
    requires 1 <= n <= |counts|
    requires forall i :: 0 <= i < n - 1 ==> counts[i] <= counts[i + 1]
    requires 16 * (counts[n - 1] as int - counts[0] as int) < U32_LIMIT
    ensures var r := SizesPrefix(compression, counts, n);
      forall i :: 0 <= i < n - 1 ==>
        r[i + 1] == r[i] + (counts[i + 1] as int - counts[i] as int) * TypeSize(compression, i)
    ensures SizesPrefix(compression, counts, n)[n - 1] <= 16 * (counts[n - 1] as int - counts[0] as int)
    decreases n
  {
    if n > 1 {
      CountsOrdered(counts, n);
      SizesExact(compression, counts, n - 1);
      var prev := SizesPrefix(compression, counts, n - 1);
      var r := SizesPrefix(compression, counts, n);
      var d := counts[n - 1] as int - counts[n - 2] as int;
      var step := d * TypeSize(compression, n - 2);
      StepBounds(d, TypeSize(compression, n - 2));
      var total := prev[n - 2] + step;
      assert 0 <= total < U32_LIMIT;
      assert r[n - 1] == WrapU32(total);
      assert r[..n - 1] == prev;
      forall i | 0 <= i < n - 1
        ensures r[i + 1] == r[i] + (counts[i + 1] as int - counts[i] as int) * TypeSize(compression, i)
      {
        if i < n - 2 {
          assert r[i + 1] == prev[i + 1] && r[i] == prev[i];
        }
      }
    }
  }

  lemma StepBounds(d: int, size: nat)
    requires 0 <= d && size <= 16
    ensures 0 <= d * size <= 16 * d
  {
  }

  /** Nondecreasing counts: the first is at most the last but one. */
  lemma {:induction false} CountsOrdered(counts: seq<U32>, n: nat)
    requires 2 <= n <= |counts|
    requires forall i :: 0 <= i < n - 1 ==> counts[i] <= counts[i + 1]
    ensures counts[0] <= counts[n - 2]
    decreases n
  {
    if n > 2 {
      CountsOrdered(counts, n - 1);
    }
  }

  /** The sizes and flags the source's tests fix (the first case). */
  lemma RecomputeExample(counts: seq<U32>)
    requires counts == [0, 1, 1, 22, 22, 22, 32]
    ensures ComputedSizes(1, counts) == [0, 16, 16, 184, 184, 184, 204]
    ensures RoundUp16(ComputedSizes(1, counts)[6]) == 208
  {
    assert SizesPrefix(1, counts, 2) == [0, 16];
    assert SizesPrefix(1, counts, 3) == [0, 16, 16];
    assert SizesPrefix(1, counts, 4) == [0, 16, 16, 184];
    assert SizesPrefix(1, counts, 5) == [0, 16, 16, 184, 184];
    assert SizesPrefix(1, counts, 6) == [0, 16, 16, 184, 184, 184];
  }

  /** The second and third cases of the source's tests: no samples, and 36 then 53 samples
    * under compression 2. */
  lemma RecomputeExamplesCompressed(zeros: seq<U32>, counts: seq<U32>)
    requires zeros == [0, 0, 0, 0, 0, 0, 0]
    requires counts == [0, 36, 36, 53, 53, 53, 53]
    ensures ComputedSizes(2, zeros) == zeros && RoundUp16(0) == 0
    ensures ComputedSizes(2, counts) == [0, 216, 216, 352, 352, 352, 352]
    ensures RoundUp16(ComputedSizes(2, counts)[6]) == 352
  {
    assert SizesPrefix(2, zeros, 2) == [0, 0];
    assert SizesPrefix(2, zeros, 3) == [0, 0, 0];
    assert SizesPrefix(2, zeros, 4) == [0, 0, 0, 0];
    assert SizesPrefix(2, zeros, 5) == [0, 0, 0, 0, 0];
    assert SizesPrefix(2, zeros, 6) == [0, 0, 0, 0, 0, 0];
    assert SizesPrefix(2, counts, 2) == [0, 216];
    assert SizesPrefix(2, counts, 3) == [0, 216, 216];
    assert SizesPrefix(2, counts, 4) == [0, 216, 216, 352];
    assert SizesPrefix(2, counts, 5) == [0, 216, 216, 352, 352];
    assert SizesPrefix(2, counts, 6) == [0, 216, 216, 352, 352, 352];
  }

  /** `CharBonesSamples`: the sample counts per type and the offsets computed from them. The
    * bones, samples and frames are not part of this model. */
  class CharBonesSamples {
    var compression: U32
    var counts: array<U32>
    var computedSizes: array<U32>
    var computedFlags: U32

    ghost predicate Valid()
      reads this
    {
      counts.Length == 7 && computedSizes.Length == 7 && counts != computedSizes
    }

    /** A sample set with the given compression and counts, its sizes and flags still 0. */
    constructor (compression: U32, counts: seq<U32>)
      requires |counts| == 7
      ensures Valid()
      ensures this.compression == compression && this.counts[..] == counts
      ensures computedSizes[..] == [0, 0, 0, 0, 0, 0, 0] && computedFlags == 0
      ensures fresh(this.counts) && fresh(computedSizes)
    {
      this.compression := compression;
      this.counts := new U32[7](i requires 0 <= i < 7 => counts[i]);
      computedSizes := new U32[7](_ => 0);
      computedFlags := 0;
      new;
      assert this.counts[..] == counts;
      assert computedSizes[..] == [0, 0, 0, 0, 0, 0, 0];
    }

    /** `recompute_sizes`. */
    method RecomputeSizes()
      requires Valid()
      modifies this, computedSizes
      ensures Valid() && counts == old(counts) && computedSizes == old(computedSizes)
      ensures compression == old(compression) && counts[..] == old(counts[..])
      ensures computedSizes[..] == ComputedSizes(compression, counts[..])
      ensures computedFlags == RoundUp16(computedSizes[6])
    {
      computedSizes[0] := 0;
      for i := 0 to 6
        invariant Valid() && counts == old(counts) && computedSizes == old(computedSizes)
        invariant compression == old(compression)
        invariant computedSizes[..i + 1] == SizesPrefix(compression, counts[..], i + 1)
      {
        var currCount: int := counts[i];
        var nextCount: int := counts[i + 1];
        var typeSize: int := TypeSize(compression, i);
        ghost var done := computedSizes[..i + 1];
        computedSizes[i + 1] := WrapU32(computedSizes[i] + (nextCount - currCount) * typeSize);
        assert computedSizes[..i + 2] == done + [computedSizes[i + 1]];
      }
      assert computedSizes[..] == computedSizes[..7];
      computedFlags := RoundUp16(computedSizes[6]);
    }
  }
}
