/** Three-way comparison (`std::cmp::Ordering`) and the lexicographic order on byte strings,
  * which is how Rust compares `str` and `[u8]` values. */
module Order {
  import opened Ints

  datatype Ordering = Less | Equal | Greater {
    function Flip(): Ordering {
      match this
      case Less => Greater
      case Equal => Equal
      case Greater => Less
    }
  }

  /** `Ord::cmp` on integers. */
  function CompareInt(a: int, b: int): (o: Ordering)
    ensures o == Less <==> a < b
    ensures o == Equal <==> a == b
    ensures o == Greater <==> a > b
  {
    if a < b then Less else if a == b then Equal else Greater
  }

  /** `Ord::cmp` on byte strings: the first differing byte decides, and a proper prefix is smaller. */
  function CompareBytes(a: Bytes, b: Bytes): (o: Ordering)
  {
    if a == [] then (if b == [] then Equal else Less)
    else if b == [] then Greater
    else if a[0] < b[0] then Less
    else if a[0] > b[0] then Greater
    else CompareBytes(a[1..], b[1..])
  }

  lemma {:induction false} CompareBytesEqual(a: Bytes, b: Bytes)
    ensures CompareBytes(a, b) == Equal <==> a == b
  {
    if a != [] && b != [] && a[0] == b[0] {
      CompareBytesEqual(a[1..], b[1..]);
      assert a == [a[0]] + a[1..] && b == [b[0]] + b[1..];
    }
  }

  lemma {:induction false} CompareBytesFlip(a: Bytes, b: Bytes)
    ensures CompareBytes(b, a) == CompareBytes(a, b).Flip()
  {
    if a != [] && b != [] && a[0] == b[0] {
      CompareBytesFlip(a[1..], b[1..]);
    }
  }

  lemma {:induction false} CompareBytesTransitive(a: Bytes, b: Bytes, c: Bytes)
    requires CompareBytes(a, b) != Greater && CompareBytes(b, c) != Greater
    ensures CompareBytes(a, c) != Greater
    ensures CompareBytes(a, b) == Less || CompareBytes(b, c) == Less ==> CompareBytes(a, c) == Less
  {
    if a != [] && b != [] && c != [] && a[0] == b[0] == c[0] {
      CompareBytesTransitive(a[1..], b[1..], c[1..]);
    }
  }

  /** A proper prefix sorts before the longer string. */
  lemma {:induction false} PrefixIsLess(a: Bytes, b: Bytes)
    requires |a| < |b| && b[..|a|] == a
    ensures CompareBytes(a, b) == Less
  {
    if a != [] {
      assert b[1..][..|a| - 1] == a[1..];
      PrefixIsLess(a[1..], b[1..]);
    }
  }
}
