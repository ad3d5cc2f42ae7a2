/** Byte strings, little-endian words and the "these bytes stand here" predicate. */
module Bytes {

  type byte = x: int | 0 <= x < 256
  type bytes = seq<byte>

  const TWO_64: nat := 0x1_0000_0000_0000_0000

  /** Largest value of the source's 64-bit `int`. */
  const MAX_INT: nat := 0x7FFF_FFFF_FFFF_FFFF

  /** `int(u)` of an unsigned 64-bit value: the upper half turns negative. */
  function AsInt(u: nat): int {
    if u <= MAX_INT then u else u - TWO_64
  }

  /** A sum of two 64-bit `int`s, neither of them below `-MAX_INT`, which wraps above. */
  function WrapInt(x: int): int {
    if x <= MAX_INT then x else x - TWO_64
  }

  function FromLE(s: bytes): nat {
    if s == [] then 0 else s[0] + 256 * FromLE(s[1..])
  }

  function ToLE(v: nat, n: nat): (s: bytes)
    ensures |s| == n
  {
    if n == 0 then [] else [v % 256] + ToLE(v / 256, n - 1)
  }

  function Pow256(n: nat): nat {
    if n == 0 then 1 else 256 * Pow256(n - 1)
  }

  lemma {:induction false} FromToLE(v: nat, n: nat)
    requires v < Pow256(n)
    ensures FromLE(ToLE(v, n)) == v
  {
    if n > 0 {
      FromToLE(v / 256, n - 1);
      assert ToLE(v, n)[1..] == ToLE(v / 256, n - 1);
    }
  }

  lemma {:induction false} FromLEBound(s: bytes)
    ensures FromLE(s) < Pow256(|s|)
    ensures Pow256(8) == TWO_64
  {
    if s != [] {
      FromLEBound(s[1..]);
    }
  }

  function LE64(v: nat): (s: bytes)
    ensures |s| == 8
  {
    ToLE(v, 8)
  }

  /** `binary.LittleEndian.Uint64(data[pos:])`. */
  function U64(data: bytes, pos: nat): (v: nat)
    requires pos + 8 <= |data|
    ensures v < TWO_64
  {
    FromLEBound(data[pos..pos + 8]);
    FromLE(data[pos..pos + 8])
  }

  /** `part` stands in `data` at offset `pos`. */
  predicate At(data: bytes, pos: nat, part: bytes) {
    pos + |part| <= |data| && data[pos..pos + |part|] == part
  }

  lemma AtSplit(data: bytes, pos: nat, a: bytes, b: bytes)
    requires At(data, pos, a + b)
    ensures At(data, pos, a) && At(data, pos + |a|, b)
  {
    var s := data[pos..pos + |a + b|];
    assert s[..|a|] == a && s[|a|..] == b;
    assert data[pos..pos + |a|] == s[..|a|];
    assert data[pos + |a|..pos + |a| + |b|] == s[|a|..];
  }

  lemma AtSplitFour(data: bytes, pos: nat, a: bytes, b: bytes, c: bytes, d: bytes)
    requires At(data, pos, a + (b + (c + d)))
    ensures At(data, pos, a) && At(data, pos + |a|, b)
    ensures At(data, pos + |a| + |b|, c) && At(data, pos + |a| + |b| + |c|, d)
  {
    AtSplit(data, pos, a, b + (c + d));
    AtSplit(data, pos + |a|, b, c + d);
    AtSplit(data, pos + |a| + |b|, c, d);
  }

  lemma AtU64(data: bytes, pos: nat, v: nat)
    requires v < TWO_64 && At(data, pos, LE64(v))
    ensures pos + 8 <= |data| && U64(data, pos) == v
  {
    assert Pow256(8) == TWO_64;
    FromToLE(v, 8);
  }

  function Flatten<T>(parts: seq<seq<T>>): seq<T> {
    if parts == [] then [] else parts[0] + Flatten(parts[1..])
  }

  lemma {:induction false} FlattenAppend<T>(a: seq<seq<T>>, b: seq<seq<T>>)
    ensures Flatten(a + b) == Flatten(a) + Flatten(b)
  {
    if a == [] {
      assert a + b == b && [] + Flatten(b) == Flatten(b);
      NoParts(a);
    } else {
      hide Flatten;
      FlattenAppend(a[1..], b);
      FirstPart(a, b);
      FirstPart(a, []);
      assert a + [] == a && a[1..] + [] == a[1..];
      Associative(a[0], Flatten(a[1..]), Flatten(b));
    }
  }

  lemma NoParts<T>(a: seq<seq<T>>)
    requires a == []
    ensures Flatten(a) == []
  {
  }

  lemma FirstPart<T>(a: seq<seq<T>>, b: seq<seq<T>>)
    requires a != []
    ensures Flatten(a + b) == a[0] + Flatten(a[1..] + b)
  {
    assert (a + b)[1..] == a[1..] + b;
  }

  lemma Associative<T>(a: seq<T>, b: seq<T>, c: seq<T>)
    ensures a + (b + c) == (a + b) + c
  {
  }

  lemma FlattenOne<T>(a: seq<seq<T>>, x: seq<T>)
    ensures Flatten(a + [x]) == Flatten(a) + x
  {
    FlattenAppend(a, [x]);
    assert Flatten([x]) == x + Flatten([]);
  }
}
