/** Restore paths as byte strings. Case folding covers the ASCII letters. */
module Paths {
  import opened Bytes
  import opened PxarFormat

  function LowerByte(b: byte): byte {
    if 65 <= b <= 90 then b + 32 else b
  }

  function Lower(s: bytes): (r: bytes)
    ensures |r| == |s|
  {
    seq(|s|, i requires 0 <= i < |s| => LowerByte(s[i]))
  }

  predicate EqualFold(a: bytes, b: bytes) {
    Lower(a) == Lower(b)
  }

  /** Forward slashes become backslashes. */
  function Backslashed(s: bytes): (r: bytes)
    ensures |r| == |s|
  {
    seq(|s|, i requires 0 <= i < |s| => if s[i] == SLASH then BACKSLASH else s[i])
  }

  function TrimLeft(s: bytes): bytes {
    if s != [] && s[0] == BACKSLASH then TrimLeft(s[1..]) else s
  }

  function NormalizeRestorePath(p: bytes): bytes {
    TrimLeft(Backslashed(p))
  }

  predicate HasDrivePrefix(p: bytes) {
    |p| >= 3 && 97 <= LowerByte(p[0]) <= 122 && p[1] == 58 && (p[2] == SLASH || p[2] == BACKSLASH)
  }

  function CatalogRelPath(p: bytes): bytes {
    NormalizeRestorePath(if HasDrivePrefix(p) then p[3..] else p)
  }

  predicate IsSpace(b: byte) {
    b == 32 || 9 <= b <= 13
  }

  /** White space off both ends. */
  function TrimSpace(s: bytes): bytes {
    if s == [] then [] else
    if IsSpace(s[0]) then TrimSpace(s[1..]) else
    if IsSpace(s[|s| - 1]) then TrimSpace(s[..|s| - 1]) else s
  }

  /** Backslashes off both ends. */
  function TrimSlashes(s: bytes): bytes {
    if s == [] then [] else
    if s[0] == BACKSLASH then TrimSlashes(s[1..]) else
    if s[|s| - 1] == BACKSLASH then TrimSlashes(s[..|s| - 1]) else s
  }

  /** The one or two map keys a path is filed under. */
  function TargetPathKeys(p: bytes): (keys: seq<bytes>)
    ensures |keys| >= 1
  {
    var full, rel := Lower(NormalizeRestorePath(p)), Lower(CatalogRelPath(p));
    if rel != full then [full, rel] else [full]
  }

  lemma PlainPathHasOneKey(p: bytes)
    requires !HasDrivePrefix(p)
    ensures TargetPathKeys(p) == [Lower(NormalizeRestorePath(p))]
  {
  }

  lemma {:induction false} TrimLeftConcat(a: bytes, b: bytes)
    requires TrimLeft(a) != []
    ensures TrimLeft(a + b) == TrimLeft(a) + b
  {
    if a[0] == BACKSLASH {
      assert (a + b)[1..] == a[1..] + b;
      TrimLeftConcat(a[1..], b);
    }
  }

  /** The key of a path starts with the key of the directory it lies in. */
  lemma KeyOfChild(dir: bytes, rest: bytes)
    requires NormalizeRestorePath(dir) != []
    ensures Lower(NormalizeRestorePath(dir)) + [BACKSLASH]
         <= Lower(NormalizeRestorePath(dir + [BACKSLASH] + rest))
  {
    var tail := [BACKSLASH] + rest;
    assert dir + [BACKSLASH] + rest == dir + tail;
    assert Backslashed(dir + tail) == Backslashed(dir) + Backslashed(tail);
    TrimLeftConcat(Backslashed(dir), Backslashed(tail));
    var d, t := NormalizeRestorePath(dir), Backslashed(tail);
    assert Lower(d + t) == Lower(d) + Lower(t);
    assert Lower(t)[0] == BACKSLASH;
  }
}
