/** The variable-length integers of the catalog: seven bits a byte, least significant first. */
module Varint {
  import opened Bytes

  datatype VarintError = Eof | Incomplete | Overflow

  /** A value and the position behind it. */
  datatype Read<+T> = Got(value: T, next: nat) | Bad(error: VarintError)

  function Pow128(i: nat): nat {
    if i == 0 then 1 else 128 * Pow128(i - 1)
  }

  /** What byte number `i` adds to a 64-bit word; bits shifted out are lost. */
  function Septet(b: byte, i: nat): nat {
    (b % 128) * Pow128(i) % TWO_64
  }

  /** The loop of `readU64_7bit` from its byte number `i` on. */
  function ReadU64From(data: bytes, pos: nat, i: nat, v: nat): Read<nat>
    decreases |data| - pos
  {
    if pos >= |data| then Bad(if i == 0 then Eof else Incomplete)
    else if data[pos] < 128 then Got(v + Septet(data[pos], i), pos + 1)
    else if i >= 9 then Bad(Overflow)
    else ReadU64From(data, pos + 1, i + 1, v + Septet(data[pos], i))
  }

  method ReadU64(data: bytes, start: nat) returns (r: Read<nat>)
    ensures r == ReadU64From(data, start, 0, 0)
  {
    var pos: nat, v: nat, shift: nat := start, 0, 0;
    if pos >= |data| { return Bad(Eof); }
    while pos < |data|
      invariant shift % 7 == 0 && ReadU64From(data, pos, shift / 7, v) == ReadU64From(data, start, 0, 0)
      invariant shift <= 63 && (pos >= |data| ==> shift > 0)
      decreases |data| - pos
    {
      var b := data[pos];
      pos := pos + 1;
      v := v + Septet(b, shift / 7);
      if b < 128 { return Got(v, pos); }
      shift := shift + 7;
      if shift > 63 { return Bad(Overflow); }
    }
    return Bad(Incomplete);
  }

  /** Two's complement in 64 bits. */
  function Wrap64(x: int): int {
    (x + 0x8000_0000_0000_0000) % TWO_64 - 0x8000_0000_0000_0000
  }

  /** The closing zero of a negative number, computed the way the code does. */
  function Negated(v: nat): int {
    Wrap64(Wrap64(Wrap64(Wrap64(v) - 1) * -1) - 1)
  }

  /** The loop of `readI64_7bit` from its byte number `i` on. */
  function ReadI64From(data: bytes, pos: nat, i: nat, v: nat): Read<int>
    decreases |data| - pos
  {
    if i >= 11 then Bad(Incomplete)
    else if pos >= |data| then Bad(Eof)
    else if data[pos] == 0 then Got(if v == 0 then 0 else Negated(v), pos + 1)
    else if data[pos] < 128 then Got(Wrap64(v + Septet(data[pos], i)), pos + 1)
    else ReadI64From(data, pos + 1, i + 1, v + Septet(data[pos], i))
  }

  method ReadI64(data: bytes, start: nat) returns (r: Read<int>)
    ensures r == ReadI64From(data, start, 0, 0)
  {
    var pos: nat, v: nat := start, 0;
    for i := 0 to 11
      invariant ReadI64From(data, pos, i, v) == ReadI64From(data, start, 0, 0)
    {
      if pos >= |data| { return Bad(Eof); }
      var b := data[pos];
      pos := pos + 1;
      if b == 0 {
        return Got(if v == 0 then 0 else Negated(v), pos);
      } else if b < 128 {
        v := v + Septet(b, i);
        return Got(Wrap64(v), pos);
      }
      v := v + Septet(b, i);
    }
    return Bad(Incomplete);
  }

  // The encodings of the Proxmox catalog format.

  function EncodeU64(d: nat): (s: bytes)
    ensures |s| >= 1
  {
    if d < 128 then [d] else [128 + d % 128] + EncodeU64(d / 128)
  }

  /** A magnitude with every byte marked as continued, and a zero behind it. */
  function EncodeNegative(d: nat): (s: bytes)
    ensures |s| >= 2
  {
    if d < 128 then [128 + d, 0] else [128 + d % 128] + EncodeNegative(d / 128)
  }

  function EncodeI64(v: int): bytes {
    if v < 0 then EncodeNegative(-v) else EncodeU64(v)
  }

  // Decoding inverts encoding.

  lemma {:induction false} Pow128Grows(i: nat)
    ensures Pow128(i) >= 1 && (i >= 10 ==> Pow128(i) >= TWO_64)
  {
    if i > 10 {
      Pow128Grows(i - 1);
    } else if i == 10 {
      assert Pow128(8) == 0x100_0000_0000_0000 by { Pow128Eight(); }
    } else if i > 0 {
      Pow128Grows(i - 1);
    }
  }

  lemma Pow128Eight()
    ensures Pow128(8) == 0x100_0000_0000_0000
  {
    assert Pow128(4) == 0x1000_0000;
  }

  /** One more septet of a value that fits the word: nothing is lost, and what is left fits too. */
  lemma SeptetOf(d: nat, i: nat, v: nat)
    requires v + d * Pow128(i) < TWO_64
    ensures Septet(d % 128, i) == (d % 128) * Pow128(i)
    ensures Septet(128 + d % 128, i) == (d % 128) * Pow128(i)
    ensures v + (d % 128) * Pow128(i) + (d / 128) * Pow128(i + 1) == v + d * Pow128(i)
    ensures d >= 128 ==> i < 9
    ensures d >= 1 ==> i < 10
  {
    Pow128Grows(i);
    assert Pow128(i + 1) == 128 * Pow128(i);
    Pow128Grows(i + 1);
    hide Pow128;
    var p := Pow128(i);
    OneSeptet(d, p, d / 128, d % 128);
    assert (128 + d % 128) % 128 == d % 128;
    Smaller(d % 128, d, p);
    if d >= 1 { Smaller(1, d, p); }
    if d >= 128 { Smaller(128, d, p); }
  }

  lemma OneSeptet(d: nat, p: nat, q: nat, m: nat)
    requires d == 128 * q + m
    ensures m * p + q * (128 * p) == d * p
  {
    assert (128 * q) * p == q * (128 * p);
  }

  lemma Smaller(a: nat, b: nat, p: nat)
    requires a <= b
    ensures a * p <= b * p
  {
  }

  lemma {:induction false} DecodeU64From(data: bytes, pos: nat, i: nat, v: nat, d: nat)
    requires v + d * Pow128(i) < TWO_64 && At(data, pos, EncodeU64(d)) && (i == 0 || d >= 1)
    ensures ReadU64From(data, pos, i, v) == Got(v + d * Pow128(i), pos + |EncodeU64(d)|)
    decreases d
  {
    hide Septet, Pow128;
    SeptetOf(d, i, v);
    if d < 128 {
      assert data[pos] == EncodeU64(d)[0];
    } else {
      AtSplit(data, pos, [128 + d % 128], EncodeU64(d / 128));
      assert data[pos] == 128 + d % 128;
      DecodeU64From(data, pos + 1, i + 1, v + (d % 128) * Pow128(i), d / 128);
    }
  }

  /** Every unsigned 64-bit value is read back, whatever follows it. */
  lemma DecodeU64(data: bytes, pos: nat, v: nat)
    requires v < TWO_64 && At(data, pos, EncodeU64(v))
    ensures ReadU64From(data, pos, 0, 0) == Got(v, pos + |EncodeU64(v)|)
  {
    assert Pow128(0) == 1;
    DecodeU64From(data, pos, 0, 0, v);
  }

  lemma SmallWraps(v: nat)
    requires v < 0x8000_0000_0000_0000
    ensures Wrap64(v) == v
  {
  }

  lemma {:induction false} DecodePositive(data: bytes, pos: nat, i: nat, v: nat, d: nat)
    requires v + d * Pow128(i) < 0x8000_0000_0000_0000 && At(data, pos, EncodeU64(d)) && d >= 1
    ensures ReadI64From(data, pos, i, v) == Got(v + d * Pow128(i), pos + |EncodeU64(d)|)
    decreases d
  {
    hide Septet, Pow128, Wrap64, Negated;
    SeptetOf(d, i, v);
    SmallWraps(v + d * Pow128(i));
    if d < 128 {
      assert data[pos] == EncodeU64(d)[0];
    } else {
      AtSplit(data, pos, [128 + d % 128], EncodeU64(d / 128));
      assert data[pos] == 128 + d % 128;
      DecodePositive(data, pos + 1, i + 1, v + (d % 128) * Pow128(i), d / 128);
    }
  }

  lemma {:induction false} DecodeNegative(data: bytes, pos: nat, i: nat, v: nat, d: nat)
    requires 0 < v + d * Pow128(i) <= 0x8000_0000_0000_0000 && At(data, pos, EncodeNegative(d)) && d >= 1
    ensures ReadI64From(data, pos, i, v) == Got(-(v + d * Pow128(i)), pos + |EncodeNegative(d)|)
    decreases d
  {
    hide Septet, Pow128, Wrap64, Negated;
    SeptetOf(d, i, v);
    if d < 128 {
      assert data[pos] == EncodeNegative(d)[0] == 128 + d && data[pos + 1] == EncodeNegative(d)[1] == 0;
      assert d / 128 == 0 && d % 128 == d;
      NegatedIs(v + d * Pow128(i));
      assert ReadI64From(data, pos + 1, i + 1, v + d * Pow128(i)) == Got(-(v + d * Pow128(i)), pos + 2);
    } else {
      AtSplit(data, pos, [128 + d % 128], EncodeNegative(d / 128));
      assert data[pos] == 128 + d % 128;
      DecodeNegative(data, pos + 1, i + 1, v + (d % 128) * Pow128(i), d / 128);
    }
  }

  lemma NegatedIs(v: nat)
    requires 0 < v <= 0x8000_0000_0000_0000
    ensures Negated(v) == 0 - v
  {
  }

  /** Every signed 64-bit value, the least one included, is read back, whatever follows it. */
  lemma DecodeI64(data: bytes, pos: nat, v: int)
    requires -0x8000_0000_0000_0000 <= v < 0x8000_0000_0000_0000 && At(data, pos, EncodeI64(v))
    ensures ReadI64From(data, pos, 0, 0) == Got(v, pos + |EncodeI64(v)|)
  {
    assert Pow128(0) == 1;
    if v < 0 {
      DecodeNegative(data, pos, 0, 0, -v);
    } else if v == 0 {
      assert data[pos] == EncodeU64(0)[0];
    } else {
      DecodePositive(data, pos, 0, 0, v);
    }
  }

  /** No more than 10 and 11 bytes are ever looked at. */
  lemma {:induction false} ReadsAreShort(data: bytes, pos: nat, i: nat, v: nat, w: nat)
    requires i <= 10
    ensures ReadU64From(data, pos, i, v).Got? && i < 10 ==> ReadU64From(data, pos, i, v).next <= pos + 10 - i
    ensures ReadI64From(data, pos, i, w).Got? ==> ReadI64From(data, pos, i, w).next <= pos + 11 - i
    decreases 10 - i
  {
    hide Septet;
    if i < 10 && pos < |data| {
      ReadsAreShort(data, pos + 1, i + 1, v + Septet(data[pos], i), w + Septet(data[pos], i));
    }
  }
}
