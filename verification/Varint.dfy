// Base 128 varints: the encoding of the wire format, the arithmetic the
// library uses to read and to measure it, and the integer widths on top.
module Varint {
  import opened Bytes

  const TWO32 := 0x1_0000_0000
  const TWO64 := 0x1_0000_0000_0000_0000

  // ---------------------------------------------------------------- encoding

  // Seven bits a byte, least significant group first, the top bit set on
  // every byte but the last.
  function Encode(v: nat): (b: bytes)
    ensures |b| >= 1
  {
    if v < 128 then [v] else [v % 128 + 128] + Encode(v / 128)
  }

  // The number at the front of `b` and how many bytes it occupies, when it
  // ends within `max` bytes.  Not yet cut to any machine width.
  function Read(b: bytes, max: nat): (r: Option<(nat, nat)>)
    ensures r.Some? ==> 1 <= r.value.1 <= max && r.value.1 <= |b|
    decreases |b|
  {
    if b == [] || max == 0 then None
    else if b[0] < 128 then Some((b[0], 1))
    else match Read(b[1..], max - 1)
         case None => None
         case Some(p) => Some((b[0] - 128 + 128 * p.0, p.1 + 1))
  }

  lemma {:induction false} ReadEncode(v: nat, rest: bytes, max: nat)
    requires |Encode(v)| <= max
    ensures Read(Encode(v) + rest, max) == Some((v, |Encode(v)|))
    decreases v
  {
    if v >= 128 {
      assert (Encode(v) + rest)[1..] == Encode(v / 128) + rest;
      ReadEncode(v / 128, rest, max - 1);
    }
  }

  // Bytes behind the varint do not matter.
  lemma {:induction false} ReadExtend(a: bytes, rest: bytes, max: nat)
    requires Read(a, max).Some?
    ensures Read(a + rest, max) == Read(a, max)
    decreases max
  {
    if a[0] >= 128 {
      assert (a + rest)[1..] == a[1..] + rest;
      ReadExtend(a[1..], rest, max - 1);
    }
  }

  // ------------------------------------------------------------------ lengths

  function Log2Floor(v: nat): nat
    requires v > 0
  {
    if v == 1 then 0 else 1 + Log2Floor(v / 2)
  }

  // CodedOutputStream::VarintSize32 and VarintSize64: a multiplication and a
  // shift in place of the division by seven.
  function SizeOf(v: nat): nat {
    (Log2Floor(if v % 2 == 0 then v + 1 else v) * 9 + 73) / 64
  }

  lemma Log2Shift7(v: nat)
    requires v >= 128
    ensures v / 128 > 0 && Log2Floor(v) == 7 + Log2Floor(v / 128)
  {
    assert v / 2 / 2 / 2 / 2 / 2 / 2 / 2 == v / 128;
    var v1 := v / 2; var v2 := v1 / 2; var v3 := v2 / 2;
    var v4 := v3 / 2; var v5 := v4 / 2; var v6 := v5 / 2;
    assert Log2Floor(v) == 1 + Log2Floor(v1) && Log2Floor(v1) == 1 + Log2Floor(v2);
    assert Log2Floor(v2) == 1 + Log2Floor(v3) && Log2Floor(v3) == 1 + Log2Floor(v4);
    assert Log2Floor(v4) == 1 + Log2Floor(v5) && Log2Floor(v5) == 1 + Log2Floor(v6);
    assert Log2Floor(v6) == 1 + Log2Floor(v / 128);
  }

  // Setting the lowest bit never changes the position of the highest one.
  lemma {:induction false} Log2SetLowBit(v: nat)
    requires v > 0 && v % 2 == 0
    ensures Log2Floor(v + 1) == Log2Floor(v)
  {
    assert (v + 1) / 2 == v / 2;
    if v / 2 == 1 {
      assert Log2Floor(v + 1) == 1 + Log2Floor(1);
    }
  }

  lemma {:induction false} Log2Monotone(v: nat, bits: nat)
    requires v > 0 && Log2Floor(v) >= bits
    ensures v >= Pow2(bits)
  {
    if bits > 0 {
      Log2Monotone(v / 2, bits - 1);
    }
  }

  function Pow2(n: nat): nat {
    if n == 0 then 1 else 2 * Pow2(n - 1)
  }

  lemma {:induction false} LengthByLog(v: nat)
    requires v > 0
    ensures |Encode(v)| == Log2Floor(v) / 7 + 1
  {
    if v < 128 {
      assert Pow2(7) == 128 by { assert Pow2(3) == 8; }
      if Log2Floor(v) >= 7 {
        Log2Monotone(v, 7);
        assert false;
      }
    } else {
      Log2Shift7(v);
      LengthByLog(v / 128);
    }
  }

  // For every value a 64-bit machine can hold, the library's size is the
  // number of bytes the encoder writes.
  lemma SizeIsLength(v: nat)
    requires v < TWO64
    ensures SizeOf(v) == |Encode(v)|
  {
    if v == 0 {
      assert Log2Floor(1) == 0;
    } else {
      if v % 2 == 0 { Log2SetLowBit(v); }
      LengthByLog(v);
      var k := Log2Floor(v);
      if k >= 64 {
        Log2Monotone(v, 64);
        Pow2Is64();
      }
      assert (k * 9 + 73) / 64 == k / 7 + 1;
    }
  }

  lemma Pow2Is64()
    ensures Pow2(64) == TWO64
  {
    assert Pow2(8) == 0x100 by { assert Pow2(4) == 0x10; }
    assert Pow2(16) == 0x1_0000 by { assert Pow2(12) == 0x1000; }
    assert Pow2(24) == 0x100_0000 by { assert Pow2(20) == 0x10_0000; }
    assert Pow2(32) == 0x1_0000_0000 by { assert Pow2(28) == 0x1000_0000; }
    assert Pow2(40) == 0x100_0000_0000 by { assert Pow2(36) == 0x10_0000_0000; }
    assert Pow2(48) == 0x1_0000_0000_0000 by { assert Pow2(44) == 0x1000_0000_0000; }
    assert Pow2(56) == 0x100_0000_0000_0000 by { assert Pow2(52) == 0x10_0000_0000_0000; }
    assert Pow2(60) == 0x1000_0000_0000_0000;
  }

  lemma {:induction false} LengthMonotone(a: nat, b: nat)
    requires a <= b
    ensures |Encode(a)| <= |Encode(b)|
    decreases b
  {
    if b >= 128 && a >= 128 {
      LengthMonotone(a / 128, b / 128);
    }
  }

  function Pow128(i: nat): nat {
    if i == 0 then 1 else 128 * Pow128(i - 1)
  }

  lemma {:induction false} LengthAtMost(v: nat, n: nat)
    requires n > 0 && v < Pow128(n)
    ensures |Encode(v)| <= n
  {
    if v >= 128 {
      LengthAtMost(v / 128, n - 1);
    }
  }

  lemma {:induction false} LengthAtLeast(v: nat, n: nat)
    requires v >= Pow128(n)
    ensures |Encode(v)| > n
  {
    if n > 0 {
      assert v >= 128 by { Pow128Positive(n - 1); }
      LengthAtLeast(v / 128, n - 1);
    }
  }

  lemma Pow128Positive(n: nat)
    ensures Pow128(n) > 0
  {
  }

  lemma Pow128Values()
    ensures Pow128(5) == 0x8_0000_0000 && Pow128(9) == 0x8000_0000_0000_0000
    ensures Pow128(10) == 0x40_0000_0000_0000_0000
  {
    assert Pow128(3) == 0x20_0000;
    assert Pow128(6) == 0x400_0000_0000;
  }

  // 64-bit values take at most ten bytes, 32-bit values at most five.
  lemma LengthBounds(v: nat)
    ensures v < TWO64 ==> |Encode(v)| <= 10
    ensures v < TWO32 ==> |Encode(v)| <= 5
  {
    Pow128Values();
    if v < TWO64 { LengthAtMost(v, 10); }
    if v < TWO32 { LengthAtMost(v, 5); }
  }

  // The bytes the encoder writes are the fewest that carry the value.
  lemma {:induction false} EncodeIsShortest(b: bytes, max: nat)
    requires Read(b, max).Some?
    ensures |Encode(Read(b, max).value.0)| <= Read(b, max).value.1
    decreases max
  {
    if b[0] >= 128 {
      EncodeIsShortest(b[1..], max - 1);
      var v := Read(b[1..], max - 1).value.0;
      var w := b[0] - 128 + 128 * v;
      if w >= 128 { assert w / 128 == v; }
    }
  }

  // ------------------------------------------------- the library's arithmetic

  // What the first `i` bytes contribute when each of them continues.
  function Carried(b: bytes, i: nat): int
    requires i <= |b|
  {
    if i == 0 then 0 else Carried(b, i - 1) + (b[i - 1] - 128) * Pow128(i - 1)
  }

  // Once the first `i` bytes continue, the rest of the number is read behind
  // them and shifted by their seven bits each.
  lemma {:induction false} ReadBehind(b: bytes, max: nat, i: nat)
    requires i <= |b| && i <= max
    requires forall j :: 0 <= j < i ==> b[j] >= 128
    ensures var tail := Read(b[i..], max - i);
            Read(b, max) == if tail.None? then None
                            else Some((Carried(b, i) + Pow128(i) * tail.value.0, tail.value.1 + i))
  {
    if i == 0 {
      assert b[0..] == b;
    } else {
      ReadBehind(b, max, i - 1);
      var tail := Read(b[i..], max - i);
      assert b[i - 1..][1..] == b[i..];
      if tail.Some? {
        ShiftIn(Pow128(i - 1), b[i - 1] - 128, tail.value.0);
      }
    }
  }

  lemma ShiftIn(p: nat, low: nat, v: nat)
    ensures p * (low + 128 * v) == low * p + (128 * p) * v
  {
    assert p * (low + 128 * v) == p * low + p * (128 * v);
    assert p * (128 * v) == (128 * p) * v;
  }

  // Unsigned machine arithmetic at 64 or at 32 bits.
  function Wrap(v: int, wide: bool): nat {
    if wide then v % TWO64 else v % TWO32
  }

  lemma WrapAdd(a: int, b: int, wide: bool)
    ensures Wrap(Wrap(a, wide) + b, wide) == Wrap(a + b, wide)
  {
    assert (a % TWO32 + b) % TWO32 == (a + b) % TWO32;
    assert (a % TWO64 + b) % TWO64 == (a + b) % TWO64;
  }

  // The running sum after `i` continuing bytes: their payloads, and the
  // continuation bit of the last one, not taken back yet.
  function Running(b: bytes, i: nat): int
    requires i <= |b|
  {
    if i == 0 then 0 else Carried(b, i) + Pow128(i)
  }

  // What step `i` adds: (byte - 1) << 7i, and the plain byte at first.
  function Addend(byte: int, i: nat): int {
    if i == 0 then byte else (byte - 1) * Pow128(i)
  }

  lemma AddendStep(b: bytes, i: nat)
    requires i < |b|
    ensures Running(b, i) + Addend(b[i], i) == Carried(b, i) + Pow128(i) * b[i]
    ensures Running(b, i) + Addend(b[i], i) == Running(b, i + 1)
  {
    var p, x: int := Pow128(i), b[i];
    assert (x - 1) * p == x * p - p;
    assert (x - 128) * p == x * p - 128 * p;
  }

  // From the sixth byte on, an addend is a multiple of the 32-bit word.
  lemma AddendShiftsOut(sum: int, byte: int, i: nat)
    requires i >= 5
    ensures Wrap(sum + Addend(byte, i), false) == Wrap(sum, false)
  {
    var q := WordMultiple(i);
    var k := (byte - 1) * q;
    assert (byte - 1) * (TWO32 * q) == TWO32 * k;
    assert (sum + TWO32 * k) % TWO32 == sum % TWO32;
  }

  lemma {:induction false} WordMultiple(i: nat) returns (q: nat)
    requires i >= 5
    ensures Pow128(i) == TWO32 * q
  {
    if i == 5 {
      Pow128Values();
      q := 8;
    } else {
      var q' := WordMultiple(i - 1);
      q := 128 * q';
    }
  }

  // One step of the reader.  At 32 bits the library stops adding after five
  // bytes.
  function Step(res: nat, byte: int, i: nat, wide: bool): nat {
    if wide || i < 5 then Wrap(res + Addend(byte, i), wide) else res
  }

  lemma StepRuns(b: bytes, i: nat, wide: bool)
    requires i < |b|
    ensures var res := Step(Wrap(Running(b, i), wide), b[i], i, wide);
            && res == Wrap(Running(b, i + 1), wide)
            && res == Wrap(Carried(b, i) + Pow128(i) * b[i], wide)
  {
    AddendStep(b, i);
    if wide || i < 5 {
      WrapAdd(Running(b, i), Addend(b[i], i), wide);
    } else {
      AddendShiftsOut(Running(b, i), b[i], i);
    }
  }

  // VarintParse with VarintParseSlow64 / VarintParseSlow32 / ReadTagFallback:
  // each step adds (byte - 1) << 7i in machine arithmetic.  The continuation
  // bit of byte i is 1 << 7(i+1), exactly what the "- 1" of the next byte takes
  // back, so no byte is ever masked.
  method ParseTelescoped(b: bytes, pos: nat, max: nat, wide: bool) returns (ok: bool, value: nat, next: nat)
    requires pos <= |b|
    ensures ok <==> Read(b[pos..], max).Some?
    ensures ok ==> var p := Read(b[pos..], max).value;
                   value == Wrap(p.0, wide) && next == pos + p.1
    ensures !ok ==> next == pos
  {
    ghost var s := b[pos..];
    var i := 0;
    var res := 0;
    while i < max && pos + i < |b|
      invariant 0 <= i <= max && pos + i <= |b|
      invariant forall j :: 0 <= j < i ==> s[j] >= 128
      invariant res == Wrap(Running(s, i), wide)
    {
      var byte := b[pos + i];
      assert s[i] == byte;
      StepRuns(s, i, wide);
      res := Step(res, byte, i, wide);
      if byte < 128 {
        ReadBehind(s, max, i);
        assert Read(s[i..], max - i) == Some((byte, 1));
        return true, res, pos + i + 1;
      }
      i := i + 1;
    }
    ReadBehind(s, max, i);
    return false, 0, pos;
  }

  // ----------------------------------------------------------- machine widths

  type uint32 = v: int | 0 <= v < TWO32
  type int32 = v: int | -0x8000_0000 <= v < 0x8000_0000
  type uint64 = v: int | 0 <= v < TWO64

  // int32 and enum fields are sign-extended to 64 bits on the wire ...
  function SignExtend(v: int32): (r: uint64)
    ensures (r - v) % 0x1_0000_0000_0000_0000 == 0
  {
    if v < 0 then v + TWO64 else v
  }

  // ... and read as 64 bits, then cut to 32.
  function ToInt32(v: uint64): (r: int32)
    ensures (v - r) % 0x1_0000_0000 == 0
  {
    var low := v % TWO32;
    if low < 0x8000_0000 then low else low - TWO32
  }

  lemma Int32RoundTrip(v: int32)
    ensures ToInt32(SignExtend(v)) == v
    ensures |Encode(SignExtend(v))| == if v < 0 then 10 else SizeOf(v)
  {
    hide Encode, SizeOf, Pow128;
    var e := SignExtend(v);
    if v < 0 {
      Pow128Values();
      LengthAtLeast(e, 9);
      LengthBounds(e);
    } else {
      SizeIsLength(v);
    }
  }
}
