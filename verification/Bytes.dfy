// Octets, byte strings, and the few facts about them that every layer shares.
module Bytes {

  type byte = b: int | 0 <= b < 256

  type bytes = seq<byte>

  datatype Option<+T> = None | Some(value: T)

  // The concatenation of a list of lists.
  function Flatten<T>(parts: seq<seq<T>>): seq<T> {
    if parts == [] then [] else parts[0] + Flatten(parts[1..])
  }

  lemma {:induction false} FlattenConcat<T>(a: seq<seq<T>>, b: seq<seq<T>>)
    ensures Flatten(a + b) == Flatten(a) + Flatten(b)
  {
    if a == [] {
      assert a + b == b;
    } else {
      assert (a + b)[1..] == a[1..] + b;
      FlattenConcat(a[1..], b);
    }
  }

  lemma FlattenSnoc<T>(a: seq<seq<T>>, x: seq<T>)
    ensures Flatten(a + [x]) == Flatten(a) + x
  {
    FlattenConcat(a, [x]);
    assert Flatten([x]) == x + Flatten([]);
  }

  lemma Associative<T>(a: seq<T>, b: seq<T>, c: seq<T>)
    ensures (a + b) + c == a + (b + c)
  {
  }

  lemma Regroup<T>(a: seq<T>, b: seq<T>, c: seq<T>, d: seq<T>)
    ensures (a + b) + c + d == a + (b + c + d)
  {
  }

  lemma FirstAndRest<T>(s: seq<T>)
    requires s != []
    ensures [s[0]] + s[1..] == s
  {
  }

  // A 32-bit unsigned integer as the (little-endian) machine stores it.
  function LittleEndian32(v: nat): (b: bytes)
    ensures |b| == 4
  {
    [v % 256, v / 0x100 % 256, v / 0x1_0000 % 256, v / 0x100_0000 % 256]
  }

  function Load32(b: bytes): nat
    requires |b| == 4
  {
    b[0] as int + 0x100 * b[1] as int + 0x1_0000 * b[2] as int + 0x100_0000 * b[3] as int
  }

  function LittleEndian16(v: nat): (b: bytes)
    ensures |b| == 2
  {
    [v % 256, v / 0x100 % 256]
  }

  function Load16(b: bytes): nat
    requires |b| == 2
  {
    b[0] as int + 0x100 * b[1] as int
  }

  lemma LoadLittleEndian32(v: nat)
    ensures Load32(LittleEndian32(v)) == v % 0x1_0000_0000
  {
    var q := v / 0x1_0000_0000;
    var b1 := v / 0x100;
    var b2 := b1 / 0x100;
    var b3 := b2 / 0x100;
    assert v / 0x1_0000 == b2 && v / 0x100_0000 == b3 && b3 / 0x100 == q;
  }

  lemma LoadLittleEndian16(v: nat)
    ensures Load16(LittleEndian16(v)) == v % 0x1_0000
  {
    assert v / 0x100 / 0x100 == v / 0x1_0000;
  }
}
