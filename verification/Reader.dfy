// The reading primitives of the library: what the generated parse loops call.
// A position stands for the pointer, and "not ok" for a null one.
module Reader {
  import opened Bytes
  import V = Varint
  import W = Wire

  method ReadTag(b: bytes, pos: nat) returns (ok: bool, tag: nat, next: nat)
    requires pos <= |b|
    ensures ok <==> W.ReadTag(b[pos..]).Some?
    ensures ok ==> W.ReadTag(b[pos..]) == Some((tag, next - pos)) && pos < next <= |b|
  {
    ok, tag, next := V.ParseTelescoped(b, pos, 5, false);
  }

  method ReadVarint32(b: bytes, pos: nat) returns (ok: bool, value: V.uint32, next: nat)
    requires pos <= |b|
    ensures ok <==> W.ReadVarint64(b[pos..]).Some?
    ensures ok ==> var p := W.ReadVarint64(b[pos..]).value;
                   value == p.0 % V.TWO32 && next == pos + p.1 && next <= |b|
  {
    hide V.Read;
    var v;
    ok, v, next := V.ParseTelescoped(b, pos, 10, false);
    value := if ok then v else 0;
  }

  method ReadVarint64(b: bytes, pos: nat) returns (ok: bool, value: V.uint64, next: nat)
    requires pos <= |b|
    ensures ok <==> W.ReadVarint64(b[pos..]).Some?
    ensures ok ==> W.ReadVarint64(b[pos..]) == Some((value, next - pos)) && pos < next <= |b|
  {
    hide V.Read;
    var v;
    ok, v, next := V.ParseTelescoped(b, pos, 10, true);
    value := if ok then v else 0;
  }

  // Four continuing bytes carry 28 bits, so the fifth decides about the rest.
  lemma FifthByte(s: bytes)
    requires |s| >= 5 && forall j :: 0 <= j < 4 ==> s[j] >= 128
    ensures s[4] >= 8 && V.Read(s, 5).Some? ==> V.Read(s, 5).value.0 >= 0x8000_0000
    ensures s[4] < 8 ==> V.Read(s, 5).Some? && V.Read(s, 5).value.1 == 5 && V.Read(s, 5).value.0 < 0x8000_0000
  {
    V.ReadBehind(s, 5, 4);
    CarriedBound(s, 4);
    PowersSmall(4);
    assert V.Pow128(4) == 0x1000_0000 by { assert V.Pow128(2) == 0x4000; }
    assert V.Read(s[4..], 1).Some? ==> V.Read(s[4..], 1).value.0 == s[4];
  }

  lemma {:induction false} CarriedBound(s: bytes, i: nat)
    requires i <= |s| && forall j :: 0 <= j < i ==> s[j] >= 128
    ensures 0 <= V.Carried(s, i) < V.Pow128(i)
  {
    if i > 0 {
      CarriedBound(s, i - 1);
      SevenBits(s[i - 1] - 128, V.Pow128(i - 1));
    }
  }

  lemma SevenBits(x: int, p: nat)
    requires 0 <= x < 128
    ensures 0 <= x * p <= 127 * p
  {
  }

  // A varint below 2^28 in at most four bytes.
  lemma {:induction false} ShortVarint(s: bytes, max: nat)
    requires V.Read(s, max).Some?
    ensures V.Read(s, max).value.0 < V.Pow128(V.Read(s, max).value.1)
    ensures forall j :: 0 <= j < V.Read(s, max).value.1 - 1 ==> s[j] >= 128
    decreases max
  {
    if s[0] >= 128 {
      ShortVarint(s[1..], max - 1);
      assert forall j :: 1 <= j < V.Read(s, max).value.1 - 1 ==> s[j] == s[1..][j - 1];
    } else {
      assert V.Pow128(1) == 128;
    }
  }

  // ReadSize with ReadSizeFallback: 32-bit arithmetic, a fifth byte of 8 or
  // more is two gigabytes or more, and the top sixteen sizes are refused too.
  method ReadSize(b: bytes, pos: nat) returns (ok: bool, size: nat, next: nat)
    requires pos <= |b|
    ensures ok <==> W.ReadSize(b[pos..]).Some?
    ensures ok ==> W.ReadSize(b[pos..]) == Some((size, next - pos)) && pos < next <= |b|
    ensures ok <==> var v := V.Read(b[pos..], 5); v.Some? && v.value.0 <= 0x7FFF_FFEF
  {
    ghost var s := b[pos..];
    ok, size, next := V.ParseTelescoped(b, pos, 5, false);
    if !ok { return; }
    ShortVarint(s, 5);
    if next - pos == 5 {
      FifthByte(s);
      if b[pos + 4] >= 8 { return false, 0, pos; }
      if size > W.MAX_LENGTH { return false, 0, pos; }
    } else {
      PowersSmall(next - pos);
    }
  }

  lemma PowersSmall(n: nat)
    requires 1 <= n <= 4
    ensures V.Pow128(n) <= 0x1000_0000
  {
    assert V.Pow128(2) == 0x4000 && V.Pow128(1) == 128;
    assert V.Pow128(3) == 0x20_0000;
    assert V.Pow128(4) == 0x1000_0000;
  }

  // InlineGreedyStringParser: a size and that many bytes.
  method ReadString(b: bytes, pos: nat) returns (ok: bool, data: bytes, next: nat)
    requires pos <= |b|
    ensures ok <==> W.ReadBlock(b[pos..]).Some?
    ensures ok ==> W.ReadBlock(b[pos..]) == Some((data, next - pos)) && pos < next <= |b|
  {
    var size, p;
    ok, size, p := ReadSize(b, pos);
    if !ok || |b| - p < size { return false, [], pos; }
    data, next := b[p..p + size], p + size;
    assert data == b[pos..][p - pos..p - pos + size];
  }

  // FieldParser with the handlers of UnknownFieldParserHelper.
  method UnknownFieldParse(tag: nat, b: bytes, pos: nat, depth: nat) returns (ok: bool, f: W.Field, next: nat)
    requires pos <= |b|
    ensures ok <==> W.ReadBody(tag / 8, tag % 8, b[pos..], depth).Some?
    ensures ok ==> W.ReadBody(tag / 8, tag % 8, b[pos..], depth) == Some((f, next - pos)) && pos <= next <= |b|
    decreases depth, 0
  {
    var num := tag / 8;
    f, next := W.Varint(0, 0), pos;
    if num == 0 { return false, f, pos; }
    if tag % 8 == 0 {
      var v;
      ok, v, next := ReadVarint64(b, pos);
      f := W.Varint(num, v);
    } else if tag % 8 == 1 {
      ok := |b| - pos >= 8;
      if ok {
        assert b[pos..pos + 8] == b[pos..][..8];
        f, next := W.Fixed64(num, b[pos..pos + 8]), pos + 8;
      }
    } else if tag % 8 == 2 {
      var d;
      ok, d, next := ReadString(b, pos);
      f := W.Len(num, d);
    } else if tag % 8 == 3 {
      ok := false;
      if depth > 0 {
        var fs;
        ok, fs, next := ParseGroup(num, b, pos, depth - 1);
        f := W.Group(num, fs);
      }
    } else if tag % 8 == 5 {
      ok := |b| - pos >= 4;
      if ok {
        assert b[pos..pos + 4] == b[pos..][..4];
        f, next := W.Fixed32(num, b[pos..pos + 4]), pos + 4;
      }
    } else {
      ok := false;
    }
  }

  ghost function Behind(fs: seq<W.Field>, n: nat, q: Option<(seq<W.Field>, nat)>): Option<(seq<W.Field>, nat)> {
    if q.None? then None else Some((fs + q.value.0, n + q.value.1))
  }

  // WireFormatParser inside ParseGroup: records until an end-group tag, which
  // must be the group's own.
  method ParseGroup(num: nat, b: bytes, pos: nat, depth: nat) returns (ok: bool, fs: seq<W.Field>, next: nat)
    requires pos <= |b|
    ensures ok <==> W.ReadGroup(b[pos..], num, depth).Some?
    ensures ok ==> W.ReadGroup(b[pos..], num, depth) == Some((fs, next - pos)) && pos <= next <= |b|
    decreases depth, 1
  {
    hide W.ReadBody, W.ReadField, W.ReadGroup;
    fs, next := [], pos;
    ghost var all := W.ReadGroup(b[pos..], num, depth);
    assert all.Some? ==> [] + all.value.0 == all.value.0;
    while next < |b|
      invariant pos <= next <= |b|
      invariant all == Behind(fs, next - pos, W.ReadGroup(b[next..], num, depth))
    {
      ghost var s := b[next..];
      var tag, p;
      ok, tag, p := ReadTag(b, next);
      GroupByTag(s, num, depth);
      if !ok { return; }
      if W.EndsMessage(tag) {
        ok := tag == num * 8 + 4;
        assert fs + [] == fs;
        next := p;
        return;
      }
      assert b[p..] == s[p - next..];
      var f, q;
      ok, f, q := UnknownFieldParse(tag, b, p, depth);
      if !ok { return; }
      assert s[q - next..] == b[q..];
      GroupGrows(fs, next - pos, f, q - next, W.ReadGroup(b[q..], num, depth));
      fs, next := fs + [f], q;
    }
    GroupByTag(b[next..], num, depth);
    assert W.ReadTag(b[next..]).None?;
    ok := false;
  }

  lemma GroupByTag(s: bytes, num: nat, depth: nat)
    ensures W.ReadTag(s).None? ==> W.ReadGroup(s, num, depth).None?
    ensures W.ReadTag(s).Some? ==>
              var t := W.ReadTag(s).value;
              if W.EndsMessage(t.0) then
                W.ReadGroup(s, num, depth) == if t.0 == num * 8 + 4 then Some(([], t.1)) else None
              else
                W.ReadGroup(s, num, depth) ==
                  match W.ReadBody(t.0 / 8, t.0 % 8, s[t.1..], depth)
                  case None => None
                  case Some(p) => W.PrependIn((p.0, t.1 + p.1), W.ReadGroup(s[t.1 + p.1..], num, depth))
  {
    hide W.ReadTag, W.ReadBody, W.PrependIn;
  }

  lemma GroupGrows(fs: seq<W.Field>, n: nat, f: W.Field, k: nat, q: Option<(seq<W.Field>, nat)>)
    ensures Behind(fs, n, W.PrependIn((f, k), q)) == Behind(fs + [f], n + k, q)
  {
    if q.Some? { assert fs + ([f] + q.value.0) == (fs + [f]) + q.value.0; }
  }
}
