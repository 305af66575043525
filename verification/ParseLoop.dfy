// What the generated parse loops have in common, as facts about the bytes in
// front of the pointer, and the sizes that ByteSizeLong adds up.
module ParseLoop {
  import opened Bytes
  import V = Varint
  import W = Wire
  import M = Messages
  import R = Reader

  // One trip through a parse loop that succeeds: a tag at `pos`, its payload at
  // `p`, the effect on the message, and the rest of the input at `next`.
  lemma Taken(x: M.Message, y: M.Message, b: bytes, pos: nat, p: nat, next: nat, f: W.Field, depth: nat)
    requires pos < p <= next <= |b|
    requires W.ReadTag(b[pos..]) == Some((f.num * 8 + f.WireType(), p - pos))
    requires W.ReadBody(f.num, f.WireType(), b[p..], depth) == Some((f, next - p))
    requires M.Apply(x, f, depth) == Some(y)
    ensures M.Parse(x, b[pos..], depth) == M.Parse(y, b[next..], depth)
  {
    hide M.Parse, M.Apply, W.Records, W.ReadBody;
    Advance(b, pos, p - pos);
    Advance(b, pos, next - pos);
    M.ParseStep(x, b[pos..], depth);
  }

  // A trip that fails: no tag, no payload (no payload belongs to the tags that
  // end a message), or a payload that the message refuses.
  lemma Refused(x: M.Message, b: bytes, pos: nat, depth: nat)
    requires pos < |b|
    requires match W.ReadTag(b[pos..])
             case None => true
             case Some(t) => match W.ReadBody(t.0 / 8, t.0 % 8, b[pos + t.1..], depth)
                             case None => true
                             case Some(p) => M.Apply(x, p.0, depth).None?
    ensures M.Parse(x, b[pos..], depth).None?
  {
    hide M.Parse, M.Apply, W.Records, W.ReadBody;
    M.ParseStep(x, b[pos..], depth);
    if W.ReadTag(b[pos..]).Some? { Advance(b, pos, W.ReadTag(b[pos..]).value.1); }
  }

  lemma EndTagsCarryNothing(tag: nat, b: bytes, depth: nat)
    requires W.EndsMessage(tag)
    ensures W.ReadBody(tag / 8, tag % 8, b, depth).None?
  {
  }

  // ExpectTag compares one byte, which is a whole tag when it does not continue.
  lemma OneByteTagReads(b: bytes, pos: nat)
    requires pos < |b| && b[pos] < 128
    ensures W.ReadTag(b[pos..]) == Some((b[pos] as nat, 1))
  {
  }

  lemma UnlistedIsKept(m: M.Message, f: W.Field, depth: nat)
    requires !M.Listed(m, f)
    ensures M.Apply(m, f, depth) == Some(m.(unknown := m.unknown + [f]))
  {
  }

  lemma EmptyInput(m: M.Message, depth: nat)
    ensures M.Parse(m, [], depth) == Some(m)
  {
  }

  // `b[pos..]` seen `n` bytes further on.
  lemma Advance(b: bytes, pos: nat, n: nat)
    requires pos + n <= |b|
    ensures b[pos..][n..] == b[pos + n..]
  {
  }

  // The three payloads that have cases of their own, as records.
  method VarintPayload(num: nat, b: bytes, p: nat, depth: nat) returns (ok: bool, v: V.uint64, ghost f: W.Field, next: nat)
    requires num > 0 && p <= |b|
    ensures ok <==> W.ReadBody(num, 0, b[p..], depth).Some?
    ensures ok ==> W.ReadBody(num, 0, b[p..], depth) == Some((f, next - p)) && p <= next <= |b| && f == W.Varint(num, v)
  {
    ok, v, next := R.ReadVarint64(b, p);
    f := W.Varint(num, v);
  }

  method UInt32Payload(num: nat, b: bytes, p: nat, depth: nat) returns (ok: bool, v: V.uint32, ghost f: W.Field, next: nat)
    requires num > 0 && p <= |b|
    ensures ok <==> W.ReadBody(num, 0, b[p..], depth).Some?
    ensures ok ==> W.ReadBody(num, 0, b[p..], depth) == Some((f, next - p)) && p <= next <= |b|
    ensures ok ==> f.Varint? && f.num == num && v == f.value % V.TWO32
  {
    ok, v, next := R.ReadVarint32(b, p);
    f := W.Varint(num, 0);
    if ok {
      f := W.Varint(num, W.ReadVarint64(b[p..]).value.0);
      Truncate(V.Read(b[p..], 10).value.0);
    }
  }

  method StringPayload(num: nat, b: bytes, p: nat, depth: nat) returns (ok: bool, d: bytes, ghost f: W.Field, next: nat)
    requires num > 0 && p <= |b|
    ensures ok <==> W.ReadBody(num, 2, b[p..], depth).Some?
    ensures ok ==> W.ReadBody(num, 2, b[p..], depth) == Some((f, next - p)) && p <= next <= |b| && f == W.Len(num, d)
  {
    ok, d, next := R.ReadString(b, p);
    f := W.Len(num, d);
  }

  // A varint cut to 64 and then to 32 bits.
  lemma Truncate(v: nat)
    ensures v % V.TWO64 % V.TWO32 == v % V.TWO32
  {
    var q := v / V.TWO64;
    assert v == V.TWO64 * q + v % V.TWO64;
    assert V.TWO64 * q == V.TWO32 * (V.TWO32 * q);
  }

  // LengthDelimitedSize: the length is cut to 32 bits for the prefix.
  function LengthDelimitedSize(n: nat): nat {
    n + V.SizeOf(n % V.TWO32)
  }

  lemma LengthDelimited(d: bytes)
    ensures |d| < V.TWO32 ==> LengthDelimitedSize(|d|) == |W.Prefixed(d)|
    ensures LengthDelimitedSize(|d|) >= |d|
  {
    hide V.Encode, V.SizeOf;
    if |d| < V.TWO32 { V.SizeIsLength(|d|); }
  }

  lemma NoStrings(num: nat)
    ensures W.EncodeAll(M.Strings(num, [])) == []
  {
  }

  lemma {:induction false} StringsSnoc(num: nat, ss: seq<bytes>, s: bytes)
    requires num <= 15
    ensures W.EncodeAll(M.Strings(num, ss + [s])) == W.EncodeAll(M.Strings(num, ss)) + WriteString(num, s)
    decreases |ss|
  {
    if ss == [] {
      OneByteTag(num, 2);
      assert ss + [s] == [s] && [s][1..] == [];
      assert M.Strings(num, [s]) == [W.Len(num, s)] + [] == [W.Len(num, s)];
      W.EncodeOne(W.Len(num, s));
      assert [] + WriteString(num, s) == WriteString(num, s);
    } else {
      assert (ss + [s])[1..] == ss[1..] + [s] && (ss + [s])[0] == ss[0];
      StringsSnoc(num, ss[1..], s);
      StringsFront(num, ss);
      StringsFront(num, ss + [s]);
      Regroup(W.Encode(W.Len(num, ss[0])), W.EncodeAll(M.Strings(num, ss[1..])), WriteString(num, s), []);
    }
  }

  lemma StringsFront(num: nat, ss: seq<bytes>)
    requires ss != []
    ensures W.EncodeAll(M.Strings(num, ss)) == W.Encode(W.Len(num, ss[0])) + W.EncodeAll(M.Strings(num, ss[1..]))
  {
    var f, more := W.Len(num, ss[0]), M.Strings(num, ss[1..]);
    assert M.Strings(num, ss) == [f] + more && ([f] + more)[1..] == more;
  }

  // Field numbers up to fifteen have one-byte tags.
  lemma OneByteTag(num: nat, wireType: nat)
    requires num <= 15 && wireType < 8
    ensures W.Tag(num, wireType) == [num * 8 + wireType]
  {
  }

  // WriteUInt32ToArray and its kin, and WriteString: a one-byte tag and the
  // payload.
  function WriteVarint(num: nat, v: V.uint64): bytes
    requires num <= 15
  {
    [num * 8] + V.Encode(v)
  }

  function WriteString(num: nat, s: bytes): bytes
    requires num <= 15
  {
    [num * 8 + 2] + W.Prefixed(s)
  }

  lemma StringLength(num: nat, s: bytes)
    requires num <= 15
    ensures |s| < V.TWO32 ==> |WriteString(num, s)| == 1 + LengthDelimitedSize(|s|)
    ensures LengthDelimitedSize(|s|) >= |s|
  {
    LengthDelimited(s);
  }

  // A scalar field: written and counted unless it holds its default.
  method PutNumber(target: bytes, num: nat, v: V.uint64) returns (end: bytes)
    requires num <= 15
    ensures end == target + W.EncodeAll(M.Number(num, v))
  {
    OneByteTag(num, 0);
    end := target;
    if v != 0 {
      W.EncodeOne(W.Varint(num, v));
      end := end + WriteVarint(num, v);
    }
  }

  method CountNumber(total: nat, num: nat, v: V.uint64) returns (sum: nat)
    requires num <= 15
    ensures sum == total + |W.EncodeAll(M.Number(num, v))|
  {
    OneByteTag(num, 0);
    V.SizeIsLength(v);
    hide V.SizeOf;
    sum := total;
    if v != 0 {
      W.EncodeOne(W.Varint(num, v));
      sum := sum + 1 + V.SizeOf(v);
    }
  }

  // Int32Size and EnumSize: ten bytes for a negative number, by its sign alone.
  lemma EnumSize(num: nat, v: V.int32)
    requires num <= 15
    ensures |W.EncodeAll(M.Number(num, V.SignExtend(v)))|
         == if v == 0 then 0 else 1 + if v < 0 then 10 else V.SizeOf(v)
  {
    V.Int32RoundTrip(v);
    OneByteTag(num, 0);
    hide V.SizeOf, V.Encode;
    if v != 0 { W.EncodeOne(W.Varint(num, V.SignExtend(v))); }
  }

  // A string field: written and counted unless it is empty.
  method PutText(target: bytes, num: nat, s: bytes) returns (end: bytes)
    requires num <= 15
    ensures end == target + W.EncodeAll(M.Text(num, s))
  {
    OneByteTag(num, 2);
    end := target;
    if s != [] {
      W.EncodeOne(W.Len(num, s));
      end := end + WriteString(num, s);
    }
  }

  method CountText(total: nat, num: nat, s: bytes) returns (sum: nat)
    requires num <= 15
    ensures |s| < V.TWO32 ==> sum == total + |W.EncodeAll(M.Text(num, s))|
    ensures sum >= total + |s|
  {
    OneByteTag(num, 2);
    LengthDelimited(s);
    hide LengthDelimitedSize;
    sum := total;
    if s != [] {
      W.EncodeOne(W.Len(num, s));
      sum := sum + 1 + LengthDelimitedSize(|s|);
    }
  }
}
