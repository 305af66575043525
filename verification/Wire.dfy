// The records of the wire format: a field number, a wire type and a payload.
// Every message is a list of records; what a record means is the business of
// the message that receives it.
module Wire {
  import opened Bytes
  import V = Varint

  // The largest length the library accepts: INT_MAX minus the slop region.
  const MAX_LENGTH := 0x7FFF_FFFF - 16

  const MAX_NUMBER := 0x1FFF_FFFF

  // The recursion limit a parse starts with.
  const MAX_DEPTH: nat := 100

  datatype Field =
    | Varint(num: nat, value: nat)
    | Fixed64(num: nat, data: bytes)
    | Len(num: nat, data: bytes)
    | Group(num: nat, fields: seq<Field>)
    | Fixed32(num: nat, data: bytes)
  {
    function WireType(): (w: nat)
      ensures w < 8
    {
      match this
      case Varint(_, _) => 0
      case Fixed64(_, _) => 1
      case Len(_, _) => 2
      case Group(_, _) => 3
      case Fixed32(_, _) => 5
    }

    // A record that a parse with `depth` levels of groups left can deliver.
    predicate Valid(depth: nat) {
      && 1 <= num <= MAX_NUMBER
      && match this
         case Varint(_, v) => v < V.TWO64
         case Fixed64(_, d) => |d| == 8
         case Len(_, d) => |d| <= MAX_LENGTH
         case Group(_, fs) => depth > 0 && forall f :: f in fs ==> f.Valid(depth - 1)
         case Fixed32(_, d) => |d| == 4
    }
  }

  predicate AllValid(fs: seq<Field>, depth: nat) {
    forall f :: f in fs ==> f.Valid(depth)
  }

  // ------------------------------------------------------------------ writing

  function Tag(num: nat, wireType: nat): (b: bytes)
    ensures |b| >= 1
  {
    V.Encode(num * 8 + wireType)
  }

  function Prefixed(data: bytes): bytes {
    V.Encode(|data|) + data
  }

  function Encode(f: Field): (b: bytes)
    ensures |b| >= 1
    decreases f, 1
  {
    Tag(f.num, f.WireType()) + Payload(f)
  }

  function Payload(f: Field): bytes
    decreases f, 0
  {
    match f
    case Varint(_, v) => V.Encode(v)
    case Fixed64(_, d) => d
    case Len(_, d) => Prefixed(d)
    case Group(n, fs) => EncodeAll(fs) + Tag(n, 4)
    case Fixed32(_, d) => d
  }

  function EncodeAll(fs: seq<Field>): bytes
    decreases fs, 0
  {
    if fs == [] then [] else Encode(fs[0]) + EncodeAll(fs[1..])
  }

  lemma EncodeOne(f: Field)
    ensures EncodeAll([f]) == Encode(f)
  {
    assert [f][1..] == [];
    assert EncodeAll([f][1..]) == [];
  }

  lemma {:induction false} EncodeAllConcat(a: seq<Field>, b: seq<Field>)
    ensures EncodeAll(a + b) == EncodeAll(a) + EncodeAll(b)
  {
    if a == [] {
      assert a + b == b;
    } else {
      assert (a + b)[1..] == a[1..] + b;
      EncodeAllConcat(a[1..], b);
    }
  }

  // ComputeUnknownFieldsSize: the sizes are added up with the arithmetic of
  // VarintSize32 and VarintSize64, without writing a byte.
  function Size(f: Field): nat
    decreases f
  {
    V.SizeOf(f.num * 8 + f.WireType()) +
    match f
    case Varint(_, v) => V.SizeOf(v)
    case Fixed64(_, _) => 8
    case Len(_, d) => V.SizeOf(|d|) + |d|
    case Group(n, fs) => SizeAll(fs) + V.SizeOf(n * 8 + 4)
    case Fixed32(_, _) => 4
  }

  function SizeAll(fs: seq<Field>): nat
    decreases fs
  {
    if fs == [] then 0 else Size(fs[0]) + SizeAll(fs[1..])
  }

  lemma {:induction false} SizeIsLength(f: Field, depth: nat)
    requires f.Valid(depth)
    ensures Size(f) == |Encode(f)|
    decreases f, 1
  {
    V.SizeIsLength(f.num * 8 + f.WireType());
    match f
    case Varint(_, v) => V.SizeIsLength(v);
    case Len(_, d) => V.SizeIsLength(|d|);
    case Group(n, fs) =>
      V.SizeIsLength(n * 8 + 4);
      SizeAllIsLength(fs, depth - 1);
    case _ =>
  }

  // The size pass over retained unknown fields, nested groups included, counts
  // exactly the bytes that are written for them.
  lemma {:induction false} SizeAllIsLength(fs: seq<Field>, depth: nat)
    requires AllValid(fs, depth)
    ensures SizeAll(fs) == |EncodeAll(fs)|
    decreases fs, 0
  {
    if fs != [] {
      SizeIsLength(fs[0], depth);
      SizeAllIsLength(fs[1..], depth);
    }
  }

  // ------------------------------------------------------------------ reading

  // ReadTag: at most five bytes, cut to 32 bits.
  function ReadTag(b: bytes): (r: Option<(nat, nat)>)
    ensures r.Some? ==> r.value.0 < V.TWO32 && 1 <= r.value.1 <= |b|
  {
    match V.Read(b, 5)
    case None => None
    case Some(p) => Some((p.0 % V.TWO32, p.1))
  }

  // ReadSize: at most five bytes, rejected above MAX_LENGTH.
  function ReadSize(b: bytes): (r: Option<(nat, nat)>)
    ensures r.Some? ==> r.value.0 <= MAX_LENGTH && 1 <= r.value.1 <= |b|
  {
    match V.Read(b, 5)
    case None => None
    case Some(p) => if p.0 <= MAX_LENGTH then Some(p) else None
  }

  function ReadVarint64(b: bytes): (r: Option<(nat, nat)>)
    ensures r.Some? ==> r.value.0 < V.TWO64 && 1 <= r.value.1 <= |b|
  {
    match V.Read(b, 10)
    case None => None
    case Some(p) => Some((p.0 % V.TWO64, p.1))
  }

  // A length-delimited payload: its size, then that many bytes.
  function ReadBlock(b: bytes): (r: Option<(bytes, nat)>)
    ensures r.Some? ==> |r.value.0| <= MAX_LENGTH && 1 <= r.value.1 <= |b|
  {
    match ReadSize(b)
    case None => None
    case Some(p) => if p.0 <= |b| - p.1 then Some((b[p.1..p.1 + p.0], p.1 + p.0)) else None
  }

  // The payload behind a tag (FieldParser).  Field number 0 and the wire types
  // 4, 6 and 7 carry nothing.
  function ReadBody(num: nat, wireType: nat, b: bytes, depth: nat): (r: Option<(Field, nat)>)
    ensures r.Some? ==> r.value.1 <= |b| && r.value.0.num == num && r.value.0.WireType() == wireType
    decreases |b|, 2
  {
    if num == 0 then None
    else if wireType == 0 then
      match ReadVarint64(b)
      case None => None
      case Some(p) => Some((Varint(num, p.0), p.1))
    else if wireType == 1 then
      if |b| < 8 then None else Some((Fixed64(num, b[..8]), 8))
    else if wireType == 2 then
      match ReadBlock(b)
      case None => None
      case Some(p) => Some((Len(num, p.0), p.1))
    else if wireType == 3 then
      if depth == 0 then None else
      match ReadGroup(b, num, depth - 1)
      case None => None
      case Some(p) => Some((Group(num, p.0), p.1))
    else if wireType == 5 then
      if |b| < 4 then None else Some((Fixed32(num, b[..4]), 4))
    else None
  }

  function ReadField(b: bytes, depth: nat): (r: Option<(Field, nat)>)
    ensures r.Some? ==> 1 <= r.value.1 <= |b|
    decreases |b|, 0
  {
    match ReadTag(b)
    case None => None
    case Some(t) =>
      match ReadBody(t.0 / 8, t.0 % 8, b[t.1..], depth)
      case None => None
      case Some(p) => Some((p.0, t.1 + p.1))
  }

  predicate EndsMessage(tag: nat) {
    tag == 0 || tag % 8 == 4
  }

  // The records of a group up to its own end tag; running out of bytes or
  // meeting another end tag is an error.
  function ReadGroup(b: bytes, num: nat, depth: nat): (r: Option<(seq<Field>, nat)>)
    ensures r.Some? ==> r.value.1 <= |b|
    decreases |b|, 1
  {
    match ReadTag(b)
    case None => None
    case Some(t) =>
      if EndsMessage(t.0) then
        if t.0 == num * 8 + 4 then Some(([], t.1)) else None
      else
        match ReadField(b, depth)
        case None => None
        case Some(p) => PrependIn(p, ReadGroup(b[p.1..], num, depth))
  }

  function PrependIn(p: (Field, nat), q: Option<(seq<Field>, nat)>): Option<(seq<Field>, nat)> {
    if q.None? then None else Some(([p.0] + q.value.0, p.1 + q.value.1))
  }

  // A byte string as records, when it consists of whole ones.
  function Records(b: bytes, depth: nat): Option<seq<Field>> {
    if b == [] then Some([])
    else match ReadField(b, depth)
         case None => None
         case Some(p) => Join(Some([p.0]), Records(b[p.1..], depth))
  }

  function Join(a: Option<seq<Field>>, b: Option<seq<Field>>): Option<seq<Field>> {
    if a.None? || b.None? then None else Some(a.value + b.value)
  }

  lemma JoinAssociates(a: Option<seq<Field>>, b: Option<seq<Field>>, c: Option<seq<Field>>)
    ensures Join(Join(a, b), c) == Join(a, Join(b, c))
  {
    if a.Some? && b.Some? && c.Some? {
      assert (a.value + b.value) + c.value == a.value + (b.value + c.value);
    }
  }

  // ------------------------------------------- what is read, is a valid record

  lemma {:induction false} ReadBodySound(num: nat, wireType: nat, b: bytes, depth: nat)
    requires num <= MAX_NUMBER && ReadBody(num, wireType, b, depth).Some?
    ensures var p := ReadBody(num, wireType, b, depth).value;
            p.0.Valid(depth) && |Encode(p.0)| <= |Tag(num, wireType)| + p.1
    decreases |b|, 2
  {
    if wireType == 0 {
      V.EncodeIsShortest(b, 10);
      var v := V.Read(b, 10).value.0;
      V.LengthMonotone(v % V.TWO64, v);
    } else if wireType == 2 {
      V.EncodeIsShortest(b, 5);
    } else if wireType == 3 {
      ReadGroupSound(b, num, depth - 1);
    }
  }

  lemma {:induction false} ReadGroupSound(b: bytes, num: nat, depth: nat)
    requires ReadGroup(b, num, depth).Some?
    ensures var p := ReadGroup(b, num, depth).value;
            AllValid(p.0, depth) && |EncodeAll(p.0)| + |Tag(num, 4)| <= p.1
    decreases |b|, 1
  {
    ReadTagShortest(b);
    if !EndsMessage(ReadTag(b).value.0) {
      ReadFieldSound(b, depth);
      var p := ReadField(b, depth).value;
      ReadGroupSound(b[p.1..], num, depth);
      var fs := ReadGroup(b, num, depth).value.0;
      assert fs[1..] == ReadGroup(b[p.1..], num, depth).value.0;
    }
  }

  lemma ReadTagShortest(b: bytes)
    requires ReadTag(b).Some?
    ensures var t := ReadTag(b).value;
            |Tag(t.0 / 8, t.0 % 8)| <= t.1 && t.0 / 8 <= MAX_NUMBER
  {
    V.EncodeIsShortest(b, 5);
    var v := V.Read(b, 5).value.0;
    V.LengthMonotone(v % V.TWO32, v);
  }

  lemma {:induction false} ReadFieldSound(b: bytes, depth: nat)
    requires ReadField(b, depth).Some?
    ensures var p := ReadField(b, depth).value;
            p.0.Valid(depth) && |Encode(p.0)| <= p.1
    decreases |b|, 0
  {
    var t := ReadTag(b).value;
    ReadTagShortest(b);
    ReadBodySound(t.0 / 8, t.0 % 8, b[t.1..], depth);
  }

  // Every byte string that reads as records reads as valid ones, and writing
  // them again takes no more bytes.
  lemma {:induction false} RecordsSound(b: bytes, depth: nat)
    requires Records(b, depth).Some?
    ensures AllValid(Records(b, depth).value, depth)
    ensures |EncodeAll(Records(b, depth).value)| <= |b|
    decreases |b|
  {
    if b != [] {
      var p := ReadField(b, depth).value;
      ReadFieldSound(b, depth);
      RecordsSound(b[p.1..], depth);
      var fs := Records(b, depth).value;
      assert fs[1..] == Records(b[p.1..], depth).value;
    }
  }

  // ------------------------------------------------- what is written, is read

  lemma ReadTagEncode(num: nat, wireType: nat, rest: bytes)
    requires num <= MAX_NUMBER && wireType < 8
    ensures ReadTag(Tag(num, wireType) + rest) == Some((num * 8 + wireType, |Tag(num, wireType)|))
  {
    V.LengthBounds(num * 8 + wireType);
    V.ReadEncode(num * 8 + wireType, rest, 5);
  }

  lemma ReadBlockEncode(d: bytes, rest: bytes)
    requires |d| <= MAX_LENGTH
    ensures ReadBlock(Prefixed(d) + rest) == Some((d, |Prefixed(d)|))
  {
    V.LengthBounds(|d|);
    V.ReadEncode(|d|, d + rest, 5);
    assert Prefixed(d) + rest == V.Encode(|d|) + (d + rest);
    var n := |V.Encode(|d|)|;
    assert (V.Encode(|d|) + (d + rest))[n..n + |d|] == d;
  }

  lemma ReadVarintPayload(num: nat, v: nat, depth: nat, rest: bytes)
    requires num > 0 && v < V.TWO64
    ensures ReadBody(num, 0, V.Encode(v) + rest, depth) == Some((Varint(num, v), |V.Encode(v)|))
  {
    V.LengthBounds(v);
    V.ReadEncode(v, rest, 10);
  }

  lemma ReadLenPayload(num: nat, d: bytes, depth: nat, rest: bytes)
    requires num > 0 && |d| <= MAX_LENGTH
    ensures ReadBody(num, 2, Prefixed(d) + rest, depth) == Some((Len(num, d), |Prefixed(d)|))
  {
    ReadBlockEncode(d, rest);
  }

  lemma ReadFixedPayload(num: nat, d: bytes, depth: nat, rest: bytes)
    requires num > 0
    ensures |d| == 8 ==> ReadBody(num, 1, d + rest, depth) == Some((Fixed64(num, d), 8))
    ensures |d| == 4 ==> ReadBody(num, 5, d + rest, depth) == Some((Fixed32(num, d), 4))
  {
    assert |d| == 8 ==> (d + rest)[..8] == d;
    assert |d| == 4 ==> (d + rest)[..4] == d;
  }

  lemma {:induction false} ReadPayload(f: Field, depth: nat, rest: bytes)
    requires f.Valid(depth)
    ensures ReadBody(f.num, f.WireType(), Payload(f) + rest, depth) == Some((f, |Payload(f)|))
    decreases f, 0
  {
    match f
    case Varint(n, v) => ReadVarintPayload(n, v, depth, rest);
    case Len(n, d) => ReadLenPayload(n, d, depth, rest);
    case Group(n, fs) => ReadGroupEncode(fs, n, depth - 1, rest);
    case Fixed64(n, d) => ReadFixedPayload(n, d, depth, rest);
    case Fixed32(n, d) => ReadFixedPayload(n, d, depth, rest);
  }

  lemma ReadFieldStep(b: bytes, num: nat, wireType: nat, body: bytes, f: Field, k: nat, depth: nat)
    requires num <= MAX_NUMBER && wireType < 8
    requires b == Tag(num, wireType) + body
    requires ReadBody(num, wireType, body, depth) == Some((f, k))
    ensures ReadField(b, depth) == Some((f, |Tag(num, wireType)| + k))
  {
    ReadTagEncode(num, wireType, body);
    assert (Tag(num, wireType) + body)[|Tag(num, wireType)|..] == body;
  }

  lemma {:induction false} ReadFieldEncode(f: Field, depth: nat, rest: bytes)
    requires f.Valid(depth)
    ensures ReadField(Encode(f) + rest, depth) == Some((f, |Encode(f)|))
    decreases f, 1
  {
    ReadPayload(f, depth, rest);
    var b := Encode(f) + rest;
    assert b == Tag(f.num, f.WireType()) + (Payload(f) + rest);
    ReadFieldStep(b, f.num, f.WireType(), Payload(f) + rest, f, |Payload(f)|, depth);
  }

  // A group is read one record at a time.
  lemma ReadGroupStep(b: bytes, first: bytes, more: bytes, f: Field, num: nat, depth: nat)
    requires b == first + more && ReadField(b, depth) == Some((f, |first|))
    ensures ReadGroup(b, num, depth) == PrependIn((f, |first|), ReadGroup(more, num, depth))
  {
    assert b[|first|..] == more;
  }

  lemma ReadGroupEnd(num: nat, depth: nat, rest: bytes)
    requires num <= MAX_NUMBER
    ensures ReadGroup([] + Tag(num, 4) + rest, num, depth) == Some(([], |Tag(num, 4)|))
  {
    ReadTagEncode(num, 4, rest);
    assert [] + Tag(num, 4) + rest == Tag(num, 4) + rest;
  }

  lemma {:induction false} ReadGroupEncode(fs: seq<Field>, num: nat, depth: nat, rest: bytes)
    requires AllValid(fs, depth) && num <= MAX_NUMBER
    ensures ReadGroup(EncodeAll(fs) + Tag(num, 4) + rest, num, depth)
         == Some((fs, |EncodeAll(fs)| + |Tag(num, 4)|))
    decreases fs, 0
  {
    hide ReadGroup, ReadField, ReadBody;
    if fs == [] {
      ReadGroupEnd(num, depth, rest);
    } else {
      ReadGroupEncode(fs[1..], num, depth, rest);
      var first, more := Encode(fs[0]), EncodeAll(fs[1..]) + Tag(num, 4) + rest;
      ReadFieldEncode(fs[0], depth, more);
      Regroup(first, EncodeAll(fs[1..]), Tag(num, 4), rest);
      ReadGroupStep(EncodeAll(fs) + Tag(num, 4) + rest, first, more, fs[0], num, depth);
      FirstAndRest(fs);
    }
  }

  lemma {:induction false} RecordsEncode(fs: seq<Field>, depth: nat)
    requires AllValid(fs, depth)
    ensures Records(EncodeAll(fs), depth) == Some(fs)
    decreases fs
  {
    if fs != [] {
      ReadFieldEncode(fs[0], depth, EncodeAll(fs[1..]));
      assert EncodeAll(fs)[|Encode(fs[0])|..] == EncodeAll(fs[1..]);
      RecordsEncode(fs[1..], depth);
      assert [fs[0]] + fs[1..] == fs;
    }
  }

  // --------------------------------------------------------------- composition

  lemma {:induction false} ReadBodyExtend(num: nat, wireType: nat, a: bytes, c: bytes, depth: nat)
    requires ReadBody(num, wireType, a, depth).Some?
    ensures ReadBody(num, wireType, a + c, depth) == ReadBody(num, wireType, a, depth)
    decreases |a|, 2
  {
    if wireType == 0 {
      V.ReadExtend(a, c, 10);
    } else if wireType == 1 {
      assert (a + c)[..8] == a[..8];
    } else if wireType == 2 {
      V.ReadExtend(a, c, 5);
      var p := ReadSize(a).value;
      assert (a + c)[p.1..p.1 + p.0] == a[p.1..p.1 + p.0];
    } else if wireType == 3 {
      ReadGroupExtend(a, c, num, depth - 1);
    } else {
      assert (a + c)[..4] == a[..4];
    }
  }

  lemma {:induction false} ReadFieldExtend(a: bytes, c: bytes, depth: nat)
    requires ReadField(a, depth).Some?
    ensures ReadField(a + c, depth) == ReadField(a, depth)
    decreases |a|, 0
  {
    V.ReadExtend(a, c, 5);
    var t := ReadTag(a).value;
    assert (a + c)[t.1..] == a[t.1..] + c;
    ReadBodyExtend(t.0 / 8, t.0 % 8, a[t.1..], c, depth);
  }

  lemma {:induction false} ReadGroupExtend(a: bytes, c: bytes, num: nat, depth: nat)
    requires ReadGroup(a, num, depth).Some?
    ensures ReadGroup(a + c, num, depth) == ReadGroup(a, num, depth)
    decreases |a|, 1
  {
    V.ReadExtend(a, c, 5);
    if !EndsMessage(ReadTag(a).value.0) {
      ReadFieldExtend(a, c, depth);
      var p := ReadField(a, depth).value;
      assert (a + c)[p.1..] == a[p.1..] + c;
      ReadGroupExtend(a[p.1..], c, num, depth);
    }
  }

  // Behind a byte string that parses, any bytes are read as if they stood
  // alone.
  lemma {:induction false} RecordsConcat(a: bytes, c: bytes, depth: nat)
    requires Records(a, depth).Some?
    ensures Records(a + c, depth) == Join(Records(a, depth), Records(c, depth))
    decreases |a|
  {
    if a == [] {
      assert a + c == c;
      assert Records(c, depth).Some? ==> [] + Records(c, depth).value == Records(c, depth).value;
    } else {
      ReadFieldExtend(a, c, depth);
      var p := ReadField(a, depth).value;
      assert (a + c)[p.1..] == a[p.1..] + c;
      RecordsConcat(a[p.1..], c, depth);
      JoinAssociates(Some([p.0]), Records(a[p.1..], depth), Records(c, depth));
    }
  }

  // ------------------------------------------------------------------- the limit

  // `n` groups, each the only record of the one around it.
  function Groups(n: nat): bytes {
    if n == 0 then [] else [0x0B] + Groups(n - 1) + [0x0C]
  }

  function NestedGroups(n: nat): seq<Field> {
    if n == 0 then [] else [Group(1, NestedGroups(n - 1))]
  }

  lemma {:induction false} GroupsAre(n: nat, depth: nat)
    ensures EncodeAll(NestedGroups(n)) == Groups(n) && (AllValid(NestedGroups(n), depth) <==> n <= depth)
    decreases n
  {
    if n > 0 {
      GroupsAre(n - 1, if depth > 0 then depth - 1 else 0);
      EncodeOne(Group(1, NestedGroups(n - 1)));
      assert Tag(1, 3) == [0x0B] && Tag(1, 4) == [0x0C];
      assert NestedGroups(n)[0].Valid(depth) <==> depth > 0 && AllValid(NestedGroups(n - 1), depth - 1);
    }
  }

  lemma {:induction false} TooDeep(n: nat, depth: nat, rest: bytes)
    requires depth < n
    ensures ReadField(Groups(n) + rest, depth) == None
    decreases n
  {
    var inner := Groups(n - 1) + ([0x0C] + rest);
    assert Groups(n) + rest == [0x0B] + inner;
    OneByteTag(0x0B, inner);
    if depth > 0 {
      TooDeep(n - 1, depth - 1, [0x0C] + rest);
      assert inner == [0x0B] + inner[1..];
      OneByteTag(0x0B, inner[1..]);
      assert ReadGroup(inner, 1, depth - 1) == None;
    }
    assert ReadBody(1, 3, inner, depth) == None;
  }

  lemma OneByteTag(tag: nat, rest: bytes)
    requires tag < 128
    ensures ReadTag([tag] + rest) == Some((tag, 1)) && ([tag] + rest)[1..] == rest
  {
    V.ReadEncode(tag, rest, 5);
  }

  // A hundred groups within each other are read, and no more.
  lemma NestingLimit(n: nat)
    ensures Records(Groups(n), MAX_DEPTH).Some? <==> n <= 100
  {
    GroupsAre(n, 100);
    if n <= 100 {
      RecordsEncode(NestedGroups(n), 100);
    } else {
      TooDeep(n, 100, []);
      assert Groups(n) + [] == Groups(n);
    }
  }
}
