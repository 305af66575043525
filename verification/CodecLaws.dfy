// The laws of the codec: composition and merging, round trips, the normal form
// of an accepted byte string, and the meaning of a parse without a loop.
module CodecLaws {
  import opened Bytes
  import opened Messages
  import V = Varint
  import W = Wire
  import Utf8

  // ---------------------------------------------------------------- composition

  // Parsing is sequential: what stands behind an accepted byte string is parsed
  // into the message that the byte string produced.
  lemma ParseConcat(x: Message, a: bytes, c: bytes, depth: nat)
    requires Parse(x, a, depth).Some?
    ensures Parse(x, a + c, depth) == Parse(Parse(x, a, depth).value, c, depth)
  {
    W.RecordsConcat(a, c, depth);
    if W.Records(c, depth).Some? {
      FoldConcat(x, W.Records(a, depth).value, W.Records(c, depth).value, depth);
    }
  }

  // Appending a serialized message to an accepted byte string merges the
  // message into the result.
  lemma MergeHomomorphism(x: Message, a: bytes, m: Message, depth: nat)
    requires SameKind(x, m) && Parse(x, a, depth).Some? && Encodable(m, depth)
    ensures Parse(x, a + Serialize(m), depth)
         == if TextsValid(m) then Some(Merge(Parse(x, a, depth).value, m)) else None
  {
    ParseConcat(x, a, Serialize(m), depth);
    ReadsBack(Parse(x, a, depth).value, m, depth);
  }

  // The full round trip, and the one way it can fail.
  lemma RoundTrip(m: Message, depth: nat)
    requires Encodable(m, depth)
    ensures Parse(Cleared(m), Serialize(m), depth) == Some(m) <==> TextsValid(m)
  {
    ReadsBack(Cleared(m), m, depth);
    MergeIntoCleared(m);
  }

  // Serialization is injective on the messages that can travel.
  lemma SerializeInjective(a: Message, b: Message, depth: nat)
    requires SameKind(a, b)
    requires Encodable(a, depth) && TextsValid(a) && Encodable(b, depth) && TextsValid(b)
    requires Serialize(a) == Serialize(b)
    ensures a == b
  {
    RoundTrip(a, depth);
    RoundTrip(b, depth);
    assert Cleared(a) == Cleared(b);
  }

  // Merging parses is not parsing the concatenation: MergeFrom skips a zero
  // that the parse loop would have stored.
  lemma ExplicitZeroIsNotMerged(depth: nat)
    ensures var empty, five, zero := EnterChatRoomReq(0, []), [8, 5], [8, 0];
            && Parse(empty, five, depth) == Some(EnterChatRoomReq(5, []))
            && Parse(empty, zero, depth) == Some(EnterChatRoomReq(0, []))
            && Parse(empty, five + zero, depth) == Some(EnterChatRoomReq(0, []))
            && Merge(EnterChatRoomReq(5, []), EnterChatRoomReq(0, [])) == EnterChatRoomReq(5, [])
  {
    var empty := EnterChatRoomReq(0, []);
    ReadsOneNumber(empty, 5, [], depth);
    ReadsOneNumber(empty, 0, [], depth);
    ReadsOneNumber(empty, 5, [8, 0], depth);
    ReadsOneNumber(EnterChatRoomReq(5, []), 0, [], depth);
    assert [8, 5] + [] == [8, 5] && [8, 0] + [] == [8, 0];
  }

  lemma ReadsOneNumber(m: Message, v: byte, rest: bytes, depth: nat)
    requires m.EnterChatRoomReq? && v < 128
    ensures Parse(m, [8, v] + rest, depth) == Parse(m.(wantedRoomId := v), rest, depth)
  {
    var f := W.Varint(1, v);
    assert W.Encode(f) == [8, v];
    W.ReadFieldEncode(f, depth, rest);
    ParseStep(m, [8, v] + rest, depth);
    assert ([8, v] + rest)[2..] == rest;
  }

  // ---------------------------------------------------------------- normal form

  lemma RoomLength(m: Message)
    requires m.ChatRoomInfo?
    ensures |Serialize(m)| == |W.EncodeAll(Number(1, m.roomId))| + |W.EncodeAll(Number(2, m.currentUser))|
                            + |W.EncodeAll(Number(3, m.maxUser))| + |W.EncodeAll(Text(4, m.roomName))|
                            + |W.EncodeAll(m.unknown)|
  {
    var a, b, c, d := Number(1, m.roomId), Number(2, m.currentUser), Number(3, m.maxUser), Text(4, m.roomName);
    W.EncodeAllConcat(a + b + c + d, m.unknown);
    W.EncodeAllConcat(a + b + c, d);
    W.EncodeAllConcat(a + b, c);
    W.EncodeAllConcat(a, b);
  }

  lemma NumberNotLonger(f: Field)
    requires f.Varint?
    ensures |W.EncodeAll(Number(f.num, ToUInt32(f.value)))| <= |W.Encode(f)|
  {
    W.EncodeOne(W.Varint(f.num, ToUInt32(f.value)));
    V.LengthMonotone(ToUInt32(f.value), f.value);
  }

  lemma ApplyRoomLength(m: Message, f: Field, depth: nat)
    requires m.ChatRoomInfo? && Apply(m, f, depth).Some?
    ensures |Serialize(Apply(m, f, depth).value)| <= |Serialize(m)| + |W.Encode(f)|
  {
    hide Serialize, W.Encode, W.EncodeAll, Parse, Utf8.Valid, V.Encode, Number, Text;
    RoomLength(m);
    RoomLength(Apply(m, f, depth).value);
    W.EncodeOne(f);
    if !Listed(m, f) {
      W.EncodeAllConcat(m.unknown, [f]);
    } else if f.Varint? {
      NumberNotLonger(f);
    } else {
      TextNotLonger(f);
    }
  }

  lemma TextNotLonger(f: Field)
    requires f.Len?
    ensures |W.EncodeAll(Text(f.num, f.data))| <= |W.Encode(f)|
  {
    W.EncodeOne(f);
  }

  lemma {:induction false} FoldRoomLength(m: Message, fs: seq<Field>, depth: nat)
    requires m.ChatRoomInfo? && Fold(m, fs, depth).Some?
    ensures |Serialize(Fold(m, fs, depth).value)| <= |Serialize(m)| + |W.EncodeAll(fs)|
    decreases |fs|
  {
    if fs != [] {
      ApplyRoomLength(m, fs[0], depth);
      FoldRoomLength(Apply(m, fs[0], depth).value, fs[1..], depth);
    }
  }

  // Writing a parsed room again never takes more bytes than it came in.
  lemma RoomNotLonger(b: bytes, depth: nat)
    requires Parse(EmptyRoom, b, depth).Some?
    ensures |Serialize(Parse(EmptyRoom, b, depth).value)| <= |b|
  {
    W.RecordsSound(b, depth);
    FoldRoomLength(EmptyRoom, W.Records(b, depth).value, depth);
    assert Serialize(EmptyRoom) == [];
  }

  predicate Sendable(m: Message, depth: nat) {
    Encodable(m, depth) && TextsValid(m)
  }

  lemma ApplySound(m: Message, f: Field, depth: nat)
    requires Sendable(m, depth) && f.Valid(depth) && Apply(m, f, depth).Some?
    ensures Sendable(Apply(m, f, depth).value, depth)
    decreases depth, 0, 0
  {
    if Listed(m, f) && IsNested(m, f) {
      RoomNotLonger(f.data, depth - 1);
      ParseSound(EmptyRoom, f.data, depth - 1);
    }
  }

  lemma {:induction false} FoldSound(m: Message, fs: seq<Field>, depth: nat)
    requires Sendable(m, depth) && W.AllValid(fs, depth) && Fold(m, fs, depth).Some?
    ensures Sendable(Fold(m, fs, depth).value, depth)
    decreases depth, 1, |fs|
  {
    if fs != [] {
      ApplySound(m, fs[0], depth);
      FoldSound(Apply(m, fs[0], depth).value, fs[1..], depth);
    }
  }

  // Everything a parse accepts can be sent on.
  lemma {:induction false} ParseSound(m: Message, b: bytes, depth: nat)
    requires Sendable(m, depth) && Parse(m, b, depth).Some?
    ensures Sendable(Parse(m, b, depth).value, depth)
    decreases depth, 2, 0
  {
    W.RecordsSound(b, depth);
    FoldSound(m, W.Records(b, depth).value, depth);
  }

  // Re-encoding an accepted byte string gives a byte string with the same
  // meaning, and re-encoding that one gives it back unchanged.
  lemma NormalForm(m: Message, b: bytes, depth: nat)
    requires Parse(Cleared(m), b, depth).Some?
    ensures var x := Parse(Cleared(m), b, depth).value;
            Parse(Cleared(m), Serialize(x), depth) == Some(x)
  {
    assert Utf8.Valid([]);
    ParseSound(Cleared(m), b, depth);
    var x := Parse(Cleared(m), b, depth).value;
    RoundTrip(x, depth);
    assert Cleared(x) == Cleared(m);
  }

  // ------------------------------------------------------------- last one wins

  function LastVarint(fs: seq<Field>, num: nat): Option<nat> {
    if fs == [] then None
    else match LastVarint(fs[1..], num)
         case Some(v) => Some(v)
         case None => if fs[0].Varint? && fs[0].num == num then Some(fs[0].value) else None
  }

  // The length-delimited payloads under a number, in order.
  function Blocks(fs: seq<Field>, num: nat): seq<bytes> {
    if fs == [] then []
    else (if fs[0].Len? && fs[0].num == num then [fs[0].data] else []) + Blocks(fs[1..], num)
  }

  // The records the parse loop has no case for, in order.
  function Unlisted(m: Message, fs: seq<Field>): seq<Field> {
    if fs == [] then []
    else (if Listed(m, fs[0]) then [] else [fs[0]]) + Unlisted(m, fs[1..])
  }

  function Last32(fs: seq<Field>, num: nat, default: V.uint32): V.uint32 {
    match LastVarint(fs, num)
    case None => default
    case Some(v) => ToUInt32(v)
  }

  function LastSigned(fs: seq<Field>, num: nat, default: V.int32): V.int32 {
    match LastVarint(fs, num)
    case None => default
    case Some(v) => ToInt32(v)
  }

  function LastText(fs: seq<Field>, num: nat, default: bytes): bytes {
    var bs := Blocks(fs, num);
    if bs == [] then default else bs[|bs| - 1]
  }

  predicate AllTexts(bs: seq<bytes>) {
    forall b :: b in bs ==> Utf8.Valid(b)
  }

  function Rooms(bs: seq<bytes>, depth: nat): Option<seq<Message>> {
    if bs == [] then Some([])
    else if depth == 0 then None
    else match (Parse(EmptyRoom, bs[0], depth - 1), Rooms(bs[1..], depth))
         case (Some(r), Some(rs)) => Some([r] + rs)
         case _ => None
  }

  // The meaning of a list of records, field by field: the last value of a
  // scalar, every element of a repeated field, every unlisted record; and a
  // parse fails on any string that is not UTF-8, even one a later record
  // replaces.
  function Meaning(m: Message, fs: seq<Field>, depth: nat): Option<Message> {
    var u := m.unknown + Unlisted(m, fs);
    match m
    case ChatRoomInfo(id, current, max, name, _) =>
      if !AllTexts(Blocks(fs, 4)) then None
      else Some(ChatRoomInfo(Last32(fs, 1, id), Last32(fs, 2, current), Last32(fs, 3, max), LastText(fs, 4, name), u))
    case ChatRoomListAck(s, rs, _) =>
      (match Rooms(Blocks(fs, 2), depth)
       case None => None
       case Some(more) => Some(ChatRoomListAck(if LastVarint(fs, 1).None? then s else LastVarint(fs, 1).value != 0,
                                               rs + more, u)))
    case ChatReq(uid, text, id, _) =>
      if !AllTexts(Blocks(fs, 2)) then None
      else Some(ChatReq(Last32(fs, 1, uid), LastText(fs, 2, text), Last32(fs, 3, id), u))
    case EnterChatRoomReq(id, _) =>
      Some(EnterChatRoomReq(LastSigned(fs, 1, id), u))
    case LoginRes(code, user, text, _) =>
      if !AllTexts(Blocks(fs, 2)) || !AllTexts(Blocks(fs, 3)) then None
      else Some(LoginRes(LastSigned(fs, 1, code), LastText(fs, 2, user), LastText(fs, 3, text), u))
    case UserListRes(us, _) =>
      if !AllTexts(Blocks(fs, 1)) then None
      else Some(UserListRes(us + Blocks(fs, 1), u))
  }

  lemma {:induction false} UnlistedSameKind(a: Message, b: Message, fs: seq<Field>)
    requires SameKind(a, b)
    ensures Unlisted(a, fs) == Unlisted(b, fs)
  {
    if fs != [] { UnlistedSameKind(a, b, fs[1..]); }
  }

  lemma BlocksFront(fs: seq<Field>, num: nat)
    requires fs != []
    ensures var hit := fs[0].Len? && fs[0].num == num;
            && (forall b :: b in Blocks(fs, num) <==> (hit && b == fs[0].data) || b in Blocks(fs[1..], num))
            && forall s :: LastText(fs, num, s) == LastText(fs[1..], num, if hit then fs[0].data else s)
  {
    var tail := Blocks(fs[1..], num);
    assert fs[0].Len? && fs[0].num == num ==> Blocks(fs, num) == [fs[0].data] + tail;
  }

  lemma BlocksSplit(fs: seq<Field>, num: nat)
    requires fs != []
    ensures Blocks(fs, num) == if fs[0].Len? && fs[0].num == num then [fs[0].data] + Blocks(fs[1..], num)
                               else Blocks(fs[1..], num)
  {
  }

  lemma ApplyUnknown(m: Message, f: Field, depth: nat)
    requires Apply(m, f, depth).Some?
    ensures var x := Apply(m, f, depth).value;
            SameKind(x, m) && x.unknown == if Listed(m, f) then m.unknown else m.unknown + [f]
  {
    hide Fold, Parse, Utf8.Valid;
  }

  // A record ends up either in the message or behind its unknown fields.
  lemma UnknownStep(m: Message, fs: seq<Field>, depth: nat)
    requires fs != [] && Apply(m, fs[0], depth).Some?
    ensures var x := Apply(m, fs[0], depth).value;
            x.unknown + Unlisted(x, fs[1..]) == m.unknown + Unlisted(m, fs)
  {
    var f, rest := fs[0], fs[1..];
    var one := if Listed(m, f) then [] else [f];
    ApplyUnknown(m, f, depth);
    UnlistedSameKind(m, Apply(m, f, depth).value, rest);
    assert Unlisted(m, fs) == one + Unlisted(m, rest);
    hide Apply, Listed, Parse, Unlisted;
    assert m.unknown + [] == m.unknown;
    Associative(m.unknown, one, Unlisted(m, rest));
  }

  lemma RoomInfoStep(m: Message, fs: seq<Field>, depth: nat)
    requires fs != [] && m.ChatRoomInfo?
    ensures Meaning(m, fs, depth) == match Apply(m, fs[0], depth)
                                     case None => None
                                     case Some(x) => Meaning(x, fs[1..], depth)
  {
    hide Fold, Parse, Utf8.Valid, Blocks, Unlisted;
    BlocksFront(fs, 4);
    if Apply(m, fs[0], depth).Some? { UnknownStep(m, fs, depth); }
  }

  lemma ChatStep(m: Message, fs: seq<Field>, depth: nat)
    requires fs != [] && m.ChatReq?
    ensures Meaning(m, fs, depth) == match Apply(m, fs[0], depth)
                                     case None => None
                                     case Some(x) => Meaning(x, fs[1..], depth)
  {
    hide Fold, Parse, Utf8.Valid, Blocks, Unlisted;
    BlocksFront(fs, 2);
    if Apply(m, fs[0], depth).Some? { UnknownStep(m, fs, depth); }
  }

  lemma LoginStep(m: Message, fs: seq<Field>, depth: nat)
    requires fs != [] && m.LoginRes?
    ensures Meaning(m, fs, depth) == match Apply(m, fs[0], depth)
                                     case None => None
                                     case Some(x) => Meaning(x, fs[1..], depth)
  {
    hide Fold, Parse, Utf8.Valid, Blocks, Unlisted;
    BlocksFront(fs, 2);
    BlocksFront(fs, 3);
    if Apply(m, fs[0], depth).Some? { UnknownStep(m, fs, depth); }
  }

  lemma EnterStep(m: Message, fs: seq<Field>, depth: nat)
    requires fs != [] && m.EnterChatRoomReq?
    ensures Meaning(m, fs, depth) == match Apply(m, fs[0], depth)
                                     case None => None
                                     case Some(x) => Meaning(x, fs[1..], depth)
  {
    hide Fold, Parse, Utf8.Valid, Blocks, Unlisted;
    if Apply(m, fs[0], depth).Some? { UnknownStep(m, fs, depth); }
  }

  lemma UsersStep(m: Message, fs: seq<Field>, depth: nat)
    requires fs != [] && m.UserListRes?
    ensures Meaning(m, fs, depth) == match Apply(m, fs[0], depth)
                                     case None => None
                                     case Some(x) => Meaning(x, fs[1..], depth)
  {
    hide Fold, Parse, Utf8.Valid, Unlisted;
    BlocksSplit(fs, 1);
    BlocksFront(fs, 1);
    var f, tail := fs[0], Blocks(fs[1..], 1);
    if f.Len? { assert m.users + ([f.data] + tail) == (m.users + [f.data]) + tail; }
    if Apply(m, f, depth).Some? { UnknownStep(m, fs, depth); }
  }

  lemma RoomListStep(m: Message, fs: seq<Field>, depth: nat)
    requires fs != [] && m.ChatRoomListAck?
    ensures Meaning(m, fs, depth) == match Apply(m, fs[0], depth)
                                     case None => None
                                     case Some(x) => Meaning(x, fs[1..], depth)
  {
    hide Fold, Parse, Utf8.Valid, Unlisted, Blocks;
    var f, rest := fs[0], fs[1..];
    BlocksSplit(fs, 2);
    if Apply(m, f, depth).Some? { UnknownStep(m, fs, depth); }
    if IsNested(m, f) && depth > 0 {
      var r, more := Parse(EmptyRoom, f.data, depth - 1), Rooms(Blocks(rest, 2), depth);
      assert Blocks(fs, 2)[1..] == Blocks(rest, 2);
      if r.Some? && more.Some? {
        assert m.rooms + ([r.value] + more.value) == (m.rooms + [r.value]) + more.value;
      }
    }
  }

  // The first record can be taken into the message before the others.
  lemma MeaningStep(m: Message, fs: seq<Field>, depth: nat)
    requires fs != []
    ensures Meaning(m, fs, depth) == match Apply(m, fs[0], depth)
                                     case None => None
                                     case Some(x) => Meaning(x, fs[1..], depth)
  {
    match m
    case ChatRoomInfo(_, _, _, _, _) => RoomInfoStep(m, fs, depth);
    case ChatRoomListAck(_, _, _) => RoomListStep(m, fs, depth);
    case ChatReq(_, _, _, _) => ChatStep(m, fs, depth);
    case EnterChatRoomReq(_, _) => EnterStep(m, fs, depth);
    case LoginRes(_, _, _, _) => LoginStep(m, fs, depth);
    case UserListRes(_, _) => UsersStep(m, fs, depth);
  }

  lemma {:induction false} FoldMeans(m: Message, fs: seq<Field>, depth: nat)
    ensures Fold(m, fs, depth) == Meaning(m, fs, depth)
    decreases |fs|
  {
    if fs == [] {
      assert m.unknown + [] == m.unknown;
      if m.ChatRoomListAck? { assert m.rooms + [] == m.rooms; }
      if m.UserListRes? { assert m.users + [] == m.users; }
    } else {
      MeaningStep(m, fs, depth);
      if Apply(m, fs[0], depth).Some? {
        FoldMeans(Apply(m, fs[0], depth).value, fs[1..], depth);
      }
    }
  }

  // The parse loop computes that meaning, on accepted and on rejected inputs.
  lemma ParseMeans(m: Message, b: bytes, depth: nat)
    ensures Parse(m, b, depth) == match W.Records(b, depth)
                                  case None => None
                                  case Some(fs) => Meaning(m, fs, depth)
  {
    if W.Records(b, depth).Some? { FoldMeans(m, W.Records(b, depth).value, depth); }
  }
}
