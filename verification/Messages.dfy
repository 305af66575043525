// The messages as values: what the generated code holds in memory, what one
// record does to it, what it writes, and how two messages merge.
module Messages {
  import opened Bytes
  import V = Varint
  import W = Wire
  import Utf8

  type Field = W.Field

  datatype Message =
    | ChatRoomInfo(roomId: V.uint32, currentUser: V.uint32, maxUser: V.uint32, roomName: bytes, unknown: seq<Field>)
    | ChatRoomListAck(success: bool, rooms: seq<Message>, unknown: seq<Field>)
    | ChatReq(sessionUid: V.uint32, text: bytes, chatRoomId: V.uint32, unknown: seq<Field>)
    | EnterChatRoomReq(wantedRoomId: V.int32, unknown: seq<Field>)
    | LoginRes(result: V.int32, userId: bytes, message: bytes, unknown: seq<Field>)
    | UserListRes(users: seq<bytes>, unknown: seq<Field>)

  predicate SameKind(a: Message, b: Message) {
    && a.ChatRoomInfo? == b.ChatRoomInfo?
    && a.ChatRoomListAck? == b.ChatRoomListAck?
    && a.ChatReq? == b.ChatReq?
    && a.EnterChatRoomReq? == b.EnterChatRoomReq?
    && a.LoginRes? == b.LoginRes?
    && a.UserListRes? == b.UserListRes?
  }

  const EmptyRoom := ChatRoomInfo(0, 0, 0, [], [])

  // Clear: every field at its default.
  function Cleared(m: Message): (r: Message)
    ensures SameKind(r, m)
  {
    match m
    case ChatRoomInfo(_, _, _, _, _) => EmptyRoom
    case ChatRoomListAck(_, _, _) => ChatRoomListAck(false, [], [])
    case ChatReq(_, _, _, _) => ChatReq(0, [], 0, [])
    case EnterChatRoomReq(_, _) => EnterChatRoomReq(0, [])
    case LoginRes(_, _, _, _) => LoginRes(0, [], [], [])
    case UserListRes(_, _) => UserListRes([], [])
  }

  // MergeFrom: a non-default scalar or string of `b` replaces the one of `a`,
  // repeated fields and unknown fields are appended.
  function Merge(a: Message, b: Message): (r: Message)
    requires SameKind(a, b)
    ensures SameKind(r, a)
  {
    match b
    case ChatRoomInfo(id, current, max, name, u) =>
      ChatRoomInfo(if id != 0 then id else a.roomId, if current != 0 then current else a.currentUser,
                   if max != 0 then max else a.maxUser, if name != [] then name else a.roomName,
                   a.unknown + u)
    case ChatRoomListAck(s, rs, u) =>
      ChatRoomListAck(s || a.success, a.rooms + rs, a.unknown + u)
    case ChatReq(uid, text, id, u) =>
      ChatReq(if uid != 0 then uid else a.sessionUid, if text != [] then text else a.text,
              if id != 0 then id else a.chatRoomId, a.unknown + u)
    case EnterChatRoomReq(id, u) =>
      EnterChatRoomReq(if id != 0 then id else a.wantedRoomId, a.unknown + u)
    case LoginRes(code, user, text, u) =>
      LoginRes(if code != 0 then code else a.result, if user != [] then user else a.userId,
               if text != [] then text else a.message, a.unknown + u)
    case UserListRes(us, u) =>
      UserListRes(a.users + us, a.unknown + u)
  }

  lemma MergeIntoCleared(m: Message)
    ensures Merge(Cleared(m), m) == m
  {
    assert [] + m.unknown == m.unknown;
    if m.ChatRoomListAck? { assert [] + m.rooms == m.rooms; }
    if m.UserListRes? { assert [] + m.users == m.users; }
  }

  // ------------------------------------------------------------------ writing

  function Number(num: nat, v: V.uint64): seq<Field> {
    if v == 0 then [] else [W.Varint(num, v)]
  }

  function Text(num: nat, s: bytes): seq<Field> {
    if s == [] then [] else [W.Len(num, s)]
  }

  function Strings(num: nat, ss: seq<bytes>): seq<Field> {
    if ss == [] then [] else [W.Len(num, ss[0])] + Strings(num, ss[1..])
  }

  function Nested(num: nat, ms: seq<Message>): seq<Field>
    decreases ms, 0
  {
    if ms == [] then [] else [W.Len(num, Serialize(ms[0]))] + Nested(num, ms[1..])
  }

  // The records of a message in the order they are written: known fields by
  // number, defaults left out, then the unknown ones.
  function Fields(m: Message): seq<Field>
    decreases m, 0
  {
    match m
    case ChatRoomInfo(id, current, max, name, u) =>
      Number(1, id) + Number(2, current) + Number(3, max) + Text(4, name) + u
    case ChatRoomListAck(s, rs, u) =>
      Number(1, if s then 1 else 0) + Nested(2, rs) + u
    case ChatReq(uid, text, id, u) =>
      Number(1, uid) + Text(2, text) + Number(3, id) + u
    case EnterChatRoomReq(id, u) =>
      Number(1, V.SignExtend(id)) + u
    case LoginRes(code, user, text, u) =>
      Number(1, V.SignExtend(code)) + Text(2, user) + Text(3, text) + u
    case UserListRes(us, u) =>
      Strings(1, us) + u
  }

  function Serialize(m: Message): bytes
    decreases m, 1
  {
    W.EncodeAll(Fields(m))
  }

  // ------------------------------------------------------------------ reading

  // The tags the parse loop of a message has a case for.
  predicate Listed(m: Message, f: Field) {
    match m
    case ChatRoomInfo(_, _, _, _, _) => (f.Varint? && 1 <= f.num <= 3) || (f.Len? && f.num == 4)
    case ChatRoomListAck(_, _, _) => (f.Varint? && f.num == 1) || (f.Len? && f.num == 2)
    case ChatReq(_, _, _, _) => (f.Varint? && (f.num == 1 || f.num == 3)) || (f.Len? && f.num == 2)
    case EnterChatRoomReq(_, _) => f.Varint? && f.num == 1
    case LoginRes(_, _, _, _) => (f.Varint? && f.num == 1) || (f.Len? && 2 <= f.num <= 3)
    case UserListRes(_, _) => f.Len? && f.num == 1
  }

  function ToUInt32(v: nat): V.uint32 {
    v % V.TWO32
  }

  function ToInt32(v: nat): V.int32 {
    V.ToInt32(v % V.TWO64)
  }

  // What one record does to a message; None when the parse fails on it.  A
  // record without a case is kept as an unknown field.
  function Apply(m: Message, f: Field, depth: nat): (r: Option<Message>)
    ensures r.Some? ==> SameKind(r.value, m)
    decreases depth, 0, 0
  {
    if !Listed(m, f) then Some(m.(unknown := m.unknown + [f]))
    else if f.Len? && !IsNested(m, f) && !Utf8.Valid(f.data) then None
    else match m
      case ChatRoomInfo(_, _, _, _, _) =>
        Some(if f.Len? then m.(roomName := f.data)
             else if f.num == 1 then m.(roomId := ToUInt32(f.value))
             else if f.num == 2 then m.(currentUser := ToUInt32(f.value))
             else m.(maxUser := ToUInt32(f.value)))
      case ChatRoomListAck(_, rs, _) =>
        if f.Varint? then Some(m.(success := f.value != 0))
        else if depth == 0 then None
        else (match Parse(EmptyRoom, f.data, depth - 1)
              case None => None
              case Some(r) => Some(m.(rooms := rs + [r])))
      case ChatReq(_, _, _, _) =>
        Some(if f.Len? then m.(text := f.data)
             else if f.num == 1 then m.(sessionUid := ToUInt32(f.value))
             else m.(chatRoomId := ToUInt32(f.value)))
      case EnterChatRoomReq(_, _) =>
        Some(m.(wantedRoomId := ToInt32(f.value)))
      case LoginRes(_, _, _, _) =>
        Some(if f.Varint? then m.(result := ToInt32(f.value))
             else if f.num == 2 then m.(userId := f.data)
             else m.(message := f.data))
      case UserListRes(us, _) =>
        Some(m.(users := us + [f.data]))
  }

  predicate IsNested(m: Message, f: Field) {
    m.ChatRoomListAck? && f.Len? && f.num == 2
  }

  function Fold(m: Message, fs: seq<Field>, depth: nat): (r: Option<Message>)
    ensures r.Some? ==> SameKind(r.value, m)
    decreases depth, 1, |fs|
  {
    if fs == [] then Some(m)
    else match Apply(m, fs[0], depth)
         case None => None
         case Some(x) => Fold(x, fs[1..], depth)
  }

  // Parsing into a message that may already hold something (MergeFromString);
  // ParseFromArray starts from a cleared one.
  function Parse(into: Message, b: bytes, depth: nat): (r: Option<Message>)
    ensures r.Some? ==> SameKind(r.value, into)
    decreases depth, 2, 0
  {
    match W.Records(b, depth)
    case None => None
    case Some(fs) => Fold(into, fs, depth)
  }

  function Then(m: Option<Message>, fs: seq<Field>, depth: nat): Option<Message> {
    if m.None? then None else Fold(m.value, fs, depth)
  }

  lemma {:induction false} FoldConcat(m: Message, a: seq<Field>, b: seq<Field>, depth: nat)
    ensures Fold(m, a + b, depth) == Then(Fold(m, a, depth), b, depth)
    decreases |a|
  {
    if a == [] {
      assert a + b == b;
    } else {
      assert (a + b)[1..] == a[1..] + b;
      if Apply(m, a[0], depth).Some? {
        FoldConcat(Apply(m, a[0], depth).value, a[1..], b, depth);
      }
    }
  }

  lemma FoldCons(m: Message, f: Field, fs: seq<Field>, depth: nat)
    ensures Fold(m, [f] + fs, depth) == Then(Apply(m, f, depth), fs, depth)
  {
    assert ([f] + fs)[1..] == fs;
  }

  // The parse loop takes one record off the front at a time.
  lemma ParseStep(m: Message, b: bytes, depth: nat)
    requires b != []
    ensures Parse(m, b, depth) == match W.ReadField(b, depth)
                                  case None => None
                                  case Some(p) => match Apply(m, p.0, depth)
                                                  case None => None
                                                  case Some(x) => Parse(x, b[p.1..], depth)
  {
    if W.ReadField(b, depth).Some? {
      var p := W.ReadField(b, depth).value;
      var more := W.Records(b[p.1..], depth);
      if more.Some? {
        assert ([p.0] + more.value)[1..] == more.value;
      }
    }
  }

  // ------------------------------------------------- which messages can travel

  // Lengths the library accepts, and unknown fields that are unknown.
  predicate Encodable(m: Message, depth: nat)
    decreases m
  {
    && W.AllValid(m.unknown, depth)
    && (forall f :: f in m.unknown ==> !Listed(m, f))
    && match m
       case ChatRoomInfo(_, _, _, name, _) => |name| <= W.MAX_LENGTH
       case ChatRoomListAck(_, rs, _) =>
         forall r :: r in rs ==> && r.ChatRoomInfo? && depth > 0 && Encodable(r, depth - 1)
                                 && |Serialize(r)| <= W.MAX_LENGTH
       case ChatReq(_, text, _, _) => |text| <= W.MAX_LENGTH
       case EnterChatRoomReq(_, _) => true
       case LoginRes(_, user, text, _) => |user| <= W.MAX_LENGTH && |text| <= W.MAX_LENGTH
       case UserListRes(us, _) => forall s :: s in us ==> |s| <= W.MAX_LENGTH
  }

  // Every string is well-formed UTF-8, in nested messages too.
  predicate TextsValid(m: Message)
    decreases m
  {
    match m
    case ChatRoomInfo(_, _, _, name, _) => Utf8.Valid(name)
    case ChatRoomListAck(_, rs, _) => forall r :: r in rs ==> TextsValid(r)
    case ChatReq(_, text, _, _) => Utf8.Valid(text)
    case EnterChatRoomReq(_, _) => true
    case LoginRes(_, user, text, _) => Utf8.Valid(user) && Utf8.Valid(text)
    case UserListRes(us, _) => forall s :: s in us ==> Utf8.Valid(s)
  }

  // ---------------------------------------------------- reading what is written

  lemma {:induction false} FoldUnknown(x: Message, us: seq<Field>, depth: nat)
    requires forall f :: f in us ==> !Listed(x, f)
    ensures Fold(x, us, depth) == Some(x.(unknown := x.unknown + us))
    decreases |us|
  {
    if us == [] {
      assert x.unknown + [] == x.unknown;
    } else {
      assert forall f :: f in us[1..] ==> f in us;
      FoldUnknown(x.(unknown := x.unknown + [us[0]]), us[1..], depth);
      assert (x.unknown + [us[0]]) + us[1..] == x.unknown + us;
    }
  }

  lemma {:induction false} FoldStrings(x: Message, ss: seq<bytes>, depth: nat)
    requires x.UserListRes?
    ensures Fold(x, Strings(1, ss), depth)
         == if forall s :: s in ss ==> Utf8.Valid(s) then Some(x.(users := x.users + ss)) else None
    decreases |ss|
  {
    if ss == [] {
      assert x.users + [] == x.users;
    } else {
      var fs := Strings(1, ss);
      assert fs[1..] == Strings(1, ss[1..]);
      if Utf8.Valid(ss[0]) {
        FoldStrings(x.(users := x.users + [ss[0]]), ss[1..], depth);
        assert (x.users + [ss[0]]) + ss[1..] == x.users + ss;
        FirstAndRest(ss);
        assert forall s :: s in ss <==> s == ss[0] || s in ss[1..];
      }
    }
  }

  lemma FoldNumber(x: Message, num: nat, v: V.uint64, depth: nat)
    ensures Fold(x, Number(num, v), depth) == if v == 0 then Some(x) else Apply(x, W.Varint(num, v), depth)
  {
    if v != 0 { FoldCons(x, W.Varint(num, v), [], depth); }
  }

  lemma FoldText(x: Message, num: nat, s: bytes, depth: nat)
    ensures Fold(x, Text(num, s), depth) == if s == [] then Some(x) else Apply(x, W.Len(num, s), depth)
  {
    if s != [] { FoldCons(x, W.Len(num, s), [], depth); }
  }

  lemma FoldRoom(x: Message, m: Message, depth: nat)
    requires SameKind(x, m) && m.ChatRoomInfo? && Encodable(m, depth)
    ensures Fold(x, Fields(m), depth) == if TextsValid(m) then Some(Merge(x, m)) else None
  {
    hide Fold, Parse, Serialize;
    var a, b, c, d := Number(1, m.roomId), Number(2, m.currentUser), Number(3, m.maxUser), Text(4, m.roomName);
    FoldConcat(x, a + b + c + d, m.unknown, depth);
    FoldConcat(x, a + b + c, d, depth);
    FoldConcat(x, a + b, c, depth);
    FoldConcat(x, a, b, depth);
    FoldNumber(x, 1, m.roomId, depth);
    var x1 := Fold(x, a, depth).value;
    FoldNumber(x1, 2, m.currentUser, depth);
    var x2 := Fold(x1, b, depth).value;
    FoldNumber(x2, 3, m.maxUser, depth);
    var x3 := Fold(x2, c, depth).value;
    FoldText(x3, 4, m.roomName, depth);
    FoldTail(Fold(x3, d, depth), m.unknown, depth);
  }

  lemma FoldChat(x: Message, m: Message, depth: nat)
    requires SameKind(x, m) && m.ChatReq? && Encodable(m, depth)
    ensures Fold(x, Fields(m), depth) == if TextsValid(m) then Some(Merge(x, m)) else None
  {
    hide Fold, Parse, Serialize;
    var a, b, c := Number(1, m.sessionUid), Text(2, m.text), Number(3, m.chatRoomId);
    FoldConcat(x, a + b + c, m.unknown, depth);
    FoldConcat(x, a + b, c, depth);
    FoldConcat(x, a, b, depth);
    FoldNumber(x, 1, m.sessionUid, depth);
    var x1 := Fold(x, a, depth).value;
    FoldText(x1, 2, m.text, depth);
    var x2 := Fold(x1, b, depth);
    if x2.Some? {
      FoldNumber(x2.value, 3, m.chatRoomId, depth);
      FoldTail(Fold(x2.value, c, depth), m.unknown, depth);
    }
  }

  lemma FoldLogin(x: Message, m: Message, depth: nat)
    requires SameKind(x, m) && m.LoginRes? && Encodable(m, depth)
    ensures Fold(x, Fields(m), depth) == if TextsValid(m) then Some(Merge(x, m)) else None
  {
    hide Fold, Parse, Serialize;
    V.Int32RoundTrip(m.result);
    var a, b, c := Number(1, V.SignExtend(m.result)), Text(2, m.userId), Text(3, m.message);
    FoldConcat(x, a + b + c, m.unknown, depth);
    FoldConcat(x, a + b, c, depth);
    FoldConcat(x, a, b, depth);
    FoldNumber(x, 1, V.SignExtend(m.result), depth);
    var x1 := Fold(x, a, depth).value;
    FoldText(x1, 2, m.userId, depth);
    var x2 := Fold(x1, b, depth);
    if x2.Some? {
      FoldText(x2.value, 3, m.message, depth);
      FoldTail(Fold(x2.value, c, depth), m.unknown, depth);
    }
  }

  // A nested message is written as its own bytes and parsed from them.
  lemma ApplyNested(x: Message, r: Message, depth: nat)
    requires x.ChatRoomListAck? && r.ChatRoomInfo? && depth > 0 && Encodable(r, depth - 1)
    ensures Apply(x, W.Len(2, Serialize(r)), depth)
         == if TextsValid(r) then Some(x.(rooms := x.rooms + [r])) else None
  {
    FieldsValid(r, depth - 1);
    W.RecordsEncode(Fields(r), depth - 1);
    FoldRoom(EmptyRoom, r, depth - 1);
    MergeIntoCleared(r);
  }

  predicate AllRoomsValid(ms: seq<Message>) {
    forall r :: r in ms ==> TextsValid(r)
  }

  lemma AllRoomsFront(ms: seq<Message>)
    requires ms != []
    ensures AllRoomsValid(ms) <==> TextsValid(ms[0]) && AllRoomsValid(ms[1..])
  {
    assert forall q :: q in ms <==> q == ms[0] || q in ms[1..];
  }

  lemma {:induction false} FoldNested(x: Message, ms: seq<Message>, depth: nat)
    requires x.ChatRoomListAck?
    requires forall r :: r in ms ==> r.ChatRoomInfo? && depth > 0 && Encodable(r, depth - 1)
    ensures Fold(x, Nested(2, ms), depth) == if AllRoomsValid(ms) then Some(x.(rooms := x.rooms + ms)) else None
    decreases |ms|
  {
    hide Parse, Serialize, Apply, TextsValid, Encodable;
    if ms == [] {
      assert x.rooms + [] == x.rooms;
    } else {
      hide Fold, AllRoomsValid;
      var r := ms[0];
      ApplyNested(x, r, depth);
      FoldCons(x, W.Len(2, Serialize(r)), Nested(2, ms[1..]), depth);
      AllRoomsFront(ms);
      if TextsValid(r) {
        FoldNested(x.(rooms := x.rooms + [r]), ms[1..], depth);
        assert (x.rooms + [r]) + ms[1..] == x.rooms + ms;
      }
    }
  }

  // Feeding a message's own records to `x` merges the message into `x`, and
  // fails exactly on a string that is not UTF-8.
  lemma FoldFields(x: Message, m: Message, depth: nat)
    requires SameKind(x, m) && Encodable(m, depth)
    ensures Fold(x, Fields(m), depth) == if TextsValid(m) then Some(Merge(x, m)) else None
  {
    hide Fold, Parse, Serialize;
    match m
    case ChatRoomInfo(_, _, _, _, _) => FoldRoom(x, m, depth);
    case ChatRoomListAck(s, rs, u) =>
      var a, b := Number(1, if s then 1 else 0), Nested(2, rs);
      FoldConcat(x, a + b, u, depth);
      FoldConcat(x, a, b, depth);
      FoldNumber(x, 1, if s then 1 else 0, depth);
      var x1 := Fold(x, a, depth).value;
      FoldNested(x1, rs, depth);
      FoldTail(Fold(x1, b, depth), u, depth);
    case ChatReq(_, _, _, _) => FoldChat(x, m, depth);
    case EnterChatRoomReq(id, u) =>
      V.Int32RoundTrip(id);
      FoldConcat(x, Number(1, V.SignExtend(id)), u, depth);
      FoldNumber(x, 1, V.SignExtend(id), depth);
      FoldTail(Fold(x, Number(1, V.SignExtend(id)), depth), u, depth);
    case LoginRes(_, _, _, _) => FoldLogin(x, m, depth);
    case UserListRes(us, u) =>
      FoldConcat(x, Strings(1, us), u, depth);
      FoldStrings(x, us, depth);
      FoldTail(Fold(x, Strings(1, us), depth), u, depth);
  }

  lemma FoldTail(x: Option<Message>, us: seq<Field>, depth: nat)
    requires x.Some? ==> forall f :: f in us ==> !Listed(x.value, f)
    ensures Then(x, us, depth) == if x.None? then None else Some(x.value.(unknown := x.value.unknown + us))
  {
    if x.Some? { FoldUnknown(x.value, us, depth); }
  }

  lemma {:induction false} NestedValid(num: nat, ms: seq<Message>, depth: nat)
    requires 1 <= num <= W.MAX_NUMBER
    requires forall r :: r in ms ==> |Serialize(r)| <= W.MAX_LENGTH
    ensures W.AllValid(Nested(num, ms), depth)
    decreases |ms|
  {
    if ms != [] { NestedValid(num, ms[1..], depth); }
  }

  lemma {:induction false} StringsValid(num: nat, ss: seq<bytes>, depth: nat)
    requires 1 <= num <= W.MAX_NUMBER
    requires forall s :: s in ss ==> |s| <= W.MAX_LENGTH
    ensures W.AllValid(Strings(num, ss), depth)
    decreases |ss|
  {
    if ss != [] { StringsValid(num, ss[1..], depth); }
  }

  lemma FieldsValid(m: Message, depth: nat)
    requires Encodable(m, depth)
    ensures W.AllValid(Fields(m), depth)
  {
    match m
    case ChatRoomListAck(_, rs, _) => NestedValid(2, rs, depth);
    case UserListRes(us, _) => StringsValid(1, us, depth);
    case _ =>
  }

  // Parsing what a message wrote merges the message, for every target and every
  // message, exactly when its strings are UTF-8.
  lemma ReadsBack(x: Message, m: Message, depth: nat)
    requires SameKind(x, m) && Encodable(m, depth)
    ensures Parse(x, Serialize(m), depth) == if TextsValid(m) then Some(Merge(x, m)) else None
  {
    FieldsValid(m, depth);
    W.RecordsEncode(Fields(m), depth);
    FoldFields(x, m, depth);
  }

  // ------------------------------------------------------------ the order of writing

  // Records the parse loop has a case for, by ascending number.
  predicate Ascending(m: Message, fs: seq<Field>) {
    && (forall f :: f in fs ==> Listed(m, f))
    && forall i, j :: 0 <= i < j < |fs| ==> fs[i].num <= fs[j].num
  }

  lemma {:induction false} SameNumber(num: nat, ms: seq<Message>, ss: seq<bytes>)
    ensures forall f :: f in Nested(num, ms) ==> f.Len? && f.num == num
    ensures forall f :: f in Strings(num, ss) ==> f.Len? && f.num == num
    decreases |ms| + |ss|
  {
    hide Serialize;
    if ms != [] { SameNumber(num, ms[1..], ss); }
    if ss != [] { SameNumber(num, ms, ss[1..]); }
  }

  lemma Joins(m: Message, a: seq<Field>, b: seq<Field>, k: nat)
    requires Ascending(m, a) && Ascending(m, b)
    requires (forall f :: f in a ==> f.num <= k) && forall f :: f in b ==> f.num >= k
    ensures Ascending(m, a + b)
  {
    hide Listed;
  }

  // The known fields are written by ascending number, and the unknown ones last.
  lemma FieldsAscend(m: Message) returns (known: seq<Field>)
    ensures Fields(m) == known + m.unknown && Ascending(m, known)
  {
    match m
    case ChatRoomInfo(id, current, max, name, _) =>
      var a, b, c, d := Number(1, id), Number(2, current), Number(3, max), Text(4, name);
      Joins(m, a, b, 2);
      Joins(m, a + b, c, 3);
      Joins(m, a + b + c, d, 4);
      known := a + b + c + d;
    case ChatReq(uid, text, id, _) =>
      known := ThreeAscend(m, Number(1, uid), Text(2, text), Number(3, id));
    case LoginRes(code, user, text, _) =>
      known := ThreeAscend(m, Number(1, V.SignExtend(code)), Text(2, user), Text(3, text));
    case ChatRoomListAck(s, rs, _) =>
      SameNumber(2, rs, []);
      known := Number(1, if s then 1 else 0) + Nested(2, rs);
      Joins(m, Number(1, if s then 1 else 0), Nested(2, rs), 2);
    case EnterChatRoomReq(id, _) => known := Number(1, V.SignExtend(id));
    case UserListRes(us, _) =>
      SameNumber(1, [], us);
      known := Strings(1, us);
  }

  lemma ThreeAscend(m: Message, a: seq<Field>, b: seq<Field>, c: seq<Field>) returns (known: seq<Field>)
    requires Ascending(m, a) && Ascending(m, b) && Ascending(m, c)
    requires (forall f :: f in a ==> f.num == 1) && (forall f :: f in b ==> f.num == 2) && forall f :: f in c ==> f.num == 3
    ensures known == a + b + c && Ascending(m, known)
  {
    Joins(m, a, b, 2);
    Joins(m, a + b, c, 3);
    known := a + b + c;
  }
}
