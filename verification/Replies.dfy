// The packets that the request handlers answer with: a reply, its encoding, and
// what MakePacket makes of it.
module Replies {
  import opened Bytes
  import F = Framing
  import M = Messages
  import V = Varint
  import W = Wire

  datatype Reply =
    | LoginAck(userId: bytes)
    | EnterAck(roomId: V.uint32, roomName: bytes)
    | ListAck(list: M.Message)
    | ChatAck(sender: bytes, text: bytes)

  function PacketType(r: Reply): (t: nat)
    ensures t < 0x1_0000
  {
    match r
    case EnterAck(_, _) => 1001
    case LoginAck(_) => 1003
    case ListAck(_) => 1005
    case ChatAck(_, _) => 1011
  }

  // What the serializer of the reply's message writes.
  function Body(r: Reply): bytes {
    match r
    case LoginAck(id) => W.EncodeAll(M.Number(1, 1) + M.Text(2, id))
    case EnterAck(room, name) => W.EncodeAll(M.Number(1, room) + M.Text(2, name))
    case ListAck(list) => M.Serialize(list)
    case ChatAck(sender, text) => W.EncodeAll(M.Text(1, sender) + M.Text(2, text))
  }

  // A packet without its header's two bytes of padding.  An empty packet puts
  // nothing on the wire; an overrun has written beyond a buffer.
  datatype Packet = Framed(packetType: nat, body: bytes) | EmptyPacket | Overrun

  function Pack(r: Reply): Packet {
    match F.MakePacket(PacketType(r), Body(r), [0, 0])
    case Frame(_) => Framed(PacketType(r), Body(r))
    case EmptyPacket => EmptyPacket
    case OutOfBounds => Overrun
  }

  // A reply is delivered, as a frame of it, exactly when its encoding is at most
  // MAX_BODY bytes, whatever the padding holds.
  lemma PackIs(r: Reply, padding: bytes)
    requires |padding| == 2
    ensures Pack(r).Framed? <==> |Body(r)| <= F.MAX_BODY
    ensures Pack(r).EmptyPacket? <==> |Body(r)| >= 0x1_0000
    ensures var made := F.MakePacket(PacketType(r), Body(r), padding);
            && (made.Frame? <==> Pack(r).Framed?) && (made.EmptyPacket? <==> Pack(r).EmptyPacket?)
            && (made.Frame? ==> F.WellFormed(made.data) && F.Body(made.data) == made.data[12..] == Pack(r).body
                                && F.PacketType(made.data) == Pack(r).packetType
                                && made.data[2..4] == padding && made.data[8..12] == [1, 0, 0, 0])
  {
    hide Body, F.WellFormed;
    F.MakePacketFrames(PacketType(r), Body(r), [0, 0]);
    F.MakePacketFrames(PacketType(r), Body(r), padding);
  }

  // ------------------------------------------------------------------------ sizes

  function NumberSize(v: V.uint64): nat {
    if v == 0 then 0 else 1 + |V.Encode(v)|
  }

  function TextSize(s: bytes): nat {
    if s == [] then 0 else 1 + |V.Encode(|s|)| + |s|
  }

  lemma NumberSizeIs(num: nat, v: V.uint64)
    requires num <= 15
    ensures |W.EncodeAll(M.Number(num, v))| == NumberSize(v)
  {
    if v != 0 { W.EncodeOne(W.Varint(num, v)); }
  }

  lemma TextSizeIs(num: nat, s: bytes)
    requires num <= 15
    ensures |W.EncodeAll(M.Text(num, s))| == TextSize(s)
  {
    if s != [] { W.EncodeOne(W.Len(num, s)); }
  }

  function RoomSize(m: M.Message): nat
    requires m.ChatRoomInfo? && m.unknown == []
  {
    NumberSize(m.roomId) + NumberSize(m.currentUser) + NumberSize(m.maxUser) + TextSize(m.roomName)
  }

  predicate PlainRooms(ms: seq<M.Message>) {
    forall i :: 0 <= i < |ms| ==> ms[i].ChatRoomInfo? && ms[i].unknown == []
  }

  // A tag, a length and the room for each.
  function RoomsSize(ms: seq<M.Message>): nat
    requires PlainRooms(ms)
  {
    if ms == [] then 0
    else 1 + |V.Encode(RoomSize(ms[0]))| + RoomSize(ms[0]) + RoomsSize(ms[1..])
  }

  lemma RoomSizeIs(m: M.Message)
    requires m.ChatRoomInfo? && m.unknown == []
    ensures |M.Serialize(m)| == RoomSize(m)
  {
    var a, b, c, d := M.Number(1, m.roomId), M.Number(2, m.currentUser), M.Number(3, m.maxUser), M.Text(4, m.roomName);
    W.EncodeAllConcat(a, b);
    W.EncodeAllConcat(a + b, c);
    W.EncodeAllConcat(a + b + c, d);
    W.EncodeAllConcat(a + b + c + d, []);
    NumberSizeIs(1, m.roomId);
    NumberSizeIs(2, m.currentUser);
    NumberSizeIs(3, m.maxUser);
    TextSizeIs(4, m.roomName);
    hide NumberSize, TextSize, M.Number, M.Text;
  }

  lemma {:induction false} RoomsSizeIs(ms: seq<M.Message>)
    requires PlainRooms(ms)
    ensures |W.EncodeAll(M.Nested(2, ms))| == RoomsSize(ms)
    decreases |ms|
  {
    if ms != [] {
      var f, more := W.Len(2, M.Serialize(ms[0])), M.Nested(2, ms[1..]);
      W.EncodeAllConcat([f], more);
      W.EncodeOne(f);
      RoomSizeIs(ms[0]);
      RoomsSizeIs(ms[1..]);
      hide M.Serialize, RoomSize;
    }
  }

  lemma BodySize(r: Reply)
    requires r.ListAck? ==> r.list.ChatRoomListAck? && PlainRooms(r.list.rooms) && r.list.unknown == []
    ensures |Body(r)| == match r
                         case LoginAck(id) => 2 + TextSize(id)
                         case EnterAck(room, name) => NumberSize(room) + TextSize(name)
                         case ListAck(list) => (if list.success then 2 else 0) + RoomsSize(list.rooms)
                         case ChatAck(sender, text) => TextSize(sender) + TextSize(text)
  {
    match r
    case LoginAck(id) =>
      W.EncodeAllConcat(M.Number(1, 1), M.Text(2, id));
      NumberSizeIs(1, 1);
      TextSizeIs(2, id);
    case EnterAck(room, name) =>
      W.EncodeAllConcat(M.Number(1, room), M.Text(2, name));
      NumberSizeIs(1, room);
      TextSizeIs(2, name);
    case ChatAck(sender, text) =>
      W.EncodeAllConcat(M.Text(1, sender), M.Text(2, text));
      TextSizeIs(1, sender);
      TextSizeIs(2, text);
    case ListAck(list) => ListSize(list);
  }

  lemma ListSize(list: M.Message)
    requires list.ChatRoomListAck? && PlainRooms(list.rooms) && list.unknown == []
    ensures |M.Serialize(list)| == (if list.success then 2 else 0) + RoomsSize(list.rooms)
  {
    var n, rooms := M.Number(1, if list.success then 1 else 0), M.Nested(2, list.rooms);
    W.EncodeAllConcat(n, rooms);
    W.EncodeAllConcat(n + rooms, []);
    NumberSizeIs(1, if list.success then 1 else 0);
    RoomsSizeIs(list.rooms);
    hide M.Nested, RoomsSize, PlainRooms;
  }

  // Names and texts that leave room for tags and lengths are delivered.
  lemma ShortIsFramed(r: Reply)
    requires r.LoginAck? ==> |r.userId| <= 65000
    requires r.EnterAck? ==> |r.roomName| <= 65000
    requires r.ChatAck? ==> |r.sender| + |r.text| <= 65000
    requires !r.ListAck?
    ensures Pack(r).Framed?
  {
    BodySize(r);
    PackIs(r, [0, 0]);
    hide Body, Pack;
    match r
    case LoginAck(id) => V.LengthBounds(|id|);
    case EnterAck(room, name) => V.LengthBounds(room); V.LengthBounds(|name|);
    case ChatAck(sender, text) => V.LengthBounds(|sender|); V.LengthBounds(|text|);
    case _ =>
  }

  // Every room takes at least four bytes of a list, six if its id is not 0.
  lemma {:induction false} RoomsTakeSpace(ms: seq<M.Message>)
    requires PlainRooms(ms) && forall i :: 0 <= i < |ms| ==> ms[i].maxUser > 0
    ensures RoomsSize(ms) >= 4 * |ms|
    ensures (forall i :: 0 <= i < |ms| ==> ms[i].roomId > 0) ==> RoomsSize(ms) >= 6 * |ms|
    decreases |ms|
  {
    if ms != [] {
      assert forall i :: 0 <= i < |ms[1..]| ==> ms[1..][i] == ms[i + 1];
      RoomsTakeSpace(ms[1..]);
    }
  }

  // ------------------------------------------------------------ what a client reads

  // The records of a body: a string or a number that is the default has none.
  predicate Holds(body: bytes, fs: seq<W.Field>) {
    W.Records(body, 100) == Some(fs)
  }

  function IfAny(num: nat, s: bytes): seq<W.Field> {
    if |s| == 0 then [] else [W.Len(num, s)]
  }

  function IfSet(num: nat, v: V.uint64): seq<W.Field> {
    if v > 0 then [W.Varint(num, v)] else []
  }

  // A room in a list: id, users, limit and name.
  predicate HoldsRoom(data: bytes, room: M.Message) {
    room.ChatRoomInfo? &&
    Holds(data, IfSet(1, room.roomId) + IfSet(2, room.currentUser) + IfSet(3, room.maxUser) + IfAny(4, room.roomName))
  }

  predicate HoldsRooms(data: seq<bytes>, rooms: seq<M.Message>) {
    && |data| == |rooms|
    && (rooms == [] || (HoldsRoom(data[0], rooms[0]) && HoldsRooms(data[1..], rooms[1..])))
  }

  function Under(num: nat, data: seq<bytes>): seq<W.Field> {
    if data == [] then [] else [W.Len(num, data[0])] + Under(num, data[1..])
  }

  ghost predicate HoldsList(body: bytes, success: bool, rooms: seq<M.Message>) {
    exists data: seq<bytes> ::
      HoldsRooms(data, rooms) && Holds(body, (if success then [W.Varint(1, 1)] else []) + Under(2, data))
  }

  // A delivered packet is of the reply's type and holds the reply, field by field.
  ghost predicate Carries(p: Packet, r: Reply) {
    p.Framed? ==>
      match r
      case EnterAck(room, name) => p.packetType == 1001 && Holds(p.body, IfSet(1, room) + IfAny(2, name))
      case LoginAck(id) => p.packetType == 1003 && Holds(p.body, [W.Varint(1, 1)] + IfAny(2, id))
      case ListAck(list) =>
        p.packetType == 1005 && list.ChatRoomListAck? && HoldsList(p.body, list.success, list.rooms)
      case ChatAck(sender, text) => p.packetType == 1011 && Holds(p.body, IfAny(1, sender) + IfAny(2, text))
  }

  lemma HoldsEncoded(fs: seq<W.Field>)
    requires forall f :: f in fs ==> f.Valid(100)
    ensures Holds(W.EncodeAll(fs), fs)
  {
    W.RecordsEncode(fs, 100);
  }

  lemma NumberAndText(v: V.uint64, s: bytes)
    requires |s| <= F.MAX_BODY
    ensures Holds(W.EncodeAll(M.Number(1, v) + M.Text(2, s)), IfSet(1, v) + IfAny(2, s))
  {
    HoldsEncoded(IfSet(1, v) + IfAny(2, s));
  }

  lemma TwoTexts(a: bytes, b: bytes)
    requires |a| <= F.MAX_BODY && |b| <= F.MAX_BODY
    ensures Holds(W.EncodeAll(M.Text(1, a) + M.Text(2, b)), IfAny(1, a) + IfAny(2, b))
  {
    HoldsEncoded(IfAny(1, a) + IfAny(2, b));
  }

  lemma PackCarries(r: Reply)
    requires r.ListAck? ==> r.list.ChatRoomListAck? && PlainRooms(r.list.rooms) && r.list.unknown == []
    ensures Carries(Pack(r), r)
  {
    PackIs(r, [0, 0]);
    hide W.EncodeAll, Holds, HoldsList, NumberSize, M.Number, M.Text, RoomsSize, PlainRooms;
    if |Body(r)| <= F.MAX_BODY {
      BodySize(r);
      match r
      case LoginAck(id) => NumberAndText(1, id);
      case EnterAck(room, name) => NumberAndText(room, name);
      case ChatAck(sender, text) => TwoTexts(sender, text);
      case ListAck(list) => ListHolds(list);
    }
  }

  lemma RoomHolds(m: M.Message)
    requires m.ChatRoomInfo? && m.unknown == [] && RoomSize(m) <= F.MAX_BODY
    ensures HoldsRoom(M.Serialize(m), m)
  {
    var fs := IfSet(1, m.roomId) + IfSet(2, m.currentUser) + IfSet(3, m.maxUser) + IfAny(4, m.roomName);
    assert M.Fields(m) == fs + [] == fs;
    assert forall f :: f in fs ==> f.Valid(100);
    hide Holds, W.EncodeAll;
    HoldsEncoded(fs);
  }

  function Encoded(ms: seq<M.Message>): seq<bytes> {
    if ms == [] then [] else [M.Serialize(ms[0])] + Encoded(ms[1..])
  }

  lemma {:induction false} NestedIsUnder(ms: seq<M.Message>)
    ensures M.Nested(2, ms) == Under(2, Encoded(ms))
  {
    if ms != [] {
      hide M.Serialize;
      NestedIsUnder(ms[1..]);
    }
  }

  lemma PartsAreSmaller(ms: seq<M.Message>)
    requires PlainRooms(ms) && ms != []
    ensures PlainRooms(ms[1..]) && RoomSize(ms[0]) <= RoomsSize(ms) && RoomsSize(ms[1..]) <= RoomsSize(ms)
  {
    hide RoomSize;
  }

  lemma OneMoreRoom(x: bytes, data: seq<bytes>, m: M.Message, ms: seq<M.Message>)
    requires HoldsRoom(x, m) && HoldsRooms(data, ms)
    ensures HoldsRooms([x] + data, [m] + ms)
  {
    hide HoldsRoom;
    assert ([x] + data)[1..] == data && ([m] + ms)[1..] == ms;
  }

  lemma {:induction false} RoomsHold(ms: seq<M.Message>)
    requires PlainRooms(ms) && RoomsSize(ms) <= F.MAX_BODY
    ensures HoldsRooms(Encoded(ms), ms)
    decreases |ms|
  {
    if ms != [] {
      PartsAreSmaller(ms);
      RoomHolds(ms[0]);
      RoomsHold(ms[1..]);
      FirstAndRest(ms);
      hide HoldsRoom, HoldsRooms, M.Serialize, RoomSize, RoomsSize, PlainRooms;
      OneMoreRoom(M.Serialize(ms[0]), Encoded(ms[1..]), ms[0], ms[1..]);
    }
  }

  lemma {:induction false} EncodedIsShort(ms: seq<M.Message>)
    requires PlainRooms(ms) && RoomsSize(ms) <= F.MAX_BODY
    ensures forall x :: x in Encoded(ms) ==> |x| <= F.MAX_BODY
    decreases |ms|
  {
    if ms != [] {
      PartsAreSmaller(ms);
      RoomSizeIs(ms[0]);
      EncodedIsShort(ms[1..]);
      hide M.Serialize, RoomSize, RoomsSize, PlainRooms;
    }
  }

  lemma {:induction false} UnderValid(data: seq<bytes>)
    requires forall x :: x in data ==> |x| <= F.MAX_BODY
    ensures forall f :: f in Under(2, data) ==> f.Valid(100)
  {
    if data != [] { UnderValid(data[1..]); }
  }

  lemma ListHolds(list: M.Message)
    requires list.ChatRoomListAck? && PlainRooms(list.rooms) && list.unknown == []
    requires RoomsSize(list.rooms) <= F.MAX_BODY
    ensures HoldsList(M.Serialize(list), list.success, list.rooms)
  {
    RoomsHold(list.rooms);
    EncodedIsShort(list.rooms);
    NestedIsUnder(list.rooms);
    var data := Encoded(list.rooms);
    UnderValid(data);
    var first: seq<W.Field> := if list.success then [W.Varint(1, 1)] else [];
    var fs := first + Under(2, data);
    assert M.Fields(list) == fs + [] == fs;
    assert forall f :: f in first ==> f.Valid(100);
    hide M.Nested, Under, RoomsSize, Holds, HoldsRooms, W.EncodeAll, Encoded;
    HoldsEncoded(fs);
  }
}
