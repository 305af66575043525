// The generated classes of Protocol.pb.cc.
module ProtocolPb {
  import opened Bytes
  import opened ParseLoop
  import opened StructPb
  import V = Varint
  import W = Wire
  import M = Messages
  import R = Reader
  import Utf8

  const INT_MAX := 0x7FFF_FFFF

  ghost function Values(rs: seq<ChatRoomInfo>): (ms: seq<M.Message>)
    reads rs
    ensures |ms| == |rs| && forall i :: 0 <= i < |rs| ==> ms[i] == rs[i].Value()
  {
    seq(|rs|, i requires 0 <= i < |rs| reads rs => rs[i].Value())
  }

  lemma {:induction false} NestedSnoc(num: nat, ms: seq<M.Message>, m: M.Message)
    requires num <= 15
    ensures W.EncodeAll(M.Nested(num, ms + [m]))
         == W.EncodeAll(M.Nested(num, ms)) + WriteString(num, M.Serialize(m))
    decreases |ms|
  {
    hide M.Serialize, W.Encode;
    var f := W.Len(num, M.Serialize(m));
    assert W.Encode(f) == WriteString(num, M.Serialize(m)) by {
      OneByteTag(num, 2);
      EncodeLen(num, M.Serialize(m));
    }
    if ms == [] {
      assert ms + [m] == [m] && [m][1..] == [];
      assert M.Nested(num, [m]) == [f] + M.Nested(num, [m][1..]);
      assert [f] + [] == [f];
      W.EncodeOne(f);
      assert [] + W.Encode(f) == W.Encode(f);
    } else {
      assert (ms + [m])[1..] == ms[1..] + [m] && (ms + [m])[0] == ms[0];
      NestedSnoc(num, ms[1..], m);
      var g := W.Len(num, M.Serialize(ms[0]));
      NestedFront(num, ms + [m]);
      NestedFront(num, ms);
      Regroup(W.Encode(g), W.EncodeAll(M.Nested(num, ms[1..])), WriteString(num, M.Serialize(m)), []);
    }
  }

  lemma EncodeLen(num: nat, d: bytes)
    ensures W.Encode(W.Len(num, d)) == W.Tag(num, 2) + W.Prefixed(d)
  {
  }

  lemma NestedFront(num: nat, ms: seq<M.Message>)
    requires ms != []
    ensures W.EncodeAll(M.Nested(num, ms)) == W.Encode(W.Len(num, M.Serialize(ms[0]))) + W.EncodeAll(M.Nested(num, ms[1..]))
  {
    hide M.Serialize, W.Encode;
    var f := W.Len(num, M.Serialize(ms[0]));
    assert M.Nested(num, ms) == [f] + M.Nested(num, ms[1..]);
    assert ([f] + M.Nested(num, ms[1..]))[1..] == M.Nested(num, ms[1..]);
  }

  class ChatRoomListAck {
    var success: bool
    var rooms: seq<ChatRoomInfo>
    var unknown: seq<W.Field>
    var cachedSize: nat

    ghost function Value(): (m: M.Message)
      reads this`success, this`rooms, this`unknown, rooms
      ensures m.ChatRoomListAck?
    {
      M.ChatRoomListAck(success, Values(rooms), unknown)
    }

    constructor ()
      ensures Value() == M.ChatRoomListAck(false, [], []) && rooms == []
    {
      success, rooms, unknown, cachedSize := false, [], [], 0;
    }

    method Clear()
      modifies this
      ensures Value() == M.Cleared(old(Value())) && rooms == []
    {
      rooms := [];
      success := false;
      unknown := [];
    }

    // The do-while loop over consecutive rooms: after each one it looks at a
    // single byte, and goes on when that byte is the tag again.
    method ParseRooms(b: bytes, pos: nat, tagEnd: nat, depth: nat) returns (ok: bool, next: nat)
      requires pos < tagEnd <= |b|
      requires W.ReadTag(b[pos..]) == Some((18, tagEnd - pos))
      modifies this`rooms
      ensures ok ==> pos < next <= |b|
      ensures ok ==> M.Parse(old(Value()), b[pos..], depth) == M.Parse(Value(), b[next..], depth)
      ensures !ok ==> M.Parse(old(Value()), b[pos..], depth).None?
      ensures forall r :: r in rooms ==> r in old(rooms) || fresh(r)
    {
      hide M.Parse, W.ReadBody, W.Records, W.ReadTag;
      next := tagEnd - 1;
      ghost var tagStart := pos;
      while true
        invariant pos <= tagStart <= next < |b|
        invariant W.ReadTag(b[tagStart..]) == Some((18, next + 1 - tagStart))
        invariant M.Parse(old(Value()), b[pos..], depth) == M.Parse(Value(), b[tagStart..], depth)
        invariant forall r :: r in rooms ==> r in old(rooms) || fresh(r)
        invariant success == old(success) && unknown == old(unknown)
        decreases |b| - next
      {
        ghost var x := Value();
        next := next + 1;
        ghost var p := next;
        var room := new ChatRoomInfo();
        ghost var before := rooms;
        rooms := rooms + [room];
        var data;
        ghost var f;
        ok, data, f, next := StringPayload(2, b, next, depth);
        if !ok || depth == 0 { Refused(x, b, tagStart, depth); return false, pos; }
        ok := room.InternalParse(data, depth - 1);
        if !ok { Refused(x, b, tagStart, depth); return false, pos; }
        assert Values(rooms) == x.rooms + [room.Value()];
        Taken(x, Value(), b, tagStart, p, next, f, depth);
        if next >= |b| { return; }
        if b[next] != 18 { return; }
        OneByteTagReads(b, next);
        tagStart := next;
      }
    }

    method ParseRecord(b: bytes, pos: nat, depth: nat) returns (ok: bool, next: nat)
      requires pos < |b|
      modifies this`success, this`rooms, this`unknown
      ensures ok ==> pos < next <= |b|
      ensures ok ==> M.Parse(old(Value()), b[pos..], depth) == M.Parse(Value(), b[next..], depth)
      ensures !ok ==> M.Parse(old(Value()), b[pos..], depth).None?
      ensures forall r :: r in rooms ==> r in old(rooms) || fresh(r)
    {
      hide M.Parse, W.ReadBody, W.Records, W.ReadTag;
      ghost var x := Value();
      var tag, p, v;
      ghost var f;
      ok, tag, p := R.ReadTag(b, pos);
      if !ok { Refused(x, b, pos, depth); return false, pos; }
      if tag / 8 == 1 && tag % 256 == 8 {
        ok, v, f, next := VarintPayload(1, b, p, depth);
        if !ok { Refused(x, b, pos, depth); return; }
        success := v != 0;
      } else if tag / 8 == 2 && tag % 256 == 18 {
        ok, next := ParseRooms(b, pos, p, depth);
        return;
      } else {
        if W.EndsMessage(tag) {
          EndTagsCarryNothing(tag, b[p..], depth);
          Refused(x, b, pos, depth);
          return false, pos;
        }
        var g;
        ok, g, next := R.UnknownFieldParse(tag, b, p, depth);
        if !ok { Refused(x, b, pos, depth); return; }
        unknown, f := unknown + [g], g;
      }
      Taken(x, Value(), b, pos, p, next, f, depth);
    }

    method InternalParse(b: bytes, depth: nat) returns (ok: bool)
      modifies this`success, this`rooms, this`unknown
      ensures ok <==> M.Parse(old(Value()), b, depth).Some?
      ensures ok ==> M.Parse(old(Value()), b, depth) == Some(Value())
      ensures forall r :: r in rooms ==> r in old(rooms) || fresh(r)
    {
      var pos := 0;
      assert b[0..] == b;
      while pos < |b|
        invariant pos <= |b|
        invariant M.Parse(old(Value()), b, depth) == M.Parse(Value(), b[pos..], depth)
        invariant forall r :: r in rooms ==> r in old(rooms) || fresh(r)
      {
        ok, pos := ParseRecord(b, pos, depth);
        if !ok { return; }
      }
      ok := true;
    }

    method ParseFromArray(b: bytes) returns (ok: bool)
      modifies this
      ensures ok <==> M.Parse(M.ChatRoomListAck(false, [], []), b, W.MAX_DEPTH).Some?
      ensures ok ==> M.Parse(M.ChatRoomListAck(false, [], []), b, W.MAX_DEPTH) == Some(Value())
    {
      Clear();
      ok := InternalParse(b, W.MAX_DEPTH);
    }

    // What ByteSizeLong leaves behind: each nested cached size is the number of
    // bytes the nested serializer will write.
    ghost predicate CachesFresh()
      reads this, rooms
    {
      forall r :: r in rooms ==> r.cachedSize == |M.Serialize(r.Value())|
    }

    ghost predicate Addressable()
      reads this`rooms, rooms
    {
      AllFit(Values(rooms))
    }

    lemma Parts()
      ensures M.Serialize(Value()) == W.EncodeAll(M.Number(1, if success then 1 else 0))
                                    + W.EncodeAll(M.Nested(2, Values(rooms))) + W.EncodeAll(unknown)
    {
      var n1, n2 := M.Number(1, if success then 1 else 0), M.Nested(2, Values(rooms));
      W.EncodeAllConcat(n1, n2);
      W.EncodeAllConcat(n1 + n2, unknown);
    }

    // The length prefixes are the cached sizes.
    method InternalSerialize() returns (target: bytes)
      requires CachesFresh()
      ensures target == M.Serialize(Value())
    {
      Parts();
      hide M.Serialize, W.EncodeAll, M.Nested;
      target := PutNumber([], 1, if success then 1 else 0);
      ghost var head := target;
      ghost var ms := Values(rooms);
      assert ms[..0] == [];
      NestedNothing(2);
      for i := 0 to |rooms|
        invariant target == head + W.EncodeAll(M.Nested(2, ms[..i]))
      {
        var body := rooms[i].InternalSerialize();
        assert rooms[i] in rooms;
        target := target + ([18] + (V.Encode(rooms[i].cachedSize) + body));
        NestedSnoc(2, ms[..i], ms[i]);
        assert ms[..i] + [ms[i]] == ms[..i + 1];
      }
      assert ms[..|rooms|] == ms;
      target := target + W.EncodeAll(unknown);
    }

    // One room measures itself.
    static method SizeRoom(room: ChatRoomInfo) returns (size: nat)
      requires W.AllValid(room.unknown, W.MAX_DEPTH)
      modifies room`cachedSize
      ensures if Fits(room.Value()) then size == room.cachedSize == |M.Serialize(room.Value())| else size >= V.TWO32
    {
      hide M.Serialize;
      size := room.ByteSizeLong();
      room.NotAddressableIsLong();
    }

    // What the size of one more room adds.
    static lemma SizeGrows(ms: seq<M.Message>, i: nat, size: nat)
      requires i < |ms| && ms[i].ChatRoomInfo?
      requires if Fits(ms[i]) then size == |M.Serialize(ms[i])| else size >= V.TWO32
      ensures AllFit(ms[..i + 1]) <==> AllFit(ms[..i]) && Fits(ms[i])
      ensures Fits(ms[i]) ==>
                |W.EncodeAll(M.Nested(2, ms[..i + 1]))| == |W.EncodeAll(M.Nested(2, ms[..i]))| + 1 + LengthDelimitedSize(size)
      ensures LengthDelimitedSize(size) >= size
    {
      hide M.Serialize, W.EncodeAll, M.Nested, LengthDelimitedSize;
      SizeOfPrefix(size, M.Serialize(ms[i]), Fits(ms[i]));
      NestedSnoc(2, ms[..i], ms[i]);
      assert ms[..i] + [ms[i]] == ms[..i + 1];
    }

    // The loop over the rooms: their tags, prefixes and bodies.
    method SizeRooms() returns (total: nat)
      requires forall r :: r in rooms ==> W.AllValid(r.unknown, W.MAX_DEPTH)
      modifies (set r | r in rooms)`cachedSize
      ensures Values(rooms) == old(Values(rooms))
      ensures Addressable() ==> total == |W.EncodeAll(M.Nested(2, Values(rooms)))| && CachesFresh()
      ensures !Addressable() ==> total >= V.TWO32
    {
      hide M.Serialize, W.EncodeAll, M.Nested, LengthDelimitedSize;
      ghost var ms := Values(rooms);
      total := 1 * |rooms|;
      assert ms[..0] == [];
      NestedNothing(2);
      for i := 0 to |rooms|
        invariant forall k :: 0 <= k < |rooms| ==> rooms[k].Value() == ms[k]
        invariant forall k :: 0 <= k < i && Fits(ms[k]) ==> rooms[k].cachedSize == |M.Serialize(ms[k])|
        invariant AllFit(ms[..i]) ==> total == |rooms| - i + |W.EncodeAll(M.Nested(2, ms[..i]))|
        invariant !AllFit(ms[..i]) ==> total >= V.TWO32
        invariant total >= |rooms| - i
      {
        var size := SizeRoom(rooms[i]);
        SizeGrows(ms, i, size);
        total := total + LengthDelimitedSize(size);
      }
      assert ms[..|rooms|] == ms;
      assert Values(rooms) == ms;
    }

    // The size of the message; on the way every nested message caches its own.
    method ByteSizeLong() returns (total: nat)
      requires W.AllValid(unknown, W.MAX_DEPTH)
      requires forall r :: r in rooms ==> W.AllValid(r.unknown, W.MAX_DEPTH)
      modifies this`cachedSize, (set r | r in rooms)`cachedSize
      ensures Value() == old(Value())
      ensures Addressable() ==> total == |M.Serialize(Value())| && CachesFresh()
      ensures !Addressable() ==> total >= V.TWO32
      ensures cachedSize == total % V.TWO32
    {
      W.SizeAllIsLength(unknown, W.MAX_DEPTH);
      NumberLength(1, if success then 1 else 0);
      hide M.Serialize, W.EncodeAll, M.Nested;
      total := SizeRooms();
      Parts();
      if success { total := total + 1 + 1; }
      total := total + W.SizeAll(unknown);
      cachedSize := total % V.TWO32;
    }

    // SerializeToArray into a buffer of `size` bytes.
    method SerializeToArray(size: nat) returns (ok: bool, target: bytes)
      requires W.AllValid(unknown, W.MAX_DEPTH)
      requires forall r :: r in rooms ==> W.AllValid(r.unknown, W.MAX_DEPTH)
      modifies this`cachedSize, (set r | r in rooms)`cachedSize
      ensures Value() == old(Value())
      ensures ok <==> |M.Serialize(Value())| <= 0x7FFF_FFFF && |M.Serialize(Value())| <= size
      ensures ok ==> target == M.Serialize(Value())
    {
      hide M.Serialize, W.EncodeAll, M.Nested, M.Fields;
      target := [];
      var total := ByteSizeLong();
      if !Addressable() { NotAddressableIsLong(); }
      if total > INT_MAX || size < total { return false, []; }
      target := InternalSerialize();
      ok := true;
    }

    lemma NotAddressableIsLong()
      requires !Addressable()
      ensures |M.Serialize(Value())| >= V.TWO32
    {
      Parts();
      var ms := Values(rooms);
      var m :| m in ms && !Fits(m);
      var i :| 0 <= i < |ms| && ms[i] == m;
      rooms[i].NotAddressableIsLong();
      NestedContains(2, ms, i);
    }

    // RepeatedPtrField::MergeFrom: appends copies, sharing no object.
    method MergeRooms(theirs: seq<ChatRoomInfo>)
      modifies this`rooms
      ensures Values(rooms) == old(Values(rooms)) + old(Values(theirs))
      ensures forall r :: r in rooms ==> r in old(rooms) || fresh(r)
    {
      hide M.Merge;
      ghost var x, y := Values(rooms), Values(theirs);
      assert y[..0] == [] && x + [] == x;
      for i := 0 to |theirs|
        invariant forall r :: r in rooms ==> r in old(rooms) || fresh(r)
        invariant Values(rooms) == x + y[..i]
        invariant Values(theirs) == y
      {
        var room := new ChatRoomInfo();
        room.MergeFrom(theirs[i]);
        M.MergeIntoCleared(y[i]);
        rooms := rooms + [room];
        assert x + y[..i + 1] == (x + y[..i]) + [y[i]];
      }
      assert y[..|theirs|] == y;
    }

    method MergeFrom(from: ChatRoomListAck)
      requires from != this
      modifies this
      ensures Value() == M.Merge(old(Value()), from.Value())
      ensures forall r :: r in rooms ==> r in old(rooms) || fresh(r)
    {
      unknown := unknown + from.unknown;
      MergeRooms(from.rooms);
      if from.success { success := from.success; }
    }

    method CopyFrom(from: ChatRoomListAck)
      modifies this
      ensures Value() == old(from.Value())
    {
      if from == this { return; }
      Clear();
      MergeFrom(from);
      M.MergeIntoCleared(from.Value());
    }
  }

  class EnterChatRoomReq {
    var roomId: V.int32
    var unknown: seq<W.Field>
    var cachedSize: nat

    ghost function Value(): M.Message
      reads this`roomId, this`unknown
    {
      M.EnterChatRoomReq(roomId, unknown)
    }

    constructor ()
      ensures Value() == M.EnterChatRoomReq(0, [])
    {
      roomId, unknown, cachedSize := 0, [], 0;
    }

    method Clear()
      modifies this
      ensures Value() == M.EnterChatRoomReq(0, [])
    {
      roomId := 0;
      unknown := [];
    }

    // The room id arrives as 64 bits and is cut to 32.
    method ParseRecord(b: bytes, pos: nat, depth: nat) returns (ok: bool, next: nat)
      requires pos < |b|
      modifies this`roomId, this`unknown
      ensures ok ==> pos < next <= |b|
      ensures ok ==> M.Parse(old(Value()), b[pos..], depth) == M.Parse(Value(), b[next..], depth)
      ensures !ok ==> M.Parse(old(Value()), b[pos..], depth).None?
    {
      hide M.Parse, W.ReadBody, W.Records, W.ReadTag;
      ghost var x := Value();
      var tag, p, v;
      ghost var f;
      ok, tag, p := R.ReadTag(b, pos);
      if !ok { Refused(x, b, pos, depth); return false, pos; }
      if tag / 8 == 1 && tag % 256 == 8 {
        ok, v, f, next := VarintPayload(1, b, p, depth);
        if !ok { Refused(x, b, pos, depth); return; }
        roomId := V.ToInt32(v);
      } else {
        if W.EndsMessage(tag) {
          EndTagsCarryNothing(tag, b[p..], depth);
          Refused(x, b, pos, depth);
          return false, pos;
        }
        var g;
        ok, g, next := R.UnknownFieldParse(tag, b, p, depth);
        if !ok { Refused(x, b, pos, depth); return; }
        unknown, f := unknown + [g], g;
      }
      Taken(x, Value(), b, pos, p, next, f, depth);
    }

    method ParseFromArray(b: bytes) returns (ok: bool)
      modifies this
      ensures ok <==> M.Parse(M.EnterChatRoomReq(0, []), b, W.MAX_DEPTH).Some?
      ensures ok ==> M.Parse(M.EnterChatRoomReq(0, []), b, W.MAX_DEPTH) == Some(Value())
    {
      Clear();
      var pos := 0;
      assert b[0..] == b;
      while pos < |b|
        invariant pos <= |b|
        invariant M.Parse(M.EnterChatRoomReq(0, []), b, W.MAX_DEPTH) == M.Parse(Value(), b[pos..], W.MAX_DEPTH)
      {
        ok, pos := ParseRecord(b, pos, W.MAX_DEPTH);
        if !ok { return; }
      }
      ok := true;
    }

    method ByteSizeLong() returns (total: nat)
      requires W.AllValid(unknown, W.MAX_DEPTH)
      modifies this`cachedSize
      ensures total == |M.Serialize(Value())| && cachedSize == total % V.TWO32
    {
      W.SizeAllIsLength(unknown, W.MAX_DEPTH);
      EnumSize(1, roomId);
      W.EncodeAllConcat(M.Number(1, V.SignExtend(roomId)), unknown);
      hide V.SizeOf, V.Encode, W.EncodeAll, W.SizeAll;
      total := 0;
      if roomId != 0 { total := total + 1 + if roomId < 0 then 10 else V.SizeOf(roomId); }
      total := total + W.SizeAll(unknown);
      cachedSize := total % V.TWO32;
    }

    method SerializeToArray(size: nat) returns (ok: bool, target: bytes)
      requires W.AllValid(unknown, W.MAX_DEPTH)
      modifies this`cachedSize
      ensures ok <==> |M.Serialize(Value())| <= 0x7FFF_FFFF && |M.Serialize(Value())| <= size
      ensures ok ==> target == M.Serialize(Value())
    {
      target := [];
      var total := ByteSizeLong();
      if total > INT_MAX || size < total { return false, []; }
      W.EncodeAllConcat(M.Number(1, V.SignExtend(roomId)), unknown);
      target := PutNumber([], 1, V.SignExtend(roomId));
      target := target + W.EncodeAll(unknown);
      ok := true;
    }

    method MergeFrom(from: EnterChatRoomReq)
      requires from != this
      modifies this
      ensures Value() == M.Merge(old(Value()), from.Value())
    {
      unknown := unknown + from.unknown;
      if from.roomId != 0 { roomId := from.roomId; }
    }
  }

  class ChatReq {
    var message: bytes
    var sessionUid: V.uint32
    var roomId: V.uint32
    var unknown: seq<W.Field>
    var cachedSize: nat

    ghost function Value(): M.Message
      reads this`message, this`sessionUid, this`roomId, this`unknown
    {
      M.ChatReq(sessionUid, message, roomId, unknown)
    }

    constructor ()
      ensures Value() == M.ChatReq(0, [], 0, [])
    {
      message, sessionUid, roomId, unknown, cachedSize := [], 0, 0, [], 0;
    }

    method Clear()
      modifies this
      ensures Value() == M.ChatReq(0, [], 0, [])
    {
      message := [];
      sessionUid, roomId := 0, 0;
      unknown := [];
    }

    method ParseRecord(b: bytes, pos: nat, depth: nat) returns (ok: bool, next: nat)
      requires pos < |b|
      modifies this`message, this`sessionUid, this`roomId, this`unknown
      ensures ok ==> pos < next <= |b|
      ensures ok ==> M.Parse(old(Value()), b[pos..], depth) == M.Parse(Value(), b[next..], depth)
      ensures !ok ==> M.Parse(old(Value()), b[pos..], depth).None?
    {
      hide M.Parse, W.ReadBody, W.Records, W.ReadTag;
      ghost var x := Value();
      var tag, p, v, str;
      ghost var f;
      ok, tag, p := R.ReadTag(b, pos);
      if !ok { Refused(x, b, pos, depth); return false, pos; }
      if tag / 8 == 1 && tag % 256 == 8 {
        ok, v, f, next := UInt32Payload(1, b, p, depth);
        if !ok { Refused(x, b, pos, depth); return; }
        sessionUid := v;
      } else if tag / 8 == 2 && tag % 256 == 18 {
        ok, str, f, next := StringPayload(2, b, p, depth);
        if !ok || !Utf8.Valid(str) { Refused(x, b, pos, depth); return false, pos; }
        message := str;
      } else if tag / 8 == 3 && tag % 256 == 24 {
        ok, v, f, next := UInt32Payload(3, b, p, depth);
        if !ok { Refused(x, b, pos, depth); return; }
        roomId := v;
      } else {
        if W.EndsMessage(tag) {
          EndTagsCarryNothing(tag, b[p..], depth);
          Refused(x, b, pos, depth);
          return false, pos;
        }
        var g;
        ok, g, next := R.UnknownFieldParse(tag, b, p, depth);
        if !ok { Refused(x, b, pos, depth); return; }
        unknown, f := unknown + [g], g;
      }
      Taken(x, Value(), b, pos, p, next, f, depth);
    }

    method ParseFromArray(b: bytes) returns (ok: bool)
      modifies this
      ensures ok <==> M.Parse(M.ChatReq(0, [], 0, []), b, W.MAX_DEPTH).Some?
      ensures ok ==> M.Parse(M.ChatReq(0, [], 0, []), b, W.MAX_DEPTH) == Some(Value())
    {
      Clear();
      var pos := 0;
      assert b[0..] == b;
      while pos < |b|
        invariant pos <= |b|
        invariant M.Parse(M.ChatReq(0, [], 0, []), b, W.MAX_DEPTH) == M.Parse(Value(), b[pos..], W.MAX_DEPTH)
      {
        ok, pos := ParseRecord(b, pos, W.MAX_DEPTH);
        if !ok { return; }
      }
      ok := true;
    }

    lemma Parts()
      ensures M.Serialize(Value()) == W.EncodeAll(M.Number(1, sessionUid)) + W.EncodeAll(M.Text(2, message))
                                    + W.EncodeAll(M.Number(3, roomId)) + W.EncodeAll(unknown)
    {
      var n1, n2, n3 := M.Number(1, sessionUid), M.Text(2, message), M.Number(3, roomId);
      W.EncodeAllConcat(n1, n2);
      W.EncodeAllConcat(n1 + n2, n3);
      W.EncodeAllConcat(n1 + n2 + n3, unknown);
    }

    method ByteSizeLong() returns (total: nat)
      requires W.AllValid(unknown, W.MAX_DEPTH)
      modifies this`cachedSize
      ensures |message| < V.TWO32 ==> total == |M.Serialize(Value())|
      ensures total >= |message|
      ensures cachedSize == total % V.TWO32
    {
      Parts();
      W.SizeAllIsLength(unknown, W.MAX_DEPTH);
      hide M.Serialize, W.EncodeAll, W.SizeAll, M.Number, M.Text;
      total := CountText(0, 2, message);
      total := CountNumber(total, 1, sessionUid);
      total := CountNumber(total, 3, roomId);
      total := total + W.SizeAll(unknown);
      cachedSize := total % V.TWO32;
    }

    method SerializeToArray(size: nat) returns (ok: bool, target: bytes)
      requires W.AllValid(unknown, W.MAX_DEPTH)
      modifies this`cachedSize
      ensures ok <==> |M.Serialize(Value())| <= 0x7FFF_FFFF && |M.Serialize(Value())| <= size
      ensures ok ==> target == M.Serialize(Value())
    {
      target := [];
      MessageIsInside();
      hide M.Serialize;
      var total := ByteSizeLong();
      if total > INT_MAX || size < total { return false, []; }
      target := InternalSerialize();
      ok := true;
    }

    lemma MessageIsInside()
      ensures |M.Serialize(Value())| >= |message|
    {
      Parts();
      hide M.Serialize, W.EncodeAll, M.Number, W.Tag;
      if message != [] { W.EncodeOne(W.Len(2, message)); }
    }

    method InternalSerialize() returns (target: bytes)
      ensures target == M.Serialize(Value())
    {
      Parts();
      hide M.Serialize, W.EncodeAll, M.Number, M.Text;
      target := PutNumber([], 1, sessionUid);
      target := PutText(target, 2, message);
      target := PutNumber(target, 3, roomId);
      target := target + W.EncodeAll(unknown);
    }

    method MergeFrom(from: ChatReq)
      requires from != this
      modifies this
      ensures Value() == M.Merge(old(Value()), from.Value())
    {
      unknown := unknown + from.unknown;
      if from.message != [] { message := from.message; }
      if from.sessionUid != 0 { sessionUid := from.sessionUid; }
      if from.roomId != 0 { roomId := from.roomId; }
    }
  }

  lemma {:induction false} NestedContains(num: nat, ms: seq<M.Message>, i: nat)
    requires i < |ms|
    ensures |W.EncodeAll(M.Nested(num, ms))| >= |M.Serialize(ms[i])|
    decreases |ms|
  {
    hide M.Serialize, W.Encode;
    NestedFront(num, ms);
    EncodeLen(num, M.Serialize(ms[0]));
    if i > 0 { NestedContains(num, ms[1..], i - 1); }
  }

  ghost predicate Fits(m: M.Message)
  {
    m.ChatRoomInfo? && |m.roomName| < V.TWO32 && |M.Serialize(m)| < V.TWO32
  }

  ghost predicate AllFit(ms: seq<M.Message>) {
    forall m :: m in ms ==> Fits(m)
  }

  lemma SizeOfPrefix(size: nat, body: bytes, fits: bool)
    requires fits ==> size == |body| && size < V.TWO32
    requires !fits ==> size >= V.TWO32
    ensures fits ==> LengthDelimitedSize(size) + 1 == |WriteString(2, body)|
    ensures LengthDelimitedSize(size) >= size
  {
    LengthDelimited(body);
  }

  lemma NumberLength(num: nat, v: V.uint64)
    requires num <= 15 && v < 128
    ensures |W.EncodeAll(M.Number(num, v))| == if v == 0 then 0 else 2
  {
    OneByteTag(num, 0);
    if v != 0 { W.EncodeOne(W.Varint(num, v)); }
  }

  lemma NestedNothing(num: nat)
    ensures W.EncodeAll(M.Nested(num, [])) == []
  {
  }
}
