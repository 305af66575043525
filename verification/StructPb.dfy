// The generated classes of Struct.pb.cc: fields that the parse loop, Clear and
// MergeFrom overwrite in place, and a cached size that ByteSizeLong leaves for
// the serializer of an enclosing message.
module StructPb {
  import opened Bytes
  import opened ParseLoop
  import V = Varint
  import W = Wire
  import M = Messages
  import R = Reader
  import Utf8

  class ChatRoomInfo {
    var roomName: bytes
    var roomId: V.uint32
    var currentUser: V.uint32
    var maxUser: V.uint32
    var unknown: seq<W.Field>
    var cachedSize: nat

    ghost function Value(): (m: M.Message)
      reads this`roomName, this`roomId, this`currentUser, this`maxUser, this`unknown
      ensures m.ChatRoomInfo?
    {
      M.ChatRoomInfo(roomId, currentUser, maxUser, roomName, unknown)
    }

    constructor ()
      ensures Value() == M.EmptyRoom && cachedSize == 0
    {
      roomName, roomId, currentUser, maxUser, unknown, cachedSize := [], 0, 0, 0, [], 0;
    }

    method Clear()
      modifies this
      ensures Value() == M.Cleared(old(Value())) && cachedSize == old(cachedSize)
    {
      roomName := [];
      roomId, currentUser, maxUser := 0, 0, 0;
      unknown := [];
    }

    // The switch on one tag.
    method ParseRecord(b: bytes, pos: nat, depth: nat) returns (ok: bool, next: nat)
      requires pos < |b|
      modifies this
      ensures ok ==> pos < next <= |b|
      ensures ok ==> M.Parse(old(Value()), b[pos..], depth) == M.Parse(Value(), b[next..], depth)
      ensures !ok ==> M.Parse(old(Value()), b[pos..], depth).None?
      ensures cachedSize == old(cachedSize)
    {
      hide M.Parse, W.ReadBody, W.Records, W.ReadTag;
      ghost var x := Value();
      var tag, p, v, str;
      ghost var f;
      ok, tag, p := R.ReadTag(b, pos);
      if !ok { Refused(x, b, pos, depth); return false, pos; }
      if tag / 8 == 1 && tag % 256 == 8 {
        ok, v, f, next := UInt32Payload(1, b, p, depth);
        if !ok { Refused(x, b, pos, depth); return; }
        roomId := v;
      } else if tag / 8 == 2 && tag % 256 == 16 {
        ok, v, f, next := UInt32Payload(2, b, p, depth);
        if !ok { Refused(x, b, pos, depth); return; }
        currentUser := v;
      } else if tag / 8 == 3 && tag % 256 == 24 {
        ok, v, f, next := UInt32Payload(3, b, p, depth);
        if !ok { Refused(x, b, pos, depth); return; }
        maxUser := v;
      } else if tag / 8 == 4 && tag % 256 == 34 {
        ok, str, f, next := StringPayload(4, b, p, depth);
        if !ok || !Utf8.Valid(str) { Refused(x, b, pos, depth); return false, pos; }
        roomName := str;
      } else {
        if W.EndsMessage(tag) {
          EndTagsCarryNothing(tag, b[p..], depth);
          Refused(x, b, pos, depth);
          return false, pos;
        }
        var g;
        ok, g, next := R.UnknownFieldParse(tag, b, p, depth);
        if !ok { Refused(x, b, pos, depth); return; }
        unknown, f := unknown + [g], g;
      }
      Taken(x, Value(), b, pos, p, next, f, depth);
    }

    // _InternalParse together with the check of its callers that the parse
    // ended at the limit: stopping at tag 0 or at an end-group tag is "not ok".
    // The fields of a failed parse hold whatever had been read.
    method InternalParse(b: bytes, depth: nat) returns (ok: bool)
      modifies this
      ensures ok <==> M.Parse(old(Value()), b, depth).Some?
      ensures ok ==> M.Parse(old(Value()), b, depth) == Some(Value())
      ensures cachedSize == old(cachedSize)
    {
      var pos := 0;
      assert b[0..] == b;
      while pos < |b|
        invariant pos <= |b|
        invariant M.Parse(old(Value()), b, depth) == M.Parse(Value(), b[pos..], depth)
        invariant cachedSize == old(cachedSize)
      {
        ok, pos := ParseRecord(b, pos, depth);
        if !ok { return; }
      }
      ok := true;
    }

    // ParseFromArray.
    method ParseFromArray(b: bytes) returns (ok: bool)
      modifies this
      ensures ok <==> M.Parse(M.EmptyRoom, b, W.MAX_DEPTH).Some?
      ensures ok ==> M.Parse(M.EmptyRoom, b, W.MAX_DEPTH) == Some(Value())
    {
      Clear();
      ok := InternalParse(b, W.MAX_DEPTH);
    }

    // The parts that the serializer writes and ByteSizeLong measures.
    lemma Parts()
      ensures var n1, n2, n3, n4 := M.Number(1, roomId), M.Number(2, currentUser), M.Number(3, maxUser), M.Text(4, roomName);
              M.Serialize(Value()) == W.EncodeAll(n1) + W.EncodeAll(n2) + W.EncodeAll(n3) + W.EncodeAll(n4) + W.EncodeAll(unknown)
    {
      var n1, n2, n3, n4 := M.Number(1, roomId), M.Number(2, currentUser), M.Number(3, maxUser), M.Text(4, roomName);
      W.EncodeAllConcat(n1, n2);
      W.EncodeAllConcat(n1 + n2, n3);
      W.EncodeAllConcat(n1 + n2 + n3, n4);
      W.EncodeAllConcat(n1 + n2 + n3 + n4, unknown);
    }

    method InternalSerialize() returns (target: bytes)
      ensures target == M.Serialize(Value())
    {
      Parts();
      hide M.Serialize, W.EncodeAll, M.Number, M.Text;
      target := PutNumber([], 1, roomId);
      target := PutNumber(target, 2, currentUser);
      target := PutNumber(target, 3, maxUser);
      target := PutText(target, 4, roomName);
      target := target + W.EncodeAll(unknown);
    }

    // Every length that a size or a prefix is computed from fits 32 bits.
    predicate Addressable()
      reads this`roomName
    {
      |roomName| < V.TWO32
    }

    lemma NotAddressableIsLong()
      ensures |M.Serialize(Value())| >= |roomName|
    {
      Parts();
      LengthDelimited(roomName);
      if roomName != [] { W.EncodeOne(W.Len(4, roomName)); }
    }

    method ByteSizeLong() returns (total: nat)
      requires W.AllValid(unknown, W.MAX_DEPTH)
      modifies this`cachedSize
      ensures Addressable() ==> total == |M.Serialize(Value())|
      ensures !Addressable() ==> total >= V.TWO32
      ensures cachedSize == total % V.TWO32
    {
      Parts();
      W.SizeAllIsLength(unknown, W.MAX_DEPTH);
      total := CountText(0, 4, roomName);
      total := CountNumber(total, 1, roomId);
      total := CountNumber(total, 2, currentUser);
      total := CountNumber(total, 3, maxUser);
      total := total + W.SizeAll(unknown);
      cachedSize := total % V.TWO32;
    }

    method MergeFrom(from: ChatRoomInfo)
      requires from != this
      modifies this
      ensures Value() == M.Merge(old(Value()), from.Value()) && cachedSize == old(cachedSize)
    {
      unknown := unknown + from.unknown;
      if from.roomName != [] { roomName := from.roomName; }
      if from.roomId != 0 { roomId := from.roomId; }
      if from.currentUser != 0 { currentUser := from.currentUser; }
      if from.maxUser != 0 { maxUser := from.maxUser; }
    }

    // A copy, even onto itself.
    method CopyFrom(from: ChatRoomInfo)
      modifies this
      ensures Value() == old(from.Value()) && cachedSize == old(cachedSize)
    {
      if from == this { return; }
      Clear();
      MergeFrom(from);
      M.MergeIntoCleared(from.Value());
    }
  }

  class LoginRes {
    var userId: bytes
    var message: bytes
    // An open enum: any int32.
    var result: V.int32
    var unknown: seq<W.Field>
    var cachedSize: nat

    ghost function Value(): M.Message
      reads this`userId, this`message, this`result, this`unknown
    {
      M.LoginRes(result, userId, message, unknown)
    }

    constructor ()
      ensures Value() == M.LoginRes(0, [], [], [])
    {
      userId, message, result, unknown, cachedSize := [], [], 0, [], 0;
    }

    method Clear()
      modifies this
      ensures Value() == M.LoginRes(0, [], [], [])
    {
      userId := [];
      message := [];
      result := 0;
      unknown := [];
    }

    method ParseRecord(b: bytes, pos: nat, depth: nat) returns (ok: bool, next: nat)
      requires pos < |b|
      modifies this
      ensures ok ==> pos < next <= |b|
      ensures ok ==> M.Parse(old(Value()), b[pos..], depth) == M.Parse(Value(), b[next..], depth)
      ensures !ok ==> M.Parse(old(Value()), b[pos..], depth).None?
    {
      hide M.Parse, W.ReadBody, W.Records, W.ReadTag;
      ghost var x := Value();
      var tag, p, v, str;
      ghost var f;
      ok, tag, p := R.ReadTag(b, pos);
      if !ok { Refused(x, b, pos, depth); return false, pos; }
      if tag / 8 == 1 && tag % 256 == 8 {
        ok, v, f, next := VarintPayload(1, b, p, depth);
        if !ok { Refused(x, b, pos, depth); return; }
        result := V.ToInt32(v);
      } else if tag / 8 == 2 && tag % 256 == 18 {
        ok, str, f, next := StringPayload(2, b, p, depth);
        if !ok || !Utf8.Valid(str) { Refused(x, b, pos, depth); return false, pos; }
        userId := str;
      } else if tag / 8 == 3 && tag % 256 == 26 {
        ok, str, f, next := StringPayload(3, b, p, depth);
        if !ok || !Utf8.Valid(str) { Refused(x, b, pos, depth); return false, pos; }
        message := str;
      } else {
        if W.EndsMessage(tag) {
          EndTagsCarryNothing(tag, b[p..], depth);
          Refused(x, b, pos, depth);
          return false, pos;
        }
        var g;
        ok, g, next := R.UnknownFieldParse(tag, b, p, depth);
        if !ok { Refused(x, b, pos, depth); return; }
        unknown, f := unknown + [g], g;
      }
      Taken(x, Value(), b, pos, p, next, f, depth);
    }

    method ParseFromArray(b: bytes) returns (ok: bool)
      modifies this
      ensures ok <==> M.Parse(M.LoginRes(0, [], [], []), b, W.MAX_DEPTH).Some?
      ensures ok ==> M.Parse(M.LoginRes(0, [], [], []), b, W.MAX_DEPTH) == Some(Value())
    {
      Clear();
      var pos := 0;
      assert b[0..] == b;
      while pos < |b|
        invariant pos <= |b|
        invariant M.Parse(M.LoginRes(0, [], [], []), b, W.MAX_DEPTH) == M.Parse(Value(), b[pos..], W.MAX_DEPTH)
      {
        ok, pos := ParseRecord(b, pos, W.MAX_DEPTH);
        if !ok { return; }
      }
      ok := true;
    }

    lemma Parts()
      ensures M.Serialize(Value()) == W.EncodeAll(M.Number(1, V.SignExtend(result))) + W.EncodeAll(M.Text(2, userId))
                                    + W.EncodeAll(M.Text(3, message)) + W.EncodeAll(unknown)
    {
      var n1, n2, n3 := M.Number(1, V.SignExtend(result)), M.Text(2, userId), M.Text(3, message);
      W.EncodeAllConcat(n1, n2);
      W.EncodeAllConcat(n1 + n2, n3);
      W.EncodeAllConcat(n1 + n2 + n3, unknown);
    }

    method InternalSerialize() returns (target: bytes)
      ensures target == M.Serialize(Value())
    {
      Parts();
      hide M.Serialize, W.EncodeAll, M.Number, M.Text;
      target := PutNumber([], 1, V.SignExtend(result));
      target := PutText(target, 2, userId);
      target := PutText(target, 3, message);
      target := target + W.EncodeAll(unknown);
    }

    // EnumSize counts ten bytes for a negative value.
    method ByteSizeLong() returns (total: nat)
      requires W.AllValid(unknown, W.MAX_DEPTH)
      modifies this`cachedSize
      ensures |userId| < V.TWO32 && |message| < V.TWO32 ==> total == |M.Serialize(Value())|
      ensures total >= |userId| + |message|
      ensures cachedSize == total % V.TWO32
    {
      Parts();
      W.SizeAllIsLength(unknown, W.MAX_DEPTH);
      EnumSize(1, result);
      hide M.Serialize, W.EncodeAll, W.SizeAll, M.Number, M.Text, V.SizeOf;
      total := CountText(0, 2, userId);
      total := CountText(total, 3, message);
      if result != 0 { total := total + 1 + if result < 0 then 10 else V.SizeOf(result); }
      total := total + W.SizeAll(unknown);
      cachedSize := total % V.TWO32;
    }

    method MergeFrom(from: LoginRes)
      requires from != this
      modifies this
      ensures Value() == M.Merge(old(Value()), from.Value())
    {
      unknown := unknown + from.unknown;
      if from.userId != [] { userId := from.userId; }
      if from.message != [] { message := from.message; }
      if from.result != 0 { result := from.result; }
    }

    method CopyFrom(from: LoginRes)
      modifies this
      ensures Value() == old(from.Value())
    {
      if from == this { return; }
      Clear();
      MergeFrom(from);
      M.MergeIntoCleared(from.Value());
    }
  }

  // No string too long for the 32 bits that its prefix is computed in.
  ghost predicate AllShort(ss: seq<bytes>) {
    forall s :: s in ss ==> |s| < V.TWO32
  }

  lemma AllShortSnoc(ss: seq<bytes>, s: bytes)
    ensures AllShort(ss + [s]) <==> AllShort(ss) && |s| < V.TWO32
  {
    if AllShort(ss + [s]) {
      assert forall x :: x in ss ==> x in ss + [s];
      assert s in ss + [s];
    }
  }

  // The loop over a repeated string field.
  method SizeStrings(ss: seq<bytes>) returns (total: nat)
    ensures AllShort(ss) ==> total == |W.EncodeAll(M.Strings(1, ss))|
    ensures !AllShort(ss) ==> total >= V.TWO32
  {
    hide W.EncodeAll, M.Strings, LengthDelimitedSize, WriteString;
    total := 1 * |ss|;
    assert ss[..0] == [];
    NoStrings(1);
    for i := 0 to |ss|
      invariant AllShort(ss[..i]) ==> total == |ss| - i + |W.EncodeAll(M.Strings(1, ss[..i]))|
      invariant !AllShort(ss[..i]) ==> total >= V.TWO32
      invariant total >= |ss| - i
    {
      StringLength(1, ss[i]);
      total := total + LengthDelimitedSize(|ss[i]|);
      StringsSnoc(1, ss[..i], ss[i]);
      AllShortSnoc(ss[..i], ss[i]);
      assert ss[..i] + [ss[i]] == ss[..i + 1];
    }
    assert ss[..|ss|] == ss;
  }

  class UserListRes {
    var users: seq<bytes>
    var unknown: seq<W.Field>
    var cachedSize: nat

    ghost function Value(): M.Message
      reads this`users, this`unknown
    {
      M.UserListRes(users, unknown)
    }

    constructor ()
      ensures Value() == M.UserListRes([], [])
    {
      users, unknown, cachedSize := [], [], 0;
    }

    method Clear()
      modifies this
      ensures Value() == M.UserListRes([], [])
    {
      users := [];
      unknown := [];
    }

    // The do-while loop over consecutive strings.
    method ParseUsers(b: bytes, pos: nat, tagEnd: nat, depth: nat) returns (ok: bool, next: nat)
      requires pos < tagEnd <= |b|
      requires W.ReadTag(b[pos..]) == Some((10, tagEnd - pos))
      modifies this`users
      ensures ok ==> pos < next <= |b|
      ensures ok ==> M.Parse(old(Value()), b[pos..], depth) == M.Parse(Value(), b[next..], depth)
      ensures !ok ==> M.Parse(old(Value()), b[pos..], depth).None?
    {
      hide M.Parse, W.ReadBody, W.Records, W.ReadTag;
      next := tagEnd - 1;
      ghost var tagStart := pos;
      while true
        invariant pos <= tagStart <= next < |b|
        invariant W.ReadTag(b[tagStart..]) == Some((10, next + 1 - tagStart))
        invariant M.Parse(old(Value()), b[pos..], depth) == M.Parse(Value(), b[tagStart..], depth)
        decreases |b| - next
      {
        ghost var x := Value();
        next := next + 1;
        ghost var p := next;
        var str;
        ghost var f;
        ok, str, f, next := StringPayload(1, b, next, depth);
        if !ok || !Utf8.Valid(str) { Refused(x, b, tagStart, depth); return false, pos; }
        users := users + [str];
        Taken(x, Value(), b, tagStart, p, next, f, depth);
        if next >= |b| { return; }
        if b[next] != 10 { return; }
        OneByteTagReads(b, next);
        tagStart := next;
      }
    }

    method ParseFromArray(b: bytes) returns (ok: bool)
      modifies this
      ensures ok <==> M.Parse(M.UserListRes([], []), b, W.MAX_DEPTH).Some?
      ensures ok ==> M.Parse(M.UserListRes([], []), b, W.MAX_DEPTH) == Some(Value())
    {
      hide M.Parse, W.ReadBody, W.Records, W.ReadTag, M.Apply;
      Clear();
      var pos, depth := 0, W.MAX_DEPTH;
      assert b[0..] == b;
      ghost var goal := M.Parse(Value(), b, depth);
      while pos < |b|
        invariant pos <= |b|
        invariant goal == M.Parse(Value(), b[pos..], depth)
      {
        ghost var x := Value();
        var tag, p;
        ok, tag, p := R.ReadTag(b, pos);
        if !ok { Refused(x, b, pos, depth); return false; }
        if tag / 8 == 1 && tag % 256 == 10 {
          ok, pos := ParseUsers(b, pos, p, depth);
          if !ok { return; }
        } else {
          if W.EndsMessage(tag) {
            EndTagsCarryNothing(tag, b[p..], depth);
            Refused(x, b, pos, depth);
            return false;
          }
          var g, next;
          ok, g, next := R.UnknownFieldParse(tag, b, p, depth);
          if !ok { Refused(x, b, pos, depth); return; }
          unknown := unknown + [g];
          UnlistedIsKept(x, g, depth);
          Taken(x, Value(), b, pos, p, next, g, depth);
          pos := next;
        }
      }
      EmptyInput(Value(), depth);
      assert b[pos..] == [];
      ok := true;
    }

    method InternalSerialize() returns (target: bytes)
      ensures target == M.Serialize(Value())
    {
      W.EncodeAllConcat(M.Strings(1, users), unknown);
      hide W.EncodeAll, M.Strings;
      target := [];
      assert users[..0] == [];
      NoStrings(1);
      for i := 0 to |users|
        invariant target == W.EncodeAll(M.Strings(1, users[..i]))
      {
        target := target + WriteString(1, users[i]);
        StringsSnoc(1, users[..i], users[i]);
        assert users[..i] + [users[i]] == users[..i + 1];
      }
      assert users[..|users|] == users;
      target := target + W.EncodeAll(unknown);
    }

    method ByteSizeLong() returns (total: nat)
      requires W.AllValid(unknown, W.MAX_DEPTH)
      modifies this`cachedSize
      ensures AllShort(users) ==> total == |M.Serialize(Value())|
      ensures !AllShort(users) ==> total >= V.TWO32
      ensures cachedSize == total % V.TWO32
    {
      W.EncodeAllConcat(M.Strings(1, users), unknown);
      W.SizeAllIsLength(unknown, W.MAX_DEPTH);
      hide W.EncodeAll, W.SizeAll, M.Strings;
      total := SizeStrings(users);
      total := total + W.SizeAll(unknown);
      cachedSize := total % V.TWO32;
    }

    method MergeFrom(from: UserListRes)
      requires from != this
      modifies this
      ensures Value() == M.Merge(old(Value()), from.Value())
    {
      unknown := unknown + from.unknown;
      users := users + from.users;
    }
  }
}
