// The chat service as objects: handlers that change players and rooms in place,
// each proved to be the step of module Chat.
module ChatServer {
  import opened Bytes
  import opened Replies
  import C = Chat
  import M = Messages
  import V = Varint

  // `index` is the player's place among all players ever made.
  class Player {
    ghost const index: nat
    const owner: int
    const name: bytes
    var roomId: nat

    constructor (owner: int, name: bytes, ghost index: nat)
      ensures this.owner == owner && this.name == name && this.index == index && roomId == 0
    {
      this.owner, this.name, this.index, roomId := owner, name, index, 0;
    }

    ghost function Value(): C.Player
      reads this
    {
      C.Player(owner, name, roomId)
    }
  }

  class ChatRoom {
    const id: nat
    const name: bytes
    const maxUser: nat
    // The multimap in its order: keys ascending, equal keys in order of entry.
    var keys: seq<nat>
    var players: seq<Player>

    constructor (id: nat, name: bytes, maxUser: nat)
      ensures this.id == id && this.name == name && this.maxUser == maxUser && keys == [] && players == []
    {
      this.id, this.name, this.maxUser, keys, players := id, name, maxUser, [], [];
    }

    ghost predicate Valid()
      reads this
    {
      |keys| == |players|
    }

    ghost function Value(): C.Room
      reads this
    {
      C.Room(id, name, maxUser, Entries(keys, players))
    }

    static ghost function Entries(keys: seq<nat>, players: seq<Player>): (es: seq<C.Entry>)
      ensures |keys| == |players| ==> |es| == |keys|
    {
      if keys == [] || players == [] then [] else [C.Entry(keys[0], players[0].index)] + Entries(keys[1..], players[1..])
    }

    // The first `k` keys are not greater, the next one is.
    static predicate Behind(keys: seq<nat>, key: nat, k: nat) {
      k <= |keys| && (forall i :: 0 <= i < k ==> keys[i] <= key) && (k < |keys| ==> keys[k] > key)
    }

    // emplace: search the place behind the last key that is not greater.
    method Search(key: nat, ghost e: C.Entry) returns (i: nat)
      requires Valid() && e.key == key
      ensures i <= |keys| && Behind(keys, key, i)
      ensures C.Insert(Entries(keys, players), e)
           == Entries(keys[..i], players[..i]) + C.Insert(Entries(keys[i..], players[i..]), e)
    {
      i := 0;
      assert keys[..0] == [] && players[..0] == [] && keys[0..] == keys && players[0..] == players;
      while i < |keys| && keys[i] <= key
        invariant i <= |keys| == |players| && forall j :: 0 <= j < i ==> keys[j] <= key
        invariant C.Insert(Entries(keys, players), e)
               == Entries(keys[..i], players[..i]) + C.Insert(Entries(keys[i..], players[i..]), e)
      {
        hide C.Insert, Entries;
        PassEntry(keys, players, i, e);
        i := i + 1;
      }
    }

    method Enter(player: Player)
      requires Valid()
      modifies this
      ensures Valid()
      ensures Value() == old(Value()).(entries := C.Insert(old(Value()).entries, C.Entry(player.roomId, player.index)))
      ensures forall p :: p in players <==> p == player || p in old(players)
      ensures exists k: nat :: Behind(old(keys), player.roomId, k)
                && keys == old(keys[..k]) + [player.roomId] + old(keys[k..])
                && players == old(players[..k]) + [player] + old(players[k..])
    {
      var i := Search(player.roomId, C.Entry(player.roomId, player.index));
      PlaceEntry(keys, players, i, player.roomId, player);
      hide C.Insert, Entries;
      keys := keys[..i] + [player.roomId] + keys[i..];
      players := players[..i] + [player] + players[i..];
      assert Behind(old(keys), player.roomId, i);
    }

    // The search goes past an entry whose key is not greater ...
    static lemma PassEntry(keys: seq<nat>, players: seq<Player>, i: nat, e: C.Entry)
      requires i < |keys| == |players| && keys[i] <= e.key
      ensures Entries(keys[..i], players[..i]) + C.Insert(Entries(keys[i..], players[i..]), e)
           == Entries(keys[..i + 1], players[..i + 1]) + C.Insert(Entries(keys[i + 1..], players[i + 1..]), e)
    {
      EntriesSnoc(keys[..i], players[..i], keys[i], players[i]);
      assert keys[..i] + [keys[i]] == keys[..i + 1] && players[..i] + [players[i]] == players[..i + 1];
      assert keys[i..][1..] == keys[i + 1..] && players[i..][1..] == players[i + 1..];
      var behind := Entries(keys[i + 1..], players[i + 1..]);
      assert Entries(keys[i..], players[i..]) == [C.Entry(keys[i], players[i].index)] + behind;
      assert ([C.Entry(keys[i], players[i].index)] + behind)[1..] == behind;
    }

    // ... and the new one is put where it stops.
    static lemma PlaceEntry(keys: seq<nat>, players: seq<Player>, i: nat, key: nat, player: Player)
      requires i <= |keys| == |players| && (i < |keys| ==> keys[i] > key)
      ensures Entries(keys[..i] + [key] + keys[i..], players[..i] + [player] + players[i..])
           == Entries(keys[..i], players[..i]) + C.Insert(Entries(keys[i..], players[i..]), C.Entry(key, player.index))
    {
      EntriesSnoc(keys[..i], players[..i], key, player);
      EntriesConcat(keys[..i] + [key], players[..i] + [player], keys[i..], players[i..]);
      var behind := Entries(keys[i..], players[i..]);
      assert C.Insert(behind, C.Entry(key, player.index)) == [C.Entry(key, player.index)] + behind;
    }

    static lemma {:induction false} EntriesConcat(k: seq<nat>, p: seq<Player>, l: seq<nat>, q: seq<Player>)
      requires |k| == |p| && |l| == |q|
      ensures Entries(k + l, p + q) == Entries(k, p) + Entries(l, q)
      decreases |k|
    {
      if k == [] {
        assert k + l == l && p + q == q;
      } else {
        assert (k + l)[1..] == k[1..] + l && (p + q)[1..] == p[1..] + q;
        EntriesConcat(k[1..], p[1..], l, q);
      }
    }

    static lemma EntriesSnoc(k: seq<nat>, p: seq<Player>, key: nat, player: Player)
      requires |k| == |p|
      ensures Entries(k + [key], p + [player]) == Entries(k, p) + [C.Entry(key, player.index)]
    {
      EntriesConcat(k, p, [key], [player]);
    }

    static ghost function Values(ps: seq<Player>): (vs: seq<nat>)
      ensures |vs| == |ps| && forall i :: 0 <= i < |ps| ==> vs[i] == ps[i].index
    {
      seq(|ps|, i requires 0 <= i < |ps| => ps[i].index)
    }

    static lemma {:induction false} EntriesPlayers(keys: seq<nat>, players: seq<Player>)
      requires |keys| == |players|
      ensures C.PlayersIn(Entries(keys, players)) == Values(players)
      decreases |keys|
    {
      if keys != [] {
        EntriesPlayers(keys[1..], players[1..]);
        assert Values(players) == [players[0].index] + Values(players[1..]);
      }
    }

    // The sessions that are sent a copy of the packet: the owner of every entry.
    method BroadCast() returns (to: seq<int>)
      ensures |to| == |players| && forall i :: 0 <= i < |to| ==> to[i] == players[i].owner
    {
      to := [];
      for i := 0 to |players|
        invariant |to| == i && forall j :: 0 <= j < i ==> to[j] == players[j].owner
      {
        to := to + [players[i].owner];
      }
    }

    method GetRoomInfo() returns (info: M.Message)
      requires Valid() && id < C.UINT16 && maxUser < C.UINT16
      ensures info == C.RoomInfo(Value())
    {
      info := M.ChatRoomInfo(id, |players| % C.UINT16, maxUser, name, []);
    }
  }

  class ChatRoomManager {
    var rooms: map<nat, ChatRoom>
    var roomNumber: nat

    constructor ()
      ensures rooms == map[] && roomNumber == 0
    {
      rooms, roomNumber := map[], 0;
    }

    method CreateRoom(name: bytes, maxUser: nat) returns (room: ChatRoom)
      modifies this
      ensures fresh(room) && room.Valid() && room.Value() == C.Room(roomNumber, name, maxUser, [])
      ensures room.players == []
      ensures roomNumber == (old(roomNumber) + 1) % C.UINT16
      ensures rooms == old(rooms)[roomNumber := room]
    {
      roomNumber := (roomNumber + 1) % C.UINT16;
      room := new ChatRoom(roomNumber, name, maxUser);
      rooms := rooms[roomNumber := room];
    }

    method GetRoom(id: nat) returns (room: ChatRoom?)
      ensures room == if id in rooms then rooms[id] else null
    {
      room := if id in rooms then rooms[id] else null;
    }
  }

  // The handlers with what they reach: the sessions' player lists and the rooms.
  // All players and rooms ever made are kept as ghosts, in order of creation.
  class Service {
    const manager: ChatRoomManager
    var sessions: map<int, seq<Player>>
    var outbox: seq<C.Mail>
    var fault: bool
    ghost var players: seq<Player>
    ghost var rooms: seq<ChatRoom>
    ghost var places: map<nat, nat>

    static ghost predicate Indexed(players: seq<Player>) {
      forall i :: 0 <= i < |players| ==> players[i].index == i
    }

    static ghost predicate Distinct(rooms: seq<ChatRoom>) {
      forall i, j :: 0 <= i < j < |rooms| ==> rooms[i] != rooms[j]
    }

    static ghost predicate Closed(rooms: seq<ChatRoom>, players: seq<Player>)
      reads rooms
    {
      forall i :: 0 <= i < |rooms| ==> rooms[i].Valid() && forall p :: p in rooms[i].players ==> p in players
    }

    static ghost predicate Owned(sessions: map<int, seq<Player>>, players: seq<Player>) {
      forall u :: u in sessions ==> forall p :: p in sessions[u] ==> p in players
    }

    static ghost predicate Linked(table: map<nat, ChatRoom>, places: map<nat, nat>, rooms: seq<ChatRoom>) {
      && table.Keys == places.Keys
      && forall k :: k in places ==> places[k] < |rooms| && table[k] == rooms[places[k]]
    }

    ghost predicate Valid()
      reads this, manager, players, rooms
    {
      && Indexed(players) && Distinct(rooms) && Closed(rooms, players)
      && Owned(sessions, players) && Linked(manager.rooms, places, rooms)
      && C.Valid(View())
    }

    ghost function View(): C.State
      reads this, manager, players, rooms
    {
      C.State(PlayerValues(players), SessionValues(sessions), RoomValues(rooms), places,
              manager.roomNumber, outbox, fault)
    }

    static ghost function SessionValues(sessions: map<int, seq<Player>>): (vs: map<int, seq<nat>>)
      ensures vs.Keys == sessions.Keys && forall u :: u in vs ==> vs[u] == ChatRoom.Values(sessions[u])
    {
      map u | u in sessions :: ChatRoom.Values(sessions[u])
    }

    static ghost function PlayerValues(players: seq<Player>): (vs: seq<C.Player>)
      reads players
      ensures |vs| == |players| && forall i :: 0 <= i < |vs| ==> vs[i] == players[i].Value()
    {
      seq(|players|, i requires 0 <= i < |players| reads players => players[i].Value())
    }

    static ghost function RoomValues(rooms: seq<ChatRoom>): (vs: seq<C.Room>)
      reads rooms
      ensures |vs| == |rooms| && forall i :: 0 <= i < |vs| ==> vs[i] == rooms[i].Value()
    {
      seq(|rooms|, i requires 0 <= i < |rooms| reads rooms => rooms[i].Value())
    }

    constructor ()
      ensures Valid() && View() == C.Empty
    {
      manager := new ChatRoomManager();
      sessions, outbox, fault, players, rooms, places := map[], [], false, [], [], map[];
    }
    // ---------------------------------------------------------- parts of handlers

    // MakePacket and Send.  Nothing is known any more once a packet was written
    // beyond its buffer.
    method Answer(to: seq<int>, reply: Reply)
      requires Valid()
      modifies this`outbox, this`fault
      ensures Valid() && View() == C.Answering(old(View()), to, reply)
    {
      ghost var before := View();
      C.AnsweringKeepsValid(before, to, reply);
      hide C.Valid, Pack;
      var packet := Pack(reply);
      if packet.Overrun? {
        fault := true;
      } else {
        outbox := outbox + [C.Mail(to, packet)];
      }
      assert View() == C.Answering(before, to, reply);
    }

    method Fail()
      requires Valid()
      modifies this`fault
      ensures Valid() && View() == C.Faulted(old(View()))
    {
      ghost var before := View();
      fault := true;
      assert View() == C.Faulted(before);
    }

    method SetRoomId(player: Player, id: nat)
      requires Valid() && player in players
      modifies player
      ensures player.index < |players| && Valid() && View() == C.SetRoomId(old(View()), player.index, id)
    {
      ghost var before := View();
      player.roomId := id;
      assert View().players == C.SetRoomId(before, player.index, id).players;
      assert View() == C.SetRoomId(before, player.index, id);
    }

    method EnterRoom(room: ChatRoom, player: Player, ghost r: nat)
      requires Valid() && player in players && r < |rooms| && room == rooms[r]
      modifies room
      ensures player.index < |players| && Valid() && View() == C.EnterRoom(old(View()), player.index, r)
    {
      ghost var before := View();
      C.EnterKeepsValid(before, player.index, r);
      hide C.Valid, C.Insert;
      room.Enter(player);
      assert View().rooms == C.EnterRoom(before, player.index, r).rooms;
      assert View() == C.EnterRoom(before, player.index, r);
    }

    method AddRoom(stored: bytes) returns (room: ChatRoom)
      requires Valid()
      modifies manager, this`rooms, this`places
      ensures Valid() && View() == C.AddRoom(old(View()), stored)
      ensures fresh(room) && rooms == old(rooms) + [room] && |old(rooms)| == |old(View()).rooms|
      ensures room.id == View().roomNumber < C.UINT16
    {
      ghost var before := View();
      C.AddKeepsValid(before, stored);
      assert Linked(manager.rooms, places, rooms);
      hide C.Valid, Indexed, Owned, Linked, Distinct, Closed, RoomValues, PlayerValues, SessionValues, C.AddRoom;
      room := manager.CreateRoom(stored, C.MAX_USER);
      assert RoomValues(rooms) == before.rooms;
      AppendRoom(rooms, room, players);
      AppendPlace(old(manager.rooms), places, rooms, manager.roomNumber, room);
      places := places[manager.roomNumber := |rooms|];
      rooms := rooms + [room];
      assert View() == C.AddRoom(before, stored) by { AddedRoom(before, View(), stored, room.Value()); }
    }

    static lemma AppendRoom(rooms: seq<ChatRoom>, room: ChatRoom, players: seq<Player>)
      requires Distinct(rooms) && Closed(rooms, players) && room !in rooms && room.Valid() && room.players == []
      ensures Distinct(rooms + [room]) && Closed(rooms + [room], players)
      ensures RoomValues(rooms + [room]) == RoomValues(rooms) + [room.Value()]
    {
    }

    static lemma AppendPlace(table: map<nat, ChatRoom>, places: map<nat, nat>, rooms: seq<ChatRoom>, id: nat, room: ChatRoom)
      requires Linked(table, places, rooms)
      ensures Linked(table[id := room], places[id := |rooms|], rooms + [room])
    {
    }

    static lemma AppendPlayer(sessions: map<int, seq<Player>>, players: seq<Player>, rooms: seq<ChatRoom>, u: int,
                              player: Player)
      requires Indexed(players) && Owned(sessions, players) && Closed(rooms, players) && player.index == |players|
      ensures var mine := if u in sessions then sessions[u] else [];
              && Indexed(players + [player]) && Closed(rooms, players + [player])
              && Owned(sessions[u := mine + [player]], players + [player])
              && var was := if u in sessions then SessionValues(sessions)[u] else [];
              && SessionValues(sessions[u := mine + [player]]) == SessionValues(sessions)[u := was + [player.index]]
              && PlayerValues(players + [player]) == PlayerValues(players) + [player.Value()]
    {
      var mine := if u in sessions then sessions[u] else [];
      assert ChatRoom.Values(mine + [player]) == ChatRoom.Values(mine) + [player.index];
    }

    static lemma AddedRoom(s: C.State, t: C.State, stored: bytes, r: C.Room)
      requires t == s.(roomNumber := r.id, rooms := s.rooms + [r], table := s.table[r.id := |s.rooms|])
      requires r == C.Room((s.roomNumber + 1) % C.UINT16, stored, C.MAX_USER, [])
      ensures t == C.AddRoom(s, stored)
    {
    }

    method AddPlayer(u: int, id: bytes)
      requires Valid()
      modifies this`players, this`sessions
      ensures Valid() && View() == C.LoggedIn(old(View()), u, id)
    {
      ghost var before := View();
      C.LoginKeepsValid(before, u, id);
      hide C.Valid;
      var player := new Player(u, id, |players|);
      AppendPlayer(sessions, players, rooms, u, player);
      hide Linked, Indexed, Owned, Closed, Distinct, PlayerValues, RoomValues, SessionValues, ChatRoom.Values;
      var mine := if u in sessions then sessions[u] else [];
      sessions := sessions[u := mine + [player]];
      players := players + [player];
      assert View() == C.LoggedIn(before, u, id);
    }

    // The handlers take the first player of the session.
    method FirstPlayer(u: int) returns (player: Player?)
      requires Valid()
      ensures player != null <==> u in View().sessions
      ensures player != null ==>
                player in players && View().sessions[u] != [] && player.index == View().sessions[u][0] < |View().players|
                && player.Value() == View().players[player.index]
    {
      if u !in sessions { return null; }
      assert u in View().sessions && View().sessions[u] != [];
      player := sessions[u][0];
    }

    method FindRoom(id: nat) returns (room: ChatRoom?)
      requires Valid()
      ensures room != null <==> id in View().table
      ensures room != null ==> View().table[id] < |rooms| == |View().rooms| && room == rooms[View().table[id]]
      ensures room != null ==> room.Value() == View().rooms[View().table[id]]
    {
      room := manager.GetRoom(id);
    }

    method BroadCastTo(room: ChatRoom, ghost r: nat, ack: Reply)
      requires Valid() && r < |rooms| && room == rooms[r]
      modifies this`outbox, this`fault
      ensures C.Valid(old(View())) && r < |old(View()).rooms|
      ensures Valid() && View() == C.BroadCasting(old(View()), r, ack)
    {
      ghost var v := View();
      assert room.Value() == v.rooms[r];
      ghost var ps := C.PlayersIn(v.rooms[r].entries);
      assert C.Known(ps, |v.players|);
      var to := room.BroadCast();
      ChatRoom.EntriesPlayers(room.keys, room.players);
      SameOwners(players, room.players, ps, v.players, to);
      hide C.Valid, Valid, Pack;
      Answer(to, ack);
    }

    static lemma SameOwners(all: seq<Player>, those: seq<Player>, ps: seq<nat>, values: seq<C.Player>, to: seq<int>)
      requires Indexed(all) && values == PlayerValues(all) && (forall p :: p in those ==> p in all)
      requires ps == ChatRoom.Values(those) && C.Known(ps, |values|) && |to| == |those|
      requires forall i :: 0 <= i < |to| ==> to[i] == those[i].owner
      ensures to == C.Owners(values, ps)
    {
      C.OwnersEach(values, ps);
      forall i | 0 <= i < |to| ensures to[i] == C.Owners(values, ps)[i] {
        assert those[i] in all;
        assert values[ps[i]].owner == those[i].owner;
      }
    }

    // The information on the room under a number, if there is one.
    method InfosAt(id: nat) returns (infos: seq<M.Message>)
      requires Valid()
      ensures Valid() && View() == old(View()) && C.Valid(View())
      ensures infos == if id in View().table then [C.RoomInfo(View().rooms[View().table[id]])] else []
    {
      infos := [];
      if id in manager.rooms {
        var room := manager.rooms[id];
        assert room == rooms[places[id]] && room.Value() == View().rooms[places[id]];
        var info := room.GetRoomInfo();
        infos := [info];
      }
    }

    lemma ViewIsValid()
      requires Valid()
      ensures C.Valid(View()) && View().fault == fault
    {
    }

    // ------------------------------------------------------------------ handlers

    method HandleLoginReq(u: int, id: bytes)
      requires Valid() && !fault
      modifies this
      ensures Valid() && View() == C.Next(old(View()), C.Login(u, id))
    {
      AddPlayer(u, id);
      hide Valid, View, C.LoggedIn, Pack;
      Answer([u], LoginAck(id));
    }

    method HandleCreateChatRoomReq(u: int, name: bytes, stored: bytes)
      requires Valid() && !fault
      modifies this, manager, players, rooms
      ensures Valid() && View() == C.Next(old(View()), C.Create(u, name, stored))
    {
      ghost var before := View();
      hide Valid, View, C.Valid, C.EnterRoom, C.SetRoomId, Pack;
      ViewIsValid();
      var player := FirstPlayer(u);
      if player == null {
        C.WithoutPlayer(before, C.Create(u, name, stored));
        Fail();
        return;
      }
      C.CreateIs(before, u, player.index, name, stored);
      hide C.Next;
      var newRoom := AddRoom(stored);
      EnterRoom(newRoom, player, |before.rooms|);
      SetRoomId(player, newRoom.id);
      Answer([u], EnterAck(newRoom.id, name));
    }

    method EnterAndTell(room: ChatRoom, player: Player, ghost r: nat, u: int)
      requires Valid() && player in players && r < |rooms| && room == rooms[r]
      requires room.id < C.UINT16
      modifies this`outbox, this`fault, room
      ensures player.index < |players|
      ensures Valid()
      ensures View() == C.Answering(C.EnterRoom(old(View()), player.index, r), [u], EnterAck(room.id, room.name))
    {
      hide Valid, View, C.EnterRoom, Pack;
      EnterRoom(room, player, r);
      Answer([u], EnterAck(room.id, room.name));
    }

    method EnterAs(player: Player, roomId: V.int32, u: int)
      requires Valid() && !fault && u in View().sessions && View().sessions[u] != [] && player in players
      requires player.index == View().sessions[u][0] < |View().players|
      modifies this, players, rooms
      ensures Valid() && View() == C.Next(old(View()), C.Enter(u, roomId))
    {
      ghost var before := View();
      hide Valid, View, C.Valid, C.Next, C.EnterRoom, C.SetRoomId, Pack;
      ViewIsValid();
      C.EnterIs(before, u, player.index, roomId);
      C.SetElsewhere(before, player.index, C.Narrow(roomId));
      SetRoomId(player, C.Narrow(roomId));
      ghost var between := View();
      var selectRoom := FindRoom(C.Narrow(roomId));
      if selectRoom == null {
        Fail();
        return;
      }
      EnterAndTell(selectRoom, player, between.table[C.Narrow(roomId)], u);
    }

    method HandleEnterChatRoomReq(u: int, roomId: V.int32)
      requires Valid() && !fault
      modifies this, players, rooms
      ensures Valid() && View() == C.Next(old(View()), C.Enter(u, roomId))
    {
      ghost var before, q := View(), C.Enter(u, roomId);
      hide Valid, View, C.Next, C.Valid;
      ViewIsValid();
      var player := FirstPlayer(u);
      if player == null {
        C.WithoutPlayer(before, q);
        Fail();
      } else {
        EnterAs(player, roomId, u);
      }
    }

    method ChatAs(player: Player, text: bytes, ghost u: int)
      requires Valid() && !fault && u in View().sessions && View().sessions[u] != []
      requires player.index == View().sessions[u][0] < |View().players| && player.Value() == View().players[player.index]
      modifies this
      ensures Valid() && View() == C.Next(old(View()), C.Chat(u, text))
    {
      ghost var before, q := View(), C.Chat(u, text);
      hide Valid, View, C.Next, C.Valid, C.BroadCasting, Pack;
      ViewIsValid();
      var selectRoom := FindRoom(player.roomId);
      if selectRoom == null {
        C.ChatWithoutRoom(before, q, player.index);
        Fail();
        return;
      }
      C.ChatRuns(before, q, player.index);
      BroadCastTo(selectRoom, before.table[player.roomId], ChatAck(player.name, text));
    }

    method HandleChatReq(u: int, text: bytes)
      requires Valid() && !fault
      modifies this
      ensures Valid() && View() == C.Next(old(View()), C.Chat(u, text))
    {
      ghost var before, q := View(), C.Chat(u, text);
      hide Valid, View, C.Next, C.Valid, C.PlayersIn, C.Owners, C.Known, Pack;
      ViewIsValid();
      var player := FirstPlayer(u);
      if player == null {
        C.WithoutPlayer(before, q);
        Fail();
      } else {
        ChatAs(player, text, u);
      }
    }

    // The table is a sorted map: its rooms by ascending number.
    method CollectRooms(first: nat) returns (success: bool, infos: seq<M.Message>)
      requires Valid() && first <= C.UINT16
      ensures C.Valid(View()) && infos == C.RoomsFrom(View(), first)
      ensures success <==> infos != []
    {
      ghost var v := View();
      success, infos := false, [];
      var k := first;
      assert C.Valid(v);
      assert C.RoomsFrom(v, first) == infos + C.RoomsFrom(v, k);
      hide Valid, C.Valid, View, C.RoomInfo;
      while k < C.UINT16
        invariant k <= C.UINT16 && Valid() && View() == v
        invariant C.RoomsFrom(v, first) == infos + C.RoomsFrom(v, k)
        invariant success <==> infos != []
      {
        hide C.RoomsFrom;
        var more := InfosAt(k);
        C.RoomsFromNext(v, first, k, infos);
        success, infos := success || more != [], infos + more;
        k := k + 1;
      }
    }

    method HandleChatRoomListReq(u: int)
      requires Valid() && !fault
      modifies this
      ensures Valid() && View() == C.Next(old(View()), C.List(u))
    {
      var success, infos := CollectRooms(0);
      C.ListIs(View(), u, infos);
      hide Valid, C.Valid, View, C.RoomsFrom, C.Next, Pack;
      Answer([u], ListAck(M.ChatRoomListAck(success, infos, [])));
    }
  }
}
