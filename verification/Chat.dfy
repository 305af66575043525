// The chat service: what the request handlers do to players and rooms, and the
// history of logins, creations and entries that explains every reply.
module Chat {
  import opened Bytes
  import opened Replies
  import M = Messages
  import V = Varint

  // ------------------------------------------------------------------- the state

  // Players and rooms are named by the order in which they were made.  A room
  // keeps its players in a multimap under the room id the player had on entry.
  datatype Player = Player(owner: int, name: bytes, roomId: nat)

  datatype Entry = Entry(key: nat, player: nat)

  datatype Room = Room(id: nat, name: bytes, maxUser: nat, entries: seq<Entry>)

  // One call of MakePacket and the sessions that are sent a copy of the packet.
  datatype Mail = Mail(to: seq<int>, packet: Packet)

  // `outbox` has a mail for each answered request; `fault` is set when a handler
  // dereferences a player or a room that is not there, or MakePacket writes beyond
  // its buffer.
  datatype State = State(players: seq<Player>, sessions: map<int, seq<nat>>, rooms: seq<Room>, table: map<nat, nat>,
                         roomNumber: nat, outbox: seq<Mail>, fault: bool)

  // A room name arrives in one encoding and is stored in another.
  datatype Request =
    | Login(session: int, id: bytes)
    | Create(session: int, name: bytes, stored: bytes)
    | Enter(session: int, roomId: V.int32)
    | Chat(session: int, text: bytes)
    | List(session: int)

  const MAX_USER: nat := 10
  const UINT16: nat := 0x1_0000

  // An int32 stored in a uint16.
  function Narrow(roomId: int): (id: nat)
    ensures id < UINT16
  {
    roomId % UINT16
  }

  const Empty := State([], map[], [], map[], 0, [], false)

  predicate Valid(s: State) {
    && s.roomNumber < UINT16
    && (forall u :: u in s.sessions ==> s.sessions[u] != [] && Known(s.sessions[u], |s.players|))
    && (forall k :: k in s.table ==> k < UINT16 && s.table[k] < |s.rooms|)
    && (forall i :: 0 <= i < |s.rooms| ==> Known(PlayersIn(s.rooms[i].entries), |s.players|))
    && (forall i :: 0 <= i < |s.rooms| ==> s.rooms[i].id < UINT16 && s.rooms[i].maxUser == MAX_USER)
  }

  // ----------------------------------------------------------------- the handlers

  // multimap::emplace: behind the last entry whose key is not greater.
  function Insert(es: seq<Entry>, e: Entry): seq<Entry> {
    if es == [] || es[0].key > e.key then [e] + es else [es[0]] + Insert(es[1..], e)
  }

  function PlayersIn(es: seq<Entry>): (ps: seq<nat>)
    ensures |ps| == |es|
  {
    if es == [] then [] else [es[0].player] + PlayersIn(es[1..])
  }

  predicate Known(ps: seq<nat>, n: nat) {
    forall i :: 0 <= i < |ps| ==> ps[i] < n
  }

  // BroadCast: a copy to the owner of each player.
  function Owners(players: seq<Player>, ps: seq<nat>): (to: seq<int>)
    requires Known(ps, |players|)
    ensures |to| == |ps|
  {
    if ps == [] then [] else [players[ps[0]].owner] + Owners(players, ps[1..])
  }

  function Faulted(s: State): State {
    s.(fault := true)
  }

  // MakePacket and Send.
  function Answering(s: State, to: seq<int>, reply: Reply): State {
    if Pack(reply).Overrun? then Faulted(s) else s.(outbox := s.outbox + [Mail(to, Pack(reply))])
  }

  function EnterRoom(s: State, p: nat, room: nat): State
    requires p < |s.players| && room < |s.rooms|
  {
    var r := s.rooms[room];
    s.(rooms := s.rooms[room := r.(entries := Insert(r.entries, Entry(s.players[p].roomId, p)))])
  }

  function SetRoomId(s: State, p: nat, id: nat): State
    requires p < |s.players|
  {
    s.(players := s.players[p := s.players[p].(roomId := id)])
  }

  // CreateRoom: the number is a uint16, and the table entry is overwritten.
  function AddRoom(s: State, stored: bytes): State {
    var id := (s.roomNumber + 1) % UINT16;
    s.(roomNumber := id, rooms := s.rooms + [Room(id, stored, MAX_USER, [])], table := s.table[id := |s.rooms|])
  }

  // GetRoomInfo: the number of entries as a uint16.
  function RoomInfo(r: Room): M.Message
    requires r.id < UINT16 && r.maxUser < UINT16
  {
    M.ChatRoomInfo(r.id, |r.entries| % UINT16, r.maxUser, r.name, [])
  }

  // The rooms of the table by ascending key, from `k` on.
  function RoomsFrom(s: State, k: nat): seq<M.Message>
    requires Valid(s)
    decreases UINT16 - k, |s.rooms|
  {
    if k >= UINT16 then []
    else (if k in s.table then [RoomInfo(s.rooms[s.table[k]])] else []) + RoomsFrom(s, k + 1)
  }

  function LoggedIn(s: State, u: int, id: bytes): State {
    var mine := if u in s.sessions then s.sessions[u] else [];
    s.(players := s.players + [Player(u, id, 0)], sessions := s.sessions[u := mine + [|s.players|]])
  }

  function OnLogin(s: State, u: int, id: bytes): State {
    Answering(LoggedIn(s, u, id), [u], LoginAck(id))
  }

  function OnList(s: State, u: int): State
    requires Valid(s)
  {
    var rooms := RoomsFrom(s, 0);
    Answering(s, [u], ListAck(M.ChatRoomListAck(rooms != [], rooms, [])))
  }

  // The player enters before it gets the id of the new room.
  function OnCreate(s: State, u: int, p: nat, name: bytes, stored: bytes): State
    requires p < |s.players|
  {
    var t := EnterRoom(AddRoom(s, stored), p, |s.rooms|);
    Answering(SetRoomId(t, p, t.roomNumber), [u], EnterAck(t.roomNumber, name))
  }

  // The player gets the id before the room is looked up.
  function OnEnter(s: State, u: int, p: nat, roomId: V.int32): State
    requires Valid(s) && p < |s.players|
  {
    var t := SetRoomId(s, p, Narrow(roomId));
    if Narrow(roomId) !in t.table then Faulted(t)
    else
      var room := t.table[Narrow(roomId)];
      Answering(EnterRoom(t, p, room), [u], EnterAck(t.rooms[room].id, t.rooms[room].name))
  }

  function BroadCasting(s: State, room: nat, reply: Reply): State
    requires Valid(s) && room < |s.rooms|
  {
    Answering(s, Owners(s.players, PlayersIn(s.rooms[room].entries)), reply)
  }

  function OnChat(s: State, p: nat, text: bytes): State
    requires Valid(s) && p < |s.players|
  {
    var player := s.players[p];
    if player.roomId !in s.table then Faulted(s)
    else BroadCasting(s, s.table[player.roomId], ChatAck(player.name, text))
  }

  // A handler takes the session's first player; a session without one is a fault.
  function Next(s: State, q: Request): State
    requires Valid(s)
  {
    if s.fault then s
    else if q.Login? then OnLogin(s, q.session, q.id)
    else if q.List? then OnList(s, q.session)
    else if q.session !in s.sessions then Faulted(s)
    else
      var p := s.sessions[q.session][0];
      match q
      case Create(u, name, stored) => OnCreate(s, u, p, name, stored)
      case Enter(u, roomId) => OnEnter(s, u, p, roomId)
      case Chat(_, text) => OnChat(s, p, text)
  }

  // The steps once more, with what they look up already in hand.
  lemma RoomsFromStep(s: State, k: nat)
    requires Valid(s)
    ensures RoomsFrom(s, k)
         == if k >= UINT16 then []
            else (if k in s.table then [RoomInfo(s.rooms[s.table[k]])] else []) + RoomsFrom(s, k + 1)
  {
  }

  lemma RoomsFromNext(s: State, first: nat, k: nat, infos: seq<M.Message>)
    requires Valid(s) && k < UINT16 && first <= UINT16 && RoomsFrom(s, first) == infos + RoomsFrom(s, k)
    ensures var more := if k in s.table then [RoomInfo(s.rooms[s.table[k]])] else [];
            RoomsFrom(s, first) == (infos + more) + RoomsFrom(s, k + 1)
  {
    RoomsFromStep(s, k);
    hide RoomsFrom, RoomInfo;
  }

  lemma ChatWithoutRoom(s: State, q: Request, p: nat)
    requires Valid(s) && !s.fault && q.Chat? && q.session in s.sessions && p == s.sessions[q.session][0]
    requires p < |s.players| && s.players[p].roomId !in s.table
    ensures Next(s, q) == Faulted(s)
  {
  }

  lemma WithoutPlayer(s: State, q: Request)
    requires Valid(s) && !s.fault && !q.Login? && !q.List? && q.session !in s.sessions
    ensures Next(s, q) == Faulted(s)
  {
  }

  lemma ChatRuns(s: State, q: Request, p: nat)
    requires Valid(s) && !s.fault && q.Chat? && q.session in s.sessions && p == s.sessions[q.session][0]
    requires p < |s.players| && s.players[p].roomId in s.table
    ensures s.table[s.players[p].roomId] < |s.rooms|
    ensures Next(s, q) == BroadCasting(s, s.table[s.players[p].roomId], ChatAck(s.players[p].name, q.text))
  {
  }

  lemma CreateIs(s: State, u: int, p: nat, name: bytes, stored: bytes)
    requires Valid(s) && !s.fault && u in s.sessions && p == s.sessions[u][0] < |s.players|
    ensures Next(s, Create(u, name, stored))
         == Answering(SetRoomId(EnterRoom(AddRoom(s, stored), p, |s.rooms|), p, AddRoom(s, stored).roomNumber),
                      [u], EnterAck(AddRoom(s, stored).roomNumber, name))
  {
  }

  lemma EnterIs(s: State, u: int, p: nat, roomId: V.int32)
    requires Valid(s) && !s.fault && u in s.sessions && p == s.sessions[u][0] < |s.players|
    ensures var t, id := SetRoomId(s, p, Narrow(roomId)), Narrow(roomId);
            Next(s, Enter(u, roomId)) ==
              if id !in s.table then Faulted(t)
              else Answering(EnterRoom(t, p, s.table[id]), [u], EnterAck(t.rooms[s.table[id]].id, t.rooms[s.table[id]].name))
  {
  }

  lemma SetElsewhere(s: State, p: nat, id: nat)
    requires p < |s.players|
    ensures SetRoomId(s, p, id).table == s.table && SetRoomId(s, p, id).rooms == s.rooms
    ensures |SetRoomId(s, p, id).players| == |s.players|
  {
  }

  lemma ListIs(s: State, u: int, rooms: seq<M.Message>)
    requires Valid(s) && !s.fault && rooms == RoomsFrom(s, 0)
    ensures Next(s, List(u)) == Answering(s, [u], ListAck(M.ChatRoomListAck(rooms != [], rooms, [])))
  {
    hide RoomsFrom;
  }

  lemma {:induction false} InsertElements(es: seq<Entry>, e: Entry)
    ensures multiset(PlayersIn(Insert(es, e))) == multiset(PlayersIn(es)) + multiset{e.player}
  {
    if es == [] || es[0].key > e.key {
      assert ([e] + es)[1..] == es;
    } else {
      InsertElements(es[1..], e);
      var more := Insert(es[1..], e);
      assert ([es[0]] + more)[1..] == more;
      assert multiset([es[0].player] + PlayersIn(more)) == multiset{es[0].player} + multiset(PlayersIn(more));
      assert multiset([es[0].player] + PlayersIn(es[1..])) == multiset{es[0].player} + multiset(PlayersIn(es[1..]));
    }
  }

  lemma KnownByContent(a: seq<nat>, b: seq<nat>, p: nat, n: nat)
    requires multiset(a) == multiset(b) + multiset{p} && Known(b, n) && p < n
    ensures Known(a, n)
  {
    forall i | 0 <= i < |a| ensures a[i] < n {
      assert a[i] in multiset(a);
      assert a[i] == p || a[i] in multiset(b);
      assert a[i] in multiset(b) ==> a[i] in b;
    }
  }

  lemma EnterKeepsValid(s: State, p: nat, room: nat)
    requires Valid(s) && p < |s.players| && room < |s.rooms|
    ensures Valid(EnterRoom(s, p, room))
  {
    var es, e := s.rooms[room].entries, Entry(s.players[p].roomId, p);
    InsertElements(es, e);
    KnownByContent(PlayersIn(Insert(es, e)), PlayersIn(es), p, |s.players|);
  }

  lemma AddKeepsValid(s: State, stored: bytes)
    requires Valid(s)
    ensures Valid(AddRoom(s, stored))
  {
  }

  lemma {:induction false} OwnersEach(players: seq<Player>, ps: seq<nat>)
    requires Known(ps, |players|)
    ensures forall i :: 0 <= i < |ps| ==> Owners(players, ps)[i] == players[ps[i]].owner
    decreases |ps|
  {
    if ps != [] {
      OwnersEach(players, ps[1..]);
      assert forall i :: 1 <= i < |ps| ==> ps[i] == ps[1..][i - 1];
    }
  }

  lemma CreateKeepsValid(s: State, u: int, p: nat, name: bytes, stored: bytes)
    requires Valid(s) && p < |s.players|
    ensures Valid(OnCreate(s, u, p, name, stored))
  {
    AddKeepsValid(s, stored);
    EnterKeepsValid(AddRoom(s, stored), p, |s.rooms|);
    hide Pack;
  }

  // The same order a multimap keeps: ascending keys.
  predicate Ordered(es: seq<Entry>) {
    forall i, j :: 0 <= i < j < |es| ==> es[i].key <= es[j].key
  }

  lemma {:induction false} InsertKeepsOrder(es: seq<Entry>, e: Entry)
    requires Ordered(es)
    ensures Ordered(Insert(es, e))
    ensures forall x :: x in Insert(es, e) ==> x == e || x in es
  {
    if es != [] && es[0].key <= e.key {
      InsertKeepsOrder(es[1..], e);
      var more := Insert(es[1..], e);
      forall j | 0 <= j < |more| ensures es[0].key <= more[j].key { assert more[j] in more; }
    }
  }

  // Where: behind the last entry whose key is not greater.
  lemma {:induction false} InsertPlaces(es: seq<Entry>, e: Entry) returns (k: nat)
    requires Ordered(es)
    ensures k <= |es| && Insert(es, e) == es[..k] + [e] + es[k..]
    ensures (forall i :: 0 <= i < k ==> es[i].key <= e.key) && forall i :: k <= i < |es| ==> es[i].key > e.key
  {
    if es == [] || es[0].key > e.key {
      k := 0;
    } else {
      var n := InsertPlaces(es[1..], e);
      k := n + 1;
      assert es == [es[0]] + es[1..];
    }
  }

  lemma AnsweringKeepsValid(s: State, to: seq<int>, reply: Reply)
    requires Valid(s)
    ensures Valid(Answering(s, to, reply))
  {
    hide Pack;
  }

  lemma LoginKeepsValid(s: State, u: int, id: bytes)
    requires Valid(s)
    ensures Valid(LoggedIn(s, u, id))
  {
  }

  lemma EnteringKeepsValid(s: State, u: int, p: nat, roomId: V.int32)
    requires Valid(s) && p < |s.players|
    ensures Valid(OnEnter(s, u, p, roomId))
  {
    hide Pack;
    var t := SetRoomId(s, p, Narrow(roomId));
    if Narrow(roomId) in t.table { EnterKeepsValid(t, p, t.table[Narrow(roomId)]); }
  }

  lemma NextKeepsValid(s: State, q: Request)
    requires Valid(s)
    ensures Valid(Next(s, q))
  {
    if s.fault {
    } else if q.Login? {
      LoginKeepsValid(s, q.session, q.id);
      hide Valid, Pack;
      AnsweringKeepsValid(LoggedIn(s, q.session, q.id), [q.session], LoginAck(q.id));
    } else if q.List? {
      var rooms := RoomsFrom(s, 0);
      AnsweringKeepsValid(s, [q.session], ListAck(M.ChatRoomListAck(rooms != [], rooms, [])));
      hide Valid, Pack, RoomsFrom;
    } else if q.session in s.sessions {
      var p := s.sessions[q.session][0];
      match q
      case Create(u, name, stored) => CreateKeepsValid(s, u, p, name, stored);
      case Enter(u, roomId) => EnteringKeepsValid(s, u, p, roomId);
      case Chat(_, text) => hide Pack;
    }
  }

  function Run(s: State, qs: seq<Request>): (r: State)
    requires Valid(s)
    ensures Valid(r)
    decreases |qs|
  {
    if qs == [] then s else NextKeepsValid(s, qs[0]); Run(Next(s, qs[0]), qs[1..])
  }
}
