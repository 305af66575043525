// What each request does over every run, player by player and room by room: whom it
// is answered to, with which packet, and what it leaves behind.  Ids are the order of
// creation modulo 65536.
module ChatAnswers {
  import opened Bytes
  import opened Chat
  import opened ChatHistory
  import opened Replies
  import T = ChatTable
  import V = Varint

  // Answered, and nothing else was sent.
  ghost predicate AnsweredOnly(s: State, t: State, to: multiset<int>, reply: Reply) {
    Answered(t, to, reply) && (!t.fault ==> t.outbox[..|t.outbox| - 1] == s.outbox)
  }

  lemma AnswerIs(s: State, t: State, u: int, reply: Reply)
    requires !s.fault && t == Answering(s, [u], reply) && !reply.ListAck?
    ensures AnsweredOnly(s, t, multiset{u}, reply)
    ensures t == s.(outbox := t.outbox, fault := t.fault)
  {
    PackCarries(reply);
    hide Pack, Carries;
  }

  // A new player without a room.
  lemma LoginAnswered(qs: seq<Request>, u: int, id: bytes)
    requires !Run(Empty, qs).fault
    ensures var s, t := Run(Empty, qs), Next(Run(Empty, qs), Login(u, id));
            var mine := if u in s.sessions then s.sessions[u] else [];
            && AnsweredOnly(s, t, multiset{u}, LoginAck(id))
            && t == s.(players := s.players + [Player(u, id, 0)], sessions := s.sessions[u := mine + [|s.players|]],
                       outbox := t.outbox, fault := t.fault)
  {
    var s := Run(Empty, qs);
    hide Run, Pack, Answered, Carries, Valid;
    AnswerIs(LoggedIn(s, u, id), Next(s, Login(u, id)), u, LoginAck(id));
  }

  // A new room with the next id and room for ten, entered under the player's old id.
  lemma CreateAnswered(qs: seq<Request>, u: int, name: bytes, stored: bytes)
    requires !Run(Empty, qs).fault && u in Run(Empty, qs).sessions
    ensures var s, t := Run(Empty, qs), Next(Run(Empty, qs), Create(u, name, stored));
            var n, p := |s.rooms|, s.sessions[u][0];
            var id := (n + 1) % 65536;
            && p < |s.players|
            && AnsweredOnly(s, t, multiset{u}, EnterAck(id, name))
            && t == s.(players := s.players[p := Player(s.players[p].owner, s.players[p].name, id)],
                       rooms := s.rooms + [Room(id, stored, 10, [Entry(s.players[p].roomId, p)])],
                       table := s.table[id := n], roomNumber := id, outbox := t.outbox, fault := t.fault)
  {
    T.ReachedStates(qs);
    var s := Run(Empty, qs);
    var p := s.sessions[u][0];
    assert p < |s.players| && s.roomNumber == |s.rooms| % 65536;
    CreateIs(s, u, p, name, stored);
    CreatedState(s, p, stored);
    var id := (|s.rooms| + 1) % 65536;
    var b := SetRoomId(EnterRoom(AddRoom(s, stored), p, |s.rooms|), p, id);
    hide Run, Pack, Answered, Carries, Valid, T.TableInv, Next, SetRoomId, EnterRoom;
    AnswerIs(b, Next(s, Create(u, name, stored)), u, EnterAck(id, name));
  }

  lemma CreatedState(s: State, p: nat, stored: bytes)
    requires p < |s.players| && s.roomNumber == |s.rooms| % 65536
    ensures var n, id := |s.rooms|, (|s.rooms| + 1) % 65536;
            && AddRoom(s, stored).roomNumber == id
            && SetRoomId(EnterRoom(AddRoom(s, stored), p, n), p, id)
               == s.(players := s.players[p := Player(s.players[p].owner, s.players[p].name, id)],
                     rooms := s.rooms + [Room(id, stored, 10, [Entry(s.players[p].roomId, p)])],
                     table := s.table[id := n], roomNumber := id)
  {
    var id := (|s.rooms| + 1) % 65536;
    var a := AddRoom(s, stored);
    var e := Entry(s.players[p].roomId, p);
    assert a.rooms[|s.rooms|] == Room(id, stored, 10, []);
    assert Insert([], e) == [e];
    assert EnterRoom(a, p, |s.rooms|).rooms == s.rooms + [Room(id, stored, 10, [Entry(s.players[p].roomId, p)])];
  }

  // The room a request means: the last one whose id is its number modulo 65536.
  predicate Means(roomId: int, i: nat, n: nat) {
    i < n <= i + 65536 && (roomId - (i + 1)) % 65536 == 0
  }

  lemma MeansOne(s: State, roomId: V.int32, i: nat)
    requires T.TableInv(s)
    ensures Means(roomId, i, |s.rooms|) ==>
              Narrow(roomId) == (i + 1) % 65536 && Narrow(roomId) in s.table && s.table[Narrow(roomId)] == i
    ensures Narrow(roomId) in s.table && s.table[Narrow(roomId)] == i && |s.rooms| <= i + 65536 ==>
              Means(roomId, i, |s.rooms|)
  {
    SameResidue(roomId, i + 1);
    if i < |s.rooms| <= i + 65536 { assert T.Present(s, i); }
  }

  lemma SameResidue(a: int, b: int)
    ensures (a - b) % 65536 == 0 <==> a % 65536 == b % 65536
  {
    var q := (a - b) / 65536;
    assert a - b == 65536 * q + (a - b) % 65536;
  }

  // The player enters that room, keeps its id, and is told its id and name.
  lemma EnterAnswered(qs: seq<Request>, u: int, roomId: V.int32, i: nat)
    requires !Run(Empty, qs).fault && u in Run(Empty, qs).sessions && Means(roomId, i, |Run(Empty, qs).rooms|)
    ensures var s, t := Run(Empty, qs), Next(Run(Empty, qs), Enter(u, roomId));
            var id, p, r := (i + 1) % 65536, s.sessions[u][0], s.rooms[i];
            && p < |s.players| && i < |t.rooms|
            && AnsweredOnly(s, t, multiset{u}, EnterAck(id, r.name))
            && multiset(t.rooms[i].entries) == multiset(r.entries) + multiset{Entry(id, p)}
            && t == s.(players := s.players[p := Player(s.players[p].owner, s.players[p].name, id)],
                       rooms := s.rooms[i := Room(r.id, r.name, r.maxUser, t.rooms[i].entries)],
                       outbox := t.outbox, fault := t.fault)
  {
    T.ReachedStates(qs);
    var s := Run(Empty, qs);
    var p, id := s.sessions[u][0], (i + 1) % 65536;
    MeansOne(s, roomId, i);
    EnterIs(s, u, p, roomId);
    assert p < |s.players| && s.rooms[i].id == id;
    hide Run, Pack, Answered, Carries, Valid, Insert, T.TableInv, Next, Narrow;
    var a := SetRoomId(s, p, id);
    var b := EnterRoom(a, p, i);
    InsertsOne(s.rooms[i].entries, Entry(id, p));
    AnswerIs(b, Next(s, Enter(u, roomId)), u, EnterAck(id, s.rooms[i].name));
  }

  lemma {:induction false} InsertsOne(es: seq<Entry>, e: Entry)
    ensures multiset(Insert(es, e)) == multiset(es) + multiset{e}
  {
    if es != [] && es[0].key <= e.key {
      InsertsOne(es[1..], e);
      assert es == [es[0]] + es[1..];
    }
  }

  // A logged-in session faults exactly when its request means no room, or the reply
  // overruns its packet; any other session faults.
  lemma EnterFaults(qs: seq<Request>, u: int, roomId: V.int32)
    requires !Run(Empty, qs).fault
    ensures var s, t := Run(Empty, qs), Next(Run(Empty, qs), Enter(u, roomId));
            t.fault <==>
              u !in s.sessions
              || forall i: nat :: Means(roomId, i, |s.rooms|) ==> Pack(EnterAck((i + 1) % 65536, s.rooms[i].name)).Overrun?
  {
    var s := Run(Empty, qs);
    if u in s.sessions {
      T.ReachedStates(qs);
      T.RoomTable(qs);
      EnterIs(s, u, s.sessions[u][0], roomId);
      forall i: nat | Means(roomId, i, |s.rooms|) ensures Narrow(roomId) in s.table && s.table[Narrow(roomId)] == i {
        MeansOne(s, roomId, i);
      }
      if Narrow(roomId) in s.table {
        var i := s.table[Narrow(roomId)];
        assert T.Present(s, i);
        MeansOne(s, roomId, i);
        hide Run, Pack, Answered, Carries, Insert, T.TableInv, Next;
        EnterAnswered(qs, u, roomId, i);
        hide Valid;
      }
    }
  }

  // Chats and lists change nothing but the outbox.
  lemma AskingChangesNothing(s: State, q: Request)
    requires Valid(s) && (q.Chat? || q.List?)
    ensures var t := Next(s, q); t == s.(outbox := t.outbox, fault := t.fault)
    ensures s.outbox <= Next(s, q).outbox
  {
    hide Pack, Owners, PlayersIn, RoomsFrom;
  }
}
