// The room table over every run, however many rooms are created, and what goes
// wrong when the 16-bit room number wraps around.
module ChatTable {
  import opened Bytes
  import opened Chat
  import opened Replies
  import H = ChatHistory

  // A room can be looked up.
  predicate Present(s: State, i: nat)
    requires i < |s.rooms|
  {
    s.rooms[i].id in s.table && s.table[s.rooms[i].id] == i
  }

  // Numbers are handed out in order; the table holds the last 65536 rooms, each
  // under its own number.
  ghost predicate TableInv(s: State) {
    && s.roomNumber == |s.rooms| % UINT16
    && (forall i :: 0 <= i < |s.rooms| ==> s.rooms[i].id == (i + 1) % UINT16)
    && (forall k :: k in s.table ==> s.table[k] < |s.rooms| && s.rooms[s.table[k]].id == k)
    && (forall i :: 0 <= i < |s.rooms| && |s.rooms| <= i + UINT16 ==> Present(s, i))
  }

  lemma AddKeepsTable(s: State, stored: bytes)
    requires TableInv(s)
    ensures TableInv(AddRoom(s, stored))
  {
    var t, n := AddRoom(s, stored), |s.rooms|;
    assert t.roomNumber == (n + 1) % UINT16;
    forall k | k in t.table ensures t.table[k] < |t.rooms| && t.rooms[t.table[k]].id == k {
      if k != t.roomNumber { assert s.table[k] < n; }
    }
    forall i | 0 <= i < |t.rooms| && |t.rooms| <= i + UINT16 ensures Present(t, i) {
      if i < n {
        assert Present(s, i);
        DifferentNumber(i, n);
      }
    }
  }

  lemma DifferentNumber(i: nat, n: nat)
    requires i < n < i + UINT16
    ensures (i + 1) % UINT16 != (n + 1) % UINT16
  {
  }

  // Entering a room and setting a player's room change no number and no name.
  lemma EnterKeepsTable(s: State, p: nat, room: nat)
    requires TableInv(s) && p < |s.players| && room < |s.rooms|
    ensures TableInv(EnterRoom(s, p, room))
  {
    var t := EnterRoom(s, p, room);
    forall i | 0 <= i < |t.rooms| && |t.rooms| <= i + UINT16 ensures Present(t, i) { assert Present(s, i); }
  }

  lemma SameTable(s: State, t: State)
    requires TableInv(s) && t.roomNumber == s.roomNumber && t.rooms == s.rooms && t.table == s.table
    ensures TableInv(t)
  {
    forall i | 0 <= i < |t.rooms| && |t.rooms| <= i + UINT16 ensures Present(t, i) { assert Present(s, i); }
  }

  lemma AnswerKeepsTable(s: State, to: seq<int>, reply: Reply)
    requires TableInv(s)
    ensures TableInv(Answering(s, to, reply))
  {
    hide Pack, TableInv;
    SameTable(s, Answering(s, to, reply));
  }

  lemma NextKeepsTable(s: State, q: Request)
    requires Valid(s) && TableInv(s)
    ensures TableInv(Next(s, q))
  {
    hide TableInv, Pack, RoomsFrom, PlayersIn, Owners;
    if s.fault || q.Login? || q.List? || q.Chat? || q.session !in s.sessions {
      SameTable(s, Next(s, q));
    } else {
      var p := s.sessions[q.session][0];
      match q
      case Create(u, name, stored) =>
        AddKeepsTable(s, stored);
        var t := EnterRoom(AddRoom(s, stored), p, |s.rooms|);
        EnterKeepsTable(AddRoom(s, stored), p, |s.rooms|);
        SameTable(t, SetRoomId(t, p, t.roomNumber));
        AnswerKeepsTable(SetRoomId(t, p, t.roomNumber), [u], EnterAck(t.roomNumber, name));
      case Enter(u, roomId) =>
        var t := SetRoomId(s, p, Narrow(roomId));
        SameTable(s, t);
        if Narrow(roomId) in t.table {
          var room := t.table[Narrow(roomId)];
          EnterKeepsTable(t, p, room);
          AnswerKeepsTable(EnterRoom(t, p, room), [u], EnterAck(t.rooms[room].id, t.rooms[room].name));
        } else {
          SameTable(t, Next(s, q));
        }
    }
  }

  lemma {:induction false} RunKeepsTable(s: State, qs: seq<Request>)
    requires Valid(s) && TableInv(s)
    ensures TableInv(Run(s, qs))
    decreases |qs|
  {
    hide TableInv, Next;
    if qs != [] {
      NextKeepsValid(s, qs[0]);
      NextKeepsTable(s, qs[0]);
      RunKeepsTable(Next(s, qs[0]), qs[1..]);
    }
  }

  // In every run: room number i has the id i modulo 2^16; every key of the table
  // is the id of the room it leads to; and a room can be looked up exactly until
  // 65536 more rooms were created.
  lemma RoomTable(qs: seq<Request>)
    ensures var s := Run(Empty, qs);
            && (forall i :: 0 <= i < |s.rooms| ==> s.rooms[i].id == (i + 1) % UINT16)
            && (forall k :: k in s.table ==> s.rooms[s.table[k]].id == k)
            && (forall i :: 0 <= i < |s.rooms| ==> (Present(s, i) <==> |s.rooms| <= i + UINT16))
            && ((forall i :: 0 <= i < |s.rooms| ==> Present(s, i)) <==> |s.rooms| <= UINT16)
  {
    RunKeepsTable(Empty, qs);
    var s := Run(Empty, qs);
    var n := |s.rooms|;
    forall i | 0 <= i < n ensures Present(s, i) <==> n <= i + UINT16 {
      if i + UINT16 < n {
        var j := n - 1 - (n - 1 - i) % UINT16;
        SameNumber(i, n, j);
        assert Present(s, j);
      }
    }
    if n > UINT16 { assert !Present(s, 0); }
  }

  lemma SameNumber(i: nat, n: nat, j: nat)
    requires i + UINT16 < n && j == n - 1 - (n - 1 - i) % UINT16
    ensures i < j < n <= j + UINT16 && (i + 1) % UINT16 == (j + 1) % UINT16
  {
    var m := (n - 1 - i) / UINT16;
    assert n - 1 - i == m * UINT16 + (n - 1 - i) % UINT16;
    assert j == i + m * UINT16;
    ModuloMultiple(i + 1, m);
  }

  lemma {:induction false} ModuloMultiple(x: nat, m: nat)
    ensures (x + m * UINT16) % UINT16 == x % UINT16
  {
    if m > 0 {
      ModuloMultiple(x, m - 1);
      assert x + m * UINT16 == (x + (m - 1) * UINT16) + UINT16;
    }
  }

  // ------------------------------------------------------------- the wrap-around

  predicate OwnersKnown(s: State) {
    forall p :: 0 <= p < |s.players| ==> s.players[p].owner in s.sessions
  }

  lemma {:induction false} RunKeepsOwners(s: State, qs: seq<Request>)
    requires Valid(s) && OwnersKnown(s)
    ensures OwnersKnown(Run(s, qs))
    decreases |qs|
  {
    if qs != [] {
      NextKeepsValid(s, qs[0]);
      NextKeepsOwners(s, qs[0]);
      hide Next;
      RunKeepsOwners(Next(s, qs[0]), qs[1..]);
    }
  }

  lemma NextKeepsOwners(s: State, q: Request)
    requires Valid(s) && OwnersKnown(s)
    ensures OwnersKnown(Next(s, q))
  {
    hide Pack, RoomsFrom, PlayersIn, Owners, Insert;
  }

  lemma {:induction false} OwnersIn(players: seq<Player>, ps: seq<nat>, sessions: set<int>)
    requires Known(ps, |players|) && forall i :: 0 <= i < |ps| ==> players[ps[i]].owner in sessions
    ensures forall x :: x in Owners(players, ps) ==> x in sessions
  {
    if ps != [] { OwnersIn(players, ps[1..], sessions); }
  }

  // From 65536 rooms on there is a room 0, which is also where a player is who never
  // entered a room: its messages go to the members of that room, and the sender is
  // not among them.
  lemma StrangerIsHeard(qs: seq<Request>, u: int, id: bytes, text: bytes)
    requires var s := Run(Empty, qs);
             !s.fault && |s.rooms| >= UINT16 && u !in s.sessions
    requires !Pack(LoginAck(id)).Overrun?
    ensures var t := Run(Empty, qs);
            var before := OnLogin(t, u, id);
            && Valid(before) && 0 in t.table
            && var after := Next(before, Chat(u, text));
            && (after.fault <==> Pack(ChatAck(id, text)).Overrun?)
            && (!after.fault ==>
                  && |after.outbox| > 0
                  && var mail := after.outbox[|after.outbox| - 1];
                  && mail.packet == Pack(ChatAck(id, text))
                  && |mail.to| == |t.rooms[t.table[0]].entries| && u !in mail.to)
  {
    ReachedStates(qs);
    var s := Run(Empty, qs);
    hide Run, Next, Pack, RoomsFrom, PlayersIn, TableInv, OwnersKnown, Valid;
    NewcomerChats(s, u, id, text);
  }

  lemma ReachedStates(qs: seq<Request>)
    ensures TableInv(Run(Empty, qs)) && OwnersKnown(Run(Empty, qs))
  {
    RunKeepsTable(Empty, qs);
    RunKeepsOwners(Empty, qs);
  }

  lemma NewcomerChats(s: State, u: int, id: bytes, text: bytes)
    requires Valid(s) && TableInv(s) && OwnersKnown(s)
    requires !s.fault && |s.rooms| >= UINT16 && u !in s.sessions && !Pack(LoginAck(id)).Overrun?
    ensures Valid(OnLogin(s, u, id)) && 0 in s.table
    ensures var after := Next(OnLogin(s, u, id), Chat(u, text));
            && (after.fault <==> Pack(ChatAck(id, text)).Overrun?)
            && (!after.fault ==>
                  && |after.outbox| > 0
                  && var mail := after.outbox[|after.outbox| - 1];
                  && mail.packet == Pack(ChatAck(id, text))
                  && |mail.to| == |s.rooms[s.table[0]].entries| && u !in mail.to)
  {
    LoginKeepsValid(s, u, id);
    RoomZero(s);
    hide Pack, RoomsFrom, TableInv;
    var t := OnLogin(s, u, id);
    ChatRuns(t, Chat(u, text), |s.players|);
    StrangerGetsNothing(s, u, id);
    hide Next, Valid, PlayersIn, Owners;
  }

  lemma RoomZero(s: State)
    requires TableInv(s) && |s.rooms| >= UINT16
    ensures 0 in s.table
  {
    assert Present(s, |s.rooms| - |s.rooms| % UINT16 - 1);
  }

  lemma StrangerGetsNothing(s: State, u: int, id: bytes)
    requires Valid(s) && OwnersKnown(s) && 0 in s.table && u !in s.sessions
    ensures var r, players := s.rooms[s.table[0]], LoggedIn(s, u, id).players;
            var ps := PlayersIn(r.entries);
            Known(ps, |players|) && |Owners(players, ps)| == |r.entries| && u !in Owners(players, ps)
  {
    OwnersIn(LoggedIn(s, u, id).players, PlayersIn(s.rooms[s.table[0]].entries), s.sessions.Keys);
  }

  // Such a run exists: one login and 65536 creations.
  lemma {:induction false} CreateMany(s: State, u: int, name: bytes, n: nat)
    requires Valid(s) && !s.fault && u in s.sessions && |name| <= 65000
    ensures var t := Run(s, seq(n, _ => Create(u, name, name)));
            !t.fault && |t.rooms| == |s.rooms| + n && t.sessions == s.sessions
    decreases n
  {
    if n > 0 {
      var qs := seq(n, _ => Create(u, name, name));
      assert qs[1..] == seq(n - 1, _ => Create(u, name, name));
      NextKeepsValid(s, qs[0]);
      CreateOne(s, u, name);
      hide Next, Valid;
      CreateMany(Next(s, qs[0]), u, name, n - 1);
    }
  }

  lemma CreateOne(s: State, u: int, name: bytes)
    requires Valid(s) && !s.fault && u in s.sessions && |name| <= 65000
    ensures var t := Next(s, Create(u, name, name));
            !t.fault && |t.rooms| == |s.rooms| + 1 && t.sessions == s.sessions
  {
    ShortIsFramed(EnterAck((s.roomNumber + 1) % UINT16, name));
    hide Pack, Insert;
  }

  lemma LoginThenCreate(u: int, name: bytes, n: nat)
    requires |name| <= 65000
    ensures var s := Run(Empty, [Login(u, name)] + seq(n, _ => Create(u, name, name)));
            !s.fault && |s.rooms| == n && s.sessions.Keys == {u}
  {
    var s := Next(Empty, Login(u, name));
    NextKeepsValid(Empty, Login(u, name));
    ShortIsFramed(LoginAck(name));
    var creates := seq(n, _ => Create(u, name, name));
    hide Pack;
    CreateMany(s, u, name, n);
    assert ([Login(u, name)] + creates)[1..] == creates;
  }

  lemma WrapIsReached(u: int, name: bytes)
    requires |name| <= 65000
    ensures var s := Run(Empty, [Login(u, name)] + seq(UINT16, _ => Create(u, name, name)));
            !s.fault && |s.rooms| == UINT16 && s.sessions.Keys == {u}
  {
    LoginThenCreate(u, name, UINT16);
  }

  // A run whose list reply is lost: after 10923 creations the packet is empty, and
  // the session that asks gets nothing.
  lemma ListIsLost(u: int, name: bytes)
    requires |name| <= 65000
    ensures var qs := [Login(u, name)] + seq(10923, _ => Create(u, name, name));
            var t := Next(Run(Empty, qs), List(u));
            && !Run(Empty, qs).fault && !t.fault && |t.outbox| > 0
            && t.outbox[|t.outbox| - 1].packet == EmptyPacket
  {
    var qs := [Login(u, name)] + seq(10923, _ => Create(u, name, name));
    LoginThenCreate(u, name, 10923);
    H.HistoryExplains(qs);
    H.ListNamesEveryRoom(qs, u);
    var s, h := Run(Empty, qs), H.ExplainAll(H.Nothing, qs);
    H.ExplainedFacts(s, h);
    assert |h.names| == |s.rooms|;
    H.LongListIsLost(h);
    hide Run, H.ExplainAll, Next, Pack;
  }
}
