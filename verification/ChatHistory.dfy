// The same requests read as a history: who logged in, which rooms were created,
// who entered which room, in order.  Every reply can be told from it.
module ChatHistory {
  import opened Bytes
  import opened Chat
  import opened Replies
  import F = Framing
  import M = Messages

  datatype LoginEvent = LoginEvent(session: int, name: bytes)

  datatype EnterEvent = EnterEvent(room: nat, player: nat)

  // Room `i + 1` has the name `names[i]`.
  datatype History = History(logins: seq<LoginEvent>, names: seq<bytes>, enters: seq<EnterEvent>,
                             outbox: seq<Mail>, fault: bool)

  const Nothing := History([], [], [], [], false)

  // The player of a session is the one of its first login.
  function FirstLogin(logins: seq<LoginEvent>, u: int): (p: Option<nat>)
    ensures p.Some? ==> p.value < |logins| && logins[p.value].session == u
  {
    if logins == [] then None
    else if logins[0].session == u then Some(0)
    else match FirstLogin(logins[1..], u)
         case None => None
         case Some(p) => Some(p + 1)
  }

  // The room a player entered last, 0 before the first.
  function RoomOf(enters: seq<EnterEvent>, p: nat): nat {
    if enters == [] then 0
    else
      var last := enters[|enters| - 1];
      if last.player == p then last.room else RoomOf(enters[..|enters| - 1], p)
  }

  // Everybody with an enter event for the room, as often as there are events.
  function Members(enters: seq<EnterEvent>, room: nat): seq<nat> {
    if enters == [] then []
    else
      var last := enters[|enters| - 1];
      Members(enters[..|enters| - 1], room) + if last.room == room then [last.player] else []
  }

  // The sessions of some players.
  function Sessions(logins: seq<LoginEvent>, ps: seq<nat>): (to: seq<int>)
    requires Known(ps, |logins|)
    ensures |to| == |ps|
  {
    if ps == [] then [] else [logins[ps[0]].session] + Sessions(logins, ps[1..])
  }

  predicate WellFormed(h: History) {
    forall i :: 0 <= i < |h.enters| ==> 1 <= h.enters[i].room <= |h.names| && h.enters[i].player < |h.logins|
  }

  // Room numbers are reported modulo 2^16.  Of `n` rooms the last one with a given
  // id, 0 if there is none.
  function Latest(n: nat, id: nat): (r: nat)
    requires id < UINT16
    ensures r <= n
  {
    var d := (n + UINT16 - id) % UINT16;
    if d < n then n - d else 0
  }

  lemma LatestIs(n: nat, id: nat, r: nat)
    requires id < UINT16
    ensures r != 0 && r == Latest(n, id) <==> 1 <= r <= n < r + UINT16 && r % UINT16 == id
  {
  }

  lemma LatestNext(n: nat, id: nat)
    requires id < UINT16
    ensures Latest(n + 1, id) == if id == (n + 1) % UINT16 then n + 1 else Latest(n, id)
  {
  }

  function InfoOf(h: History, room: nat): M.Message
    requires 1 <= room <= |h.names|
  {
    M.ChatRoomInfo(room % UINT16, |Members(h.enters, room)| % UINT16, MAX_USER, h.names[room - 1], [])
  }

  // How many rooms a list has, and which one comes at a position: by ascending id,
  // from 1 on or, when there are enough, from 0.
  function Length(n: nat): nat {
    if n < UINT16 then n else UINT16
  }

  function Listed(n: nat, i: nat): (room: nat)
    requires i < Length(n)
    ensures 1 <= room <= n
  {
    Latest(n, if n < UINT16 then i + 1 else i)
  }

  function Infos(h: History): seq<M.Message> {
    var n := |h.names|;
    seq(Length(n), i requires 0 <= i < Length(n) => InfoOf(h, Listed(n, i)))
  }

  // A reply that MakePacket writes beyond its buffer for ends the run.
  function Replying(h: History, to: seq<int>, reply: Reply): History {
    if Pack(reply).Overrun? then h.(fault := true) else h.(outbox := h.outbox + [Mail(to, Pack(reply))])
  }

  function Explain(h: History, q: Request): History
    requires WellFormed(h)
  {
    if h.fault then h
    else if q.Login? then
      Replying(h.(logins := h.logins + [LoginEvent(q.session, q.id)]), [q.session], LoginAck(q.id))
    else if q.List? then
      Replying(h, [q.session], ListAck(M.ChatRoomListAck(h.names != [], Infos(h), [])))
    else match FirstLogin(h.logins, q.session)
      case None => h.(fault := true)
      case Some(p) =>
        match q
        case Create(u, name, stored) =>
          var room := |h.names| + 1;
          Replying(h.(names := h.names + [stored], enters := h.enters + [EnterEvent(room, p)]), [u],
                   EnterAck(room % UINT16, name))
        case Enter(u, roomId) =>
          var room := Latest(|h.names|, Narrow(roomId));
          if room == 0 then h.(fault := true)
          else Replying(h.(enters := h.enters + [EnterEvent(room, p)]), [u], EnterAck(room % UINT16, h.names[room - 1]))
        case Chat(_, text) =>
          var room := Latest(|h.names|, RoomOf(h.enters, p) % UINT16);
          if room == 0 then h.(fault := true)
          else
            MembersKnown(h.enters, room, |h.logins|);
            Replying(h, Sessions(h.logins, Members(h.enters, room)), ChatAck(h.logins[p].name, text))
  }

  lemma {:induction false} MembersKnown(enters: seq<EnterEvent>, room: nat, n: nat)
    requires forall i :: 0 <= i < |enters| ==> enters[i].player < n
    ensures Known(Members(enters, room), n)
  {
    if enters != [] { MembersKnown(enters[..|enters| - 1], room, n); }
  }

  lemma ExplainKeeps(h: History, q: Request)
    requires WellFormed(h)
    ensures WellFormed(Explain(h, q))
  {
  }

  function ExplainAll(h: History, qs: seq<Request>): (r: History)
    requires WellFormed(h)
    ensures WellFormed(r)
    decreases |qs|
  {
    if qs == [] then h else ExplainKeeps(h, qs[0]); ExplainAll(Explain(h, qs[0]), qs[1..])
  }

  // ------------------------------------------------------------------- refinement

  // The same packets, each to the same sessions as often.
  predicate SameMail(a: Mail, b: Mail) {
    a.packet == b.packet && multiset(a.to) == multiset(b.to)
  }

  predicate SameReplies(a: seq<Mail>, b: seq<Mail>) {
    |a| == |b| && forall i :: 0 <= i < |a| ==> SameMail(a[i], b[i])
  }

  predicate PlayersMatch(s: State, h: History) {
    && |s.players| == |h.logins|
    && forall p :: 0 <= p < |s.players| ==>
         s.players[p] == Player(h.logins[p].session, h.logins[p].name, RoomOf(h.enters, p) % UINT16)
  }

  ghost predicate SessionsMatch(s: State, h: History) {
    && (forall u :: u in s.sessions <==> FirstLogin(h.logins, u).Some?)
    && forall u :: u in s.sessions ==> s.sessions[u] != [] && FirstLogin(h.logins, u) == Some(s.sessions[u][0])
  }

  predicate RoomMatches(r: Room, h: History, i: nat)
    requires i < |h.names|
  {
    && r.id == (i + 1) % UINT16 && r.name == h.names[i] && r.maxUser == MAX_USER
    && multiset(PlayersIn(r.entries)) == multiset(Members(h.enters, i + 1))
  }

  predicate RoomsMatch(s: State, h: History) {
    && |s.rooms| == |h.names| && s.roomNumber == |s.rooms| % UINT16
    && forall i :: 0 <= i < |s.rooms| ==> RoomMatches(s.rooms[i], h, i)
  }

  ghost predicate TableMatches(s: State) {
    && (forall k: nat :: k in s.table <==> k < UINT16 && Latest(|s.rooms|, k) != 0)
    && forall k :: k in s.table ==> s.table[k] == Latest(|s.rooms|, k) - 1
  }

  ghost predicate Matches(s: State, h: History) {
    PlayersMatch(s, h) && SessionsMatch(s, h) && RoomsMatch(s, h) && TableMatches(s)
  }

  ghost predicate Explained(s: State, h: History) {
    && Valid(s) && WellFormed(h)
    && s.fault == h.fault && SameReplies(s.outbox, h.outbox)
    && (!s.fault ==> Matches(s, h))
  }

  lemma {:induction false} FirstLoginSnoc(logins: seq<LoginEvent>, x: LoginEvent, u: int)
    ensures FirstLogin(logins + [x], u)
         == if FirstLogin(logins, u).Some? then FirstLogin(logins, u)
            else if x.session == u then Some(|logins|) else None
  {
    if logins != [] {
      assert (logins + [x])[1..] == logins[1..] + [x];
      FirstLoginSnoc(logins[1..], x, u);
    }
  }

  lemma EnterSnoc(enters: seq<EnterEvent>, e: EnterEvent)
    ensures forall p :: RoomOf(enters + [e], p) == if p == e.player then e.room else RoomOf(enters, p)
    ensures forall room :: Members(enters + [e], room)
                        == Members(enters, room) + if room == e.room then [e.player] else []
  {
    assert (enters + [e])[..|enters|] == enters;
  }

  lemma {:induction false} FarPlayer(enters: seq<EnterEvent>, p: nat)
    requires forall i :: 0 <= i < |enters| ==> enters[i].player < p
    ensures RoomOf(enters, p) == 0
  {
    if enters != [] { FarPlayer(enters[..|enters| - 1], p); }
  }

  lemma {:induction false} FarRoom(enters: seq<EnterEvent>, room: nat)
    requires forall i :: 0 <= i < |enters| ==> enters[i].room < room
    ensures Members(enters, room) == []
  {
    if enters != [] { FarRoom(enters[..|enters| - 1], room); }
  }

  lemma RepliesSnoc(a: seq<Mail>, b: seq<Mail>, x: Mail, y: Mail)
    requires SameReplies(a, b) && SameMail(x, y)
    ensures SameReplies(a + [x], b + [y])
  {
  }

  lemma SentMatches(s: State, h: History, to: seq<int>, told: seq<int>, reply: Reply)
    requires Matches(s, h)
    ensures Matches(Answering(s, to, reply), Replying(h, told, reply))
  {
    hide Pack;
    var t, g := Answering(s, to, reply), Replying(h, told, reply);
    forall i | 0 <= i < |t.rooms| ensures RoomMatches(t.rooms[i], g, i) { assert RoomMatches(s.rooms[i], h, i); }
  }

  // A request that was answered alike.
  lemma AnsweredAlike(s: State, h: History, q: Request, t: State, g: History, to: seq<int>, told: seq<int>, reply: Reply)
    requires Explained(s, h) && Matches(t, g) && multiset(to) == multiset(told)
    requires t.outbox == s.outbox && g.outbox == h.outbox && !s.fault && !t.fault && !g.fault
    requires Next(s, q) == Answering(t, to, reply) && Explain(h, q) == Replying(g, told, reply)
    ensures Explained(Next(s, q), Explain(h, q))
  {
    NextKeepsValid(s, q);
    ExplainKeeps(h, q);
    SentMatches(t, g, to, told, reply);
    RepliesSnoc(s.outbox, h.outbox, Mail(to, Pack(reply)), Mail(told, Pack(reply)));
    hide Next, Explain, Matches, Valid, WellFormed, SameReplies, Pack;
  }

  lemma LoginMatches(s: State, h: History, u: int, id: bytes)
    requires Matches(s, h) && WellFormed(h)
    ensures var mine := if u in s.sessions then s.sessions[u] else [];
            Matches(s.(players := s.players + [Player(u, id, 0)], sessions := s.sessions[u := mine + [|s.players|]]),
                    h.(logins := h.logins + [LoginEvent(u, id)]))
  {
    var mine := if u in s.sessions then s.sessions[u] else [];
    var t := s.(players := s.players + [Player(u, id, 0)], sessions := s.sessions[u := mine + [|s.players|]]);
    var g := h.(logins := h.logins + [LoginEvent(u, id)]);
    FarPlayer(h.enters, |h.logins|);
    SessionLogsIn(s, h, u, id);
    hide FirstLogin, RoomOf, Members, WellFormed, SessionsMatch;
    forall i | 0 <= i < |t.rooms| ensures RoomMatches(t.rooms[i], g, i) { assert RoomMatches(s.rooms[i], h, i); }
  }

  lemma SessionLogsIn(s: State, h: History, u: int, id: bytes)
    requires SessionsMatch(s, h) && |s.players| == |h.logins|
    ensures var mine := if u in s.sessions then s.sessions[u] else [];
            SessionsMatch(s.(players := s.players + [Player(u, id, 0)], sessions := s.sessions[u := mine + [|s.players|]]),
                          h.(logins := h.logins + [LoginEvent(u, id)]))
  {
    var logins := h.logins + [LoginEvent(u, id)];
    forall v ensures FirstLogin(logins, v) == if FirstLogin(h.logins, v).Some? then FirstLogin(h.logins, v)
                                              else if u == v then Some(|h.logins|) else None {
      FirstLoginSnoc(h.logins, LoginEvent(u, id), v);
    }
    hide FirstLogin;
  }

  lemma LoginExplained(s: State, h: History, q: Request)
    requires Explained(s, h) && !s.fault && q.Login?
    ensures Explained(Next(s, q), Explain(h, q))
  {
    var u := q.session;
    var mine := if u in s.sessions then s.sessions[u] else [];
    LoginMatches(s, h, u, q.id);
    AnsweredAlike(s, h, q,
                  s.(players := s.players + [Player(u, q.id, 0)], sessions := s.sessions[u := mine + [|s.players|]]),
                  h.(logins := h.logins + [LoginEvent(u, q.id)]), [u], [u], LoginAck(q.id));
  }

  // Player `p` enters room `room + 1` under some key and takes its number.
  function Entered(s: State, p: nat, room: nat, key: nat): State
    requires p < |s.players| && room < |s.rooms|
  {
    var r := s.rooms[room];
    s.(players := s.players[p := s.players[p].(roomId := (room + 1) % UINT16)],
       rooms := s.rooms[room := r.(entries := Insert(r.entries, Entry(key, p)))])
  }

  function EnteredToo(h: History, p: nat, room: nat): History {
    h.(enters := h.enters + [EnterEvent(room + 1, p)])
  }

  lemma PlayersEntered(s: State, h: History, p: nat, room: nat, key: nat)
    requires PlayersMatch(s, h) && p < |s.players| && room < |s.rooms|
    ensures PlayersMatch(Entered(s, p, room, key), EnteredToo(h, p, room))
  {
    EnterSnoc(h.enters, EnterEvent(room + 1, p));
    hide RoomOf, Members, Insert;
  }

  lemma RoomEntered(r: Room, h: History, i: nat, p: nat, room: nat, key: nat)
    requires i < |h.names| && RoomMatches(r, h, i)
    ensures RoomMatches(if i == room then r.(entries := Insert(r.entries, Entry(key, p))) else r, EnteredToo(h, p, room), i)
  {
    EnterSnoc(h.enters, EnterEvent(room + 1, p));
    InsertElements(r.entries, Entry(key, p));
    hide RoomOf, Members, Insert, PlayersIn;
  }

  lemma RoomsEntered(s: State, h: History, p: nat, room: nat, key: nat)
    requires RoomsMatch(s, h) && p < |s.players| && room < |s.rooms|
    ensures RoomsMatch(Entered(s, p, room, key), EnteredToo(h, p, room))
  {
    hide RoomMatches, Insert;
    forall i | 0 <= i < |s.rooms| ensures RoomMatches(Entered(s, p, room, key).rooms[i], EnteredToo(h, p, room), i) {
      RoomEntered(s.rooms[i], h, i, p, room, key);
    }
  }

  lemma EnteredMatches(s: State, h: History, p: nat, room: nat, key: nat)
    requires Matches(s, h) && p < |s.players| && room < |s.rooms|
    ensures Matches(Entered(s, p, room, key), EnteredToo(h, p, room))
  {
    PlayersEntered(s, h, p, room, key);
    RoomsEntered(s, h, p, room, key);
    hide PlayersMatch, RoomsMatch;
  }

  lemma EnterRuns(s: State, q: Request, p: nat, room: nat)
    requires Valid(s) && !s.fault && q.Enter? && q.session in s.sessions && p == s.sessions[q.session][0]
    requires Narrow(q.roomId) in s.table && room == s.table[Narrow(q.roomId)] + 1
    requires s.rooms[room - 1].id == room % UINT16 == Narrow(q.roomId)
    ensures p < |s.players|
    ensures Next(s, q) == Answering(Entered(s, p, room - 1, room % UINT16), [q.session],
                                    EnterAck(room % UINT16, s.rooms[room - 1].name))
  {
    hide Insert, PlayersIn, Pack;
    var id := room % UINT16;
    assert EnterRoom(SetRoomId(s, p, id), p, room - 1) == Entered(s, p, room - 1, id);
  }

  lemma EnterIsTold(h: History, q: Request, p: nat, room: nat)
    requires WellFormed(h) && !h.fault && q.Enter? && FirstLogin(h.logins, q.session) == Some(p)
    requires room == Latest(|h.names|, Narrow(q.roomId)) != 0
    ensures Explain(h, q)
         == Replying(EnteredToo(h, p, room - 1), [q.session], EnterAck(room % UINT16, h.names[room - 1]))
  {
    assert EnterEvent(room - 1 + 1, p) == EnterEvent(room, p);
  }

  lemma EnterExplained(s: State, h: History, q: Request)
    requires Explained(s, h) && !s.fault && q.Enter? && q.session in s.sessions
    ensures Explained(Next(s, q), Explain(h, q))
  {
    hide Next, Explain, Matches, WellFormed, SameReplies, FirstLogin, Latest;
    var p, id := s.sessions[q.session][0], Narrow(q.roomId);
    var room := Latest(|h.names|, id);
    FirstOf(s, h, q.session);
    if id in s.table {
      LatestIs(|h.names|, id, room);
      RoomAt(s, h, room - 1);
      EnterRuns(s, q, p, room);
      EnterIsTold(h, q, p, room);
      EnteredMatches(s, h, p, room - 1, id);
      hide Explained, Valid, WellFormed, Insert;
      AnsweredAlike(s, h, q, Entered(s, p, room - 1, id), EnteredToo(h, p, room - 1), [q.session], [q.session],
                    EnterAck(id, h.names[room - 1]));
    } else {
      NextKeepsValid(s, q);
      ExplainKeeps(h, q);
      EnterFails(s, h, q);
    }
  }

  lemma EnterFails(s: State, h: History, q: Request)
    requires Valid(s) && WellFormed(h) && !s.fault && !h.fault && q.Enter? && q.session in s.sessions
    requires FirstLogin(h.logins, q.session).Some? && Narrow(q.roomId) !in s.table
    requires Latest(|h.names|, Narrow(q.roomId)) == 0
    ensures Next(s, q).fault && Next(s, q).outbox == s.outbox && Explain(h, q) == h.(fault := true)
  {
    hide Latest;
  }

  // What the match says about the parts a handler looks at first.
  lemma FirstOf(s: State, h: History, u: int)
    requires Matches(s, h) && u in s.sessions && Valid(s)
    ensures FirstLogin(h.logins, u) == Some(s.sessions[u][0]) && s.sessions[u][0] < |s.players| == |h.logins|
    ensures |s.rooms| == |h.names| && s.roomNumber == |s.rooms| % UINT16
    ensures forall k: nat :: k in s.table <==> k < UINT16 && Latest(|s.rooms|, k) != 0
    ensures forall k :: k in s.table ==> s.table[k] == Latest(|s.rooms|, k) - 1
  {
    hide Latest;
  }

  lemma RoomAt(s: State, h: History, i: nat)
    requires Matches(s, h) && i < |s.rooms|
    ensures |s.rooms| == |h.names| && RoomMatches(s.rooms[i], h, i)
  {
  }

  // ------------------------------------------------------------- creating a room

  lemma RoomAdded(s: State, h: History, stored: bytes)
    requires Matches(s, h) && WellFormed(h)
    ensures Matches(AddRoom(s, stored), h.(names := h.names + [stored]))
  {
    NewRoomMatches(s, h, stored);
    NewTableMatches(s, stored);
    hide RoomOf, WellFormed, FirstLogin, RoomsMatch, TableMatches, Latest;
  }

  lemma NewTableMatches(s: State, stored: bytes)
    requires TableMatches(s) && s.roomNumber == |s.rooms| % UINT16
    ensures TableMatches(AddRoom(s, stored))
  {
    hide Latest;
    forall k: nat | k < UINT16
      ensures Latest(|s.rooms| + 1, k) == if k == (|s.rooms| + 1) % UINT16 then |s.rooms| + 1 else Latest(|s.rooms|, k)
    {
      LatestNext(|s.rooms|, k);
    }
  }

  lemma NewRoomMatches(s: State, h: History, stored: bytes)
    requires RoomsMatch(s, h) && WellFormed(h)
    ensures RoomsMatch(AddRoom(s, stored), h.(names := h.names + [stored]))
  {
    var t, g := AddRoom(s, stored), h.(names := h.names + [stored]);
    FarRoom(h.enters, |h.names| + 1);
    var n := |s.rooms|;
    assert RoomMatches(t.rooms[n], g, n);
    hide Members, WellFormed, RoomMatches;
    forall i | 0 <= i < n ensures RoomMatches(t.rooms[i], g, i) { SameRoom(s.rooms[i], h, g, i); }
  }

  lemma SameRoom(r: Room, h: History, g: History, i: nat)
    requires i < |h.names| && RoomMatches(r, h, i) && h.names <= g.names && g.enters == h.enters
    ensures RoomMatches(r, g, i)
  {
  }

  lemma CreateRuns(s: State, q: Request, p: nat)
    requires Valid(s) && !s.fault && q.Create? && q.session in s.sessions && p == s.sessions[q.session][0]
    requires s.roomNumber == |s.rooms| % UINT16
    ensures p < |s.players|
    ensures Next(s, q) == Answering(Entered(AddRoom(s, q.stored), p, |s.rooms|, s.players[p].roomId),
                                    [q.session], EnterAck((|s.rooms| + 1) % UINT16, q.name))
  {
    hide Insert, PlayersIn, Pack;
    var t, id := AddRoom(s, q.stored), (|s.rooms| + 1) % UINT16;
    assert t.roomNumber == id;
    assert SetRoomId(EnterRoom(t, p, |s.rooms|), p, id) == Entered(t, p, |s.rooms|, s.players[p].roomId);
  }

  lemma CreateIsTold(h: History, q: Request, p: nat)
    requires WellFormed(h) && !h.fault && q.Create? && FirstLogin(h.logins, q.session) == Some(p)
    ensures Explain(h, q) == Replying(EnteredToo(h.(names := h.names + [q.stored]), p, |h.names|),
                                      [q.session], EnterAck((|h.names| + 1) % UINT16, q.name))
  {
  }

  lemma CreateExplained(s: State, h: History, q: Request)
    requires Explained(s, h) && !s.fault && q.Create? && q.session in s.sessions
    ensures Explained(Next(s, q), Explain(h, q))
  {
    hide Next, Explain, Matches;
    var p, n := s.sessions[q.session][0], |s.rooms|;
    FirstOf(s, h, q.session);
    CreateRuns(s, q, p);
    CreateIsTold(h, q, p);
    RoomAdded(s, h, q.stored);
    var t, g := AddRoom(s, q.stored), h.(names := h.names + [q.stored]);
    EnteredMatches(t, g, p, n, s.players[p].roomId);
    hide Explained, Valid, WellFormed, Insert;
    AnsweredAlike(s, h, q, Entered(t, p, n, s.players[p].roomId), EnteredToo(g, p, n), [q.session], [q.session],
                  EnterAck((n + 1) % UINT16, q.name));
  }

  // -------------------------------------------------------------------- chatting

  lemma {:induction false} SameOwners(players: seq<Player>, logins: seq<LoginEvent>, ps: seq<nat>)
    requires |players| == |logins| && Known(ps, |players|)
    requires forall p :: 0 <= p < |players| ==> players[p].owner == logins[p].session
    ensures Owners(players, ps) == Sessions(logins, ps)
  {
    if ps != [] { SameOwners(players, logins, ps[1..]); }
  }

  lemma {:induction false} SessionsConcat(logins: seq<LoginEvent>, a: seq<nat>, b: seq<nat>)
    requires Known(a, |logins|) && Known(b, |logins|)
    ensures Known(a + b, |logins|)
    ensures Sessions(logins, a + b) == Sessions(logins, a) + Sessions(logins, b)
    decreases |a|
  {
    if a == [] {
      assert a + b == b;
    } else {
      assert (a + b)[1..] == a[1..] + b;
      SessionsConcat(logins, a[1..], b);
    }
  }

  lemma SessionsWithout(logins: seq<LoginEvent>, a: seq<nat>, p: nat, b: seq<nat>)
    requires Known(a, |logins|) && Known(b, |logins|) && p < |logins|
    ensures Known(a + b, |logins|) && Known(a + [p] + b, |logins|)
    ensures multiset(Sessions(logins, a + [p] + b)) == multiset(Sessions(logins, a + b)) + multiset{logins[p].session}
  {
    SessionsConcat(logins, a, [p]);
    SessionsConcat(logins, a + [p], b);
    SessionsConcat(logins, a, b);
    assert Sessions(logins, [p]) == [logins[p].session];
  }

  // The order of the players does not change who gets how many copies.
  lemma {:induction false} SessionsPermuted(logins: seq<LoginEvent>, a: seq<nat>, b: seq<nat>)
    requires Known(a, |logins|) && Known(b, |logins|) && multiset(a) == multiset(b)
    ensures multiset(Sessions(logins, a)) == multiset(Sessions(logins, b))
    decreases |a|
  {
    if a == [] {
      assert |multiset(b)| == 0;
    } else {
      var j := Find(a, b);
      var front, back := b[..j], b[j + 1..];
      SessionsWithout(logins, front, a[0], back);
      SessionsPermuted(logins, a[1..], front + back);
      assert Sessions(logins, a) == [logins[a[0]].session] + Sessions(logins, a[1..]);
    }
  }

  lemma Find(a: seq<nat>, b: seq<nat>) returns (j: nat)
    requires a != [] && multiset(a) == multiset(b)
    ensures j < |b| && b[j] == a[0] && b == b[..j] + [a[0]] + b[j + 1..]
    ensures multiset(a[1..]) == multiset(b[..j] + b[j + 1..])
  {
    assert a[0] in multiset(b);
    j :| 0 <= j < |b| && b[j] == a[0];
    assert b == b[..j] + [a[0]] + b[j + 1..];
    assert a == [a[0]] + a[1..];
    assert multiset(a[1..]) == multiset(a) - multiset{a[0]};
  }

  lemma ChatAnswered(s: State, h: History, q: Request, p: nat, room: nat)
    requires Valid(s) && Matches(s, h) && WellFormed(h) && p < |s.players|
    requires 1 <= room <= |s.rooms|
    ensures |s.players| == |h.logins| && s.players[p].name == h.logins[p].name
    ensures Known(PlayersIn(s.rooms[room - 1].entries), |s.players|) && Known(Members(h.enters, room), |h.logins|)
    ensures multiset(Owners(s.players, PlayersIn(s.rooms[room - 1].entries)))
         == multiset(Sessions(h.logins, Members(h.enters, room)))
  {
    RoomAt(s, h, room - 1);
    MembersKnown(h.enters, room, |h.logins|);
    var ps := PlayersIn(s.rooms[room - 1].entries);
    SameOwners(s.players, h.logins, ps);
    SessionsPermuted(h.logins, ps, Members(h.enters, room));
  }

  // Where a chat of player `p` goes: the room that the id of its room leads to.
  function ChatRoom(h: History, p: nat): (room: nat)
    ensures room <= |h.names|
  {
    Latest(|h.names|, RoomOf(h.enters, p) % UINT16)
  }

  lemma ChatIsTold(h: History, q: Request, p: nat)
    requires WellFormed(h) && !h.fault && q.Chat? && FirstLogin(h.logins, q.session) == Some(p)
    requires ChatRoom(h, p) != 0 && Known(Members(h.enters, ChatRoom(h, p)), |h.logins|)
    ensures Explain(h, q)
         == Replying(h, Sessions(h.logins, Members(h.enters, ChatRoom(h, p))), ChatAck(h.logins[p].name, q.text))
  {
    hide Latest;
  }

  lemma ChatFacts(s: State, h: History, p: nat)
    requires Matches(s, h) && p < |s.players|
    ensures |s.rooms| == |h.names|
    ensures s.players[p].roomId in s.table <==> ChatRoom(h, p) != 0
    ensures s.players[p].roomId in s.table ==> s.table[s.players[p].roomId] == ChatRoom(h, p) - 1
  {
    hide Latest;
  }

  lemma ChatExplained(s: State, h: History, q: Request)
    requires Explained(s, h) && !s.fault && q.Chat? && q.session in s.sessions
    ensures Explained(Next(s, q), Explain(h, q))
  {
    hide Next, Explain, Matches, WellFormed, RoomOf, Members, PlayersIn, Latest;
    FirstOf(s, h, q.session);
    var p := s.sessions[q.session][0];
    hide Valid;
    var room := ChatRoom(h, p);
    ChatFacts(s, h, p);
    hide ChatRoom;
    if room == 0 {
      ChatFails(s, h, q, p);
      NextKeepsValid(s, q);
      ExplainKeeps(h, q);
    } else {
      ChatAnswered(s, h, q, p, room);
      ChatRuns(s, q, p);
      ChatIsTold(h, q, p);
      hide Explained;
      AnsweredAlike(s, h, q, s, h, Owners(s.players, PlayersIn(s.rooms[room - 1].entries)),
                    Sessions(h.logins, Members(h.enters, room)), ChatAck(h.logins[p].name, q.text));
    }
  }

  lemma ChatFails(s: State, h: History, q: Request, p: nat)
    requires Explained(s, h) && !s.fault && q.Chat? && q.session in s.sessions && p == s.sessions[q.session][0]
    requires ChatRoom(h, p) == 0
    ensures Next(s, q) == s.(fault := true) && Explain(h, q) == h.(fault := true)
  {
    FirstOf(s, h, q.session);
    ChatFacts(s, h, p);
    hide Latest;
  }

  // -------------------------------------------------------------- listing the rooms

  // Which ids a table of `n` rooms has, by position in the list.
  lemma ListedIs(n: nat, k: nat)
    requires k < UINT16
    ensures Latest(n, k) != 0 <==> First(n) <= k < First(n) + Length(n)
    ensures First(n) <= k < First(n) + Length(n) ==> Listed(n, k - First(n)) == Latest(n, k)
  {
  }

  function First(n: nat): nat {
    if n < UINT16 then 1 else 0
  }

  // A table with these keys is listed in their order.
  lemma {:induction false} RoomsListed(s: State, infos: seq<M.Message>, first: nat, k: nat)
    requires Valid(s) && first <= k <= UINT16 && first + |infos| <= UINT16
    requires forall i :: i in s.table <==> first <= i < first + |infos|
    requires forall i :: i in s.table ==> RoomInfo(s.rooms[s.table[i]]) == infos[i - first]
    ensures RoomsFrom(s, k) == if k > first + |infos| then [] else infos[k - first..]
    decreases UINT16 - k, |s.rooms|
  {
    hide Valid, RoomInfo, RoomsFrom;
    RoomsFromStep(s, k);
    if k < UINT16 {
      RoomsListed(s, infos, first, k + 1);
      if k in s.table { assert [infos[k - first]] + infos[k + 1 - first..] == infos[k - first..]; }
    }
  }

  lemma AllRoomsListed(s: State, h: History)
    requires Valid(s) && Matches(s, h)
    ensures RoomsFrom(s, 0) == Infos(h) && (Infos(h) != [] <==> h.names != [])
  {
    hide RoomsFrom, Matches, Infos, RoomInfo, Latest, Length, First, Listed;
    var n, infos := |h.names|, Infos(h);
    TableFacts(s, h);
    InfosLength(h);
    forall k: nat ensures k in s.table <==> First(n) <= k < First(n) + |infos| { if k < UINT16 { ListedIs(n, k); } }
    forall k | k in s.table ensures RoomInfo(s.rooms[s.table[k]]) == infos[k - First(n)] {
      ListedIs(n, k);
      RoomInfoIs(s, h, k - First(n));
    }
    RoomsListed(s, infos, First(n), First(n));
    assert infos[0..] == infos;
    FromTheFirst(s, First(n));
  }

  lemma FromTheFirst(s: State, first: nat)
    requires Valid(s) && first <= 1 && (first == 1 ==> 0 !in s.table)
    ensures RoomsFrom(s, 0) == RoomsFrom(s, first)
  {
    RoomsFromStep(s, 0);
    hide RoomsFrom;
  }

  lemma InfosLength(h: History)
    ensures |Infos(h)| == Length(|h.names|) && First(|h.names|) + Length(|h.names|) <= UINT16 && First(|h.names|) <= 1
    ensures Infos(h) != [] <==> h.names != []
  {
  }

  lemma TableFacts(s: State, h: History)
    requires Valid(s) && Matches(s, h)
    ensures |s.rooms| == |h.names|
    ensures forall i :: 0 <= i < |s.rooms| ==> s.rooms[i].id < UINT16 && s.rooms[i].maxUser == MAX_USER
    ensures forall k: nat :: k in s.table <==> k < UINT16 && Latest(|s.rooms|, k) != 0
    ensures forall k :: k in s.table ==> s.table[k] == Latest(|s.rooms|, k) - 1
  {
    hide Latest;
  }

  lemma RoomInfoIs(s: State, h: History, i: nat)
    requires Valid(s) && Matches(s, h) && i < Length(|h.names|)
    ensures Listed(|h.names|, i) <= |s.rooms| && i < |Infos(h)|
    ensures RoomInfo(s.rooms[Listed(|h.names|, i) - 1]) == Infos(h)[i]
  {
    var room := Listed(|h.names|, i);
    RoomAt(s, h, room - 1);
    hide Listed, Length;
    var r := s.rooms[room - 1];
    var ps, qs := PlayersIn(r.entries), Members(h.enters, room);
    assert |ps| == |multiset(ps)| == |multiset(qs)| == |qs|;
  }

  lemma ListAnswered(s: State, h: History, q: Request)
    requires Valid(s) && Matches(s, h) && WellFormed(h) && !s.fault && !h.fault && q.List?
    ensures var reply := ListAck(M.ChatRoomListAck(h.names != [], Infos(h), []));
            Next(s, q) == Answering(s, [q.session], reply) && Explain(h, q) == Replying(h, [q.session], reply)
  {
    AllRoomsListed(s, h);
    hide RoomsFrom, Matches, Valid, WellFormed, Infos, Pack;
  }

  lemma ListExplained(s: State, h: History, q: Request)
    requires Explained(s, h) && !s.fault && q.List?
    ensures Explained(Next(s, q), Explain(h, q))
  {
    ListAnswered(s, h, q);
    hide Next, Explain, Matches, Valid;
    AnsweredAlike(s, h, q, s, h, [q.session], [q.session], ListAck(M.ChatRoomListAck(h.names != [], Infos(h), [])));
  }

  // ------------------------------------------------------------------ whole runs

  lemma NoPlayerExplained(s: State, h: History, q: Request)
    requires Explained(s, h) && (s.fault || (q.session !in s.sessions && !q.Login? && !q.List?))
    ensures Explained(Next(s, q), Explain(h, q))
  {
    NextKeepsValid(s, q);
    hide PlayersMatch, RoomsMatch, TableMatches, Valid, WellFormed, FirstLogin;
  }

  lemma StepExplained(s: State, h: History, q: Request)
    requires Explained(s, h)
    ensures Explained(Next(s, q), Explain(h, q))
  {
    hide Explained, Next, Explain;
    if s.fault || (q.session !in s.sessions && !q.Login? && !q.List?) {
      NoPlayerExplained(s, h, q);
    } else {
      match q
      case Login(_, _) => LoginExplained(s, h, q);
      case List(_) => ListExplained(s, h, q);
      case Create(_, _, _) => CreateExplained(s, h, q);
      case Enter(_, _) => EnterExplained(s, h, q);
      case Chat(_, _) => ChatExplained(s, h, q);
    }
  }

  lemma {:induction false} RunExplained(s: State, h: History, qs: seq<Request>)
    requires Explained(s, h)
    ensures Explained(Run(s, qs), ExplainAll(h, qs))
    decreases |qs|
  {
    if qs != [] {
      StepExplained(s, h, qs[0]);
      ExplainKeeps(h, qs[0]);
      hide Explained, Next, Explain;
      RunExplained(Next(s, qs[0]), Explain(h, qs[0]), qs[1..]);
    }
  }

  // From the first request on, with any number of rooms: every reply goes to whom
  // the history says, as often as it says, and a handler faults exactly when the
  // history has nothing to look up.
  lemma HistoryExplains(qs: seq<Request>)
    ensures Explained(Run(Empty, qs), ExplainAll(Nothing, qs))
  {
    RunExplained(Empty, Nothing, qs);
  }

  lemma {:induction false} LastRoomHasPlayer(enters: seq<EnterEvent>, p: nat)
    requires RoomOf(enters, p) != 0
    ensures p in Members(enters, RoomOf(enters, p))
  {
    var before := enters[..|enters| - 1];
    if enters[|enters| - 1].player != p { LastRoomHasPlayer(before, p); }
  }

  lemma {:induction false} EveryMemberGets(logins: seq<LoginEvent>, ps: seq<nat>, p: nat)
    requires Known(ps, |logins|) && p in ps
    ensures logins[p].session in Sessions(logins, ps)
  {
    if ps[0] != p { EveryMemberGets(logins, ps[1..], p); }
  }

  // The last request was answered by this packet, sent to these sessions, and the
  // packet holds the reply; or it was written beyond its buffer, which ends the run.
  ghost predicate Answered(s: State, to: multiset<int>, reply: Reply) {
    if Pack(reply).Overrun? then s.fault
    else
      && !s.fault && |s.outbox| > 0
      && s.outbox[|s.outbox| - 1].packet == Pack(reply) && multiset(s.outbox[|s.outbox| - 1].to) == to
      && Carries(s.outbox[|s.outbox| - 1].packet, reply)
  }

  lemma ExplainedIsAnswered(s: State, h: History, g: History, told: seq<int>, reply: Reply)
    requires Explained(s, h) && h == Replying(g, told, reply) && !g.fault
    requires reply.ListAck? ==> reply.list.ChatRoomListAck? && PlainRooms(reply.list.rooms) && reply.list.unknown == []
    ensures Answered(s, multiset(told), reply)
  {
    ExplainedFacts(s, h);
    PackCarries(reply);
    hide Explained, Pack, Matches, Valid, WellFormed, Carries;
    if !Pack(reply).Overrun? {
      assert SameMail(s.outbox[|s.outbox| - 1], h.outbox[|h.outbox| - 1]);
    }
  }

  // A chat message goes to everybody with an enter event for the room that the id of
  // the sender's room leads to, one copy for each event.  It fails exactly for a
  // session that never logged in, for a player that never entered a room while there
  // are fewer than 65536, and for a name and a text that together overrun the packet;
  // beyond that the copies are empty.
  lemma ChatGoesTo(qs: seq<Request>, u: int, text: bytes)
    requires !Run(Empty, qs).fault
    ensures var h, t := ExplainAll(Nothing, qs), Next(Run(Empty, qs), Chat(u, text));
            var login := FirstLogin(h.logins, u);
            if login == None || ChatRoom(h, login.value) == 0 then t.fault
            else
              var p := login.value;
              var room := ChatRoom(h, p);
              var ack := ChatAck(h.logins[p].name, text);
              && Known(Members(h.enters, room), |h.logins|)
              && Answered(t, multiset(Sessions(h.logins, Members(h.enters, room))), ack)
              && (Pack(ack).Framed? <==> TextSize(h.logins[p].name) + TextSize(text) <= F.MAX_BODY)
              && (Pack(ack).EmptyPacket? <==> TextSize(h.logins[p].name) + TextSize(text) >= 0x1_0000)
  {
    hide Explained, Next, Explain, Run, ExplainAll, ChatRoom, Members, FirstLogin, Pack, Body, TextSize, Latest;
    HistoryExplains(qs);
    var s, h, q := Run(Empty, qs), ExplainAll(Nothing, qs), Chat(u, text);
    StepExplained(s, h, q);
    ExplainedFacts(s, h);
    ExplainedFacts(Next(s, q), Explain(h, q));
    var login := FirstLogin(h.logins, u);
    if login == None || ChatRoom(h, login.value) == 0 {
      ChatIsRefused(h, q);
    } else {
      var p, room := login.value, ChatRoom(h, login.value);
      var ack := ChatAck(h.logins[p].name, text);
      MembersKnown(h.enters, room, |h.logins|);
      ChatIsTold(h, q, p);
      ExplainedIsAnswered(Next(s, q), Explain(h, q), h, Sessions(h.logins, Members(h.enters, room)), ack);
      BodySize(ack);
      PackIs(ack, [0, 0]);
    }
  }

  // This is the sender's own room, with the sender in it, exactly while fewer than
  // 65536 rooms were created behind that one.
  lemma ChatReachesMembers(qs: seq<Request>, u: int, p: nat)
    requires FirstLogin(ExplainAll(Nothing, qs).logins, u) == Some(p)
    ensures var h := ExplainAll(Nothing, qs);
            var own, room := RoomOf(h.enters, p), ChatRoom(h, p);
            && (room == 0 <==> own == 0 && |h.names| < UINT16)
            && (own != 0 ==> own <= |h.names| && (room == own <==> |h.names| < own + UINT16))
            && (room == own != 0 ==> p in Members(h.enters, room) && Known(Members(h.enters, room), |h.logins|)
                                     && u in Sessions(h.logins, Members(h.enters, room)))
  {
    var h := ExplainAll(Nothing, qs);
    var own, room := RoomOf(h.enters, p), ChatRoom(h, p);
    RoomOfExists(h.enters, p, |h.names|);
    LatestIs(|h.names|, own % UINT16, own);
    hide ExplainAll;
    if own != 0 {
      LastRoomHasPlayer(h.enters, p);
      MembersKnown(h.enters, own, |h.logins|);
      EveryMemberGets(h.logins, Members(h.enters, own), p);
    }
  }

  lemma {:induction false} RoomOfExists(enters: seq<EnterEvent>, p: nat, n: nat)
    requires forall i :: 0 <= i < |enters| ==> 1 <= enters[i].room <= n
    ensures RoomOf(enters, p) <= n
  {
    if enters != [] { RoomOfExists(enters[..|enters| - 1], p, n); }
  }

  lemma ExplainedFacts(s: State, h: History)
    requires Explained(s, h)
    ensures Valid(s) && WellFormed(h) && s.fault == h.fault && SameReplies(s.outbox, h.outbox)
    ensures !s.fault ==> Matches(s, h)
  {
  }

  lemma ChatIsRefused(h: History, q: Request)
    requires WellFormed(h) && !h.fault && q.Chat?
    requires FirstLogin(h.logins, q.session) == None || ChatRoom(h, FirstLogin(h.logins, q.session).value) == 0
    ensures Explain(h, q).fault
  {
    hide Latest;
  }

  // The list reply names the last 65536 rooms, by ascending id, each once, with the
  // number of its enter events; it says success exactly when there is a room.
  predicate NamesEveryRoom(list: M.Message, h: History) {
    var n := |h.names|;
    && list.ChatRoomListAck? && list.unknown == [] && PlainRooms(list.rooms)
    && (list.success <==> n > 0) && |list.rooms| == Length(n)
    && forall i :: 0 <= i < Length(n) ==>
         var room, info := Listed(n, i), list.rooms[i];
         && info.roomId == room % UINT16 && info.maxUser == 10 && info.roomName == h.names[room - 1]
         && info.currentUser == |Members(h.enters, room)| % UINT16
  }

  lemma ListedRooms(n: nat)
    ensures forall i :: 0 <= i < Length(n) ==> n < Listed(n, i) + UINT16 && Listed(n, i) % UINT16 == First(n) + i
    ensures forall room :: 1 <= room <= n < room + UINT16 ==>
              0 <= room % UINT16 - First(n) < Length(n) && Listed(n, room % UINT16 - First(n)) == room
    ensures n < UINT16 ==> forall i :: 0 <= i < n ==> Listed(n, i) == i + 1
  {
    forall i | 0 <= i < Length(n)
      ensures n < Listed(n, i) + UINT16 && Listed(n, i) % UINT16 == First(n) + i && (n < UINT16 ==> Listed(n, i) == i + 1)
    {
      LatestIs(n, First(n) + i, Listed(n, i));
    }
    forall room | 1 <= room <= n < room + UINT16
      ensures 0 <= room % UINT16 - First(n) < Length(n) && Listed(n, room % UINT16 - First(n)) == room
    {
      LatestIs(n, room % UINT16, room);
      ListedIs(n, room % UINT16);
    }
  }

  function ListOf(h: History): M.Message {
    M.ChatRoomListAck(h.names != [], Infos(h), [])
  }

  // It is delivered exactly when it is at most MAX_BODY bytes long; up to 65535
  // bytes it overruns the packet, from then on the packet is empty.
  lemma ListNamesEveryRoom(qs: seq<Request>, u: int)
    requires !Run(Empty, qs).fault
    ensures var h, t := ExplainAll(Nothing, qs), Next(Run(Empty, qs), List(u));
            var list := ListOf(h);
            && NamesEveryRoom(list, h) && Answered(t, multiset{u}, ListAck(list))
            && var size := (if h.names != [] then 2 else 0) + RoomsSize(list.rooms);
               && (Pack(ListAck(list)).Framed? <==> size <= F.MAX_BODY)
               && (Pack(ListAck(list)).EmptyPacket? <==> size >= 0x1_0000)
  {
    HistoryExplains(qs);
    var s, h := Run(Empty, qs), ExplainAll(Nothing, qs);
    hide Explained, Next, Explain, Run, ExplainAll, Members, Matches, Infos, WellFormed, Pack, RoomsSize, Body;
    hide Latest, Length, Listed;
    ExplainedFacts(s, h);
    StepExplained(s, h, List(u));
    ListAnswered(s, h, List(u));
    InfosAre(h);
    ExplainedIsAnswered(Next(s, List(u)), Explain(h, List(u)), h, [u], ListAck(ListOf(h)));
    BodySize(ListAck(ListOf(h)));
    PackIs(ListAck(ListOf(h)), [0, 0]);
  }

  lemma InfosAre(h: History)
    ensures |Infos(h)| == Length(|h.names|) && NamesEveryRoom(ListOf(h), h)
  {
    hide Listed, Latest;
  }

  // No list of 10921 rooms or more is ever delivered, whatever the rooms' names.
  lemma LongListIsLost(h: History)
    requires |h.names| >= 10921
    ensures !Pack(ListAck(ListOf(h))).Framed?
    ensures |h.names| >= 10923 ==> Pack(ListAck(ListOf(h))) == EmptyPacket
  {
    InfosAre(h);
    hide Infos, Members, RoomsSize, Body, Pack, Listed;
    ListIsLong(h);
    BodySize(ListAck(ListOf(h)));
    PackIs(ListAck(ListOf(h)), [0, 0]);
  }

  lemma ListIsLong(h: History)
    requires |h.names| >= 10921 && NamesEveryRoom(ListOf(h), h)
    ensures RoomsSize(ListOf(h).rooms) >= if |h.names| < UINT16 then 6 * |h.names| else 4 * UINT16
  {
    hide Infos, Members, RoomsSize, Listed;
    ListedRooms(|h.names|);
    RoomsTakeSpace(ListOf(h).rooms);
  }
}
