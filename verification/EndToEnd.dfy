// From messages to messages: framing on one side, an arbitrarily chunked byte
// stream in between, cutting and parsing on the other; and many sessions whose
// chunks arrive interleaved.
module EndToEnd {
  import opened Bytes
  import F = Framing
  import L = CodecLaws
  import M = Messages
  import R = Reassembly
  import O = Overflow
  import W = Wire

  datatype Envelope = Envelope(packetType: nat, message: M.Message, padding: bytes)

  // A message that a 16-bit packet size can carry, nested no deeper than a parser
  // follows.
  predicate Carried(e: Envelope) {
    |e.padding| == 2 && |M.Serialize(e.message)| <= F.MAX_BODY && M.Encodable(e.message, W.MAX_DEPTH)
  }

  predicate AllCarried(es: seq<Envelope>) {
    forall e :: e in es ==> Carried(e)
  }

  function FrameOf(e: Envelope): (f: bytes)
    requires Carried(e)
    ensures |f| >= F.HEADER_SIZE
  {
    F.MakePacketFrames(e.packetType, M.Serialize(e.message), e.padding);
    F.MakePacket(e.packetType, M.Serialize(e.message), e.padding).data
  }

  function FramesOf(es: seq<Envelope>): seq<bytes>
    requires AllCarried(es)
  {
    seq(|es|, i requires 0 <= i < |es| => FrameOf(es[i]))
  }

  // HandlePacket's parse of a dispatched frame as a message of the kind of `like`.
  function Handled(like: M.Message, frame: bytes): Option<M.Message>
    requires |frame| >= F.HEADER_SIZE
  {
    M.Parse(M.Cleared(like), F.Body(frame), W.MAX_DEPTH)
  }

  lemma FrameHandled(e: Envelope)
    requires Carried(e)
    ensures |FrameOf(e)| == F.HEADER_SIZE + |M.Serialize(e.message)|
    ensures F.WellFormed(FrameOf(e)) && F.PacketType(FrameOf(e)) == e.packetType % 0x1_0000
    ensures Handled(e.message, FrameOf(e)) == Some(e.message) <==> M.TextsValid(e.message)
  {
    hide M.Serialize, M.Parse, M.Encodable, M.TextsValid, F.WellFormed, F.PacketType;
    F.MakePacketFrames(e.packetType, M.Serialize(e.message), e.padding);
    L.RoundTrip(e.message, W.MAX_DEPTH);
  }

  lemma FramesWellFormed(es: seq<Envelope>)
    requires AllCarried(es)
    ensures F.AllWellFormed(FramesOf(es))
    ensures F.CutFrames(Flatten(FramesOf(es))) == F.Cut(FramesOf(es), |Flatten(FramesOf(es))|, false)
  {
    hide FrameOf, Carried, F.CutFrames, F.WellFormed;
    var fs := FramesOf(es);
    forall f | f in fs ensures F.WellFormed(f) {
      var i :| 0 <= i < |fs| && fs[i] == f;
      FrameHandled(es[i]);
    }
    F.CutIsUnique(fs, []);
    assert Flatten(fs) + [] == Flatten(fs);
  }

  // What the sender wants: one frame per message, in order, nothing left over.
  predicate Delivered(c: R.Conn, fs: seq<bytes>) {
    !c.hung && c.dispatched == fs && c.buf.unread == []
  }

  // However the stream is chunked, it is delivered exactly when neither guard
  // that loses bytes ever fires.
  lemma DeliveredIffSafe(how: R.Clearing, es: seq<Envelope>, chunks: seq<bytes>)
    requires AllCarried(es) && Flatten(chunks) == Flatten(FramesOf(es))
    ensures Delivered(R.Run(how, R.Opened, chunks), FramesOf(es)) <==> R.SafeRun(how, R.Opened, chunks)
  {
    hide FrameOf, Carried, F.CutFrames, R.Run, R.SafeRun, F.AllWellFormed;
    FramesWellFormed(es);
    R.FaithfulIffSafe(how, chunks);
    var stream := Flatten(chunks);
    assert stream[|stream|..] == [];
  }

  // And then the frames, at the moment of dispatch, parse back as the messages: the
  // same number, in order, of the same types, with the same contents.
  lemma MessagesArrive(how: R.Clearing, es: seq<Envelope>, chunks: seq<bytes>)
    requires AllCarried(es) && Flatten(chunks) == Flatten(FramesOf(es)) && R.SafeRun(how, R.Opened, chunks)
    ensures var r := R.Run(how, R.Opened, chunks);
            && !r.hung && r.buf.unread == [] && |r.dispatched| == |es|
            && forall i :: 0 <= i < |es| ==>
                 && |r.dispatched[i]| >= F.HEADER_SIZE
                 && F.PacketType(r.dispatched[i]) == es[i].packetType % 0x1_0000
                 && (Handled(es[i].message, r.dispatched[i]) == Some(es[i].message) <==> M.TextsValid(es[i].message))
  {
    DeliveredIffSafe(how, es, chunks);
    hide FrameOf, Carried, R.Run, R.SafeRun, Handled, M.TextsValid, F.PacketType, F.WellFormed;
    var r := R.Run(how, R.Opened, chunks);
    assert r.dispatched == FramesOf(es);
    forall i | 0 <= i < |es|
      ensures |r.dispatched[i]| >= F.HEADER_SIZE
      ensures F.PacketType(r.dispatched[i]) == es[i].packetType % 0x1_0000
      ensures Handled(es[i].message, r.dispatched[i]) == Some(es[i].message) <==> M.TextsValid(es[i].message)
    {
      FrameHandled(es[i]);
    }
  }

  // In particular every chunking of a stream of at most nine buffer sizes.
  lemma ShortStreamDelivered(how: R.Clearing, es: seq<Envelope>, chunks: seq<bytes>)
    requires AllCarried(es) && Flatten(chunks) == Flatten(FramesOf(es))
    requires |Flatten(chunks)| <= R.CAPACITY - R.BUFFER_SIZE
    ensures Delivered(R.Run(how, R.Opened, chunks), FramesOf(es))
  {
    DeliveredIffSafe(how, es, chunks);
    R.ShortStreamIsSafe(how, R.Opened, chunks);
  }

  // With a Clear that keeps unread bytes, every stream of frames of at most
  // `frame` bytes in chunks of at most `chunk` bytes, however long.
  lemma KeepingDelivers(es: seq<Envelope>, chunks: seq<bytes>, frame: nat, chunk: nat)
    requires AllCarried(es) && Flatten(chunks) == Flatten(FramesOf(es))
    requires F.HEADER_SIZE <= frame && frame + chunk <= R.BUFFER_SIZE + 2
    requires forall e :: e in es ==> F.HEADER_SIZE + |M.Serialize(e.message)| <= frame
    requires forall x :: x in chunks ==> |x| <= chunk
    ensures Delivered(R.Run(R.Keeping, R.Opened, chunks), FramesOf(es))
  {
    FramesWellFormed(es);
    DeliveredIffSafe(R.Keeping, es, chunks);
    hide FrameOf, Carried, M.Serialize, R.Run, R.SafeRun, R.Fits, F.AllWellFormed, F.CutFrames;
    var fs := FramesOf(es);
    forall f | f in fs ensures |f| <= frame {
      var i :| 0 <= i < |fs| && fs[i] == f;
      FrameHandled(es[i]);
    }
    assert Flatten(fs) + [] == Flatten(fs) && F.Incomplete([]);
    O.NeverOverflows(fs, [], chunks, frame, chunk);
    R.KeepingIsSafe(R.Opened, chunks);
  }

  // ------------------------------------------------------------- many sessions

  // The connections by UID, and the sessions whose thread is between AddData and
  // ProcessSessionBuffer.  Each takes the lock of all buffers for itself, so a stuck
  // cut stops every session, where it is.
  datatype World = World(conns: map<int, R.Conn>, added: set<int>, stuck: bool) {
    predicate Valid() {
      forall u :: u in conns ==> conns[u].buf.Valid()
    }

    function Of(u: int): R.Conn {
      if u in conns then conns[u] else R.Opened
    }
  }

  const Started := World(map[], {}, false)

  datatype Event = Add(uid: int, chunk: bytes) | Process(uid: int)

  // A session's reads come one after the other, and an empty one does nothing.
  predicate Takes(w: World, e: Event) {
    !w.stuck && e.Add? && e.chunk != [] && e.uid !in w.added
  }

  function Happen(how: R.Clearing, w: World, e: Event): (r: World)
    requires w.Valid()
    ensures r.Valid()
  {
    if Takes(w, e) then w.(conns := w.conns[e.uid := R.Added(w.Of(e.uid), e.chunk)], added := w.added + {e.uid})
    else if !w.stuck && e.Process? && e.uid in w.added then
      var c := R.Processed(how, w.Of(e.uid));
      World(w.conns[e.uid := c], w.added - {e.uid}, c.hung)
    else w
  }

  function HappenAll(how: R.Clearing, w: World, events: seq<Event>): (r: World)
    requires w.Valid()
    ensures r.Valid()
    decreases |events|
  {
    if events == [] then w else HappenAll(how, Happen(how, w, events[0]), events[1..])
  }

  // The chunks that a session's buffer took in.
  function TakenFor(w: World, e: Event, u: int): seq<bytes> {
    if Takes(w, e) && e.uid == u then [e.chunk] else []
  }

  function ChunksOf(how: R.Clearing, w: World, events: seq<Event>, u: int): seq<bytes>
    requires w.Valid()
    decreases |events|
  {
    if events == [] then []
    else TakenFor(w, events[0], u) + ChunksOf(how, Happen(how, w, events[0]), events[1..], u)
  }

  // A session is where these chunks alone lead: after all of them, or with the last
  // one added and not cut yet.
  predicate Alone(how: R.Clearing, w: World, u: int, chunks: seq<bytes>)
    requires w.Valid()
  {
    var n := |chunks|;
    && (w.stuck || !w.Of(u).hung)
    && if u in w.added then
         n > 0 && chunks[n - 1] != [] && w.Of(u) == R.Added(R.Run(how, R.Opened, chunks[..n - 1]), chunks[n - 1])
       else
         w.Of(u) == R.Run(how, R.Opened, chunks)
  }

  lemma HappenAlone(how: R.Clearing, w: World, e: Event, u: int, chunks: seq<bytes>)
    requires w.Valid() && Alone(how, w, u, chunks)
    ensures Alone(how, Happen(how, w, e), u, chunks + TakenFor(w, e, u))
  {
    hide R.Added, R.Processed, R.Run, R.Recv;
    var n := |chunks|;
    if Takes(w, e) && e.uid == u {
      assert (chunks + [e.chunk])[..n] == chunks;
      AddedGoes(w.Of(u), e.chunk);
    } else {
      assert chunks + [] == chunks;
      if u in w.added {
        var c, x := R.Run(how, R.Opened, chunks[..n - 1]), chunks[n - 1];
        AddedGoes(c, x);
        assert chunks[..n - 1] + [x] == chunks;
        R.RunSnoc(how, R.Opened, chunks[..n - 1], x);
        if !w.stuck { R.RecvInTwo(how, c, x); }
      }
    }
  }

  lemma AddedGoes(c: R.Conn, chunk: bytes)
    requires c.buf.Valid()
    ensures R.Added(c, chunk).hung == c.hung
  {
  }

  // Sessions do not see each other's bytes: on every interleaving each is where the
  // chunks that it took in lead alone, cut short only when some session gets stuck.
  lemma {:induction false} SessionsAreIsolated(how: R.Clearing, w: World, events: seq<Event>, u: int, chunks: seq<bytes>)
    requires w.Valid() && Alone(how, w, u, chunks)
    ensures Alone(how, HappenAll(how, w, events), u, chunks + ChunksOf(how, w, events, u))
    decreases |events|
  {
    hide Alone, TakenFor, Happen;
    if events == [] {
      assert chunks + [] == chunks;
    } else {
      var next, more := Happen(how, w, events[0]), TakenFor(w, events[0], u);
      HappenAlone(how, w, events[0], u, chunks);
      SessionsAreIsolated(how, next, events[1..], u, chunks + more);
      Associative(chunks, more, ChunksOf(how, next, events[1..], u));
    }
  }

  // The whole server: on any interleaving, even one that another session ends, the
  // messages of a session that has cut its last chunk are delivered exactly when its
  // own run is safe.
  lemma ServerDelivers(how: R.Clearing, events: seq<Event>, u: int, es: seq<Envelope>)
    requires AllCarried(es) && Flatten(ChunksOf(how, Started, events, u)) == Flatten(FramesOf(es))
    requires u !in HappenAll(how, Started, events).added
    ensures Delivered(HappenAll(how, Started, events).Of(u), FramesOf(es))
        <==> R.SafeRun(how, R.Opened, ChunksOf(how, Started, events, u))
  {
    var chunks := ChunksOf(how, Started, events, u);
    SessionsAreIsolated(how, Started, events, u, []);
    assert [] + chunks == chunks;
    DeliveredIffSafe(how, es, chunks);
  }
}
