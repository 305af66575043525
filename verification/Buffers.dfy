// The receive path as it runs: byte arrays with two cursors, one buffer for each
// session, and the read loop that hands every chunk on.
module Buffers {
  import opened Bytes
  import F = Framing
  import Q = Queued
  import R = Reassembly

  // Unread bytes lie between the two cursors.
  class PacketBuffer {
    const data: array<byte>
    var readPos: nat
    var writePos: nat

    ghost predicate Valid()
      reads this
    {
      data.Length == R.CAPACITY && readPos <= writePos <= data.Length
    }

    ghost function State(): (s: R.Buf)
      requires Valid()
      reads this, data
      ensures s.Valid()
    {
      R.Buf(data[readPos..writePos], writePos)
    }

    constructor ()
      ensures Valid() && State() == R.EmptyBuf && readPos == 0
      ensures fresh(data)
    {
      data := new byte[R.CAPACITY](_ => 0);
      readPos, writePos := 0, 0;
    }

    function DataSize(): nat
      requires Valid()
      reads this
    {
      writePos - readPos
    }

    function FreeSize(): nat
      requires Valid()
      reads this
    {
      data.Length - writePos
    }

    // OnWrite with a source buffer.
    method Append(chunk: bytes) returns (ok: bool)
      requires Valid()
      modifies this`writePos, data
      ensures Valid()
      ensures ok <==> !R.Overflows(old(State()), chunk)
      ensures State() == R.Write(old(State()), chunk)
      ensures data[..] == Q.PutAll(old(data[..]), Q.Append(old(State()), chunk))
    {
      ghost var was := data[..];
      Q.PutOne(was, Q.Store(0, []));
      if FreeSize() < |chunk| { return false; }
      var w := writePos;
      Q.PutOne(was, Q.Store(w, chunk));
      Spliced(was, readPos, w, chunk);
      hide Q.PutAll;
      forall i | 0 <= i < |chunk| { data[w + i] := chunk[i]; }
      writePos := w + |chunk|;
      assert data[..] == Q.Put(was, Q.Store(w, chunk));
      assert data[readPos..writePos] == data[..][readPos..writePos] && was[readPos..w] == old(data[readPos..writePos]);
      return true;
    }

    static lemma Spliced(was: bytes, r: nat, w: nat, chunk: bytes)
      requires r <= w && w + |chunk| <= |was|
      ensures Q.Put(was, Q.Store(w, chunk))[r..w + |chunk|] == was[r..w] + chunk
    {
    }

    // OnWrite after the bytes were read into the free space.
    method Advance(size: nat) returns (ok: bool)
      requires Valid()
      modifies this`writePos
      ensures Valid()
      ensures ok <==> old(writePos) + size <= data.Length
      ensures writePos == old(writePos) + if ok then size else 0
    {
      if FreeSize() < size { return false; }
      writePos := writePos + size;
      return true;
    }

    method OnRead(size: nat) returns (ok: bool)
      requires Valid()
      modifies this`readPos
      ensures Valid()
      ensures ok <==> size <= |old(State()).unread|
      ensures State() == if ok then old(State()).(unread := old(State()).unread[size..]) else old(State())
      ensures readPos == old(readPos) + if ok then size else 0
    {
      if DataSize() < size { return false; }
      readPos := readPos + size;
      return true;
    }

    // The copy moves the unread bytes to the front, and then nothing points to
    // them any more.
    method Clear()
      requires Valid()
      modifies this, data
      ensures Valid()
      ensures State() == R.Clear(R.Dropping, old(State()))
      ensures data[..] == Q.PutAll(old(data[..]), Q.Copy(old(State())))
      ensures State().unread == [] ==> readPos == 0 && writePos == 0
    {
      var dataSize := DataSize();
      if dataSize == 0 {
        readPos, writePos := 0, 0;
      } else if FreeSize() < R.BUFFER_SIZE {
        var r := readPos;
        forall i | 0 <= i < dataSize { data[i] := data[r + i]; }
        readPos, writePos := 0, 0;
        assert data[..dataSize] == old(State()).unread;
      }
    }
  }

  type Held = s: R.Buf | s.Valid() witness R.EmptyBuf

  // SessionPacketBuffer: a buffer for each session UID, made on first use.
  class SessionBuffers {
    var buffers: map<int, PacketBuffer>
    ghost var Repr: set<object>
    // What the buffers hold.
    ghost var states: map<int, Held>

    static ghost predicate Separate(buffers: map<int, PacketBuffer>) {
      forall u, v :: u in buffers && v in buffers && u != v ==>
        buffers[u] != buffers[v] && buffers[u].data != buffers[v].data
    }

    static ghost predicate Within(buffers: map<int, PacketBuffer>, repr: set<object>) {
      forall u :: u in buffers ==> buffers[u] in repr && buffers[u].data in repr
    }

    ghost predicate Valid()
      reads this, Repr
    {
      && this in Repr && Within(buffers, Repr) && Separate(buffers)
      && states.Keys == buffers.Keys
      && forall u :: u in buffers ==> buffers[u].Valid() && buffers[u].State() == states[u]
    }

    // A session's buffer holds nothing before it is made.
    ghost function BufOf(uid: int): Held
      reads this
    {
      if uid in states then states[uid] else R.EmptyBuf
    }

    constructor ()
      ensures Valid() && fresh(Repr) && states == map[]
    {
      buffers, states := map[], map[];
      Repr := {this};
    }

    method MakeBuffer(uid: int)
      requires Valid() && uid !in buffers
      modifies this
      ensures Valid() && fresh(Repr - old(Repr)) && buffers.Keys == old(buffers).Keys + {uid}
      ensures states == old(states)[uid := R.EmptyBuf]
    {
      hide Separate, Within, PacketBuffer.Valid, PacketBuffer.State;
      var b := new PacketBuffer();
      AddSeparate(buffers, Repr, uid, b);
      buffers := buffers[uid := b];
      Repr := Repr + {b, b.data};
      states := states[uid := R.EmptyBuf];
    }

    static lemma AddSeparate(buffers: map<int, PacketBuffer>, repr: set<object>, uid: int, b: PacketBuffer)
      requires Separate(buffers) && Within(buffers, repr) && uid !in buffers && b !in repr && b.data !in repr
      ensures Separate(buffers[uid := b]) && Within(buffers[uid := b], repr + {b, b.data})
    {
    }

    method AppendTo(uid: int, chunk: bytes) returns (ok: bool)
      requires Valid() && uid in buffers
      modifies this`states, buffers[uid], buffers[uid].data
      ensures Valid()
      ensures ok <==> !R.Overflows(old(BufOf(uid)), chunk)
      ensures states == old(states)[uid := R.Write(old(BufOf(uid)), chunk)]
    {
      hide R.Write, R.Overflows;
      ok := buffers[uid].Append(chunk);
      states := states[uid := R.Write(states[uid], chunk)];
    }

    // An overflow is answered with ProcessDisconnect.
    method AddData(uid: int, chunk: bytes) returns (overflow: bool)
      requires Valid() && chunk != []
      modifies Repr
      ensures Valid() && fresh(Repr - old(Repr)) && uid in buffers
      ensures overflow <==> R.Overflows(old(BufOf(uid)), chunk)
      ensures BufOf(uid) == R.Write(old(BufOf(uid)), chunk)
      ensures states - {uid} == old(states) - {uid}
    {
      hide R.Write, R.Overflows, Separate, PacketBuffer.State, PacketBuffer.Valid;
      if uid !in buffers { MakeBuffer(uid); }
      var ok := AppendTo(uid, chunk);
      overflow := !ok;
    }

    // The lock is held throughout: a stuck cut keeps it.
    method ProcessSessionBuffer(uid: int) returns (dispatched: seq<bytes>, hung: bool)
      requires Valid()
      modifies Repr
      ensures Valid() && Repr == old(Repr)
      ensures dispatched == F.CutFrames(old(BufOf(uid)).unread).frames
      ensures hung == F.CutFrames(old(BufOf(uid)).unread).hung
      ensures BufOf(uid) == if hung then old(BufOf(uid)) else R.Process(R.Dropping, old(BufOf(uid)))
      ensures states - {uid} == old(states) - {uid}
    {
      assert uid in buffers <==> uid in states;
      R.NothingCut(R.Dropping, BufOf(uid));
      hide Valid, F.CutFrames, R.Process;
      if uid !in buffers { return [], false; }
      var unread := UnreadOf(uid);
      var processLen;
      processLen, dispatched, hung := F.ProcessPacket(unread);
      if hung || processLen == 0 { return; }
      Consume(uid, processLen);
    }

    // The bytes from the read position on.
    method UnreadOf(uid: int) returns (unread: bytes)
      requires Valid() && uid in buffers
      ensures uid in states && unread == states[uid].unread
    {
      unread := buffers[uid].data[buffers[uid].readPos..buffers[uid].writePos];
    }

    // OnRead and Clear behind a cut.
    method Consume(uid: int, processLen: nat)
      requires Valid() && uid in buffers && processLen > 0
      requires F.CutFrames(BufOf(uid).unread).consumed == processLen
      modifies this`states, buffers[uid], buffers[uid].data
      ensures Valid() && Repr == old(Repr)
      ensures states == old(states)[uid := R.Process(R.Dropping, old(BufOf(uid)))]
    {
      hide F.CutFrames, R.Clear, R.ClearDrops;
      var ok := buffers[uid].OnRead(processLen);
      assert ok;
      buffers[uid].Clear();
      states := states[uid := R.Process(R.Dropping, states[uid])];
    }

    // NetworkHandler::RecvData is one step of the connection's run.
    method RecvData(uid: int, chunk: bytes) returns (overflow: bool, dispatched: seq<bytes>, hung: bool)
      requires Valid()
      modifies Repr
      ensures Valid() && fresh(Repr - old(Repr))
      ensures overflow <==> chunk != [] && R.Overflows(old(BufOf(uid)), chunk)
      ensures var c := R.Recv(R.Dropping, R.Conn(old(BufOf(uid)), [], 0, 0, false), chunk);
              BufOf(uid) == c.buf && dispatched == c.dispatched && hung == c.hung
      ensures states - {uid} == old(states) - {uid}
    {
      ghost var s: R.Buf := BufOf(uid);
      R.RecvIs(R.Dropping, s, chunk);
      hide F.CutFrames, R.Process, R.Write, R.Overflows, R.Recv, Valid, BufOf;
      if chunk == [] { return false, [], false; }
      overflow := AddData(uid, chunk);
      dispatched, hung := ProcessSessionBuffer(uid);
    }
  }

  // The read loop of AsioSession: its own buffer is empty whenever a read is
  // started, so every completed read hands on exactly the bytes it received.
  class ReadLoop {
    const uid: int
    const buffer: PacketBuffer
    const sessions: SessionBuffers

    ghost predicate AtDoRead()
      reads this, buffer, sessions, sessions.Repr
    {
      && buffer.Valid() && buffer.readPos == 0 && buffer.writePos == 0
      && sessions.Valid() && buffer !in sessions.Repr && buffer.data !in sessions.Repr
    }

    // The buffer is new, and nobody else's.
    constructor (uid: int, buffer: PacketBuffer, sessions: SessionBuffers)
      requires buffer.Valid() && buffer.readPos == 0 && buffer.writePos == 0
      requires sessions.Valid() && buffer !in sessions.Repr && buffer.data !in sessions.Repr
      ensures AtDoRead() && this.uid == uid && this.buffer == buffer && this.sessions == sessions
    {
      this.uid, this.buffer, this.sessions := uid, buffer, sessions;
    }

    // The network has put `net` into the free space that DoRead offered; the
    // bytes are copied out of the buffer.
    method TakeIn(net: bytes) returns (handed: bytes)
      requires AtDoRead() && |net| <= R.CAPACITY
      modifies buffer`writePos, buffer.data
      ensures buffer.Valid() && buffer.State() == R.Buf(net, |net|)
      ensures handed == net
    {
      forall i | 0 <= i < |net| { buffer.data[i] := net[i]; }
      var ok := buffer.Advance(|net|);
      assert ok && buffer.data[buffer.readPos..buffer.writePos] == net;
      var dataSize := buffer.DataSize();
      handed := buffer.data[buffer.readPos..buffer.readPos + dataSize];
    }

    // HandleRead without an error.
    method HandleRead(net: bytes) returns (handed: bytes, overflow: bool, dispatched: seq<bytes>, hung: bool)
      requires AtDoRead() && |net| <= R.CAPACITY
      modifies buffer, buffer.data, sessions.Repr
      ensures handed == net
      ensures hung || AtDoRead()
      ensures overflow <==> net != [] && R.Overflows(old(sessions.BufOf(uid)), net)
      ensures sessions.Valid() && fresh(sessions.Repr - old(sessions.Repr))
      ensures var c := R.Recv(R.Dropping, R.Conn(old(sessions.BufOf(uid)), [], 0, 0, false), net);
              sessions.BufOf(uid) == c.buf && dispatched == c.dispatched && hung == c.hung
      ensures sessions.states - {uid} == old(sessions.states) - {uid}
    {
      hide R.Recv, SessionBuffers.Valid;
      handed := TakeIn(net);
      overflow, dispatched, hung := sessions.RecvData(uid, handed);
      if hung { return; }
      Reset(|net|);
    }

    // All bytes of the loop's own buffer were handed on.
    method Reset(length: nat)
      requires buffer.Valid() && buffer.DataSize() == length
      modifies buffer, buffer.data
      ensures buffer.Valid() && buffer.readPos == 0 && buffer.writePos == 0
    {
      hide Q.PutAll, Q.Copy;
      var ok := buffer.OnRead(length);
      buffer.Clear();
    }

    // The loop of DoRead and HandleRead over the reads that complete, until a cut
    // gets stuck: RecvData is handed exactly the bytes that were read, read by read,
    // and the session is where its run on them leads.
    method Serve(nets: seq<bytes>) returns (handed: seq<bytes>, dispatched: seq<bytes>, hung: bool)
      requires AtDoRead() && forall i :: 0 <= i < |nets| ==> |nets[i]| <= R.CAPACITY
      modifies buffer, buffer.data, sessions.Repr
      ensures handed <= nets && (!hung ==> handed == nets && AtDoRead())
      ensures Flatten(handed) == Flatten(nets[..|handed|])
      ensures var c := R.Run(R.Dropping, R.Conn(old(sessions.BufOf(uid)), [], 0, 0, false), nets);
              sessions.BufOf(uid) == c.buf && dispatched == c.dispatched && hung == c.hung
      ensures sessions.states - {uid} == old(sessions.states) - {uid}
    {
      ghost var start := R.Conn(sessions.BufOf(uid), [], 0, 0, false);
      handed, dispatched, hung := [], [], false;
      var i := 0;
      assert nets[..0] == [];
      while i < |nets|
        invariant 0 <= i <= |nets| && !hung && AtDoRead() && handed == nets[..i]
        invariant fresh(sessions.Repr - old(sessions.Repr))
        invariant var c := R.Run(R.Dropping, start, nets[..i]);
                  sessions.BufOf(uid) == c.buf && dispatched == c.dispatched && !c.hung
        invariant sessions.states - {uid} == old(sessions.states) - {uid}
      {
        hide R.Run, R.Recv, SessionBuffers.Valid, PacketBuffer.Valid;
        ghost var c := R.Run(R.Dropping, start, nets[..i]);
        R.RecvBehind(R.Dropping, c, nets[i]);
        R.RunSnoc(R.Dropping, start, nets[..i], nets[i]);
        assert nets[..i] + [nets[i]] == nets[..i + 1];
        var copy, overflow, frames;
        copy, overflow, frames, hung := HandleRead(nets[i]);
        handed, dispatched := handed + [copy], dispatched + frames;
        i := i + 1;
        if hung { break; }
      }
      R.RunToTheEnd(R.Dropping, start, nets, i);
    }
  }
}
