// The receive path of one connection on values: bytes wait in a buffer that is
// written behind and read in front, frames are cut off, and the buffer is
// cleared after a cut.
module Reassembly {
  import opened Bytes
  import F = Framing

  // PacketBuffer's default: a buffer size of 65536 and ten times that capacity.
  const BUFFER_SIZE: nat := 65536
  const CAPACITY: nat := 655360

  // The unread bytes and the write position.  The read position is the write
  // position minus the number of unread bytes.
  datatype Buf = Buf(unread: bytes, writePos: nat) {
    predicate Valid() {
      |unread| <= writePos <= CAPACITY
    }
  }

  const EmptyBuf := Buf([], 0)

  predicate Overflows(s: Buf, chunk: bytes) {
    CAPACITY - s.writePos < |chunk|
  }

  // OnWrite: a chunk that does not fit behind the write position is dropped.
  function Write(s: Buf, chunk: bytes): (r: Buf)
    requires s.Valid()
    ensures r.Valid()
  {
    if Overflows(s, chunk) then s else Buf(s.unread + chunk, s.writePos + |chunk|)
  }

  // What Clear does with unread bytes when little room is left: the code copies
  // them to the front and then sets the write position to 0, its comment says that
  // they are kept.
  datatype Clearing = Dropping | Keeping

  predicate ClearDrops(how: Clearing, s: Buf) {
    how.Dropping? && s.unread != [] && CAPACITY - s.writePos < BUFFER_SIZE
  }

  function Clear(how: Clearing, s: Buf): (r: Buf)
    requires s.Valid()
    ensures r.Valid()
  {
    if s.unread == [] || ClearDrops(how, s) then EmptyBuf
    else if CAPACITY - s.writePos < BUFFER_SIZE then Buf(s.unread, |s.unread|)
    else s
  }

  // What is left when the frames are cut off, before Clear.
  function AfterCut(s: Buf): (r: Buf)
    requires s.Valid()
    ensures r.Valid()
  {
    s.(unread := s.unread[F.CutFrames(s.unread).consumed..])
  }

  // ProcessSessionBuffer: Clear runs only when something was cut off.
  function Process(how: Clearing, s: Buf): (r: Buf)
    requires s.Valid()
    ensures r.Valid()
  {
    if F.CutFrames(s.unread).consumed == 0 then s else Clear(how, AfterCut(s))
  }

  lemma NothingCut(how: Clearing, s: Buf)
    requires s.Valid()
    ensures F.CutFrames(s.unread).consumed == 0 ==> Process(how, s) == s
    ensures s.unread == [] ==> F.CutFrames(s.unread) == F.Cut([], 0, false)
  {
  }

  // ------------------------------------------------------------------- whole runs

  // A connection after some chunks: its buffer, the frames dispatched so far,
  // how many bytes were received, how many of them were dropped, and whether the
  // processing loop is stuck on a zero size.
  datatype Conn = Conn(buf: Buf, dispatched: seq<bytes>, received: nat, dropped: nat, hung: bool)

  const Opened := Conn(EmptyBuf, [], 0, 0, false)

  // RecvData: AddData, then ProcessSessionBuffer.  Nothing happens on an empty
  // chunk, and nothing ever again once the loop is stuck.
  function Recv(how: Clearing, c: Conn, chunk: bytes): (r: Conn)
    requires c.buf.Valid()
    ensures r.buf.Valid()
  {
    if c.hung || chunk == [] then c
    else
      var w := Write(c.buf, chunk);
      var cut := F.CutFrames(w.unread);
      if cut.hung then
        c.(buf := w, dispatched := c.dispatched + cut.frames, received := c.received + |chunk|,
           dropped := c.dropped + Dropped(how, c.buf, chunk), hung := true)
      else
        Conn(Process(how, w), c.dispatched + cut.frames, c.received + |chunk|,
             c.dropped + Dropped(how, c.buf, chunk), false)
  }

  // The two halves, each under the lock.
  function Added(c: Conn, chunk: bytes): (r: Conn)
    requires c.buf.Valid()
    ensures r.buf.Valid()
  {
    c.(buf := Write(c.buf, chunk), received := c.received + |chunk|,
       dropped := c.dropped + if Overflows(c.buf, chunk) then |chunk| else 0)
  }

  function Processed(how: Clearing, c: Conn): (r: Conn)
    requires c.buf.Valid()
    ensures r.buf.Valid()
  {
    var cut := F.CutFrames(c.buf.unread);
    if cut.hung then c.(dispatched := c.dispatched + cut.frames, hung := true)
    else
      var lost := if cut.consumed > 0 && ClearDrops(how, AfterCut(c.buf)) then |AfterCut(c.buf).unread| else 0;
      c.(buf := Process(how, c.buf), dispatched := c.dispatched + cut.frames, dropped := c.dropped + lost)
  }

  lemma RecvInTwo(how: Clearing, c: Conn, chunk: bytes)
    requires c.buf.Valid() && !c.hung && chunk != []
    ensures Recv(how, c, chunk) == Processed(how, Added(c, chunk))
  {
    hide F.CutFrames;
  }

  // What a step that does something does to the buffer.
  lemma RecvIs(how: Clearing, s: Buf, chunk: bytes)
    requires s.Valid()
    ensures var c, w := Recv(how, Conn(s, [], 0, 0, false), chunk), Write(s, chunk);
            var cut := F.CutFrames(w.unread);
            if chunk == [] then c == Conn(s, [], 0, 0, false)
            else
              && c.dispatched == cut.frames && c.hung == cut.hung
              && c.buf == if cut.hung then w else Process(how, w)
  {
    hide F.CutFrames;
    var cut := F.CutFrames(Write(s, chunk).unread);
    assert [] + cut.frames == cut.frames;
  }

  // The bytes a step loses: the chunk on overflow, the rest of the last cut when
  // Clear drops it.
  function Dropped(how: Clearing, s: Buf, chunk: bytes): nat
    requires s.Valid()
  {
    var w := Write(s, chunk);
    var cut := F.CutFrames(w.unread);
    (if Overflows(s, chunk) then |chunk| else 0) +
    (if !cut.hung && cut.consumed > 0 && ClearDrops(how, AfterCut(w)) then |AfterCut(w).unread| else 0)
  }

  function Run(how: Clearing, c: Conn, chunks: seq<bytes>): (r: Conn)
    requires c.buf.Valid()
    ensures r.buf.Valid()
    decreases |chunks|
  {
    if chunks == [] then c else Run(how, Recv(how, c, chunks[0]), chunks[1..])
  }

  // The buffer never holds a whole frame between two steps.
  predicate Settled(c: Conn) {
    c.buf.Valid() && (!c.hung ==> F.Incomplete(c.buf.unread))
  }

  // Bytes are dispatched, waiting or dropped; on a stuck connection the waiting
  // ones include frames that were already dispatched.
  predicate Balanced(c: Conn) {
    && (!c.hung ==> |Flatten(c.dispatched)| + |c.buf.unread| + c.dropped == c.received)
    && |Flatten(c.dispatched)| + c.dropped <= c.received
  }

  lemma RecvKeeps(how: Clearing, c: Conn, chunk: bytes)
    requires Settled(c) && Balanced(c)
    ensures Settled(Recv(how, c, chunk)) && Balanced(Recv(how, c, chunk))
    ensures Recv(how, c, chunk).dropped >= c.dropped
  {
    if !c.hung && chunk != [] {
      var w := Write(c.buf, chunk);
      var cut := F.CutFrames(w.unread);
      F.CutDecomposes(w.unread);
      FlattenConcat(c.dispatched, cut.frames);
      assert w.unread[0..] == w.unread;
      assert F.Incomplete([]);
    }
  }

  // Over every run, whatever the chunks: the books balance, and nothing whole is
  // left waiting.
  lemma {:induction false} RunKeeps(how: Clearing, c: Conn, chunks: seq<bytes>)
    requires Settled(c) && Balanced(c)
    ensures Settled(Run(how, c, chunks)) && Balanced(Run(how, c, chunks))
    ensures Run(how, c, chunks).dropped >= c.dropped
    decreases |chunks|
  {
    if chunks != [] {
      RecvKeeps(how, c, chunks[0]);
      RunKeeps(how, Recv(how, c, chunks[0]), chunks[1..]);
    }
  }

  lemma {:induction false} HungStays(how: Clearing, c: Conn, chunks: seq<bytes>)
    requires c.buf.Valid() && c.hung
    ensures Run(how, c, chunks) == c
    decreases |chunks|
  {
    if chunks != [] { HungStays(how, c, chunks[1..]); }
  }

  lemma {:induction false} RunReceives(how: Clearing, c: Conn, chunks: seq<bytes>)
    requires c.buf.Valid()
    ensures Run(how, c, chunks).received <= c.received + |Flatten(chunks)|
    ensures !Run(how, c, chunks).hung ==> Run(how, c, chunks).received == c.received + |Flatten(chunks)|
    decreases |chunks|
  {
    if c.hung {
      HungStays(how, c, chunks);
    } else if chunks != [] {
      RunReceives(how, Recv(how, c, chunks[0]), chunks[1..]);
    }
  }

  // While nothing is dropped, the frames are those of the whole stream cut at
  // once, and the waiting bytes are its rest.
  predicate Faithful(c: Conn, stream: bytes) {
    var cut := F.CutFrames(stream);
    && c.hung == cut.hung
    && c.dispatched == cut.frames
    && (!c.hung ==> c.buf.unread == stream[cut.consumed..])
  }

  // A step that drops nothing cuts its chunk behind the waiting bytes.
  lemma RecvKept(how: Clearing, c: Conn, chunk: bytes)
    requires c.buf.Valid() && !c.hung && chunk != [] && Recv(how, c, chunk).dropped == c.dropped
    ensures var cut := F.CutFrames(c.buf.unread + chunk);
            && Recv(how, c, chunk).hung == cut.hung
            && Recv(how, c, chunk).dispatched == c.dispatched + cut.frames
            && (!cut.hung ==> Recv(how, c, chunk).buf.unread == (c.buf.unread + chunk)[cut.consumed..])
  {
    hide F.CutFrames;
    var unread := Write(c.buf, chunk).unread;
    assert unread[0..] == unread;
  }

  // The same on bytes: cutting behind what waits is cutting the longer stream.
  lemma CutWaiting(stream: bytes, unread: bytes, chunk: bytes)
    requires !F.CutFrames(stream).hung && unread == stream[F.CutFrames(stream).consumed..]
    ensures var cut, all := F.CutFrames(unread + chunk), F.CutFrames(stream + chunk);
            && all.frames == F.CutFrames(stream).frames + cut.frames
            && all.hung == cut.hung
            && all.consumed == F.CutFrames(stream).consumed + cut.consumed
            && (stream + chunk)[all.consumed..] == (unread + chunk)[cut.consumed..]
  {
    F.CutLater(stream, chunk);
    hide F.CutFrames;
    SliceBehind(stream, chunk, F.CutFrames(stream).consumed, F.CutFrames(unread + chunk).consumed);
  }

  lemma SliceBehind<T>(s: seq<T>, t: seq<T>, m: nat, n: nat)
    requires m <= |s| && m + n <= |s + t|
    ensures s[m..] + t == (s + t)[m..]
    ensures (s + t)[m + n..] == (s[m..] + t)[n..]
  {
    assert s[m..] + t == (s + t)[m..];
  }

  lemma RecvFaithful(how: Clearing, c: Conn, stream: bytes, chunk: bytes)
    requires c.buf.Valid() && !c.hung && Faithful(c, stream) && Recv(how, c, chunk).dropped == c.dropped
    ensures Faithful(Recv(how, c, chunk), stream + chunk)
  {
    if chunk == [] {
      assert stream + chunk == stream;
    } else {
      RecvKept(how, c, chunk);
      CutWaiting(stream, c.buf.unread, chunk);
      hide Recv, F.CutFrames;
    }
  }

  lemma HungCutStays(stream: bytes, more: bytes)
    requires F.CutFrames(stream).hung
    ensures F.CutFrames(stream + more) == F.CutFrames(stream)
    decreases |stream|
  {
    F.StillComplete(stream, more);
    var n := F.PacketSize(stream);
    if n != 0 {
      F.CutStep(stream);
      F.CutStep(stream + more);
      HungCutStays(stream[n..], more);
    }
  }

  lemma HungFaithful(how: Clearing, c: Conn, stream: bytes, chunks: seq<bytes>)
    requires c.buf.Valid() && c.hung && Faithful(c, stream)
    ensures Faithful(Run(how, c, chunks), stream + Flatten(chunks))
  {
    HungStays(how, c, chunks);
    HungCutStays(stream, Flatten(chunks));
  }

  lemma FlattenFirst<T>(s: seq<T>, parts: seq<seq<T>>)
    requires parts != []
    ensures (s + parts[0]) + Flatten(parts[1..]) == s + Flatten(parts)
  {
  }

  lemma {:induction false} RunFaithful(how: Clearing, c: Conn, stream: bytes, chunks: seq<bytes>)
    requires Settled(c) && Balanced(c) && Faithful(c, stream) && Run(how, c, chunks).dropped == c.dropped
    ensures Faithful(Run(how, c, chunks), stream + Flatten(chunks))
    decreases |chunks|
  {
    hide Recv, Balanced, Faithful, F.Incomplete;
    if c.hung {
      HungFaithful(how, c, stream, chunks);
    } else if chunks == [] {
      assert stream + [] == stream;
    } else {
      var next := Recv(how, c, chunks[0]);
      RecvKeeps(how, c, chunks[0]);
      RunKeeps(how, next, chunks[1..]);
      RecvFaithful(how, c, stream, chunks[0]);
      RunFaithful(how, next, stream + chunks[0], chunks[1..]);
      FlattenFirst(stream, chunks);
    }
  }

  // Chunking independence: a run that drops nothing dispatches exactly the
  // frames of the whole stream, keeps exactly its rest, and hangs exactly when
  // one-shot processing does, however the stream was chunked.
  lemma ChunkingIndependence(how: Clearing, chunks: seq<bytes>)
    requires Run(how, Opened, chunks).dropped == 0
    ensures Faithful(Run(how, Opened, chunks), Flatten(chunks))
  {
    assert F.Incomplete([]);
    RunFaithful(how, Opened, [], chunks);
    assert [] + Flatten(chunks) == Flatten(chunks);
  }

  // The condition is exact for a run that is not stuck in the end: as soon as a
  // byte is dropped, the dispatched frames and the waiting bytes are no longer the
  // stream.  HungHidesLoss shows a stuck run for which this fails.
  lemma FaithfulIffNothingDropped(how: Clearing, chunks: seq<bytes>)
    requires !Run(how, Opened, chunks).hung
    ensures Faithful(Run(how, Opened, chunks), Flatten(chunks)) <==> Run(how, Opened, chunks).dropped == 0
  {
    var r, stream := Run(how, Opened, chunks), Flatten(chunks);
    assert F.Incomplete([]);
    RunKeeps(how, Opened, chunks);
    RunReceives(how, Opened, chunks);
    F.CutDecomposes(stream);
    if r.dropped == 0 { ChunkingIndependence(how, chunks); }
  }

  // ------------------------------------------------------- when a byte is dropped

  // The guards of the two branches that lose bytes, before a step is taken.
  predicate ClearSafe(how: Clearing, s: Buf, chunk: bytes)
    requires s.Valid()
  {
    var w := Write(s, chunk);
    F.CutFrames(w.unread).consumed > 0 && !F.CutFrames(w.unread).hung ==> !ClearDrops(how, AfterCut(w))
  }

  predicate Safe(how: Clearing, s: Buf, chunk: bytes)
    requires s.Valid()
  {
    !Overflows(s, chunk) && ClearSafe(how, s, chunk)
  }

  predicate SafeRun(how: Clearing, c: Conn, chunks: seq<bytes>)
    requires c.buf.Valid()
    decreases |chunks|
  {
    chunks == [] ||
    ((c.hung || chunks[0] == [] || Safe(how, c.buf, chunks[0])) && SafeRun(how, Recv(how, c, chunks[0]), chunks[1..]))
  }

  lemma {:induction false} DropsIffUnsafe(how: Clearing, c: Conn, chunks: seq<bytes>)
    requires Settled(c) && Balanced(c)
    ensures Run(how, c, chunks).dropped == c.dropped <==> SafeRun(how, c, chunks)
    decreases |chunks|
  {
    if chunks != [] {
      var next := Recv(how, c, chunks[0]);
      RecvKeeps(how, c, chunks[0]);
      RunKeeps(how, next, chunks[1..]);
      DropsIffUnsafe(how, next, chunks[1..]);
    }
  }

  // The guards decide: a run gives the frames of its stream, whatever the
  // chunks, exactly when neither guard ever fires, or else it is stuck in the end.
  lemma FaithfulIffSafe(how: Clearing, chunks: seq<bytes>)
    ensures SafeRun(how, Opened, chunks) ==> Faithful(Run(how, Opened, chunks), Flatten(chunks))
    ensures !SafeRun(how, Opened, chunks) && Faithful(Run(how, Opened, chunks), Flatten(chunks)) ==>
              Run(how, Opened, chunks).hung
  {
    assert F.Incomplete([]);
    DropsIffUnsafe(how, Opened, chunks);
    if SafeRun(how, Opened, chunks) { ChunkingIndependence(how, chunks); }
    if !Run(how, Opened, chunks).hung { FaithfulIffNothingDropped(how, chunks); }
  }

  // A connection that receives at most nine buffer sizes in all never comes near
  // either guard.
  lemma {:induction false} ShortStreamIsSafe(how: Clearing, c: Conn, chunks: seq<bytes>)
    requires c.buf.Valid() && c.buf.writePos <= c.received
    requires c.received + |Flatten(chunks)| <= CAPACITY - BUFFER_SIZE
    ensures SafeRun(how, c, chunks)
    decreases |chunks|
  {
    if c.hung {
      StuckIsSafe(how, c, chunks);
    } else if chunks != [] {
      ShortStreamIsSafe(how, Recv(how, c, chunks[0]), chunks[1..]);
    }
  }

  lemma {:induction false} StuckIsSafe(how: Clearing, c: Conn, chunks: seq<bytes>)
    requires c.buf.Valid() && c.hung
    ensures SafeRun(how, c, chunks)
    decreases |chunks|
  {
    if chunks != [] { StuckIsSafe(how, c, chunks[1..]); }
  }

  // Chunking does matter beyond that: nine frames of 65535 bytes and the start of
  // a tenth lose that start when they arrive in one chunk, and keep it when the
  // chunk boundary falls behind the ninth frame.
  lemma ChunkingMatters(f: bytes, start: bytes)
    requires F.WellFormed(f) && |f| == BUFFER_SIZE - 1 && 10 <= |start| < F.HEADER_SIZE
    ensures var nine := Flatten(seq(9, _ => f));
            && Flatten([nine + start]) == Flatten([nine, start])
            && Run(Dropping, Opened, [nine + start]) == Conn(EmptyBuf, seq(9, _ => f), |nine + start|, |start|, false)
            && Run(Dropping, Opened, [nine, start]) == Conn(Buf(start, |start|), seq(9, _ => f), |nine + start|, 0, false)
  {
    var fs := seq(9, _ => f);
    var nine := Flatten(fs);
    FlattenSame(f, 9);
    assert [nine, start][1..] == [start];
    FlattenSnoc([], nine + start);
    FlattenSnoc([nine], start);
    FlattenSnoc([], nine);
    assert [] + [nine + start] == [nine + start] && [] + [nine] == [nine] && [nine] + [start] == [nine, start];
    assert [] + (nine + start) == nine + start && [] + nine == nine;
    assert F.CutFrames(start) == F.Cut([], 0, false);
    F.CutIsUnique(fs, start);
    F.CutIsUnique(fs, []);
    assert nine + [] == nine;
    assert (nine + start)[|nine|..] == start;
    hide F.CutFrames;
    AtOnce(fs, nine, start);
    ByFrame(Dropping, fs, nine, start);
  }

  // A stuck connection can hide what it lost: nine frames and ten zero bytes lose
  // those ten, and twelve more zero bytes get it stuck where the whole stream gets
  // stuck as well.
  lemma HungHidesLoss(f: bytes)
    requires F.WellFormed(f) && |f| == BUFFER_SIZE - 1
    ensures var chunks := [Flatten(seq(9, _ => f)) + seq(10, _ => 0), seq(12, _ => 0)];
            var r := Run(Dropping, Opened, chunks);
            r.hung && r.dropped == 10 && Faithful(r, Flatten(chunks))
  {
    var fs, ten: bytes, twelve: bytes := seq(9, _ => f), seq(10, _ => 0), seq(12, _ => 0);
    var a := Flatten(fs) + ten;
    ChunkingMatters(f, ten);
    StuckStream(fs, ten, twelve);
    ZerosAreStuck(twelve);
    hide F.CutFrames, F.WellFormed, Recv;
    var c := Run(Dropping, Opened, [a]);
    var one: seq<bytes>, last: seq<bytes> := [a], [twelve];
    assert one[1..] == [] && last[1..] == [];
    assert c == Recv(Dropping, Opened, a);
    GetsStuck(c, twelve);
    assert [a, twelve][1..] == last;
    assert Run(Dropping, Opened, [a, twelve]) == Run(Dropping, c, [twelve]) == Recv(Dropping, c, twelve);
  }

  lemma StuckStream(fs: seq<bytes>, ten: bytes, twelve: bytes)
    requires F.AllWellFormed(fs) && ten == seq(10, _ => 0) && twelve == seq(12, _ => 0)
    ensures F.CutFrames(Flatten([Flatten(fs) + ten, twelve])) == F.Cut(fs, |Flatten(fs)|, true)
  {
    var a := Flatten(fs) + ten;
    F.CutIsUnique(fs, ten);
    F.CutLater(a, twelve);
    ZerosAreStuck(ten + twelve);
    hide F.CutFrames, F.AllWellFormed;
    assert a[|Flatten(fs)|..] == ten && fs + [] == fs;
    FlattenSnoc([], a);
    FlattenSnoc([a], twelve);
    assert [] + [a] == [a] && [] + a == a && [a] + [twelve] == [a, twelve];
  }

  lemma ZerosAreStuck(zeros: bytes)
    requires |zeros| >= F.HEADER_SIZE && forall i :: 0 <= i < |zeros| ==> zeros[i] == 0
    ensures F.CutFrames(zeros) == F.Cut([], 0, true)
  {
    assert zeros[4..8] == [0, 0, 0, 0];
  }

  lemma GetsStuck(c: Conn, chunk: bytes)
    requires !c.hung && c.buf == EmptyBuf && 0 < |chunk| <= CAPACITY && F.CutFrames(chunk) == F.Cut([], 0, true)
    ensures var r := Recv(Dropping, c, chunk); r.hung && r.dispatched == c.dispatched && r.dropped == c.dropped
  {
    hide F.CutFrames;
    assert [] + chunk == chunk && c.dispatched + [] == c.dispatched;
  }

  lemma FlattenSame(f: bytes, n: nat)
    ensures |Flatten(seq(n, _ => f))| == n * |f|
  {
    if n > 0 { assert seq(n, _ => f)[1..] == seq(n - 1, _ => f); FlattenSame(f, n - 1); }
  }

  lemma AtOnce(fs: seq<bytes>, whole: bytes, start: bytes)
    requires F.CutFrames(whole + start) == F.Cut(fs, |whole|, false) && (whole + start)[|whole|..] == start
    requires |whole| > 0 && start != [] && CAPACITY - BUFFER_SIZE < |whole + start| <= CAPACITY
    ensures Run(Dropping, Opened, [whole + start]) == Conn(EmptyBuf, fs, |whole + start|, |start|, false)
  {
    hide F.CutFrames;
    var c := Recv(Dropping, Opened, whole + start);
    assert [] + (whole + start) == whole + start;
    assert Run(Dropping, Opened, [whole + start]) == Run(Dropping, c, []);
  }

  lemma ByFrame(how: Clearing, fs: seq<bytes>, whole: bytes, start: bytes)
    requires F.CutFrames(whole) == F.Cut(fs, |whole|, false) && F.CutFrames(start) == F.Cut([], 0, false)
    requires |whole| > 0 && start != [] && |whole + start| <= CAPACITY
    ensures Run(how, Opened, [whole, start]) == Conn(Buf(start, |start|), fs, |whole + start|, 0, false)
  {
    hide F.CutFrames;
    var c := Recv(how, Opened, whole);
    assert [] + whole == whole && whole[|whole|..] == [] && [] + start == start && fs + [] == fs;
    assert [whole, start][1..] == [start];
    assert Run(how, Opened, [whole, start]) == Run(how, c, [start]) == Run(how, Recv(how, c, start), []);
  }

  // No chunk of the run overflows the buffer, whatever was dropped before.
  predicate Fits(how: Clearing, c: Conn, chunks: seq<bytes>)
    requires c.buf.Valid()
    decreases |chunks|
  {
    chunks == [] ||
    ((c.hung || !Overflows(c.buf, chunks[0])) && Fits(how, Recv(how, c, chunks[0]), chunks[1..]))
  }

  lemma {:induction false} SafeRunFits(how: Clearing, c: Conn, chunks: seq<bytes>)
    requires c.buf.Valid() && SafeRun(how, c, chunks)
    ensures Fits(how, c, chunks)
    decreases |chunks|
  {
    if chunks != [] { SafeRunFits(how, Recv(how, c, chunks[0]), chunks[1..]); }
  }

  // A Clear that keeps the unread bytes loses nothing but chunks that overflow.
  lemma {:induction false} KeepingIsSafe(c: Conn, chunks: seq<bytes>)
    requires c.buf.Valid()
    ensures SafeRun(Keeping, c, chunks) <==> Fits(Keeping, c, chunks)
    decreases |chunks|
  {
    if chunks != [] { KeepingIsSafe(Recv(Keeping, c, chunks[0]), chunks[1..]); }
  }

  // ------------------------------------------------------------- runs in parts

  lemma {:induction false} RunParts(how: Clearing, c: Conn, a: seq<bytes>, b: seq<bytes>)
    requires c.buf.Valid()
    ensures Run(how, c, a + b) == Run(how, Run(how, c, a), b)
    ensures Fits(how, c, a + b) <==> Fits(how, c, a) && Fits(how, Run(how, c, a), b)
    decreases |a|
  {
    hide Recv;
    if a == [] {
      assert a + b == b;
    } else {
      assert (a + b)[1..] == a[1..] + b;
      RunParts(how, Recv(how, c, a[0]), a[1..], b);
    }
  }

  lemma RunSingle(how: Clearing, c: Conn, x: bytes)
    requires c.buf.Valid()
    ensures Run(how, c, [x]) == Recv(how, c, x)
    ensures Fits(how, c, [x]) <==> c.hung || !Overflows(c.buf, x)
  {
    hide Recv;
    assert [x][1..] == [];
  }

  lemma RunSnoc(how: Clearing, c: Conn, chunks: seq<bytes>, x: bytes)
    requires c.buf.Valid()
    ensures Run(how, c, chunks + [x]) == Recv(how, Run(how, c, chunks), x)
  {
    RunParts(how, c, chunks, [x]);
    RunSingle(how, Run(how, c, chunks), x);
  }

  // A stuck run is not changed by the chunks that are left.
  lemma RunToTheEnd(how: Clearing, c: Conn, chunks: seq<bytes>, i: nat)
    requires c.buf.Valid() && i <= |chunks| && (i < |chunks| ==> Run(how, c, chunks[..i]).hung)
    ensures Run(how, c, chunks) == Run(how, c, chunks[..i])
  {
    assert chunks == chunks[..i] + chunks[i..];
    RunParts(how, c, chunks[..i], chunks[i..]);
    if i < |chunks| { HungStays(how, Run(how, c, chunks[..i]), chunks[i..]); }
  }

  // A step depends on the buffer alone; what was dispatched before stays in front.
  lemma RecvBehind(how: Clearing, c: Conn, chunk: bytes)
    requires c.buf.Valid() && !c.hung
    ensures var r, z := Recv(how, c, chunk), Recv(how, Conn(c.buf, [], 0, 0, false), chunk);
            r.buf == z.buf && r.hung == z.hung && r.dispatched == c.dispatched + z.dispatched
  {
    hide F.CutFrames, Process, Write, Dropped;
    var cut := F.CutFrames(Write(c.buf, chunk).unread);
    assert [] + cut.frames == cut.frames;
  }

  // Two ways of chunking a stream give the same frames and the same rest when
  // neither meets a guard; with a Clear that keeps the unread bytes, when neither
  // overflows.
  lemma SameStreamSameFrames(how: Clearing, a: seq<bytes>, b: seq<bytes>)
    requires Flatten(a) == Flatten(b) && SafeRun(how, Opened, a) && SafeRun(how, Opened, b)
    ensures SameOutcome(Run(how, Opened, a), Run(how, Opened, b))
  {
    FaithfulIffSafe(how, a);
    FaithfulIffSafe(how, b);
  }

  predicate SameOutcome(c: Conn, d: Conn) {
    c.dispatched == d.dispatched && c.hung == d.hung && (!c.hung ==> c.buf.unread == d.buf.unread)
  }

  lemma KeepingIsIndependent(a: seq<bytes>, b: seq<bytes>)
    requires Flatten(a) == Flatten(b) && Fits(Keeping, Opened, a) && Fits(Keeping, Opened, b)
    ensures SameOutcome(Run(Keeping, Opened, a), Run(Keeping, Opened, b))
  {
    KeepingIsSafe(Opened, a);
    KeepingIsSafe(Opened, b);
    SameStreamSameFrames(Keeping, a, b);
  }
}
