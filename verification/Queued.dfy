// The bytes behind a queue item.  An item points into its session's buffer, and
// later chunks write into that buffer: what a handler reads when its turn comes.
module Queued {
  import opened Bytes
  import opened Reassembly
  import F = Framing

  // ----------------------------------------------------------------------- writes

  datatype Store = Store(at: nat, what: bytes)

  predicate Inside(ws: seq<Store>, n: nat) {
    forall i :: 0 <= i < |ws| ==> ws[i].at + |ws[i].what| <= n
  }

  function Put(data: bytes, w: Store): (r: bytes)
    requires w.at + |w.what| <= |data|
    ensures |r| == |data|
  {
    data[..w.at] + w.what + data[w.at + |w.what|..]
  }

  function PutAll(data: bytes, ws: seq<Store>): (r: bytes)
    requires Inside(ws, |data|)
    ensures |r| == |data|
    decreases |ws|
  {
    if ws == [] then data
    else
      assert forall i :: 0 <= i < |ws[1..]| ==> ws[1..][i] == ws[i + 1];
      PutAll(Put(data, ws[0]), ws[1..])
  }

  predicate Hits(w: Store, x: nat) {
    w.at <= x < w.at + |w.what|
  }

  // The byte that was written last at a position.
  function Last(ws: seq<Store>, x: nat): Option<byte> {
    if ws == [] then None
    else
      var w := ws[|ws| - 1];
      if Hits(w, x) then Some(w.what[x - w.at]) else Last(ws[..|ws| - 1], x)
  }

  lemma {:induction false} PutAllConcat(data: bytes, a: seq<Store>, b: seq<Store>)
    requires Inside(a, |data|) && Inside(b, |data|)
    ensures Inside(a + b, |data|) && PutAll(data, a + b) == PutAll(PutAll(data, a), b)
    decreases |a|
  {
    if a == [] {
      assert a + b == b;
    } else {
      assert forall i :: 0 <= i < |a[1..]| ==> a[1..][i] == a[i + 1];
      assert (a + b)[1..] == a[1..] + b;
      hide Put;
      PutAllConcat(Put(data, a[0]), a[1..], b);
    }
  }

  lemma {:induction false} PutAllIs(data: bytes, ws: seq<Store>, x: nat)
    requires Inside(ws, |data|) && x < |data|
    ensures PutAll(data, ws)[x] == match Last(ws, x) case Some(b) => b case None => data[x]
    decreases |ws|
  {
    if ws != [] {
      var n := |ws| - 1;
      var front, w := ws[..n], ws[n];
      assert ws == front + [w];
      PutAllIs(data, front, x);
      PutAllConcat(data, front, [w]);
      OneStore(PutAll(data, front), w, x);
    }
  }

  lemma OneStore(data: bytes, w: Store, x: nat)
    requires w.at + |w.what| <= |data| && x < |data|
    ensures PutAll(data, [w])[x] == if Hits(w, x) then w.what[x - w.at] else data[x]
  {
    assert [w][1..] == [];
  }

  // --------------------------------------------------------------- a buffer's bytes

  // A connection with the bytes of its buffer.
  datatype Mem = Mem(conn: Conn, data: bytes)

  predicate Valid(m: Mem) {
    && m.conn.buf.Valid() && |m.data| == CAPACITY
    && m.data[m.conn.buf.writePos - |m.conn.buf.unread|..m.conn.buf.writePos] == m.conn.buf.unread
  }

  // OnWrite's copy.
  function Append(s: Buf, chunk: bytes): (ws: seq<Store>)
    requires s.Valid()
    ensures Inside(ws, CAPACITY)
  {
    if Overflows(s, chunk) then [] else [Store(s.writePos, chunk)]
  }

  // Clear's copy to the front, and when it happens: behind a cut.
  function Copy(s: Buf): (ws: seq<Store>)
    requires s.Valid()
    ensures Inside(ws, CAPACITY)
  {
    if s.unread != [] && CAPACITY - s.writePos < BUFFER_SIZE then [Store(0, s.unread)] else []
  }

  function Move(s: Buf): (ws: seq<Store>)
    requires s.Valid()
    ensures Inside(ws, CAPACITY)
  {
    var cut := F.CutFrames(s.unread);
    if !cut.hung && cut.consumed > 0 then Copy(AfterCut(s)) else []
  }

  lemma PutOne(data: bytes, w: Store)
    requires w.at + |w.what| <= |data|
    ensures PutAll(data, [w]) == Put(data, w) && PutAll(data, []) == data
  {
    assert [w][1..] == [];
  }

  function StoresOf(c: Conn, chunk: bytes): (ws: seq<Store>)
    requires c.buf.Valid()
    ensures Inside(ws, CAPACITY)
  {
    if c.hung || chunk == [] then [] else Append(c.buf, chunk) + Move(Write(c.buf, chunk))
  }

  function Step(how: Clearing, m: Mem, chunk: bytes): Mem
    requires Valid(m)
  {
    Mem(Recv(how, m.conn, chunk), PutAll(m.data, StoresOf(m.conn, chunk)))
  }

  // The unread bytes are where the cursors say.
  lemma StepKeeps(how: Clearing, m: Mem, chunk: bytes)
    requires Valid(m)
    ensures Valid(Step(how, m, chunk))
  {
    var c := m.conn;
    if !c.hung && chunk != [] {
      hide F.CutFrames;
      var w, data := Write(c.buf, chunk), PutAll(m.data, Append(c.buf, chunk));
      AppendKeeps(m, chunk);
      PutAllConcat(m.data, Append(c.buf, chunk), Move(w));
      MoveKeeps(how, w, data);
    } else {
      assert PutAll(m.data, []) == m.data;
    }
  }

  // A buffer with its bytes.
  predicate Shows(s: Buf, data: bytes) {
    s.Valid() && |data| == CAPACITY && data[s.writePos - |s.unread|..s.writePos] == s.unread
  }

  lemma AppendKeeps(m: Mem, chunk: bytes)
    requires Valid(m)
    ensures Shows(Write(m.conn.buf, chunk), PutAll(m.data, Append(m.conn.buf, chunk)))
  {
    var s := m.conn.buf;
    if !Overflows(s, chunk) {
      assert [Store(s.writePos, chunk)][1..] == [];
      var d := Put(m.data, Store(s.writePos, chunk));
      assert d[s.writePos - |s.unread|..s.writePos + |chunk|] == s.unread + chunk;
    }
  }

  lemma MoveKeeps(how: Clearing, s: Buf, data: bytes)
    requires Shows(s, data)
    ensures Shows(if F.CutFrames(s.unread).hung then s else Process(how, s), PutAll(data, Move(s)))
  {
    hide F.CutFrames;
    var cut, a := F.CutFrames(s.unread), AfterCut(s);
    if !cut.hung && cut.consumed > 0 {
      var r := s.writePos - |s.unread|;
      assert data[r + cut.consumed..s.writePos] == a.unread;
      if a.unread != [] && CAPACITY - s.writePos < BUFFER_SIZE {
        assert [Store(0, a.unread)][1..] == [];
        assert Put(data, Store(0, a.unread))[..|a.unread|] == a.unread;
      }
    }
  }

  function Stores(how: Clearing, c: Conn, chunks: seq<bytes>): (ws: seq<Store>)
    requires c.buf.Valid()
    ensures Inside(ws, CAPACITY)
    decreases |chunks|
  {
    if chunks == [] then [] else StoresOf(c, chunks[0]) + Stores(how, Recv(how, c, chunks[0]), chunks[1..])
  }

  // Over a whole run: the connection's own run, and all that was written on the way.
  function RunMem(how: Clearing, m: Mem, chunks: seq<bytes>): (r: Mem)
    requires Valid(m)
    ensures Valid(r)
    decreases |chunks|
  {
    if chunks == [] then m else StepKeeps(how, m, chunks[0]); RunMem(how, Step(how, m, chunks[0]), chunks[1..])
  }

  lemma {:induction false} RunMemIs(how: Clearing, m: Mem, chunks: seq<bytes>)
    requires Valid(m)
    ensures RunMem(how, m, chunks) == Mem(Run(how, m.conn, chunks), PutAll(m.data, Stores(how, m.conn, chunks)))
    decreases |chunks|
  {
    if chunks == [] {
      assert PutAll(m.data, []) == m.data;
    } else {
      StepKeeps(how, m, chunks[0]);
      var next := Step(how, m, chunks[0]);
      RunMemIs(how, next, chunks[1..]);
      PutAllConcat(m.data, StoresOf(m.conn, chunks[0]), Stores(how, next.conn, chunks[1..]));
      hide Recv, Valid, StoresOf, PutAll;
    }
  }

  // ------------------------------------------------------------- what handlers read

  // What a handler reads at an address.
  predicate Reads(data: bytes, at: nat, f: bytes) {
    at + |f| <= |data| && data[at..at + |f|] == f
  }

  // A queue item: the `j`-th frame of a cut, and where it lies.
  predicate IsItem(s: Buf, j: nat, at: nat, f: bytes)
    requires s.Valid()
  {
    var fs := F.CutFrames(s.unread).frames;
    j < |fs| && f == fs[j] && at == s.writePos - |s.unread| + |Flatten(fs[..j])|
  }

  // At the moment of dispatch it is there.
  lemma DispatchedInPlace(s: Buf, data: bytes, j: nat, at: nat, f: bytes)
    requires Shows(s, data) && IsItem(s, j, at, f)
    ensures at + |f| <= s.writePos && Reads(data, at, f)
  {
    F.CutDecomposes(s.unread);
    var fs := F.CutFrames(s.unread).frames;
    FrameWithin(fs, j);
    hide F.CutFrames;
    var a := Flatten(fs[..j]);
    assert a + f <= s.unread;
    SliceOfSlice(data, s.writePos - |s.unread|, s.writePos, a, f);
  }

  lemma FrameWithin(fs: seq<bytes>, j: nat)
    requires j < |fs|
    ensures Flatten(fs[..j]) + fs[j] <= Flatten(fs)
  {
    hide Flatten;
    var front, f, back := fs[..j], fs[j], fs[j + 1..];
    assert fs == (front + [f]) + back;
    FlattenSnoc(front, f);
    FlattenConcat(front + [f], back);
    Prefix(Flatten(front) + f, Flatten(back));
  }

  lemma Prefix(a: bytes, b: bytes)
    ensures a <= a + b
  {
  }

  lemma SliceOfSlice(data: bytes, r: nat, w: nat, a: bytes, f: bytes)
    requires r <= w <= |data| && a + f <= data[r..w]
    ensures r + |a| + |f| <= w && data[r + |a|..r + |a| + |f|] == f
  {
    assert data[r..w][..|a| + |f|] == a + f;
    assert data[r + |a|..r + |a| + |f|] == data[r..w][..|a| + |f|][|a|..];
  }

  // What is written after the frames of a chunk were dispatched.
  function Later(how: Clearing, c: Conn, chunk: bytes, more: seq<bytes>): (ws: seq<Store>)
    requires c.buf.Valid()
    ensures Inside(ws, CAPACITY)
  {
    Move(Write(c.buf, chunk)) + Stores(how, Recv(how, c, chunk), more)
  }

  lemma LaterIs(how: Clearing, m: Mem, chunk: bytes, more: seq<bytes>)
    requires Valid(m) && !m.conn.hung && chunk != []
    ensures var data := PutAll(m.data, Append(m.conn.buf, chunk));
            && Shows(Write(m.conn.buf, chunk), data)
            && RunMem(how, m, [chunk] + more).data == PutAll(data, Later(how, m.conn, chunk, more))
  {
    var c := m.conn;
    AppendKeeps(m, chunk);
    RunMemIs(how, m, [chunk] + more);
    assert ([chunk] + more)[1..] == more;
    var a, b, d := Append(c.buf, chunk), Move(Write(c.buf, chunk)), Stores(how, Recv(how, c, chunk), more);
    hide Recv, Move, Append, PutAll, Write;
    Associative(a, b, d);
    PutAllConcat(m.data, a, b + d);
  }

  predicate Intact(later: seq<Store>, at: nat, f: bytes) {
    forall x :: at <= x < at + |f| ==> Last(later, x) == None || Last(later, x) == Some(f[x - at])
  }

  // However long the item waits: a handler reads the frame that was dispatched
  // exactly when whatever was written last to its place is its own byte.
  lemma IntactIff(how: Clearing, m: Mem, chunk: bytes, more: seq<bytes>, j: nat, at: nat, f: bytes)
    requires Valid(m) && !m.conn.hung && chunk != [] && IsItem(Write(m.conn.buf, chunk), j, at, f)
    ensures Reads(RunMem(how, m, [chunk] + more).data, at, f) <==> Intact(Later(how, m.conn, chunk, more), at, f)
  {
    LaterIs(how, m, chunk, more);
    var s, data := Write(m.conn.buf, chunk), PutAll(m.data, Append(m.conn.buf, chunk));
    DispatchedInPlace(s, data, j, at, f);
    SliceIntact(data, Later(how, m.conn, chunk, more), at, f);
    hide Valid, Later, PutAll, Append, Intact, IsItem, Write;
  }

  lemma SliceIntact(data: bytes, later: seq<Store>, at: nat, f: bytes)
    requires Inside(later, |data|) && Reads(data, at, f)
    ensures Reads(PutAll(data, later), at, f) <==> Intact(later, at, f)
  {
    hide PutAll, Last;
    var r := PutAll(data, later);
    forall x | at <= x < at + |f|
      ensures r[x] == f[x - at] <==> Last(later, x) == None || Last(later, x) == Some(f[x - at])
    {
      assert data[at..at + |f|][x - at] == data[x];
      PutAllIs(data, later, x);
    }
    SameSlice(r, at, f);
  }

  lemma SameSlice(r: bytes, at: nat, f: bytes)
    requires at + |f| <= |r|
    ensures r[at..at + |f|] == f <==> forall x :: at <= x < at + |f| ==> r[x] == f[x - at]
  {
    if r[at..at + |f|] == f {
      forall x | at <= x < at + |f| ensures r[x] == f[x - at] { assert r[at..at + |f|][x - at] == r[x]; }
    }
  }

  // --------------------------------------------------------- until the cursors go back

  // No Clear sets the cursors back.
  predicate GoesUp(how: Clearing, c: Conn, chunks: seq<bytes>)
    requires c.buf.Valid()
    decreases |chunks|
  {
    chunks == [] ||
    (Recv(how, c, chunks[0]).buf.writePos >= c.buf.writePos && GoesUp(how, Recv(how, c, chunks[0]), chunks[1..])
     && (c.hung || chunks[0] == [] || Move(Write(c.buf, chunks[0])) == []))
  }

  lemma {:induction false} StoresAbove(how: Clearing, c: Conn, chunks: seq<bytes>, x: nat)
    requires c.buf.Valid() && GoesUp(how, c, chunks) && x < c.buf.writePos
    ensures Last(Stores(how, c, chunks), x) == None
    decreases |chunks|
  {
    if chunks != [] {
      var ws, more := StoresOf(c, chunks[0]), Stores(how, Recv(how, c, chunks[0]), chunks[1..]);
      assert forall i :: 0 <= i < |ws| ==> !Hits(ws[i], x);
      NotHit(ws, x);
      hide Recv, StoresOf, Move, Hits, Last;
      StoresAbove(how, Recv(how, c, chunks[0]), chunks[1..], x);
      LastConcat(ws, more, x);
    }
  }

  lemma {:induction false} NotHit(ws: seq<Store>, x: nat)
    requires forall i :: 0 <= i < |ws| ==> !Hits(ws[i], x)
    ensures Last(ws, x) == None
  {
    if ws != [] { NotHit(ws[..|ws| - 1], x); }
  }

  lemma {:induction false} LastConcat(a: seq<Store>, b: seq<Store>, x: nat)
    ensures Last(a + b, x) == if Last(b, x) == None then Last(a, x) else Last(b, x)
    decreases |b|
  {
    if b == [] {
      assert a + b == a;
    } else {
      assert (a + b)[..|a + b| - 1] == a + b[..|b| - 1];
      LastConcat(a, b[..|b| - 1], x);
    }
  }

  // Until then every item is intact.
  lemma IntactWhileUp(how: Clearing, m: Mem, chunk: bytes, more: seq<bytes>, j: nat, at: nat, f: bytes)
    requires Valid(m) && !m.conn.hung && chunk != [] && IsItem(Write(m.conn.buf, chunk), j, at, f)
    requires Recv(how, m.conn, chunk).buf.writePos == Write(m.conn.buf, chunk).writePos
    requires Move(Write(m.conn.buf, chunk)) == [] && GoesUp(how, Recv(how, m.conn, chunk), more)
    ensures Reads(RunMem(how, m, [chunk] + more).data, at, f)
  {
    var s, data := Write(m.conn.buf, chunk), PutAll(m.data, Append(m.conn.buf, chunk));
    AppendKeeps(m, chunk);
    DispatchedInPlace(s, data, j, at, f);
    IntactIff(how, m, chunk, more, j, at, f);
    var next := Recv(how, m.conn, chunk);
    assert Later(how, m.conn, chunk, more) == Stores(how, next, more);
    hide Valid, Later, PutAll, Append, IsItem, Write, Last, Stores, Recv, Move, GoesUp, RunMem;
    forall x | at <= x < at + |f| ensures Last(Stores(how, next, more), x) == None { StoresAbove(how, next, more, x); }
  }

  // What is left of some bytes when others are written over their front.
  function Overlaid(f: bytes, g: bytes): (r: bytes)
    ensures |r| == |f|
  {
    if |g| < |f| then g + f[|g|..] else g[..|f|]
  }

  // A frame that comes alone is not safe: Clear sets the cursors back, and the next
  // chunk is written over it.  A handler that is late reads what that chunk left.
  lemma NextChunkReplaces(how: Clearing, m: Mem, f: bytes, g: bytes)
    requires Valid(m) && !m.conn.hung && m.conn.buf == EmptyBuf
    requires F.WellFormed(f) && |f| <= CAPACITY && 0 < |g| <= CAPACITY - BUFFER_SIZE
    ensures Reads(RunMem(how, m, [f] + [g]).data, 0, Overlaid(f, g))
  {
    hide F.WellFormed, Recv, PutAll, Append, Later, RunMem, Valid, Shows, Inside, Reads, Overlaid;
    AloneCut(how, m.conn, f);
    LaterAlone(how, m.conn, f, g);
    LaterIs(how, m, f, [g]);
    StoredAlone(m, f);
    Overwritten(PutAll(m.data, Append(m.conn.buf, f)), f, g);
  }

  lemma LaterAlone(how: Clearing, c: Conn, f: bytes, g: bytes)
    requires !c.hung && c.buf == EmptyBuf && F.WellFormed(f) && |f| <= CAPACITY && 0 < |g| <= CAPACITY - BUFFER_SIZE
    ensures Later(how, c, f, [g]) == [Store(0, g)]
  {
    AloneCut(how, c, f);
    OnlyAppend(how, Recv(how, c, f), g);
    hide F.WellFormed, Recv, Stores, Move, Write;
  }

  lemma StoredAlone(m: Mem, f: bytes)
    requires Valid(m) && m.conn.buf == EmptyBuf && |f| <= CAPACITY
    ensures |PutAll(m.data, Append(m.conn.buf, f))| == CAPACITY && Reads(PutAll(m.data, Append(m.conn.buf, f)), 0, f)
  {
    AppendKeeps(m, f);
    hide PutAll, Append, Valid;
    FrontOf(PutAll(m.data, Append(m.conn.buf, f)), f);
  }

  lemma FrontOf(data: bytes, f: bytes)
    requires |f| <= CAPACITY && Shows(Write(EmptyBuf, f), data)
    ensures |data| == CAPACITY && Reads(data, 0, f)
  {
    assert Write(EmptyBuf, f) == Buf([] + f, |f|) && [] + f == f;
  }

  // It is dispatched, and Clear resets the empty buffer.
  lemma AloneCut(how: Clearing, c: Conn, f: bytes)
    requires !c.hung && c.buf == EmptyBuf && F.WellFormed(f) && |f| <= CAPACITY
    ensures var next := Recv(how, c, f);
            next.buf == EmptyBuf && !next.hung && next.dispatched == c.dispatched + [f]
    ensures Move(Write(c.buf, f)) == [] && f != []
  {
    F.CutIsUnique([f], []);
    assert Flatten([f]) == f + Flatten([]) == f && f + [] == f && [] + f == f;
    hide F.CutFrames, F.WellFormed;
  }

  lemma Overwritten(data: bytes, f: bytes, g: bytes)
    requires |g| <= |data| && Reads(data, 0, f)
    ensures Reads(PutAll(data, [Store(0, g)]), 0, Overlaid(f, g))
  {
    PutOne(data, Store(0, g));
    hide PutAll;
    assert Put(data, Store(0, g)) == g + data[|g|..];
    assert data[0..|f|] == data[..|f|];
    if |g| < |f| { BehindFront(data, f, |g|); }
  }

  lemma BehindFront(data: bytes, f: bytes, n: nat)
    requires n <= |f| <= |data| && data[..|f|] == f
    ensures data[n..][..|f| - n] == f[n..]
  {
    assert data[n..][..|f| - n] == data[..|f|][n..];
  }

  lemma OnlyAppend(how: Clearing, c: Conn, g: bytes)
    requires c.buf == EmptyBuf && !c.hung && 0 < |g| <= CAPACITY - BUFFER_SIZE
    ensures Stores(how, c, [g]) == [Store(0, g)]
  {
    hide F.CutFrames, Recv;
    assert [g][1..] == [];
    assert Stores(how, Recv(how, c, g), []) == [];
  }
}
