// When a chunk overflows the buffer: the bound on frames and chunks that rules it
// out, and three streams that show how far the bound reaches.
module Overflow {
  import opened Bytes
  import opened Reassembly
  import F = Framing

  // In every reachable state the room behind the write position makes up for
  // what is waiting: together more than one buffer size.
  predicate Roomy(s: Buf) {
    CAPACITY - s.writePos + |s.unread| > BUFFER_SIZE
  }

  lemma RecvRoomy(how: Clearing, c: Conn, chunk: bytes)
    requires c.buf.Valid() && (c.hung || Roomy(c.buf))
    ensures Recv(how, c, chunk).hung || Roomy(Recv(how, c, chunk).buf)
  {
    if !c.hung && chunk != [] {
      assert Roomy(Write(c.buf, chunk));
    }
  }

  lemma {:induction false} RunRoomy(how: Clearing, c: Conn, chunks: seq<bytes>)
    requires c.buf.Valid() && (c.hung || Roomy(c.buf))
    ensures Run(how, c, chunks).hung || Roomy(Run(how, c, chunks).buf)
    decreases |chunks|
  {
    hide Recv, Roomy;
    if chunks != [] {
      RecvRoomy(how, c, chunks[0]);
      RunRoomy(how, Recv(how, c, chunks[0]), chunks[1..]);
    }
  }

  // The guard of Clear never fires.
  predicate ClearQuiet(how: Clearing, c: Conn, chunks: seq<bytes>)
    requires c.buf.Valid()
    decreases |chunks|
  {
    chunks == [] ||
    ((c.hung || chunks[0] == [] || ClearSafe(how, c.buf, chunks[0])) &&
     ClearQuiet(how, Recv(how, c, chunks[0]), chunks[1..]))
  }

  lemma {:induction false} KeepingIsQuiet(c: Conn, chunks: seq<bytes>)
    requires c.buf.Valid()
    ensures ClearQuiet(Keeping, c, chunks)
    decreases |chunks|
  {
    if chunks != [] { KeepingIsQuiet(Recv(Keeping, c, chunks[0]), chunks[1..]); }
  }

  lemma {:induction false} SafeRunIsQuiet(how: Clearing, c: Conn, chunks: seq<bytes>)
    requires c.buf.Valid() && SafeRun(how, c, chunks)
    ensures ClearQuiet(how, c, chunks)
    decreases |chunks|
  {
    if chunks != [] { SafeRunIsQuiet(how, Recv(how, c, chunks[0]), chunks[1..]); }
  }

  // A stream of frames of at most `frame` bytes, the last one perhaps not whole,
  // in chunks of at most `chunk` bytes.
  predicate Limited(fs: seq<bytes>, rest: bytes, chunks: seq<bytes>, frame: nat, chunk: nat) {
    && F.AllWellFormed(fs) && F.Incomplete(rest) && frame >= F.HEADER_SIZE
    && (forall f :: f in fs ==> |f| <= frame)
    && (|rest| >= F.HEADER_SIZE ==> F.PacketSize(rest) <= frame)
    && (forall x :: x in chunks ==> |x| <= chunk)
  }

  lemma {:induction false} QuietIsSafe(how: Clearing, c: Conn, fs: seq<bytes>, rest: bytes, chunks: seq<bytes>,
                                       stream: bytes, frame: nat, chunk: nat)
    requires Settled(c) && Balanced(c) && !c.hung && Roomy(c.buf) && Faithful(c, stream)
    requires Limited(fs, rest, chunks, frame, chunk) && stream + Flatten(chunks) == Flatten(fs) + rest
    requires frame + chunk <= BUFFER_SIZE + 2 && ClearQuiet(how, c, chunks)
    ensures SafeRun(how, c, chunks)
    decreases |chunks|
  {
    hide Faithful, Balanced, F.AllWellFormed, F.CutFrames, Recv;
    if chunks != [] {
      var x, more := chunks[0], Flatten(chunks[1..]);
      var next := Recv(how, c, x);
      ResidueShort(c, fs, rest, stream, x + more, frame);
      assert |c.buf.unread| < frame && |x| <= chunk;
      StepIsSafe(how, c, x);
      RecvKeeps(how, c, x);
      RecvRoomy(how, c, x);
      assert (stream + x) + more == stream + Flatten(chunks);
      RecvFaithful(how, c, stream, x);
      NotHung(next, fs, rest, stream + x, more);
      assert Limited(fs, rest, chunks[1..], frame, chunk);
      QuietIsSafe(how, next, fs, rest, chunks[1..], stream + x, frame, chunk);
    }
  }

  lemma StepIsSafe(how: Clearing, c: Conn, chunk: bytes)
    requires c.buf.Valid() && !c.hung && Roomy(c.buf) && |c.buf.unread| + |chunk| <= BUFFER_SIZE + 1
    requires chunk == [] || ClearSafe(how, c.buf, chunk)
    ensures chunk == [] || Safe(how, c.buf, chunk)
    ensures Recv(how, c, chunk).dropped == c.dropped
  {
    hide F.CutFrames;
  }

  // Within the bound nothing is lost as long as the guard of Clear does not fire:
  // it is what starts every loss.
  lemma LossStartsAtClear(how: Clearing, fs: seq<bytes>, rest: bytes, chunks: seq<bytes>, frame: nat, chunk: nat)
    requires Limited(fs, rest, chunks, frame, chunk) && Flatten(chunks) == Flatten(fs) + rest
    requires frame + chunk <= BUFFER_SIZE + 2
    ensures SafeRun(how, Opened, chunks) <==> ClearQuiet(how, Opened, chunks)
    ensures ClearQuiet(how, Opened, chunks) ==> Fits(how, Opened, chunks)
  {
    if ClearQuiet(how, Opened, chunks) {
      assert [] + Flatten(chunks) == Flatten(chunks) && F.Incomplete([]);
      QuietIsSafe(how, Opened, fs, rest, chunks, [], frame, chunk);
      SafeRunFits(how, Opened, chunks);
    }
    if SafeRun(how, Opened, chunks) { SafeRunIsQuiet(how, Opened, chunks); }
  }

  // With a Clear that keeps the unread bytes nothing overflows in the whole run.
  lemma NeverOverflows(fs: seq<bytes>, rest: bytes, chunks: seq<bytes>, frame: nat, chunk: nat)
    requires Limited(fs, rest, chunks, frame, chunk) && Flatten(chunks) == Flatten(fs) + rest
    requires frame + chunk <= BUFFER_SIZE + 2
    ensures Fits(Keeping, Opened, chunks)
  {
    KeepingIsQuiet(Opened, chunks);
    LossStartsAtClear(Keeping, fs, rest, chunks, frame, chunk);
  }

  // A prefix of a well-formed stream is never stuck.
  lemma NotHung(c: Conn, fs: seq<bytes>, rest: bytes, prefix: bytes, more: bytes)
    requires F.AllWellFormed(fs) && F.Incomplete(rest) && prefix + more == Flatten(fs) + rest && Faithful(c, prefix)
    ensures !c.hung
  {
    F.CutIsUnique(fs, rest);
    if F.CutFrames(prefix).hung { HungCutStays(prefix, more); }
  }

  // What waits is shorter than the frame it belongs to.
  lemma ResidueShort(c: Conn, fs: seq<bytes>, rest: bytes, stream: bytes, more: bytes, frame: nat)
    requires Settled(c) && !c.hung && Faithful(c, stream)
    requires F.AllWellFormed(fs) && F.Incomplete(rest) && stream + more == Flatten(fs) + rest
    requires frame >= F.HEADER_SIZE
    requires forall f :: f in fs ==> |f| <= frame
    requires |rest| >= F.HEADER_SIZE ==> F.PacketSize(rest) <= frame
    ensures |c.buf.unread| < frame
  {
    F.CutIsUnique(fs, rest);
    CutWaiting(stream, c.buf.unread, more);
    var tail := c.buf.unread + more;
    FirstCut(tail);
    hide F.CutFrames, F.AllWellFormed;
    if F.CutFrames(tail).frames == [] {
      assert tail == (Flatten(fs) + rest)[|Flatten(fs)|..] == rest;
    } else {
      assert F.CutFrames(tail).frames[0] in fs;
    }
    if |c.buf.unread| >= F.HEADER_SIZE { F.PacketSizeOfFront(c.buf.unread, more); }
  }

  lemma FirstCut(b: bytes)
    ensures var c := F.CutFrames(b);
            if c.frames != [] then !F.Incomplete(b) && |c.frames[0]| == F.PacketSize(b)
            else c.consumed == 0 && (!c.hung ==> F.Incomplete(b))
  {
  }

  // ----------------------------------------------------------- shifted frames

  // A frame cut one byte into itself: each chunk ends the frame in front and starts
  // the next one.
  function Shifted(f: bytes): bytes
    requires f != []
  {
    f[1..] + f[..1]
  }

  // Nothing is hung and the buffer holds this.
  predicate Holds(c: Conn, unread: bytes, writePos: nat) {
    !c.hung && c.buf == Buf(unread, writePos)
  }

  lemma ShiftedCut(f: bytes)
    requires F.WellFormed(f)
    ensures f[..1] + Shifted(f) == f + f[..1]
    ensures F.CutFrames(f + f[..1]) == F.Cut([f], |f|, false)
    ensures (f + f[..1])[|f|..] == f[..1]
  {
    F.CutIsUnique([f], f[..1]);
    assert Flatten([f]) == f + Flatten([]) == f;
    Associative(f[..1], f[1..], f[..1]);
    assert f[..1] + f[1..] == f;
  }

  // As long as one buffer size is free behind it, such a chunk only moves the
  // write position.
  lemma ShiftedStep(how: Clearing, c: Conn, f: bytes, w: nat)
    requires F.WellFormed(f) && 1 <= w && w + |f| <= CAPACITY && Holds(c, f[..1], w)
    ensures CAPACITY - (w + |f|) >= BUFFER_SIZE ==> Holds(Recv(how, c, Shifted(f)), f[..1], w + |f|)
    ensures CAPACITY - (w + |f|) < BUFFER_SIZE && how.Dropping? ==> Holds(Recv(how, c, Shifted(f)), [], 0)
  {
    ShiftedCut(f);
    hide F.CutFrames, F.WellFormed;
  }

  lemma {:induction false} Climb(how: Clearing, c: Conn, f: bytes, w: nat, n: nat)
    requires F.WellFormed(f) && 1 <= w && Holds(c, f[..1], w) && w + n * |f| <= CAPACITY - BUFFER_SIZE
    ensures Holds(Run(how, c, seq(n, _ => Shifted(f))), f[..1], w + n * |f|)
    decreases n
  {
    if n > 0 {
      assert w + |f| + (n - 1) * |f| == w + n * |f| && n * |f| >= |f|;
      ShiftedStep(how, c, f, w);
      hide F.WellFormed, Recv, Shifted;
      assert seq(n, _ => Shifted(f))[1..] == seq(n - 1, _ => Shifted(f));
      Climb(how, Recv(how, c, Shifted(f)), f, w + |f|, n - 1);
    }
  }

  lemma FirstByte(how: Clearing, f: bytes)
    requires F.WellFormed(f)
    ensures Holds(Recv(how, Opened, f[..1]), f[..1], 1)
  {
    assert [] + f[..1] == f[..1];
  }

  // The stream behind such chunks.
  lemma {:induction false} ShiftedStream(f: bytes, n: nat)
    requires f != []
    ensures f[..1] + Flatten(seq(n, _ => Shifted(f))) == Flatten(seq(n, _ => f)) + f[..1]
  {
    if n > 0 {
      assert seq(n, _ => Shifted(f))[1..] == seq(n - 1, _ => Shifted(f));
      assert seq(n, _ => f)[1..] == seq(n - 1, _ => f);
      ShiftedStream(f, n - 1);
      var a, b := Flatten(seq(n - 1, _ => Shifted(f))), Flatten(seq(n - 1, _ => f));
      assert f[..1] + (Shifted(f) + a) == f + (f[..1] + a);
      assert f + (b + f[..1]) == (f + b) + f[..1];
    }
  }

  // --------------------------------------------------------------- three streams

  // The capacity is no bound: frames and chunks that fit it together, nothing lost
  // before, and the second chunk overflows for both kinds of Clear.
  lemma CapacityIsNoBound(how: Clearing, f: bytes)
    requires F.WellFormed(f) && |f| == BUFFER_SIZE - 1
    ensures var a, b := Flatten(seq(8, _ => f)) + f[..1], f[1..] + f + f[..11];
            && Limited(seq(10, _ => f), f[..11], [a, b], |f|, |a|) && |f| + |a| <= CAPACITY
            && Flatten([a, b]) == Flatten(seq(10, _ => f)) + f[..11]
            && Run(how, Opened, [a]).dropped == 0 && !Fits(how, Opened, [a, b])
  {
    var fs := seq(8, _ => f);
    var a, b := Flatten(fs) + f[..1], f[1..] + f + f[..11];
    FlattenSame(f, 8);
    TenFrames(f);
    F.CutIsUnique(fs, f[..1]);
    hide F.WellFormed, F.CutFrames, Recv;
    assert a[|Flatten(fs)|..] == f[..1];
    EightAndOne(how, fs, a, f[..1]);
    assert [a, b] == [a] + [b];
    RunParts(how, Opened, [a], [b]);
    RunSingle(how, Opened, a);
    RunSingle(how, Recv(how, Opened, a), b);
    hide Run, Fits;
  }

  lemma TenFrames(f: bytes)
    requires |f| > 11
    ensures Flatten([Flatten(seq(8, _ => f)) + f[..1], f[1..] + f + f[..11]]) == Flatten(seq(10, _ => f)) + f[..11]
  {
    var fs := seq(8, _ => f);
    assert seq(10, _ => f) == fs + [f, f];
    FlattenConcat(fs, [f, f]);
    FlattenPair(f, f);
    FlattenPair(Flatten(fs) + f[..1], f[1..] + f + f[..11]);
    assert f[..1] + f[1..] == f;
    EightPieces(Flatten(fs), f[..1], f[1..], f, f[..11]);
  }

  lemma EightPieces(a: bytes, b: bytes, c: bytes, d: bytes, e: bytes)
    ensures (a + b) + (c + d + e) == a + ((b + c) + d) + e
  {
  }

  lemma FlattenPair<T>(a: seq<T>, b: seq<T>)
    ensures Flatten([a, b]) == a + b
  {
    assert [a, b][1..] == [b] && [b][1..] == [];
    assert Flatten([b]) == b + Flatten([]) == b;
  }

  lemma EightAndOne(how: Clearing, fs: seq<bytes>, a: bytes, start: bytes)
    requires |a| == 524281 && |start| == 1 && F.CutFrames(a) == F.Cut(fs, |a| - 1, false) && a[|a| - 1..] == start
    ensures Holds(Recv(how, Opened, a), start, |a|) && Recv(how, Opened, a).dropped == 0
  {
    hide F.CutFrames;
    assert [] + a == a;
  }

  lemma FrontIsIncomplete(f: bytes, n: nat)
    requires F.WellFormed(f) && n < |f|
    ensures F.Incomplete(f[..n])
  {
    if n >= F.HEADER_SIZE {
      F.PacketSizeOfFront(f[..n], f[n..]);
      assert f[..n] + f[n..] == f;
    }
  }

  // With the Clear of the code a stream within the bound overflows nevertheless:
  // Clear drops the first byte of a frame, the header behind it is read one byte
  // late as a size beyond the capacity, and the buffer fills up.
  lemma DroppingOverflows(f: bytes)
    requires F.WellFormed(f) && |f| == 32768 && f[8..12] == [1, 0, 0, 0]
    ensures var chunks := [f[..1]] + seq(39, _ => Shifted(f));
            && Limited(seq(39, _ => f), f[..1], chunks, |f|, |f|) && |f| + |f| <= BUFFER_SIZE + 2
            && Flatten(chunks) == Flatten(seq(39, _ => f)) + f[..1]
            && !Fits(Dropping, Opened, chunks) && Fits(Keeping, Opened, chunks)
  {
    ShiftedIsLimited(f);
    var chunks := [f[..1]] + seq(39, _ => Shifted(f));
    NeverOverflows(seq(39, _ => f), f[..1], chunks, |f|, |f|);
    FillsUp(f);
    assert chunks == [f[..1]] + seq(18, _ => Shifted(f)) + seq(20, _ => Shifted(f)) + [Shifted(f)];
  }

  lemma FillsUp(f: bytes)
    requires F.WellFormed(f) && |f| == 32768 && f[8..12] == [1, 0, 0, 0]
    ensures !Fits(Dropping, Opened, [f[..1]] + seq(18, _ => Shifted(f)) + seq(20, _ => Shifted(f)) + [Shifted(f)])
  {
    var g := Shifted(f);
    FirstByte(Dropping, f);
    RunSingle(Dropping, Opened, f[..1]);
    DropsStart(Run(Dropping, Opened, [f[..1]]), f);
    LateHeader(f);
    hide F.WellFormed, Shifted, Recv, Run, Fits, F.PacketSize;
    RunParts(Dropping, Opened, [f[..1]], seq(18, _ => g));
    RunParts(Dropping, Opened, [f[..1]] + seq(18, _ => g), seq(20, _ => g));
    RunParts(Dropping, Opened, [f[..1]] + seq(18, _ => g) + seq(20, _ => g), [g]);
    TwentyFill(Run(Dropping, Opened, [f[..1]] + seq(18, _ => g)), g);
  }

  lemma DropsStart(c: Conn, f: bytes)
    requires F.WellFormed(f) && |f| == 32768 && Holds(c, f[..1], 1)
    ensures Holds(Run(Dropping, c, seq(18, _ => Shifted(f))), [], 0)
  {
    var g := Shifted(f);
    Climb(Dropping, c, f, 1, 17);
    var m := Run(Dropping, c, seq(17, _ => g));
    ShiftedStep(Dropping, m, f, 1 + 17 * 32768);
    hide F.WellFormed, Shifted, Recv;
    RunSingle(Dropping, m, g);
    RunParts(Dropping, c, seq(17, _ => g), [g]);
    assert seq(18, _ => g) == seq(17, _ => g) + [g];
  }

  lemma TwentyFill(c: Conn, g: bytes)
    requires |g| == 32768 && F.PacketSize(g) > CAPACITY && Holds(c, [], 0)
    ensures !Fits(Dropping, Run(Dropping, c, seq(20, _ => g)), [g])
  {
    FillWith(c, g, 20);
    RunSingle(Dropping, Run(Dropping, c, seq(20, _ => g)), g);
  }

  lemma ShiftedIsLimited(f: bytes)
    requires F.WellFormed(f) && |f| == 32768
    ensures var chunks := [f[..1]] + seq(39, _ => Shifted(f));
            && Limited(seq(39, _ => f), f[..1], chunks, |f|, |f|)
            && Flatten(chunks) == Flatten(seq(39, _ => f)) + f[..1]
  {
    FlattenConcat([f[..1]], seq(39, _ => Shifted(f)));
    assert Flatten([f[..1]]) == f[..1] + Flatten([]) == f[..1];
    ShiftedStream(f, 39);
  }

  // The size field one byte late: the upper bytes of the size and the sequence
  // number.
  lemma LateHeader(f: bytes)
    requires F.WellFormed(f) && |f| == 32768 && f[8..12] == [1, 0, 0, 0]
    ensures F.PacketSize(Shifted(f)) > CAPACITY
  {
    var size := f[4..8];
    assert Load32(size) == 32768;
    assert size[0] as int + 0x100 * size[1] as int + 0x1_0000 * size[2] as int + 0x100_0000 * size[3] as int == 32768;
    assert f[8] == f[8..12][0];
    assert Shifted(f)[4..8] == [f[5], f[6], f[7], f[8]];
  }

  lemma {:induction false} FillWith(c: Conn, g: bytes, n: nat)
    requires |g| >= F.HEADER_SIZE && F.PacketSize(g) > CAPACITY && n * |g| <= CAPACITY && Holds(c, [], 0)
    ensures Holds(Run(Dropping, c, seq(n, _ => g)), Flatten(seq(n, _ => g)), n * |g|)
  {
    if n > 0 {
      FillWith(c, g, n - 1);
      var before, u := seq(n - 1, _ => g), Flatten(seq(n - 1, _ => g));
      assert n * |g| == (n - 1) * |g| + |g|;
      assert seq(n, _ => g) == before + [g];
      FlattenSnoc(before, g);
      FlattenSame(g, n - 1);
      RunParts(Dropping, c, before, [g]);
      var m := Run(Dropping, c, before);
      RunSingle(Dropping, m, g);
      NoHeader(u, g, n - 1);
      Wait(m, u, g);
    }
  }

  lemma NoHeader(u: bytes, g: bytes, n: nat)
    requires |g| >= F.HEADER_SIZE && F.PacketSize(g) > CAPACITY && u == Flatten(seq(n, _ => g)) && |u + g| <= CAPACITY
    ensures F.CutFrames(u + g) == F.Cut([], 0, false)
  {
    if n > 0 {
      var more := Flatten(seq(n, _ => g)[1..]) + g;
      assert u + g == g + more;
      F.PacketSizeOfFront(g, more);
    } else {
      assert u + g == g;
    }
  }

  lemma Wait(c: Conn, u: bytes, g: bytes)
    requires Holds(c, u, |u|) && g != [] && |u + g| <= CAPACITY && F.CutFrames(u + g) == F.Cut([], 0, false)
    ensures Holds(Recv(Dropping, c, g), u + g, |u + g|)
  {
    hide F.CutFrames;
  }
}
