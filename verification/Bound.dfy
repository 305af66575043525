// How large frames and chunks may be for a buffer that never overflows: the bound
// of module Overflow is met at every size.
module Bound {
  import opened Bytes
  import opened Reassembly
  import opened O = Overflow
  import F = Framing

  // Frames of at most `frame` bytes in chunks of at most `chunk` bytes never
  // overflow the buffer.
  ghost predicate AlwaysFits(how: Clearing, frame: nat, chunk: nat) {
    forall fs: seq<bytes>, rest: bytes, chunks: seq<bytes> ::
      Limited(fs, rest, chunks, frame, chunk) && Flatten(chunks) == Flatten(fs) + rest ==> Fits(how, Opened, chunks)
  }

  // ----------------------------------------------------------------------- frames

  // A frame of zeros, but for its size and its sequence number.
  function Blank(n: nat): (f: bytes)
    requires F.HEADER_SIZE <= n < 0x1_0000_0000
    ensures |f| == n && f[0] == 0
  {
    F.Header(0, n, [0, 0]) + seq(n - F.HEADER_SIZE, _ => 0)
  }

  lemma BlankIsFrame(n: nat)
    requires F.HEADER_SIZE <= n < 0x1_0000_0000
    ensures F.WellFormed(Blank(n))
  {
    LoadLittleEndian32(n);
    assert Blank(n)[4..8] == LittleEndian32(n);
  }

  predicate IsFrame(f: bytes) {
    F.WellFormed(f) && f[0] == 0
  }

  // --------------------------------------------------------------- byte by byte

  function ByteByByte(s: bytes): seq<bytes> {
    if s == [] then [] else [[s[0]]] + ByteByByte(s[1..])
  }

  lemma {:induction false} FlattenBytes(s: bytes)
    ensures Flatten(ByteByByte(s)) == s && forall x :: x in ByteByByte(s) ==> |x| == 1
  {
    if s != [] { FlattenBytes(s[1..]); }
  }

  // The next byte of a frame, but for the last one, starts no cut.
  lemma ByteStep(how: Clearing, c: Conn, f: bytes, k: nat, w: nat)
    requires IsFrame(f) && k + 1 < |f| && k <= w < CAPACITY && Holds(c, f[..k], w)
    ensures Holds(Recv(how, c, [f[k]]), f[..k + 1], w + 1)
  {
    assert f[..k] + [f[k]] == f[..k + 1];
    FrontIsIncomplete(f, k + 1);
    hide F.WellFormed, F.Incomplete;
    F.CutNothing(f[..k + 1]);
    hide F.CutFrames;
  }

  lemma {:induction false} Fill(how: Clearing, c: Conn, f: bytes, k: nat, m: nat, w: nat)
    requires IsFrame(f) && k <= m < |f| && k <= w && w + (m - k) <= CAPACITY && Holds(c, f[..k], w)
    ensures Holds(Run(how, c, ByteByByte(f[k..m])), f[..m], w + (m - k))
    decreases m - k
  {
    if k < m {
      ByteStep(how, c, f, k, w);
      Fill(how, Recv(how, c, [f[k]]), f, k + 1, m, w + 1);
      assert f[k..m][0] == f[k] && f[k..m][1..] == f[k + 1..m];
    }
  }

  // A frame behind its first byte, and the first byte of the next one.
  function Trickle(f: bytes): seq<bytes>
    requires |f| >= 2
  {
    ByteByByte(f[1..|f| - 1]) + [[f[|f| - 1], 0]]
  }

  lemma TrickleStream(f: bytes)
    requires |f| >= 2 && f[0] == 0
    ensures [0] + Flatten(Trickle(f)) == f + [0] && forall x :: x in Trickle(f) ==> |x| <= 2
  {
    FlattenBytes(f[1..|f| - 1]);
    FlattenSnoc(ByteByByte(f[1..|f| - 1]), [f[|f| - 1], 0]);
    assert [0] + f[1..|f| - 1] + [f[|f| - 1], 0] == f + [0];
  }

  // Its last chunk cuts the frame off and leaves one byte; the write position has
  // moved on.
  lemma LastStep(how: Clearing, c: Conn, f: bytes, w: nat)
    requires IsFrame(f) && |f| - 1 <= w <= CAPACITY - BUFFER_SIZE - 2 && Holds(c, f[..|f| - 1], w)
    ensures Holds(Recv(how, c, [f[|f| - 1], 0]), [0], w + 2)
  {
    assert f[..|f| - 1] + [f[|f| - 1], 0] == f + [0];
    F.CutIsUnique([f], [0]);
    assert Flatten([f]) == f + Flatten([]) == f;
    assert (f + [0])[|f|..] == [0];
    hide F.CutFrames, F.WellFormed;
  }

  lemma TrickleStep(how: Clearing, c: Conn, f: bytes, w: nat)
    requires IsFrame(f) && w > 0 && w + |f| <= CAPACITY - BUFFER_SIZE && Holds(c, [0], w)
    ensures Holds(Run(how, c, Trickle(f)), [0], w + |f|)
  {
    var n := |f|;
    assert f[..1] == [0];
    Fill(how, c, f, 1, n - 1, w);
    var d := Run(how, c, ByteByByte(f[1..n - 1]));
    LastStep(how, d, f, w + n - 2);
    RunSnoc(how, c, ByteByByte(f[1..n - 1]), [f[n - 1], 0]);
  }

  // ------------------------------------------------------------------------ climbing

  function Copies(f: bytes, n: nat): seq<bytes> {
    if n == 0 then [] else [f] + Copies(f, n - 1)
  }

  function Climbing(f: bytes, n: nat): seq<bytes>
    requires |f| >= 2
  {
    if n == 0 then [] else Trickle(f) + Climbing(f, n - 1)
  }

  lemma {:induction false} ClimbsTo(how: Clearing, c: Conn, f: bytes, w: nat, n: nat)
    requires IsFrame(f) && w > 0 && w + n * |f| <= CAPACITY - BUFFER_SIZE && Holds(c, [0], w)
    ensures Holds(Run(how, c, Climbing(f, n)), [0], w + n * |f|)
    decreases n
  {
    if n > 0 {
      assert n * |f| == |f| + (n - 1) * |f| && (n - 1) * |f| >= 0;
      TrickleStep(how, c, f, w);
      hide Run, IsFrame, Trickle;
      ClimbsTo(how, Run(how, c, Trickle(f)), f, w + |f|, n - 1);
      RunParts(how, c, Trickle(f), Climbing(f, n - 1));
    }
  }

  lemma {:induction false} ClimbStream(f: bytes, n: nat)
    requires |f| >= 2 && f[0] == 0
    ensures [0] + Flatten(Climbing(f, n)) == Flatten(Copies(f, n)) + [0]
    ensures (forall x :: x in Climbing(f, n) ==> |x| <= 2) && (forall x :: x in Copies(f, n) ==> x == f)
    ensures |Flatten(Copies(f, n))| == n * |f|
    decreases n
  {
    if n > 0 {
      ClimbStream(f, n - 1);
      TrickleStream(f);
      FlattenConcat(Trickle(f), Climbing(f, n - 1));
      assert n * |f| == |f| + (n - 1) * |f|;
      assert Flatten(Copies(f, n)) == f + Flatten(Copies(f, n - 1));
      hide Trickle, Flatten;
      OneMore(Flatten(Trickle(f)), Flatten(Climbing(f, n - 1)), f, Flatten(Copies(f, n - 1)));
    }
  }

  lemma OneMore(a: bytes, b: bytes, f: bytes, d: bytes)
    requires [0] + a == f + [0] && [0] + b == d + [0]
    ensures [0] + (a + b) == (f + d) + [0]
  {
    Associative([0], a, b);
    Associative(f, [0], b);
    Associative(f, d, [0]);
  }

  // ------------------------------------------------------------------- the bound

  // A stream of `n` bytes in header-sized frames, the last one perhaps not whole.
  lemma Tail(n: nat) returns (fs: seq<bytes>, rest: bytes)
    ensures F.AllWellFormed(fs) && (forall g :: g in fs ==> |g| == F.HEADER_SIZE)
    ensures |rest| < F.HEADER_SIZE && |Flatten(fs) + rest| == n
  {
    var f := Blank(F.HEADER_SIZE);
    BlankIsFrame(F.HEADER_SIZE);
    fs, rest := Copies(f, n / F.HEADER_SIZE), f[..n % F.HEADER_SIZE];
    ClimbStream(f, n / F.HEADER_SIZE);
  }

  // Climb to the last position that Clear leaves alone, with one byte waiting; fill
  // up to the last byte but one of a frame of the largest size; then a chunk of the
  // largest size.
  function Front(f: bytes, m: nat, k: nat): seq<bytes>
    requires |f| >= 2
  {
    [[0]] + Climbing(Blank(12), m) + Climbing(Blank(13), k) + ByteByByte(f[1..|f| - 1])
  }

  lemma FrontLeads(how: Clearing, f: bytes, m: nat, k: nat, top: nat)
    requires IsFrame(f) && 1 + m * 12 + k * 13 == top <= CAPACITY - BUFFER_SIZE && top + |f| - 2 <= CAPACITY
    ensures Holds(Run(how, Opened, Front(f, m, k)), f[..|f| - 1], top + |f| - 2)
  {
    assert |f| >= 2;
    hide Run, Climbing, ByteByByte, IsFrame, Blank, Holds;
    var start: seq<bytes>, a, b, d := [[0]], Climbing(Blank(12), m), Climbing(Blank(13), k), ByteByByte(f[1..|f| - 1]);
    StartsWithByte(how);
    FourRuns(how, start, a, b, d);
    var c1 := Run(how, Opened, start);
    ClimbsBy(how, c1, 12, 1, m, 1 + m * 12);
    var c2 := Run(how, c1, a);
    ClimbsBy(how, c2, 13, 1 + m * 12, k, top);
    FillsUp(how, Run(how, c2, b), f, top);
  }

  lemma FillsUp(how: Clearing, c: Conn, f: bytes, w: nat)
    requires IsFrame(f) && Holds(c, [0], w) && 0 < w && w + |f| - 2 <= CAPACITY
    ensures Holds(Run(how, c, ByteByByte(f[1..|f| - 1])), f[..|f| - 1], w + |f| - 2)
  {
    assert f[..1] == [0] && |f| >= 2;
    hide Run, ByteByByte, IsFrame, Holds;
    Fill(how, c, f, 1, |f| - 1, w);
  }

  lemma ClimbsBy(how: Clearing, c: Conn, size: nat, w: nat, n: nat, top: nat)
    requires 12 <= size < 0x1_0000_0000 && 0 < w && w + n * size == top <= CAPACITY - BUFFER_SIZE && Holds(c, [0], w)
    ensures Holds(Run(how, c, Climbing(Blank(size), n)), [0], top)
  {
    BlankIsFrame(size);
    hide Run, Climbing, Blank, Holds;
    ClimbsTo(how, c, Blank(size), w, n);
  }

  lemma FourRuns(how: Clearing, a: seq<bytes>, b: seq<bytes>, c: seq<bytes>, d: seq<bytes>)
    ensures Run(how, Opened, a + b + c + d) == Run(how, Run(how, Run(how, Run(how, Opened, a), b), c), d)
  {
    hide Run;
    RunParts(how, Opened, a, b);
    RunParts(how, Opened, a + b, c);
    RunParts(how, Opened, a + b + c, d);
  }

  lemma StartsWithByte(how: Clearing)
    ensures Holds(Run(how, Opened, [[0]]), [0], 1)
  {
    RunSingle(how, Opened, [0]);
    assert [] + [0] == [0 as byte];
    F.CutNothing([0]);
    hide F.CutFrames;
  }

  lemma FrontStream(f: bytes, m: nat, k: nat)
    requires |f| >= 2 && f[0] == 0
    ensures Flatten(Front(f, m, k)) == Flatten(Copies(Blank(12), m) + Copies(Blank(13), k)) + f[..|f| - 1]
    ensures forall x :: x in Front(f, m, k) ==> |x| <= 2
  {
    var s := f[1..|f| - 1];
    ClimbStream(Blank(12), m);
    ClimbStream(Blank(13), k);
    FlattenBytes(s);
    FlattenConcat(Copies(Blank(12), m), Copies(Blank(13), k));
    FourParts(Climbing(Blank(12), m), Climbing(Blank(13), k), ByteByByte(s));
    assert [0] + s == f[..|f| - 1];
    hide Climbing, Copies, ByteByByte, Blank, Flatten;
    Climbed(Flatten(Climbing(Blank(12), m)), Flatten(Climbing(Blank(13), k)), s,
            Flatten(Copies(Blank(12), m)), Flatten(Copies(Blank(13), k)));
  }

  lemma FourParts(a: seq<bytes>, b: seq<bytes>, d: seq<bytes>)
    ensures Flatten([[0]] + a + b + d) == [0] + Flatten(a) + Flatten(b) + Flatten(d)
  {
    var start: seq<bytes> := [[0]];
    assert Flatten(start) == [0] + Flatten([]) == [0];
    FlattenConcat(start, a);
    FlattenConcat(start + a, b);
    FlattenConcat(start + a + b, d);
  }

  lemma Climbed(a: bytes, b: bytes, d: bytes, x: bytes, y: bytes)
    requires [0] + a == x + [0] && [0] + b == y + [0]
    ensures [0] + a + b + d == (x + y) + ([0] + d)
  {
    assert [0] + a + b == x + ([0] + b);
    assert x + (y + [0]) + d == (x + y) + ([0] + d);
  }

  // A stream whose last chunk overflows.
  lemma Overflowing(how: Clearing, frame: nat, m: nat, k: nat)
    requires 13 <= frame <= BUFFER_SIZE + 1 && 1 + m * 12 + k * 13 == CAPACITY - BUFFER_SIZE
    ensures !AlwaysFits(how, frame, BUFFER_SIZE + 3 - frame)
  {
    var f := Blank(frame);
    BlankIsFrame(frame);
    var more, rest := Tail(BUFFER_SIZE + 2 - frame);
    FrontLeads(how, f, m, k, CAPACITY - BUFFER_SIZE);
    FrontStream(f, m, k);
    ClimbedFrames(m, k);
    hide Front, Copies, Blank, F.WellFormed, Run, Fits, Flatten, AlwaysFits, F.PacketSize;
    LastChunk(how, Front(f, m, k), Copies(Blank(12), m) + Copies(Blank(13), k), f, more, rest);
  }

  lemma LastChunk(how: Clearing, front: seq<bytes>, climbed: seq<bytes>, f: bytes, more: seq<bytes>, rest: bytes)
    requires F.WellFormed(f) && 13 <= |f| <= BUFFER_SIZE + 1 && Flatten(front) == Flatten(climbed) + f[..|f| - 1]
    requires Holds(Run(how, Opened, front), f[..|f| - 1], CAPACITY - BUFFER_SIZE + |f| - 2)
    requires (forall g :: g in climbed + more ==> F.WellFormed(g) && |g| <= 13) && |rest| < F.HEADER_SIZE
    requires (forall x :: x in front ==> |x| <= 2) && |f| + |Flatten(more) + rest| == BUFFER_SIZE + 2
    ensures !AlwaysFits(how, |f|, BUFFER_SIZE + 3 - |f|)
  {
    hide F.WellFormed, Run, Fits, Flatten, AlwaysFits, F.PacketSize, Holds;
    var last := [f[|f| - 1]];
    var big := last + (Flatten(more) + rest);
    assert f[..|f| - 1] + last == f;
    WholeStream(front, climbed, f[..|f| - 1], last, more, rest);
    LastOverflows(how, front, big, f[..|f| - 1], CAPACITY - BUFFER_SIZE + |f| - 2);
    LimitedParts(front, climbed, f, more, rest, big);
    NotAlways(how, |f|, BUFFER_SIZE + 3 - |f|, climbed + [f] + more, rest, front + [big]);
  }

  lemma LimitedParts(front: seq<bytes>, climbed: seq<bytes>, f: bytes, more: seq<bytes>, rest: bytes, big: bytes)
    requires F.WellFormed(f) && 13 <= |f| && |rest| < F.HEADER_SIZE && 2 <= |big|
    requires forall g :: g in climbed + more ==> F.WellFormed(g) && |g| <= 13
    requires forall x :: x in front ==> |x| <= 2
    ensures Limited(climbed + [f] + more, rest, front + [big], |f|, |big|)
  {
    hide F.WellFormed, F.PacketSize;
    assert forall g :: g in climbed + [f] + more ==> g == f || g in climbed + more;
  }

  lemma NotAlways(how: Clearing, frame: nat, chunk: nat, fs: seq<bytes>, rest: bytes, chunks: seq<bytes>)
    requires Limited(fs, rest, chunks, frame, chunk) && Flatten(chunks) == Flatten(fs) + rest && !Fits(how, Opened, chunks)
    ensures !AlwaysFits(how, frame, chunk)
  {
  }

  lemma LastOverflows(how: Clearing, front: seq<bytes>, big: bytes, unread: bytes, w: nat)
    requires Holds(Run(how, Opened, front), unread, w) && |big| > CAPACITY - w
    ensures !Fits(how, Opened, front + [big])
  {
    hide Run, Fits;
    RunParts(how, Opened, front, [big]);
    RunSingle(how, Run(how, Opened, front), big);
  }

  lemma ClimbedFrames(m: nat, k: nat)
    ensures forall g :: g in Copies(Blank(12), m) + Copies(Blank(13), k) ==> F.WellFormed(g) && |g| <= 13
  {
    BlankIsFrame(12);
    BlankIsFrame(13);
    ClimbStream(Blank(12), m);
    ClimbStream(Blank(13), k);
    hide Copies, Blank, F.WellFormed;
  }

  lemma WholeStream(front: seq<bytes>, climbed: seq<bytes>, init: bytes, last: bytes, more: seq<bytes>, rest: bytes)
    requires Flatten(front) == Flatten(climbed) + init
    ensures Flatten(front + [last + (Flatten(more) + rest)]) == Flatten(climbed + [init + last] + more) + rest
  {
    hide Flatten;
    var big, f, d := last + (Flatten(more) + rest), init + last, Flatten(more);
    FlattenSnoc(front, big);
    FlattenSnoc(climbed, f);
    FlattenConcat(climbed + [f], more);
    Joined(Flatten(climbed), init, last, d, rest);
  }

  lemma Joined(a: bytes, b: bytes, c: bytes, d: bytes, e: bytes)
    ensures (a + b) + (c + (d + e)) == ((a + (b + c)) + d) + e
  {
  }

  lemma LargerLimits(how: Clearing, frame: nat, chunk: nat, f: nat, c: nat)
    requires f <= frame && c <= chunk && AlwaysFits(how, frame, chunk) && f >= F.HEADER_SIZE
    ensures AlwaysFits(how, f, c)
  {
    forall fs: seq<bytes>, rest: bytes, chunks: seq<bytes>
      | Limited(fs, rest, chunks, f, c) && Flatten(chunks) == Flatten(fs) + rest
      ensures Fits(how, Opened, chunks)
    {
      assert Limited(fs, rest, chunks, frame, chunk);
    }
  }

  // Beyond the bound some stream overflows, whatever Clear does with unread bytes.
  lemma BeyondTheBound(how: Clearing, frame: nat, chunk: nat)
    requires frame > F.HEADER_SIZE && chunk > 1 && frame + chunk > BUFFER_SIZE + 2
    ensures !AlwaysFits(how, frame, chunk)
  {
    var f := if frame > BUFFER_SIZE + 1 then BUFFER_SIZE + 1 else frame;
    Overflowing(how, f, 49140, 11);
    if AlwaysFits(how, frame, chunk) { LargerLimits(how, frame, chunk, f, BUFFER_SIZE + 3 - f); }
  }

  // The bound decides: with a Clear that keeps the unread bytes, frames that carry
  // a body and chunks of more than a byte never overflow the buffer exactly when the
  // largest of both together are at most BUFFER_SIZE + 2 bytes.
  lemma BoundIsExact(frame: nat, chunk: nat)
    requires frame > F.HEADER_SIZE && chunk > 1
    ensures AlwaysFits(Keeping, frame, chunk) <==> frame + chunk <= BUFFER_SIZE + 2
  {
    if frame + chunk > BUFFER_SIZE + 2 {
      BeyondTheBound(Keeping, frame, chunk);
    } else {
      forall fs: seq<bytes>, rest: bytes, chunks: seq<bytes>
        | Limited(fs, rest, chunks, frame, chunk) && Flatten(chunks) == Flatten(fs) + rest
        ensures Fits(Keeping, Opened, chunks)
      {
        NeverOverflows(fs, rest, chunks, frame, chunk);
      }
    }
  }
}
