// Packets as frames: a twelve-byte header in the machine's own layout, then the
// serialized message; and the loop that cuts a byte string into frames.
module Framing {
  import opened Bytes
  import W = Wire
  import M = Messages
  import ProtocolPb

  // sizeof(PacketHeader): a 16-bit type, two bytes of padding, a 32-bit size and
  // a 32-bit sequence number.
  const HEADER_SIZE: nat := 12

  // The largest body whose frame length fits the 16-bit packetSize variable.
  const MAX_BODY: nat := 0xFFFF - 12

  function Header(packetType: nat, packetSize: nat, padding: bytes): (h: bytes)
    requires |padding| == 2
    ensures |h| == HEADER_SIZE
  {
    LittleEndian16(packetType) + padding + LittleEndian32(packetSize) + LittleEndian32(1)
  }

  function PacketType(b: bytes): nat
    requires |b| >= HEADER_SIZE
  {
    Load16(b[0..2])
  }

  function PacketSize(b: bytes): nat
    requires |b| >= HEADER_SIZE
  {
    Load32(b[4..8])
  }

  function Body(b: bytes): bytes
    requires |b| >= HEADER_SIZE
  {
    b[HEADER_SIZE..]
  }

  // ---------------------------------------------------------------- MakePacket

  // What MakePacket hands out: a frame, the empty packet of its error branch, or
  // a copy beyond the end of a buffer that was allocated too short.
  datatype Made = Frame(data: bytes) | EmptyPacket | OutOfBounds

  // The sizes are kept in 16-bit variables, the one in the header is not.
  function MakePacket(packetType: nat, body: bytes, padding: bytes): Made
    requires |padding| == 2
  {
    var dataSize := |body| % 0x1_0000;
    var packetSize := (dataSize + HEADER_SIZE) % 0x1_0000;
    if dataSize < |body| then EmptyPacket
    else if packetSize < HEADER_SIZE + dataSize then OutOfBounds
    else Frame(Header(packetType, HEADER_SIZE + dataSize, padding) + body)
  }

  // One instance of the template, with the message object it measures and
  // serializes.
  method MakeRoomListPacket(pkt: ProtocolPb.ChatRoomListAck, packetType: nat, padding: bytes) returns (made: Made)
    requires |padding| == 2
    requires W.AllValid(pkt.unknown, W.MAX_DEPTH)
    requires forall r :: r in pkt.rooms ==> W.AllValid(r.unknown, W.MAX_DEPTH)
    modifies pkt`cachedSize, (set r | r in pkt.rooms)`cachedSize
    ensures pkt.Value() == old(pkt.Value())
    ensures made == MakePacket(packetType, M.Serialize(pkt.Value()), padding)
  {
    hide M.Serialize;
    var byteSize := pkt.ByteSizeLong();
    if !pkt.Addressable() { pkt.NotAddressableIsLong(); }
    var dataSize := byteSize % 0x1_0000;
    var packetSize := (dataSize + HEADER_SIZE) % 0x1_0000;
    var ok, buf := pkt.SerializeToArray(dataSize);
    if !ok { return EmptyPacket; }
    if packetSize < HEADER_SIZE + dataSize { return OutOfBounds; }
    made := Frame(Header(packetType, HEADER_SIZE + dataSize, padding) + buf);
  }

  // MakePacket yields a frame exactly for the bodies that fit: byte by byte its type,
  // the padding, its own length, the sequence number 1, and the body.
  lemma MakePacketFrames(packetType: nat, body: bytes, padding: bytes)
    requires |padding| == 2
    ensures MakePacket(packetType, body, padding).Frame? <==> |body| <= MAX_BODY
    ensures MakePacket(packetType, body, padding).EmptyPacket? <==> |body| >= 0x1_0000
    ensures |body| <= MAX_BODY ==>
              var f := MakePacket(packetType, body, padding).data;
              && WellFormed(f) && |f| == 12 + |body| && f[12..] == Body(f) == body
              && PacketType(f) == f[0] as int + 0x100 * f[1] as int == packetType % 0x1_0000
              && f[2..4] == padding
              && f[4] as int + 0x100 * f[5] as int + 0x1_0000 * f[6] as int + 0x100_0000 * f[7] as int == |f|
              && f[8..12] == [1, 0, 0, 0]
  {
    if |body| <= MAX_BODY {
      var n := HEADER_SIZE + |body|;
      var f := Header(packetType, n, padding) + body;
      LoadLittleEndian32(n);
      LoadLittleEndian16(packetType);
      assert f[4..8] == LittleEndian32(n);
      assert f[0..2] == LittleEndian16(packetType);
      assert f[2..4] == padding && f[8..12] == LittleEndian32(1);
    }
  }

  // --------------------------------------------------------------- ProcessPacket

  // A frame whose header tells its length.
  predicate WellFormed(f: bytes) {
    |f| >= HEADER_SIZE && PacketSize(f) == |f|
  }

  // Nothing to cut: no whole header, or fewer bytes than the header announces.
  predicate Incomplete(b: bytes) {
    |b| < HEADER_SIZE || |b| < PacketSize(b)
  }

  // The frames cut off the front, how many bytes they take, and whether the
  // loop then meets a header of size 0, which it never gets past.
  datatype Cut = Cut(frames: seq<bytes>, consumed: nat, hung: bool)

  function CutFrames(b: bytes): (c: Cut)
    ensures c.consumed <= |b|
    decreases |b|
  {
    if Incomplete(b) then Cut([], 0, false)
    else if PacketSize(b) == 0 then Cut([], 0, true)
    else var n := PacketSize(b);
         Behind([b[..n]], n, CutFrames(b[n..]))
  }

  // A cut that continues behind frames already cut off.
  function Behind(frames: seq<bytes>, consumed: nat, c: Cut): Cut {
    Cut(frames + c.frames, consumed + c.consumed, c.hung)
  }

  lemma BehindBehind(a: seq<bytes>, m: nat, b: seq<bytes>, n: nat, c: Cut)
    ensures Behind(a, m, Behind(b, n, c)) == Behind(a + b, m + n, c)
  {
    assert a + (b + c.frames) == (a + b) + c.frames;
  }

  lemma CutNothing(b: bytes)
    ensures Incomplete(b) ==> CutFrames(b) == Cut([], 0, false)
    ensures !Incomplete(b) && PacketSize(b) == 0 ==> CutFrames(b) == Cut([], 0, true)
  {
  }

  // AsioSession::ProcessPacket.  `dispatched` are the frames handed to the
  // router; `hung` marks the point from which the original loop makes no
  // progress any more.
  method ProcessPacket(buffer: bytes) returns (processLen: nat, dispatched: seq<bytes>, hung: bool)
    ensures CutFrames(buffer) == Cut(dispatched, processLen, hung)
  {
    processLen, dispatched := 0, [];
    assert buffer[0..] == buffer;
    while true
      invariant processLen <= |buffer|
      invariant CutFrames(buffer) == Behind(dispatched, processLen, CutFrames(buffer[processLen..]))
      decreases |buffer| - processLen
    {
      assert dispatched + [] == dispatched;
      CutNothing(buffer[processLen..]);
      hide CutFrames;
      var dataSize := |buffer| - processLen;
      if dataSize < HEADER_SIZE { return processLen, dispatched, false; }
      var header := buffer[processLen..processLen + HEADER_SIZE];
      assert buffer[processLen..] == header + buffer[processLen + HEADER_SIZE..];
      PacketSizeOfFront(header, buffer[processLen + HEADER_SIZE..]);
      var size := PacketSize(header);
      hide PacketSize;
      if dataSize < size { return processLen, dispatched, false; }
      if size == 0 { return processLen, dispatched, true; }
      var frame := buffer[processLen..processLen + size];
      assert frame == buffer[processLen..][..size];
      assert buffer[processLen..][size..] == buffer[processLen + size..];
      CutStep(buffer[processLen..]);
      BehindBehind(dispatched, processLen, [frame], size, CutFrames(buffer[processLen + size..]));
      dispatched := dispatched + [frame];
      processLen := processLen + size;
    }
  }

  // The loop makes at least `n` iterations on `b`.
  predicate Iterates(b: bytes, n: nat) {
    n == 0 || (!Incomplete(b) && Iterates(b[PacketSize(b)..], n - 1))
  }

  lemma {:induction false} HungIterates(b: bytes, n: nat)
    requires CutFrames(b).hung
    ensures Iterates(b, n)
    decreases n
  {
    if n > 0 {
      assert b[0..] == b;
      HungIterates(b[PacketSize(b)..], n - 1);
    }
  }

  lemma {:induction false} FinishedStops(b: bytes)
    requires !CutFrames(b).hung
    ensures !Iterates(b, |CutFrames(b).frames| + 1)
    decreases |b|
  {
    if !Incomplete(b) { FinishedStops(b[PacketSize(b)..]); }
  }

  // The original loop runs forever exactly when cutting reaches a header whose
  // size is zero.
  lemma NeverReturns(b: bytes)
    ensures CutFrames(b).hung <==> forall n: nat :: Iterates(b, n)
  {
    if CutFrames(b).hung {
      forall n: nat ensures Iterates(b, n) { HungIterates(b, n); }
    } else {
      FinishedStops(b);
    }
  }

  lemma ZeroHeaderHangs()
    ensures CutFrames(seq(HEADER_SIZE, _ => 0)).hung
  {
    var b: bytes := seq(HEADER_SIZE, _ => 0);
    assert b[4..8] == [0, 0, 0, 0];
  }

  // --------------------------------------------------------- what is cut, and why

  predicate AllWellFormed(fs: seq<bytes>) {
    forall f :: f in fs ==> WellFormed(f)
  }

  // The cut is a decomposition of the input ...
  lemma {:induction false} CutDecomposes(b: bytes)
    ensures var c := CutFrames(b);
            && Flatten(c.frames) == b[..c.consumed]
            && (!c.hung ==> Incomplete(b[c.consumed..]))
    decreases |b|
  {
    if !Incomplete(b) && PacketSize(b) != 0 {
      var n := PacketSize(b);
      CutDecomposes(b[n..]);
      var c := CutFrames(b[n..]);
      assert ([b[..n]] + c.frames)[1..] == c.frames;
      assert b[..n] + b[n..][..c.consumed] == b[..n + c.consumed];
      assert b[n..][c.consumed..] == b[n + c.consumed..];
    }
  }

  lemma PacketSizeOfFront(f: bytes, rest: bytes)
    requires |f| >= HEADER_SIZE
    ensures PacketSize(f + rest) == PacketSize(f)
  {
    assert (f + rest)[4..8] == f[4..8];
  }

  // ... and the only one into well-formed frames and an incomplete rest.
  lemma {:induction false} CutIsUnique(fs: seq<bytes>, rest: bytes)
    requires AllWellFormed(fs) && Incomplete(rest)
    ensures CutFrames(Flatten(fs) + rest) == Cut(fs, |Flatten(fs)|, false)
    decreases |fs|
  {
    if fs == [] {
      assert Flatten(fs) + rest == rest;
    } else {
      assert WellFormed(fs[0]);
      assert forall f :: f in fs[1..] ==> f in fs;
      var f, more := fs[0], Flatten(fs[1..]) + rest;
      assert Flatten(fs) + rest == f + more;
      PacketSizeOfFront(f, more);
      assert (f + more)[..|f|] == f && (f + more)[|f|..] == more;
      CutIsUnique(fs[1..], rest);
      FirstAndRest(fs);
    }
  }

  // No prefix made of whole frames is longer than the one that is cut off.
  lemma {:induction false} CutIsLongest(fs: seq<bytes>, rest: bytes)
    requires AllWellFormed(fs)
    ensures fs <= CutFrames(Flatten(fs) + rest).frames
    ensures |Flatten(fs)| <= CutFrames(Flatten(fs) + rest).consumed
    decreases |fs|
  {
    if fs != [] {
      assert WellFormed(fs[0]);
      assert forall f :: f in fs[1..] ==> f in fs;
      var f, more := fs[0], Flatten(fs[1..]) + rest;
      assert Flatten(fs) + rest == f + more;
      PacketSizeOfFront(f, more);
      assert (f + more)[..|f|] == f && (f + more)[|f|..] == more;
      CutIsLongest(fs[1..], rest);
      FirstAndRest(fs);
    }
  }

  lemma CutStep(b: bytes)
    requires !Incomplete(b) && PacketSize(b) != 0
    ensures CutFrames(b) == Behind([b[..PacketSize(b)]], PacketSize(b), CutFrames(b[PacketSize(b)..]))
  {
  }

  lemma StillComplete(a: bytes, c: bytes)
    requires !Incomplete(a)
    ensures !Incomplete(a + c) && PacketSize(a + c) == PacketSize(a)
    ensures (a + c)[..PacketSize(a)] == a[..PacketSize(a)]
    ensures (a + c)[PacketSize(a)..] == a[PacketSize(a)..] + c
  {
    PacketSizeOfFront(a, c);
  }

  // Bytes that arrive later are cut together with what was left over.
  lemma {:induction false} CutLater(a: bytes, c: bytes)
    requires !CutFrames(a).hung
    ensures var first := CutFrames(a);
            CutFrames(a + c) == Behind(first.frames, first.consumed, CutFrames(a[first.consumed..] + c))
    decreases |a|
  {
    if Incomplete(a) {
      assert a[0..] == a;
      assert [] + CutFrames(a + c).frames == CutFrames(a + c).frames;
    } else {
      var n := PacketSize(a);
      StillComplete(a, c);
      CutStep(a);
      CutStep(a + c);
      hide CutFrames, Incomplete, PacketSize;
      CutLater(a[n..], c);
      var first := CutFrames(a[n..]);
      assert a[n..][first.consumed..] == a[n + first.consumed..];
      BehindBehind([a[..n]], n, first.frames, first.consumed, CutFrames(a[n + first.consumed..] + c));
    }
  }
}
