// The two pools: reused objects behind shared pointers, and packets with
// counters.
module Pools {

  // ------------------------------------------------------------------ ObjectPool

  // Objects are named by their order of creation.  `held` are the shared pointers
  // that are alive, each with the object it deletes into the pool.
  datatype Objects = Objects(free: seq<nat>, held: multiset<nat>, created: nat)

  datatype ObjectStep = Get | Release(item: nat) | Put(item: nat)

  const NoObjects := Objects([], multiset{}, 0)

  // InitPool, counting upwards.
  function Stocked(o: Objects, count: nat): (r: Objects)
    ensures r.created == o.created + count && r.held == o.held
    ensures r.free == o.free + seq(count, i => o.created + i)
  {
    Objects(o.free + seq(count, i => o.created + i), o.held, o.created + count)
  }

  // The object Pop hands out: the top of the stack, or a new one.
  function Top(o: Objects): nat {
    if o.free != [] then o.free[|o.free| - 1] else o.created
  }

  function NextObjects(o: Objects, step: ObjectStep): Objects {
    match step
    case Get =>
      if o.free != [] then o.(free := o.free[..|o.free| - 1], held := o.held + multiset{Top(o)})
      else o.(held := o.held + multiset{Top(o)}, created := o.created + 1)
    case Release(x) =>
      if x in o.held then o.(free := o.free + [x], held := o.held - multiset{x}) else o
    case Put(x) => o.(free := o.free + [x])
  }

  function RunObjects(o: Objects, steps: seq<ObjectStep>): Objects
    decreases |steps|
  {
    if steps == [] then o else RunObjects(NextObjects(o, steps[0]), steps[1..])
  }

  // Every object ever created is free or held, and that once.
  ghost predicate Conserved(o: Objects) {
    forall x: nat :: multiset(o.free)[x] + o.held[x] == if x < o.created then 1 else 0
  }

  lemma NextKeepsCount(o: Objects, step: ObjectStep, x: nat)
    requires Conserved(o) && !step.Put?
    ensures var t := NextObjects(o, step);
            multiset(t.free)[x] + t.held[x] == if x < t.created then 1 else 0
  {
    var t := NextObjects(o, step);
    assert multiset(o.free)[x] + o.held[x] == if x < o.created then 1 else 0;
    hide Conserved;
    if step.Get? && o.free != [] { assert o.free == t.free + [Top(o)]; }
  }

  lemma NextConserves(o: Objects, step: ObjectStep)
    requires Conserved(o) && !step.Put?
    ensures Conserved(NextObjects(o, step))
  {
    var t := NextObjects(o, step);
    forall x: nat ensures multiset(t.free)[x] + t.held[x] == if x < t.created then 1 else 0 { NextKeepsCount(o, step, x); }
  }

  lemma {:induction false} RunConserves(o: Objects, steps: seq<ObjectStep>)
    requires Conserved(o) && forall i :: 0 <= i < |steps| ==> !steps[i].Put?
    ensures Conserved(RunObjects(o, steps))
    decreases |steps|
  {
    if steps != [] {
      NextConserves(o, steps[0]);
      RunConserves(NextObjects(o, steps[0]), steps[1..]);
    }
  }

  lemma {:induction false} StockCount(count: nat, x: nat)
    ensures multiset(Stocked(NoObjects, count).free)[x] == if x < count then 1 else 0
  {
    if count > 0 {
      StockCount(count - 1, x);
      assert Stocked(NoObjects, count).free == Stocked(NoObjects, count - 1).free + [count - 1];
    }
  }

  lemma StockConserves(count: nat)
    ensures Conserved(Stocked(NoObjects, count))
  {
    var o := Stocked(NoObjects, count);
    forall x: nat ensures multiset(o.free)[x] + o.held[x] == if x < o.created then 1 else 0 { StockCount(count, x); }
  }

  // As long as only the deleters of handed-out pointers push: no object is twice
  // in the stack, none has two holders, none is free while it is held, and the
  // next one handed out is held by nobody.
  lemma OneHolderPerObject(count: nat, steps: seq<ObjectStep>)
    requires forall i :: 0 <= i < |steps| ==> !steps[i].Put?
    ensures var o := RunObjects(Stocked(NoObjects, count), steps);
            && (forall i, j :: 0 <= i < j < |o.free| ==> o.free[i] != o.free[j])
            && (forall x: nat :: o.held[x] <= 1)
            && (forall x :: x in o.free ==> x !in o.held)
            && (forall x: nat :: x < o.created <==> x in o.free || x in o.held)
            && Top(o) !in o.held
  {
    StockConserves(count);
    RunConserves(Stocked(NoObjects, count), steps);
    ConservedMeans(RunObjects(Stocked(NoObjects, count), steps));
  }

  lemma ConservedMeans(o: Objects)
    requires Conserved(o)
    ensures forall i, j :: 0 <= i < j < |o.free| ==> o.free[i] != o.free[j]
    ensures forall x: nat :: o.held[x] <= 1
    ensures forall x :: x in o.free ==> x !in o.held
    ensures forall x: nat :: x < o.created <==> x in o.free || x in o.held
    ensures Top(o) !in o.held
  {
    forall x: nat ensures x in o.free <==> multiset(o.free)[x] == 1 { assert x in o.free <==> x in multiset(o.free); }
    forall i, j | 0 <= i < j < |o.free| ensures o.free[i] != o.free[j] {
      if o.free[i] == o.free[j] { TwiceCountsTwo(o.free, i, j); }
    }
    assert o.free != [] ==> Top(o) in o.free;
  }

  lemma TwiceCountsTwo(s: seq<nat>, i: nat, j: nat)
    requires i < j < |s| && s[i] == s[j]
    ensures multiset(s)[s[i]] >= 2
  {
    assert s == s[..j] + [s[j]] + s[j + 1..];
    assert s[i] == s[..j][i] && s[i] in multiset(s[..j]);
  }

  // What was released last is handed out next.
  lemma ReleasedLast(o: Objects, x: nat)
    requires x in o.held
    ensures Top(NextObjects(o, Release(x))) == x && RunObjects(o, [Release(x), Get]) == o
  {
    assert [Release(x), Get][1..] == [Get] && [Get][1..] == [];
    assert o.held - multiset{x} + multiset{x} == o.held;
    assert RunObjects(o, [Release(x), Get]) == NextObjects(NextObjects(o, Release(x)), Get);
  }

  // Pushing an object that is still held gives it two holders.
  lemma PutShares(o: Objects, x: nat)
    requires Conserved(o) && x in o.held
    ensures RunObjects(o, [Put(x), Get]).held[x] == 2
  {
    assert [Put(x), Get][1..] == [Get] && [Get][1..] == [];
    assert RunObjects(o, [Put(x), Get]) == NextObjects(NextObjects(o, Put(x)), Get);
    assert o.held[x] == 1;
  }

  class ObjectPool {
    var pool: seq<nat>
    ghost var held: multiset<nat>
    // The heap's supply of new objects.
    var created: nat

    ghost function View(): Objects
      reads this
    {
      Objects(pool, held, created)
    }

    constructor ()
      ensures View() == NoObjects
    {
      pool, held, created := [], multiset{}, 0;
    }

    method InitPool(count: nat)
      modifies this
      ensures View() == Stocked(old(View()), count)
    {
      for i := 0 to count
        invariant View() == Stocked(old(View()), i)
      {
        pool := pool + [created];
        created := created + 1;
      }
    }

    method Pop() returns (item: nat)
      modifies this
      ensures item == Top(old(View())) && View() == NextObjects(old(View()), Get)
      ensures if old(pool) != [] then old(pool) == pool + [item] else pool == [] && item == old(created)
    {
      if pool != [] {
        item := pool[|pool| - 1];
        pool := pool[..|pool| - 1];
      } else {
        item := created;
        created := created + 1;
      }
      held := held + multiset{item};
    }

    // The deleter of a pointer that Pop handed out.
    method Deleter(item: nat)
      requires item in held
      modifies this
      ensures View() == NextObjects(old(View()), Release(item))
    {
      held := held - multiset{item};
      Push(item);
    }

    method Push(item: nat)
      modifies this`pool
      ensures View() == NextObjects(old(View()), Put(item))
    {
      pool := pool + [item];
    }
  }

  // ------------------------------------------------------------------ PacketPool

  const SIZE_T: nat := 0x1_0000_0000_0000_0000

  // The queue's length and the three size_t counters, with what happened so far:
  // pops that found a packet and pops that did not, pushes that were taken back
  // and pushes that were not.
  datatype Packets = Packets(size: nat, queued: nat, use: nat, total: nat, available: nat,
                             hits: nat, misses: nat, accepted: nat, refused: nat)

  datatype PacketStep = PopPacket | PushPacket

  // fetch_sub on a size_t.
  function Decrement(n: nat): (r: nat)
    requires n < SIZE_T
    ensures r < SIZE_T
  {
    if n == 0 then SIZE_T - 1 else n - 1
  }

  function Increment(n: nat): (r: nat)
    ensures r < SIZE_T
  {
    (n + 1) % SIZE_T
  }

  predicate InRange(p: Packets) {
    p.use < SIZE_T && p.total < SIZE_T && p.available < SIZE_T
  }

  function Filled(size: nat): (p: Packets)
    requires size < 0x1_0000_0000
    ensures InRange(p)
  {
    Packets(size, size, 0, size, size, 0, 0, 0, 0)
  }

  predicate TakesBack(p: Packets) {
    p.available < p.size
  }

  // A push decrements the count of available packets like a pop does.
  function NextPackets(p: Packets, step: PacketStep): (r: Packets)
    requires InRange(p)
    ensures InRange(r)
  {
    match step
    case PopPacket =>
      if p.queued > 0
      then p.(queued := p.queued - 1, use := Increment(p.use), available := Decrement(p.available), hits := p.hits + 1)
      else p.(total := Increment(p.total), use := Increment(p.use), misses := p.misses + 1)
    case PushPacket =>
      if TakesBack(p)
      then p.(queued := p.queued + 1, available := Decrement(p.available), use := Decrement(p.use), accepted := p.accepted + 1)
      else p.(use := Decrement(p.use), refused := p.refused + 1)
  }

  function RunPackets(p: Packets, steps: seq<PacketStep>): (r: Packets)
    requires InRange(p)
    ensures InRange(r)
    decreases |steps|
  {
    if steps == [] then p else RunPackets(NextPackets(p, steps[0]), steps[1..])
  }

  // Equal up to the wrap-around of a size_t.
  ghost predicate Congruent(a: int, b: int) {
    exists k: int :: a == b + k * SIZE_T
  }

  ghost predicate Accounted(p: Packets) {
    && p.size < 0x1_0000_0000 && InRange(p)
    && p.queued + p.hits == p.size + p.accepted
    && p.accepted <= p.size && (p.accepted > 0 ==> p.hits > 0)
    && p.available == (if p.hits + p.accepted <= p.size then p.size - p.hits - p.accepted
                       else SIZE_T + p.size - p.hits - p.accepted)
    && Congruent(p.use, p.hits + p.misses - p.accepted - p.refused)
    && Congruent(p.total, p.size + p.misses)
  }

  lemma Up(a: nat, b: int)
    requires Congruent(a, b) && a < SIZE_T
    ensures Congruent(Increment(a), b + 1)
  {
    var k: int :| a == b + k * SIZE_T;
    if a + 1 < SIZE_T {
      assert Increment(a) == b + 1 + k * SIZE_T;
    } else {
      assert Increment(a) == b + 1 + (k - 1) * SIZE_T;
    }
  }

  lemma Down(a: nat, b: int)
    requires Congruent(a, b) && a < SIZE_T
    ensures Congruent(Decrement(a), b - 1)
  {
    var k: int :| a == b + k * SIZE_T;
    if a > 0 {
      assert Decrement(a) == b - 1 + k * SIZE_T;
    } else {
      assert Decrement(a) == b - 1 + (k + 1) * SIZE_T;
    }
  }

  lemma NextAccounted(p: Packets, step: PacketStep)
    requires Accounted(p)
    ensures Accounted(NextPackets(p, step))
  {
    Up(p.use, p.hits + p.misses - p.accepted - p.refused);
    Down(p.use, p.hits + p.misses - p.accepted - p.refused);
    Up(p.total, p.size + p.misses);
    hide Congruent, Increment;
  }

  lemma {:induction false} RunAccounted(p: Packets, steps: seq<PacketStep>)
    requires Accounted(p)
    ensures Accounted(RunPackets(p, steps))
    ensures RunPackets(p, steps).size == p.size
    decreases |steps|
  {
    if steps != [] {
      NextAccounted(p, steps[0]);
      RunAccounted(NextPackets(p, steps[0]), steps[1..]);
    }
  }

  // The books of a pool over every run: the counters, and when a packet is taken
  // back.  That happens at most as often as the pool is large, so that at most
  // twice that many pops ever find a packet, and all others allocate.
  lemma PacketAccounting(size: nat, steps: seq<PacketStep>)
    requires size < 0x1_0000_0000
    ensures var p := RunPackets(Filled(size), steps);
            && p.queued == size - p.hits + p.accepted
            && Congruent(p.use, p.hits + p.misses - p.accepted - p.refused)
            && Congruent(p.total, size + p.misses)
            && Congruent(p.available, size - p.hits - p.accepted)
            && p.use < 0x1_0000_0000_0000_0000 && p.total < 0x1_0000_0000_0000_0000
            && (p.available - (size - p.hits - p.accepted)) % 0x1_0000_0000_0000_0000 == 0
            && (TakesBack(p) <==> 1 <= p.hits + p.accepted <= size)
            && p.accepted <= size && p.hits <= 2 * size
  {
    var f := Filled(size);
    assert f.use == 0 + 0 * SIZE_T && f.total == size + 0 * SIZE_T;
    RunAccounted(f, steps);
    var p := RunPackets(f, steps);
    var k := if p.hits + p.accepted <= size then 0 else 1;
    assert p.available == size - p.hits - p.accepted + k * SIZE_T;
  }

  class PacketPool {
    // The packets by their order of creation.
    var queue: seq<nat>
    var useCount: nat
    var totalCount: nat
    var availableCount: nat
    var poolSize: nat
    var made: nat
    ghost var history: (nat, nat, nat, nat)

    ghost function View(): Packets
      reads this
    {
      Packets(poolSize, |queue|, useCount, totalCount, availableCount, history.0, history.1, history.2, history.3)
    }

    constructor ()
      ensures queue == [] && useCount == totalCount == availableCount == 0 && history == (0, 0, 0, 0)
    {
      queue, useCount, totalCount, availableCount, poolSize, made := [], 0, 0, 0, 0, 0;
      history := (0, 0, 0, 0);
    }

    method Init(size: nat) returns (ok: bool)
      requires size < 0x1_0000_0000
      requires queue == [] && useCount == totalCount == availableCount == 0 && history == (0, 0, 0, 0)
      modifies this
      ensures View() == Filled(size) && (ok <==> size > 0)
      ensures queue == seq(size, i => old(made) + i)
    {
      poolSize := size;
      for i := 0 to size
        invariant View() == Packets(size, i, 0, i, i, 0, 0, 0, 0) && made == old(made) + i
        invariant queue == seq(i, j => old(made) + j)
      {
        queue := queue + [made];
        made := made + 1;
        totalCount := Increment(totalCount);
        availableCount := Increment(availableCount);
      }
      ok := totalCount > 0;
    }

    method Pop() returns (packet: nat)
      requires InRange(View())
      modifies this
      ensures View() == NextPackets(old(View()), PopPacket)
      ensures if old(queue) != [] then packet == old(queue)[0] && queue == old(queue)[1..]
              else packet == old(made) && queue == []
    {
      if queue != [] {
        packet := queue[0];
        queue := queue[1..];
        useCount := Increment(useCount);
        availableCount := Decrement(availableCount);
        history := (history.0 + 1, history.1, history.2, history.3);
      } else {
        packet := made;
        made := made + 1;
        totalCount := Increment(totalCount);
        useCount := Increment(useCount);
        history := (history.0, history.1 + 1, history.2, history.3);
      }
    }

    method Push(packet: nat)
      requires InRange(View())
      modifies this
      ensures View() == NextPackets(old(View()), PushPacket)
      ensures queue == if TakesBack(old(View())) then old(queue) + [packet] else old(queue)
    {
      if availableCount < poolSize {
        queue := queue + [packet];
        availableCount := Decrement(availableCount);
        history := (history.0, history.1, history.2 + 1, history.3);
      } else {
        history := (history.0, history.1, history.2, history.3 + 1);
      }
      useCount := Decrement(useCount);
    }
  }
}
