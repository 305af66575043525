// The packet router and the session lifecycle as one machine: acceptor, read
// loops, router workers and task-queue threads take their steps in any order.
module Server {
  import opened Bytes

  // ------------------------------------------------------------------ the router

  // A queue item names its session and points to a packet.
  datatype Item = Item(uid: int, address: int, length: int)

  datatype Outcome = Handled(item: Item) | Dropped(item: Item)

  // What a worker thread is about: before the test of the running flag, between
  // test and pop, between pop and session lookup, or inside the handler.
  datatype Phase = Idle | Ready | Popped(item: Item) | Handling(item: Item) {
    predicate Holds() {
      Popped? || Handling?
    }
  }

  // A worker with its queue, what it did with the items so far, and the items
  // that were still queued when the router shut down.
  datatype Worker = Worker(queue: seq<Item>, phase: Phase, done: seq<Outcome>, lost: seq<Item>)

  datatype Router = Router(workers: seq<Worker>, running: bool, dispatched: seq<Item>, fault: bool)

  // uid % workers on int32, which truncates towards zero.
  function WorkerIndex(uid: int, workers: nat): int
    requires workers > 0
  {
    if uid >= 0 then uid % workers else -((-uid) % workers)
  }

  lemma WorkerIndexInRange(uid: int, workers: nat)
    requires workers > 0
    ensures 0 <= WorkerIndex(uid, workers) < workers <==> uid >= 0 || (-uid) % workers == 0
    ensures var i, q := WorkerIndex(uid, workers), if uid >= 0 then uid / workers else -(-uid / workers);
            uid == workers * q + i && (if uid >= 0 then 0 <= i < workers else 0 - workers < i <= 0)
  {
    if uid < 0 {
      var n := -uid;
      assert n == workers * (n / workers) + n % workers;
    }
  }

  // Nothing happens once the router is stopped; a negative index is a fault.
  function Dispatched(r: Router, item: Item): Router
    requires |r.workers| > 0
  {
    if !r.running then r
    else
      var i := WorkerIndex(item.uid, |r.workers|);
      if i < 0 then r.(fault := true)
      else
        var w := r.workers[i];
        r.(workers := r.workers[i := w.(queue := w.queue + [item])], dispatched := r.dispatched + [item])
  }

  // What one worker's own steps do to it; a step that is not possible does
  // nothing.
  function Testing(w: Worker): Worker {
    if w.phase.Idle? then w.(phase := Ready) else w
  }

  function Popping(w: Worker): Worker {
    if !w.phase.Ready? then w
    else if w.queue == [] then w.(phase := Idle)
    else w.(queue := w.queue[1..], phase := Popped(w.queue[0]))
  }

  function LookingUp(w: Worker, registered: set<int>): Worker {
    if !w.phase.Popped? then w
    else if w.phase.item.uid in registered
    then w.(phase := Handling(w.phase.item), done := w.done + [Handled(w.phase.item)])
    else w.(phase := Idle, done := w.done + [Dropped(w.phase.item)])
  }

  function Finishing(w: Worker): Worker {
    if w.phase.Handling? then w.(phase := Idle) else w
  }

  function WithWorker(r: Router, i: nat, w: Worker): Router
    requires i < |r.workers|
  {
    r.(workers := r.workers[i := w])
  }

  // Shutdown waits for every worker before it clears the queues.
  function Clearing(w: Worker): Worker {
    w.(queue := [], lost := w.queue + w.lost)
  }

  function QueuesCleared(r: Router): (q: Router)
    ensures |q.workers| == |r.workers|
  {
    if !r.running && forall i :: 0 <= i < |r.workers| ==> r.workers[i].phase.Idle?
    then r.(workers := seq(|r.workers|, i requires 0 <= i < |r.workers| => Clearing(r.workers[i])))
    else r
  }

  // --------------------------------------------------------------- the lifecycle

  // Sessions, the session manager, and the task queue.  `down` are the sessions
  // in state Disconnect, `passed` the threads of ProcessDisconnect between the
  // check and the write, `ready` the task-queue threads between the test of the
  // running flag and the pop, `taken` and `closing` those before and after the
  // session lookup; `pushed`, `closed` and `lost` are histories.
  datatype Life = Life(created: nat, registered: set<int>, count: int, down: set<int>, passed: multiset<int>,
                       running: bool, threads: nat, ready: nat, tasks: seq<int>, taken: multiset<int>,
                       closing: multiset<int>, pushed: seq<int>, closed: seq<int>, lost: seq<int>)

  // CreateSession numbers sessions with an int32 that wraps around.
  function Uid(serial: nat): (uid: int)
    ensures -0x8000_0000 <= uid < 0x8000_0000 && (serial - uid) % 0x1_0000_0000 == 0
  {
    var m := serial % 0x1_0000_0000;
    if m < 0x8000_0000 then m else m - 0x1_0000_0000
  }

  predicate Created(n: nat, uid: int) {
    -0x8000_0000 <= uid < 0x8000_0000 && uid % 0x1_0000_0000 < n
  }

  function Accepted(l: Life): Life {
    l.(created := l.created + 1, registered := l.registered + {Uid(l.created)}, count := l.count + 1)
  }

  // The second half of ProcessDisconnect: write the state, push the task.
  function Marked(l: Life, u: int): Life {
    var l := l.(down := l.down + {u});
    if l.running then l.(tasks := l.tasks + [u], pushed := l.pushed + [u]) else l
  }

  // ProcessDisconnect as one step.
  function Failed(l: Life, u: int): Life {
    if !Created(l.created, u) || u in l.down then l else Marked(l, u)
  }

  // The same with other threads between check and write.
  function Checked(l: Life, u: int): Life {
    if !Created(l.created, u) || u in l.down then l else l.(passed := l.passed + multiset{u})
  }

  function MarkedLate(l: Life, u: int): Life {
    if u in l.passed then Marked(l.(passed := l.passed - multiset{u}), u) else l
  }

  lemma MarkedLateIs(l: Life, u: int)
    requires u in l.passed
    ensures MarkedLate(l, u) == l.(passed := l.passed - multiset{u}, down := l.down + {u},
                                   tasks := if l.running then l.tasks + [u] else l.tasks,
                                   pushed := if l.running then l.pushed + [u] else l.pushed)
  {
  }

  // A free thread tests the flag ...
  function Polled(l: Life): Life {
    if l.running && l.ready + |l.taken| + |l.closing| < l.threads then l.(ready := l.ready + 1) else l
  }

  // ... and pops later, without another look.
  function Taken(l: Life): Life {
    if l.ready == 0 then l
    else if l.tasks == [] then l.(ready := l.ready - 1)
    else l.(ready := l.ready - 1, tasks := l.tasks[1..], taken := l.taken + multiset{l.tasks[0]})
  }

  // Shutdown joins the threads, and then empties the queue.
  function Drained(l: Life): Life {
    if !l.running && l.ready == 0 && l.taken == multiset{} && l.closing == multiset{}
    then l.(tasks := [], lost := l.lost + l.tasks)
    else l
  }

  // ProcessIoTask: a task for an unknown session is done at once.
  function Found(l: Life, u: int): Life {
    if u !in l.taken then l
    else if u in l.registered
    then l.(taken := l.taken - multiset{u}, closing := l.closing + multiset{u})
    else l.(taken := l.taken - multiset{u})
  }

  // CloseSession: leave the session manager, leave the service.
  function Closed(l: Life, u: int): Life {
    if u !in l.closing then l
    else l.(closing := l.closing - multiset{u}, registered := l.registered - {u}, count := l.count - 1,
            closed := l.closed + [u])
  }

  // ----------------------------------------------------------------- the machine

  datatype Server = Server(router: Router, life: Life)

  datatype Step =
    | Accept | Dispatch(item: Item) | StopRouter | ClearQueues
    | Test(worker: nat) | Pop(worker: nat) | LookUp(worker: nat) | Finish(worker: nat)
    | Fail(uid: int) | Check(uid: int) | Mark(uid: int)
    | Poll | Take | Find(uid: int) | Close(uid: int) | StopTasks | Drain

  // How many workers PacketRouter::Init starts.
  function WorkerCount(numThread: int, cores: nat): (n: nat)
    ensures n > 0 && (numThread > 0 ==> n == numThread)
  {
    if numThread > 0 then numThread else if cores / 2 < 1 then 1 else cores / 2
  }

  function Init(workers: nat, threads: nat): (s: Server)
    requires workers > 0
    ensures |s.router.workers| > 0
  {
    Server(Router(seq(workers, _ => Worker([], Idle, [], [])), true, [], false),
           Life(0, {}, 0, {}, multiset{}, true, threads, 0, [], multiset{}, multiset{}, [], [], []))
  }

  function NextRouter(r: Router, l: Life, step: Step): (q: Router)
    requires |r.workers| > 0
    ensures |q.workers| == |r.workers|
  {
    match step
    case Dispatch(item) => if Created(l.created, item.uid) then Dispatched(r, item) else r
    case StopRouter => r.(running := false)
    case ClearQueues => QueuesCleared(r)
    case Test(i) => if r.running && i < |r.workers| then WithWorker(r, i, Testing(r.workers[i])) else r
    case Pop(i) => if i < |r.workers| then WithWorker(r, i, Popping(r.workers[i])) else r
    case LookUp(i) => if i < |r.workers| then WithWorker(r, i, LookingUp(r.workers[i], l.registered)) else r
    case Finish(i) => if i < |r.workers| then WithWorker(r, i, Finishing(r.workers[i])) else r
    case _ => r
  }

  function NextLife(l: Life, step: Step): Life {
    match step
    case Accept => Accepted(l)
    case Fail(u) => Failed(l, u)
    case Check(u) => Checked(l, u)
    case Mark(u) => MarkedLate(l, u)
    case Poll => Polled(l)
    case Take => Taken(l)
    case Find(u) => Found(l, u)
    case Close(u) => Closed(l, u)
    case StopTasks => l.(running := false)
    case Drain => Drained(l)
    case _ => l
  }

  function Next(s: Server, step: Step): (r: Server)
    requires |s.router.workers| > 0
    ensures |r.router.workers| == |s.router.workers|
  {
    Server(NextRouter(s.router, s.life, step), NextLife(s.life, step))
  }

  function Run(s: Server, steps: seq<Step>): (r: Server)
    requires |s.router.workers| > 0
    ensures |r.router.workers| == |s.router.workers|
    decreases |steps|
  {
    if steps == [] then s else Run(Next(s, steps[0]), steps[1..])
  }

  // A thread passes ProcessDisconnect's check for a session while another one is
  // between its check and its write.
  predicate Passes(l: Life, step: Step, u: int) {
    (step == Check(u) || step == Fail(u)) && Created(l.created, u) && u !in l.down
  }

  predicate Overlap(s: Server, steps: seq<Step>, u: int)
    requires |s.router.workers| > 0
    decreases |steps|
  {
    steps != [] &&
    ((Passes(s.life, steps[0], u) && u in s.life.passed) || Overlap(Next(s, steps[0]), steps[1..], u))
  }

  ghost predicate Apart(s: Server, steps: seq<Step>)
    requires |s.router.workers| > 0
  {
    forall u :: !Overlap(s, steps, u)
  }

  lemma ApartStep(s: Server, steps: seq<Step>)
    requires |s.router.workers| > 0 && Apart(s, steps) && steps != []
    ensures Apart(Next(s, steps[0]), steps[1..])
    ensures forall u :: Passes(s.life, steps[0], u) ==> u !in s.life.passed
  {
    forall u ensures !Overlap(Next(s, steps[0]), steps[1..], u) && (Passes(s.life, steps[0], u) ==> u !in s.life.passed) {
      assert !Overlap(s, steps, u);
    }
  }

  // With check and write as one step no run overlaps.
  lemma {:induction false} AtomicIsApart(s: Server, steps: seq<Step>, u: int)
    requires |s.router.workers| > 0 && s.life.passed == multiset{}
    requires forall x :: x in steps ==> !x.Check? && !x.Mark?
    ensures !Overlap(s, steps, u)
    decreases |steps|
  {
    if steps != [] {
      assert steps[0] in steps;
      AtomicIsApart(Next(s, steps[0]), steps[1..], u);
    }
  }

  // ------------------------------------------------------------ router invariant

  function Items(done: seq<Outcome>): seq<Item> {
    if done == [] then [] else [done[0].item] + Items(done[1..])
  }

  function InHand(p: Phase): seq<Item> {
    if p.Popped? then [p.item] else []
  }

  // Every item a worker ever got, in the order it got them.
  function AllItems(w: Worker): seq<Item> {
    Items(w.done) + InHand(w.phase) + w.queue + w.lost
  }

  function ItemsFor(items: seq<Item>, i: int, workers: nat): seq<Item>
    requires workers > 0
  {
    if items == [] then []
    else (if WorkerIndex(items[0].uid, workers) == i then [items[0]] else []) + ItemsFor(items[1..], i, workers)
  }

  lemma {:induction false} ItemsSnoc(done: seq<Outcome>, o: Outcome)
    ensures Items(done + [o]) == Items(done) + [o.item]
  {
    if done != [] {
      ItemsSnoc(done[1..], o);
      assert (done + [o])[1..] == done[1..] + [o];
    }
  }

  lemma {:induction false} ItemsForSnoc(items: seq<Item>, x: Item, i: int, workers: nat)
    requires workers > 0
    ensures ItemsFor(items + [x], i, workers)
         == ItemsFor(items, i, workers) + if WorkerIndex(x.uid, workers) == i then [x] else []
  {
    if items != [] {
      ItemsForSnoc(items[1..], x, i, workers);
      assert (items + [x])[1..] == items[1..] + [x];
    }
  }

  // A dropped item's session is gone, and stays so for the items behind it.
  predicate DropsAreFinal(done: seq<Outcome>, registered: set<int>, created: int) {
    && (forall k :: 0 <= k < |done| && done[k].Dropped? ==>
          done[k].item.uid !in registered && done[k].item.uid < created)
    && (forall j, k :: 0 <= j < k < |done| && done[j].Dropped? && done[k].item.uid == done[j].item.uid ==>
          done[k].Dropped?)
  }

  // A worker has exactly the items dispatched to it, in order.
  predicate WorkerInv(w: Worker, items: seq<Item>, l: Life) {
    && AllItems(w) == items
    && DropsAreFinal(w.done, l.registered, l.created)
    && (w.phase.Handling? ==> w.done != [] && w.done[|w.done| - 1] == Handled(w.phase.item))
  }

  predicate RouterInv(s: Server) {
    var r, n := s.router, |s.router.workers|;
    && n > 0 && !r.fault
    && (forall i :: 0 <= i < n ==>
          && WorkerInv(r.workers[i], ItemsFor(r.dispatched, i, n), s.life)
          && (r.running ==> r.workers[i].lost == []))
    && forall x :: x in r.dispatched ==> 0 <= x.uid < s.life.created
  }

  // --------------------------------------------------------- lifecycle invariant

  ghost function Tasks(l: Life): multiset<int> {
    multiset(l.tasks) + l.taken + (l.closing + multiset(l.closed) + multiset(l.lost))
  }

  // Every task that was ever pushed is queued, in a thread's hands, has closed its
  // session, or was lost at shutdown; each session is registered until it is
  // closed; no session has two tasks.
  ghost predicate LifeInv(l: Life) {
    && l.created <= 0x1_0000_0000
    && Tasks(l) == multiset(l.pushed)
    && (l.running ==> l.lost == [])
    && (forall u :: multiset(l.pushed)[u] + l.passed[u] <= 1)
    && (forall u :: u in l.pushed ==> u in l.down)
    && (forall u :: u in l.down || u in l.passed ==> Created(l.created, u))
    && (forall u :: u in l.registered <==> Created(l.created, u) && u !in l.closed)
    && l.count == |l.registered|
  }

  lemma InitInv(workers: nat, threads: nat)
    requires workers > 0
    ensures RouterInv(Init(workers, threads)) && LifeInv(Init(workers, threads).life)
  {
    assert Items([]) == [];
  }

  lemma ClosedIsPushed(l: Life, u: int)
    requires LifeInv(l)
    ensures u in l.closed ==> u in l.pushed
  {
    assert multiset(l.closed)[u] <= multiset(l.pushed)[u];
    assert u in l.closed ==> u in multiset(l.closed);
    assert u in multiset(l.pushed) ==> u in l.pushed;
  }

  lemma AcceptedKeeps(l: Life)
    requires LifeInv(l) && l.created < 0x1_0000_0000
    ensures LifeInv(Accepted(l))
  {
    var uid := Uid(l.created);
    ClosedIsPushed(l, uid);
    hide Uid, Created;
    forall u ensures Created(l.created + 1, u) <==> Created(l.created, u) || u == uid { CreatedNext(l.created, u); }
    CreatedNext(l.created, uid);
    assert uid !in l.closed;
    assert uid !in l.registered;
  }

  lemma CreatedNext(n: nat, u: int)
    requires n < 0x1_0000_0000
    ensures !Created(n, Uid(n)) && (Created(n + 1, u) <==> Created(n, u) || u == Uid(n))
  {
  }

  lemma CheckedKeeps(l: Life, u: int)
    requires LifeInv(l) && Created(l.created, u) && u !in l.down && u !in l.passed
    ensures LifeInv(l.(passed := l.passed + multiset{u}))
  {
    assert u !in multiset(l.pushed);
  }

  lemma MarkedKeeps(l: Life, u: int)
    requires LifeInv(l) && Created(l.created, u) && u !in l.pushed && u !in l.passed
    ensures LifeInv(Marked(l, u))
  {
    var rest := l.taken + l.closing + multiset(l.closed) + multiset(l.lost);
    Sums(multiset(l.tasks), l.taken, l.closing, multiset(l.closed), multiset(l.lost));
    Sums(multiset(l.tasks + [u]), l.taken, l.closing, multiset(l.closed), multiset(l.lost));
    if l.running { PushedOnce(l.tasks, rest, l.pushed, u); }
  }

  lemma Sums(a: multiset<int>, b: multiset<int>, c: multiset<int>, d: multiset<int>, e: multiset<int>)
    ensures a + b + c + d + e == a + (b + c + d + e)
  {
  }

  lemma MarkedLateKeeps(l: Life, u: int)
    requires LifeInv(l)
    ensures LifeInv(MarkedLate(l, u))
  {
    if u in l.passed {
      var m := l.(passed := l.passed - multiset{u});
      assert multiset(l.pushed)[u] + l.passed[u] <= 1;
      assert u !in multiset(l.pushed);
      assert LifeInv(m);
      hide LifeInv, Marked;
      MarkedKeeps(m, u);
    }
  }

  lemma PushedOnce(tasks: seq<int>, rest: multiset<int>, pushed: seq<int>, u: int)
    requires multiset(tasks) + rest == multiset(pushed) && u !in pushed
    ensures multiset(tasks + [u]) + rest == multiset(pushed + [u])
    ensures forall v :: multiset(pushed + [u])[v] == if v == u then 1 else multiset(pushed)[v]
  {
  }

  // Moving tasks keeps it.
  lemma MovedKeeps(l: Life, t: Life)
    requires LifeInv(l) && Tasks(t) == Tasks(l)
    requires t == l.(running := t.running, ready := t.ready, tasks := t.tasks, taken := t.taken, lost := t.lost)
    requires t.running ==> l.running && t.lost == l.lost
    ensures LifeInv(t)
  {
    hide Created, Tasks;
  }

  lemma TakenKeeps(l: Life)
    requires LifeInv(l)
    ensures LifeInv(Taken(l)) && LifeInv(Polled(l))
  {
    TakenTasks(l);
    assert Tasks(Polled(l)) == Tasks(l);
    hide LifeInv, Tasks;
    MovedKeeps(l, Polled(l));
    MovedKeeps(l, Taken(l));
  }

  lemma TakenTasks(l: Life)
    ensures Tasks(Taken(l)) == Tasks(l)
  {
    if l.tasks != [] { FirstOf(l.tasks, l.taken, l.closing + multiset(l.closed) + multiset(l.lost)); }
  }

  lemma FirstOf(tasks: seq<int>, taken: multiset<int>, others: multiset<int>)
    requires tasks != []
    ensures multiset(tasks[1..]) + (taken + multiset{tasks[0]}) + others == multiset(tasks) + taken + others
  {
    assert tasks == [tasks[0]] + tasks[1..];
  }

  lemma DrainedKeeps(l: Life)
    requires LifeInv(l)
    ensures LifeInv(Drained(l))
  {
    assert Tasks(Drained(l)) == Tasks(l) by { assert multiset(l.lost + l.tasks) == multiset(l.lost) + multiset(l.tasks); }
    hide Tasks;
    MovedKeeps(l, Drained(l));
  }

  // A task in a thread's hands belongs to a session that is still registered.
  lemma HeldIsRegistered(l: Life, u: int)
    requires LifeInv(l) && (u in l.tasks || u in l.taken || u in l.closing)
    ensures u in l.registered && u !in l.closed && u !in l.lost && u in l.down
    ensures multiset(l.tasks)[u] + l.taken[u] + l.closing[u] == 1
  {
    var p := multiset(l.pushed);
    assert p[u] == multiset(l.tasks)[u] + l.taken[u] + l.closing[u] + multiset(l.closed)[u] + multiset(l.lost)[u];
    assert u in l.pushed;
    assert u !in l.closed && u !in l.lost;
  }

  lemma FoundKeeps(l: Life, u: int)
    requires LifeInv(l)
    ensures LifeInv(Found(l, u))
  {
    if u in l.taken {
      HeldIsRegistered(l, u);
      assert (l.taken - multiset{u}) + (l.closing + multiset{u}) == l.taken + l.closing;
    }
  }

  lemma ClosedKeeps(l: Life, u: int)
    requires LifeInv(l)
    ensures LifeInv(Closed(l, u))
  {
    if u in l.closing {
      HeldIsRegistered(l, u);
      assert multiset(l.closed + [u]) == multiset(l.closed) + multiset{u};
      assert (l.closing - multiset{u}) + multiset{u} == l.closing;
    }
  }

  lemma FailedKeeps(l: Life, u: int)
    requires LifeInv(l) && (Passes(l, Fail(u), u) ==> u !in l.passed)
    ensures LifeInv(Failed(l, u)) && LifeInv(Checked(l, u))
  {
    if Created(l.created, u) && u !in l.down {
      assert u !in l.pushed;
      hide LifeInv, Marked;
      MarkedKeeps(l, u);
      CheckedKeeps(l, u);
    }
  }

  lemma LifeKeeps(s: Server, step: Step)
    requires |s.router.workers| > 0 && LifeInv(s.life) && Next(s, step).life.created <= 0x1_0000_0000
    requires forall u :: Passes(s.life, step, u) ==> u !in s.life.passed
    ensures LifeInv(Next(s, step).life)
  {
    hide LifeInv, Marked, Polled, Taken, Found, Closed, Drained, MarkedLate;
    match step
    case Accept => AcceptedKeeps(s.life);
    case Fail(u) =>
      assert Passes(s.life, step, u) <==> Passes(s.life, Fail(u), u);
      FailedKeeps(s.life, u);
    case Check(u) =>
      assert Passes(s.life, step, u) <==> Passes(s.life, Fail(u), u);
      FailedKeeps(s.life, u);
    case Mark(u) => MarkedLateKeeps(s.life, u);
    case Poll => TakenKeeps(s.life);
    case Take => TakenKeeps(s.life);
    case Find(u) => FoundKeeps(s.life, u);
    case Close(u) => ClosedKeeps(s.life, u);
    case StopTasks => StoppedKeeps(s.life);
    case Drain => DrainedKeeps(s.life);
    case _ =>
  }

  lemma StoppedKeeps(l: Life)
    requires LifeInv(l)
    ensures LifeInv(l.(running := false))
  {
  }

  lemma CreatedIsSmall(l: Life, u: int)
    requires l.created <= 0x8000_0000 && Created(l.created, u)
    ensures 0 <= u < l.created
  {
  }

  // ------------------------------------------------------- the router's own steps

  lemma PushedKeeps(w: Worker, items: seq<Item>, l: Life, item: Item)
    requires WorkerInv(w, items, l) && w.lost == []
    ensures WorkerInv(w.(queue := w.queue + [item]), items + [item], l)
  {
    hide Items, DropsAreFinal;
    assert Items(w.done) + InHand(w.phase) + (w.queue + [item]) + [] == Items(w.done) + InHand(w.phase) + w.queue + [] + [item];
  }

  lemma TestingKeeps(w: Worker, items: seq<Item>, l: Life)
    requires WorkerInv(w, items, l)
    ensures WorkerInv(Testing(w), items, l)
  {
  }

  lemma PoppingKeeps(w: Worker, items: seq<Item>, l: Life)
    requires WorkerInv(w, items, l)
    ensures WorkerInv(Popping(w), items, l)
  {
    hide Items, DropsAreFinal;
    if w.phase.Ready? && w.queue != [] {
      assert Items(w.done) + [w.queue[0]] + w.queue[1..] + w.lost == Items(w.done) + [] + w.queue + w.lost;
    }
  }

  lemma LookingUpKeeps(w: Worker, items: seq<Item>, l: Life)
    requires WorkerInv(w, items, l) && (forall x :: x in items ==> x.uid < l.created)
    ensures WorkerInv(LookingUp(w, l.registered), items, l)
  {
    if w.phase.Popped? {
      var x := w.phase.item;
      assert x in AllItems(w);
      var o := if x.uid in l.registered then Handled(x) else Dropped(x);
      ItemsSnoc(w.done, o);
      OutcomeIsFinal(w.done, o, l.registered, l.created);
      hide Items, DropsAreFinal;
      assert Items(w.done) + [x] + [] + w.queue + w.lost == Items(w.done) + [x] + w.queue + w.lost;
    }
  }

  lemma OutcomeIsFinal(done: seq<Outcome>, o: Outcome, registered: set<int>, created: int)
    requires DropsAreFinal(done, registered, created)
    requires o.item.uid < created && (o.Dropped? <==> o.item.uid !in registered)
    ensures DropsAreFinal(done + [o], registered, created)
  {
  }

  lemma FinishingKeeps(w: Worker, items: seq<Item>, l: Life)
    requires WorkerInv(w, items, l)
    ensures WorkerInv(Finishing(w), items, l)
  {
  }

  lemma ClearingKeeps(w: Worker, items: seq<Item>, l: Life)
    requires WorkerInv(w, items, l)
    ensures WorkerInv(Clearing(w), items, l)
  {
    hide Items, DropsAreFinal;
    assert Items(w.done) + InHand(w.phase) + [] + (w.queue + w.lost) == Items(w.done) + InHand(w.phase) + w.queue + w.lost;
  }

  // Sessions come with new UIDs and leave for good.
  predicate MovesOn(l: Life, next: Life) {
    && next.created >= l.created
    && forall u :: u in next.registered ==> u in l.registered || u >= l.created
  }

  lemma LifeMovesOn(s: Server, step: Step)
    requires |s.router.workers| > 0 && Next(s, step).life.created <= 0x8000_0000
    ensures MovesOn(s.life, Next(s, step).life)
  {
  }

  lemma WorkerLives(w: Worker, items: seq<Item>, l: Life, next: Life)
    requires WorkerInv(w, items, l) && MovesOn(l, next)
    ensures WorkerInv(w, items, next)
  {
  }

  lemma DispatchKeeps(s: Server, item: Item)
    requires RouterInv(s) && 0 <= item.uid < s.life.created
    ensures RouterInv(s.(router := Dispatched(s.router, item)))
  {
    var r, t := s.router, Dispatched(s.router, item);
    if r.running {
      forall i | 0 <= i < |r.workers|
        ensures WorkerInv(t.workers[i], ItemsFor(t.dispatched, i, |r.workers|), s.life) && t.workers[i].lost == []
      {
        ItemsForSnoc(r.dispatched, item, i, |r.workers|);
        PushedKeeps(r.workers[i], ItemsFor(r.dispatched, i, |r.workers|), s.life, item);
      }
    }
  }

  // An item that is dispatched to a worker was dispatched.
  lemma {:induction false} ItemsForSubset(items: seq<Item>, i: int, workers: nat)
    requires workers > 0
    ensures forall x :: x in ItemsFor(items, i, workers) ==> x in items && WorkerIndex(x.uid, workers) == i
  {
    if items != [] { ItemsForSubset(items[1..], i, workers); }
  }

  lemma OneWorkerMoves(s: Server, i: nat, w: Worker)
    requires RouterInv(s) && i < |s.router.workers|
    requires WorkerInv(w, ItemsFor(s.router.dispatched, i, |s.router.workers|), s.life)
    requires s.router.running ==> w.lost == []
    ensures RouterInv(s.(router := WithWorker(s.router, i, w)))
  {
  }

  lemma WorkerFacts(s: Server, i: nat)
    requires RouterInv(s) && i < |s.router.workers|
    ensures WorkerInv(s.router.workers[i], ItemsFor(s.router.dispatched, i, |s.router.workers|), s.life)
    ensures s.router.running ==> s.router.workers[i].lost == []
    ensures forall x :: x in ItemsFor(s.router.dispatched, i, |s.router.workers|) ==>
              0 <= x.uid < s.life.created && WorkerIndex(x.uid, |s.router.workers|) == i
  {
    ItemsForSubset(s.router.dispatched, i, |s.router.workers|);
  }

  lemma WorkerStepKeeps(s: Server, step: Step)
    requires RouterInv(s) && |s.router.workers| > 0 && (step.Test? || step.Pop? || step.LookUp? || step.Finish?)
    ensures RouterInv(Next(s, step))
  {
    hide WorkerInv, RouterInv, ItemsFor;
    var i, r, n := step.worker, s.router, |s.router.workers|;
    if i < n {
      var w, items := r.workers[i], ItemsFor(r.dispatched, i, n);
      WorkerFacts(s, i);
      TestingKeeps(w, items, s.life);
      PoppingKeeps(w, items, s.life);
      LookingUpKeeps(w, items, s.life);
      FinishingKeeps(w, items, s.life);
      match step
      case Test(_) => if r.running { OneWorkerMoves(s, i, Testing(w)); }
      case Pop(_) => OneWorkerMoves(s, i, Popping(w));
      case LookUp(_) => OneWorkerMoves(s, i, LookingUp(w, s.life.registered));
      case Finish(_) => OneWorkerMoves(s, i, Finishing(w));
    }
  }

  lemma QueuesClearedKeeps(s: Server)
    requires RouterInv(s)
    ensures RouterInv(s.(router := QueuesCleared(s.router)))
  {
    var r, n, t := s.router, |s.router.workers|, QueuesCleared(s.router);
    forall i | 0 <= i < n ensures WorkerInv(t.workers[i], ItemsFor(r.dispatched, i, n), s.life) {
      ClearingKeeps(r.workers[i], ItemsFor(r.dispatched, i, n), s.life);
    }
  }

  lemma RouterKeeps(s: Server, step: Step)
    requires RouterInv(s) && Next(s, step).life.created <= 0x8000_0000
    ensures RouterInv(Next(s, step))
  {
    hide WorkerInv, ItemsFor;
    if step.Test? || step.Pop? || step.LookUp? || step.Finish? {
      WorkerStepKeeps(s, step);
    } else if step.ClearQueues? {
      QueuesClearedKeeps(s);
    } else if step.Dispatch? {
      if Created(s.life.created, step.item.uid) {
        CreatedIsSmall(s.life, step.item.uid);
        hide RouterInv;
        DispatchKeeps(s, step.item);
      }
    } else {
      LifeMovesOn(s, step);
      var r, n, next := s.router, |s.router.workers|, Next(s, step).life;
      forall i | 0 <= i < n ensures WorkerInv(r.workers[i], ItemsFor(r.dispatched, i, n), next) {
        WorkerLives(r.workers[i], ItemsFor(r.dispatched, i, n), s.life, next);
      }
    }
  }

  // ------------------------------------------------------------------ whole runs

  lemma {:induction false} CreatedGrows(s: Server, steps: seq<Step>)
    requires |s.router.workers| > 0
    ensures Run(s, steps).life.created >= s.life.created
    decreases |steps|
  {
    if steps != [] { CreatedGrows(Next(s, steps[0]), steps[1..]); }
  }

  // The router's invariant holds in every state of every run that accepts at most
  // 2^31 connections ...
  lemma {:induction false} RunKeepsRouter(s: Server, steps: seq<Step>)
    requires RouterInv(s) && Run(s, steps).life.created <= 0x8000_0000
    ensures RouterInv(Run(s, steps))
    decreases |steps|
  {
    if steps != [] {
      CreatedGrows(Next(s, steps[0]), steps[1..]);
      RouterKeeps(s, steps[0]);
      RunKeepsRouter(Next(s, steps[0]), steps[1..]);
    }
  }

  // ... and the lifecycle's one in those without overlap.
  lemma {:induction false} RunKeepsLife(s: Server, steps: seq<Step>)
    requires |s.router.workers| > 0 && LifeInv(s.life)
    requires Apart(s, steps) && Run(s, steps).life.created <= 0x1_0000_0000
    ensures LifeInv(Run(s, steps).life)
    decreases |steps|
  {
    hide LifeInv, Apart, Passes, Next;
    if steps != [] {
      CreatedGrows(Next(s, steps[0]), steps[1..]);
      ApartStep(s, steps);
      LifeKeeps(s, steps[0]);
      RunKeepsLife(Next(s, steps[0]), steps[1..]);
    }
  }

  // ------------------------------------------------------------- what it all means

  function HandledIn(done: seq<Outcome>): seq<Item> {
    if done == [] then []
    else if done[0].Handled? then [done[0].item] + HandledIn(done[1..])
    else HandledIn(done[1..])
  }

  function DroppedIn(done: seq<Outcome>): seq<Item> {
    if done == [] then []
    else if done[0].Dropped? then [done[0].item] + DroppedIn(done[1..])
    else DroppedIn(done[1..])
  }

  function OfSession(items: seq<Item>, u: int): seq<Item> {
    if items == [] then []
    else if items[0].uid == u then [items[0]] + OfSession(items[1..], u)
    else OfSession(items[1..], u)
  }

  lemma OfSessionCons(x: Item, items: seq<Item>, u: int)
    ensures OfSession([x] + items, u) == if x.uid == u then [x] + OfSession(items, u) else OfSession(items, u)
  {
    assert ([x] + items)[1..] == items;
  }

  lemma ConsConcat<T>(x: T, a: seq<T>, b: seq<T>)
    ensures [x] + (a + b) == ([x] + a) + b
  {
  }

  lemma {:induction false} OfSessionConcat(a: seq<Item>, b: seq<Item>, u: int)
    ensures OfSession(a + b, u) == OfSession(a, u) + OfSession(b, u)
  {
    if a == [] {
      assert a + b == b;
    } else {
      assert a == [a[0]] + a[1..];
      ConsConcat(a[0], a[1..], b);
      OfSessionCons(a[0], a[1..] + b, u);
      OfSessionConcat(a[1..], b, u);
      ConsConcat(a[0], OfSession(a[1..], u), OfSession(b, u));
    }
  }

  lemma {:induction false} OfSessionFor(items: seq<Item>, i: int, workers: nat, u: int)
    requires workers > 0
    ensures OfSession(ItemsFor(items, i, workers), u) == if WorkerIndex(u, workers) == i then OfSession(items, u) else []
  {
    if items != [] {
      OfSessionFor(items[1..], i, workers, u);
      OfSessionCons(items[0], ItemsFor(items[1..], i, workers), u);
      assert WorkerIndex(items[0].uid, workers) != i ==> ItemsFor(items, i, workers) == ItemsFor(items[1..], i, workers);
    }
  }

  // Once an item of the session was dropped, the rest is.
  lemma {:induction false} HandledThenDropped(done: seq<Outcome>, u: int, registered: set<int>, created: int)
    requires DropsAreFinal(done, registered, created)
    ensures OfSession(Items(done), u) == OfSession(HandledIn(done), u) + OfSession(DroppedIn(done), u)
    ensures OfSession(DroppedIn(done), u) != [] ==> u !in registered
  {
    if done != [] {
      var o, rest := done[0], done[1..];
      HandledThenDropped(rest, u, registered, created);
      OfSessionCons(o.item, Items(rest), u);
      OfSessionCons(o.item, HandledIn(rest), u);
      OfSessionCons(o.item, DroppedIn(rest), u);
      if o.item.uid == u {
        ConsConcat(o.item, OfSession(HandledIn(rest), u), OfSession(DroppedIn(rest), u));
        if o.Dropped? { NoneHandled(rest, u); }
      }
    }
  }

  lemma {:induction false} NoneHandled(done: seq<Outcome>, u: int)
    requires forall k :: 0 <= k < |done| && done[k].item.uid == u ==> done[k].Dropped?
    ensures OfSession(HandledIn(done), u) == []
  {
    if done != [] {
      NoneHandled(done[1..], u);
      OfSessionCons(done[0].item, HandledIn(done[1..]), u);
    }
  }

  // Every item that was dispatched for a session is in exactly one place, and in
  // dispatch order: handled, dropped, in its worker's hand, queued, or lost at
  // shutdown.  Items are dropped only after the session is gone; no other worker
  // ever gets one.
  lemma EveryItemOnce(s: Server, u: int)
    requires RouterInv(s) && 0 <= u
    ensures var n := |s.router.workers|;
            var w := s.router.workers[u % n];
            && OfSession(s.router.dispatched, u)
               == OfSession(HandledIn(w.done), u) + OfSession(DroppedIn(w.done), u)
                  + OfSession(InHand(w.phase) + w.queue + w.lost, u)
            && (OfSession(DroppedIn(w.done), u) != [] ==> u !in s.life.registered)
            && forall i :: 0 <= i < n && i != u % n ==> OfSession(AllItems(s.router.workers[i]), u) == []
  {
    hide WorkerInv, ItemsFor, AllItems;
    var n := |s.router.workers|;
    WorkerFacts(s, u % n);
    OfSessionFor(s.router.dispatched, u % n, n, u);
    SessionAtWorker(s.router.workers[u % n], ItemsFor(s.router.dispatched, u % n, n), s.life, u);
    forall k | 0 <= k < n && k != u % n ensures OfSession(AllItems(s.router.workers[k]), u) == [] {
      WorkerFacts(s, k);
      OfSessionFor(s.router.dispatched, k, n, u);
      WorkerHasAll(s.router.workers[k], ItemsFor(s.router.dispatched, k, n), s.life);
    }
  }

  lemma WorkerHasAll(w: Worker, items: seq<Item>, l: Life)
    requires WorkerInv(w, items, l)
    ensures AllItems(w) == items
  {
  }

  lemma SessionAtWorker(w: Worker, items: seq<Item>, l: Life, u: int)
    requires WorkerInv(w, items, l)
    ensures OfSession(items, u) == OfSession(HandledIn(w.done), u) + OfSession(DroppedIn(w.done), u)
                                   + OfSession(InHand(w.phase) + w.queue + w.lost, u)
    ensures OfSession(DroppedIn(w.done), u) != [] ==> u !in l.registered
  {
    HandledThenDropped(w.done, u, l.registered, l.created);
    hide DropsAreFinal, Items, HandledIn, DroppedIn, OfSession;
    var rest := InHand(w.phase) + w.queue + w.lost;
    Regroup(Items(w.done), InHand(w.phase), w.queue, w.lost);
    OfSessionConcat(Items(w.done), rest, u);
  }

  // Over every run: what was handled for a session is a prefix of what was
  // dispatched for it, and all of it but the items still under way as long as the
  // session is registered.
  lemma HandledIsPrefix(workers: nat, threads: nat, steps: seq<Step>, u: int)
    requires workers > 0 && 0 <= u && Run(Init(workers, threads), steps).life.created <= 0x8000_0000
    ensures var s := Run(Init(workers, threads), steps);
            var w := s.router.workers[u % |s.router.workers|];
            var handled := OfSession(HandledIn(w.done), u);
            && handled <= OfSession(s.router.dispatched, u)
            && (u in s.life.registered ==>
                  OfSession(s.router.dispatched, u) == handled + OfSession(InHand(w.phase) + w.queue + w.lost, u))
  {
    hide RouterInv, Run, OfSession, HandledIn, DroppedIn;
    InitInv(workers, threads);
    RunKeepsRouter(Init(workers, threads), steps);
    EveryItemOnce(Run(Init(workers, threads), steps), u);
  }

  lemma {:induction false} OutcomeItem(done: seq<Outcome>)
    requires done != []
    ensures done[|done| - 1].item in Items(done)
  {
    if |done| > 1 { OutcomeItem(done[1..]); }
  }

  // No two workers hold items of the same session, be it before or inside the
  // handler.
  lemma OneWorkerPerSession(s: Server, i: nat, j: nat)
    requires RouterInv(s) && i < |s.router.workers| && j < |s.router.workers|
    requires s.router.workers[i].phase.Holds() && s.router.workers[j].phase.Holds()
    requires s.router.workers[i].phase.item.uid == s.router.workers[j].phase.item.uid
    ensures i == j
  {
    HeldByItsWorker(s, i);
    HeldByItsWorker(s, j);
  }

  lemma HeldByItsWorker(s: Server, i: nat)
    requires RouterInv(s) && i < |s.router.workers| && s.router.workers[i].phase.Holds()
    ensures WorkerIndex(s.router.workers[i].phase.item.uid, |s.router.workers|) == i
  {
    WorkerFacts(s, i);
    var w := s.router.workers[i];
    if w.phase.Handling? { OutcomeItem(w.done); }
    assert w.phase.item in AllItems(w);
  }

  // ------------------------------------------------------------ one task per session

  // A failure of `u` is reported; a report is written down while the task queue
  // runs.
  predicate Reported(s: Server, steps: seq<Step>, u: int)
    requires |s.router.workers| > 0
    decreases |steps|
  {
    steps != [] &&
    (((steps[0] == Check(u) || steps[0] == Fail(u)) && Created(s.life.created, u))
     || Reported(Next(s, steps[0]), steps[1..], u))
  }

  predicate WrittenInTime(s: Server, steps: seq<Step>, u: int)
    requires |s.router.workers| > 0
    decreases |steps|
  {
    steps != [] &&
    ((s.life.running && ((steps[0] == Fail(u) && Created(s.life.created, u)) || (steps[0] == Mark(u) && u in s.life.passed)))
     || WrittenInTime(Next(s, steps[0]), steps[1..], u))
  }

  lemma {:induction false} StoppedQueueStaysStopped(s: Server, steps: seq<Step>, u: int)
    requires |s.router.workers| > 0 && !s.life.running
    ensures !WrittenInTime(s, steps, u)
    ensures !Run(s, steps).life.running && Run(s, steps).life.pushed == s.life.pushed
    decreases |steps|
  {
    if steps != [] { StoppedQueueStaysStopped(Next(s, steps[0]), steps[1..], u); }
  }

  lemma {:induction false} PushedStays(s: Server, steps: seq<Step>, u: int)
    requires |s.router.workers| > 0 && u in s.life.pushed
    ensures u in Run(s, steps).life.pushed
    decreases |steps|
  {
    if steps != [] { PushedStays(Next(s, steps[0]), steps[1..], u); }
  }

  lemma {:induction false} TaskIffWritten(s: Server, steps: seq<Step>, u: int)
    requires |s.router.workers| > 0 && u !in s.life.down && u !in s.life.pushed
    ensures u in Run(s, steps).life.pushed <==> WrittenInTime(s, steps, u)
    decreases |steps|
  {
    if steps != [] {
      var next := Next(s, steps[0]);
      if !s.life.running {
        StoppedQueueStaysStopped(s, steps, u);
      } else if (steps[0] == Fail(u) && Created(s.life.created, u)) || (steps[0] == Mark(u) && u in s.life.passed) {
        PushedStays(next, steps[1..], u);
      } else {
        TaskIffWritten(next, steps[1..], u);
      }
    }
  }

  // Tasks pushed for a session, and threads that are about to push one.
  ghost function Due(l: Life, u: int): nat {
    multiset(l.pushed)[u] + l.passed[u]
  }

  lemma MarkedDue(l: Life, v: int, u: int)
    requires l.running
    ensures Due(Marked(l, v), u) == Due(l, u) + if u == v then 1 else 0
  {
    assert multiset(l.pushed + [v]) == multiset(l.pushed) + multiset{v};
  }

  lemma PassedDue(l: Life, v: int, u: int)
    ensures Due(l.(passed := l.passed + multiset{v}), u) == Due(l, u) + if u == v then 1 else 0
    ensures v in l.passed ==> Due(l.(passed := l.passed - multiset{v}), u) == Due(l, u) - if u == v then 1 else 0
  {
  }

  lemma SameDue(l: Life, t: Life, u: int)
    requires t.pushed == l.pushed && t.passed == l.passed
    ensures Due(t, u) == Due(l, u)
  {
  }

  lemma FailureDue(l: Life, v: int, u: int)
    ensures var pass := if u == v && Created(l.created, v) && v !in l.down then 1 else 0;
            (l.running ==> Due(Failed(l, v), u) == Due(l, u) + pass) && Due(Checked(l, v), u) == Due(l, u) + pass
  {
    hide Due, Created, Marked;
    if l.running { MarkedDue(l, v, u); }
    PassedDue(l, v, u);
  }

  lemma LateDue(l: Life, v: int, u: int)
    requires l.running
    ensures Due(MarkedLate(l, v), u) == Due(l, u)
  {
    hide Due, Marked;
    if v in l.passed {
      PassedDue(l, v, u);
      MarkedDue(l.(passed := l.passed - multiset{v}), v, u);
    }
  }

  lemma OthersDue(l: Life, step: Step, u: int)
    requires !step.Fail? && !step.Check? && !step.Mark?
    ensures Due(NextLife(l, step), u) == Due(l, u) && !Passes(l, step, u)
  {
    hide Due;
    SameDue(l, NextLife(l, step), u);
  }

  // While the queue runs, exactly the passes of the check add to them.
  lemma StepDue(l: Life, step: Step, u: int)
    requires NextLife(l, step).running
    ensures Due(NextLife(l, step), u) == Due(l, u) + if Passes(l, step, u) then 1 else 0
  {
    StepPushesDown(l, step);
    hide Due, Created, Failed, Checked, MarkedLate, Accepted, Taken, Found, Closed;
    if step.Fail? {
      FailureDue(l, step.uid, u);
      assert NextLife(l, step) == Failed(l, step.uid);
    } else if step.Check? {
      FailureDue(l, step.uid, u);
      assert NextLife(l, step) == Checked(l, step.uid);
    } else if step.Mark? {
      LateDue(l, step.uid, u);
      assert NextLife(l, step) == MarkedLate(l, step.uid);
    } else {
      OthersDue(l, step, u);
    }
  }

  predicate PushedIsDown(l: Life) {
    forall i :: 0 <= i < |l.pushed| ==> l.pushed[i] in l.down
  }

  lemma StepPushesDown(l: Life, step: Step)
    ensures PushedIsDown(l) ==> PushedIsDown(NextLife(l, step))
    ensures NextLife(l, step).running ==> l.running
  {
  }

  // What a session is due in the end: nothing iff nothing was reported, at most
  // one task iff no two threads overlapped.
  lemma {:induction false} RunDue(s: Server, steps: seq<Step>, u: int)
    requires |s.router.workers| > 0 && Run(s, steps).life.running && PushedIsDown(s.life)
    requires u in s.life.down ==> Due(s.life, u) >= 1
    ensures Due(Run(s, steps).life, u) >= Due(s.life, u)
    ensures Due(Run(s, steps).life, u) == 0 <==> Due(s.life, u) == 0 && !Reported(s, steps, u)
    ensures Due(Run(s, steps).life, u) <= 1 <==> Due(s.life, u) <= 1 && !Overlap(s, steps, u)
    decreases |steps|
  {
    if steps != [] {
      var next := Next(s, steps[0]);
      if !next.life.running { StoppedQueueStaysStopped(next, steps[1..], u); }
      StepDue(s.life, steps[0], u);
      StepPushesDown(s.life, steps[0]);
      if u !in s.life.down { NotDownNotPushed(s.life, u); }
      DownIsDue(s.life, steps[0], u);
      RunDue(next, steps[1..], u);
      hide NextLife, NextRouter, Due, PushedIsDown;
    }
  }

  lemma NotDownNotPushed(l: Life, u: int)
    requires PushedIsDown(l) && u !in l.down
    ensures Due(l, u) == l.passed[u]
  {
    assert u !in l.pushed;
    assert u !in multiset(l.pushed);
  }

  lemma DownIsDue(l: Life, step: Step, u: int)
    requires NextLife(l, step).running
    requires u in l.down ==> Due(l, u) >= 1
    ensures u in NextLife(l, step).down ==> Due(NextLife(l, step), u) >= 1
  {
    StepDue(l, step, u);
  }

  // However many failures are reported, and however the threads interleave: once
  // all of them have been written down, a session has no task exactly when none was
  // reported for it, and more than one exactly when two threads overlapped.
  lemma OneTaskIffApart(workers: nat, threads: nat, steps: seq<Step>, u: int)
    requires workers > 0
    requires var l := Run(Init(workers, threads), steps).life; l.running && l.passed == multiset{}
    ensures var s, n := Init(workers, threads), multiset(Run(Init(workers, threads), steps).life.pushed)[u];
            (n == 0 <==> !Reported(s, steps, u)) && (n <= 1 <==> !Overlap(s, steps, u))
  {
    RunDue(Init(workers, threads), steps, u);
  }

  // Without overlap a session gets one disconnect task if a report is written down
  // while the task queue runs, and none otherwise.
  lemma OneTaskPerSession(workers: nat, threads: nat, steps: seq<Step>, u: int)
    requires workers > 0 && Apart(Init(workers, threads), steps)
    requires Run(Init(workers, threads), steps).life.created <= 0x1_0000_0000
    ensures multiset(Run(Init(workers, threads), steps).life.pushed)[u]
         == if WrittenInTime(Init(workers, threads), steps, u) then 1 else 0
  {
    var s := Init(workers, threads);
    InitInv(workers, threads);
    RunKeepsLife(s, steps);
    TaskIffWritten(s, steps, u);
    var l := Run(s, steps).life;
    assert multiset(l.pushed)[u] + l.passed[u] <= 1;
    assert u in l.pushed <==> u in multiset(l.pushed);
  }
}
