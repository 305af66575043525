// What the disconnect tasks do in the end: when a session is closed, how often, and
// what the service's counter says.  With check and write of ProcessDisconnect
// apart, and whatever threads do in between.
module Closing {
  import opened S = Server

  // ---------------------------------------------------------------- closed for good

  // A session is registered until it is closed; the counter counts closings.
  ghost predicate CloseInv(l: Life) {
    && l.created <= 0x1_0000_0000
    && (forall u :: u in l.registered <==> Created(l.created, u) && u !in l.closed)
    && (forall u :: u in l.closing || u in l.closed ==> Created(l.created, u))
    && l.count == l.created - |l.closed|
  }

  lemma AcceptCloses(l: Life)
    requires CloseInv(l) && l.created < 0x1_0000_0000
    ensures CloseInv(Accepted(l))
  {
    hide Uid, Created;
    forall u
      ensures !Created(l.created, Uid(l.created))
      ensures Created(l.created + 1, u) <==> Created(l.created, u) || u == Uid(l.created)
    {
      CreatedNext(l.created, u);
    }
  }

  lemma FoundCloses(l: Life, u: int)
    requires CloseInv(l)
    ensures CloseInv(Found(l, u))
  {
    hide Created;
  }

  lemma ClosedCloses(l: Life, u: int)
    requires CloseInv(l)
    ensures CloseInv(Closed(l, u))
  {
    hide Created;
  }

  lemma SameCloses(l: Life, t: Life)
    requires CloseInv(l) && t.created == l.created && t.registered == l.registered && t.count == l.count
    requires t.closing == l.closing && t.closed == l.closed
    ensures CloseInv(t)
  {
    hide Created;
  }

  lemma CloseKeeps(l: Life, step: Step)
    requires CloseInv(l) && NextLife(l, step).created <= 0x1_0000_0000
    ensures CloseInv(NextLife(l, step))
  {
    assert step.Accept? ==> NextLife(l, step).created == l.created + 1;
    hide CloseInv, Accepted, Failed, Checked, MarkedLate, Polled, Taken, Found, Closed, Drained;
    match step
    case Accept => AcceptCloses(l);
    case Find(u) => FoundCloses(l, u);
    case Close(u) => ClosedCloses(l, u);
    case _ =>
      OthersClose(l, step);
      SameCloses(l, NextLife(l, step));
  }

  lemma OthersClose(l: Life, step: Step)
    requires !step.Accept? && !step.Find? && !step.Close?
    ensures var t := NextLife(l, step);
            t.created == l.created && t.registered == l.registered && t.count == l.count
            && t.closing == l.closing && t.closed == l.closed
  {
    hide Created;
  }

  lemma {:induction false} RunKeepsClose(s: S.Server, steps: seq<Step>)
    requires |s.router.workers| > 0 && CloseInv(s.life) && Run(s, steps).life.created <= 0x1_0000_0000
    ensures CloseInv(Run(s, steps).life)
    decreases |steps|
  {
    hide CloseInv, NextLife, NextRouter;
    if steps != [] {
      CreatedGrows(Next(s, steps[0]), steps[1..]);
      CloseKeeps(s.life, steps[0]);
      RunKeepsClose(Next(s, steps[0]), steps[1..]);
    }
  }

  // In every run: exactly the closed sessions are gone, and the service's counter
  // is the number of sessions created less the number of closings.
  lemma RegisteredUntilClosed(workers: nat, threads: nat, steps: seq<Step>)
    requires workers > 0 && Run(Init(workers, threads), steps).life.created <= 0x1_0000_0000
    ensures var l := Run(Init(workers, threads), steps).life;
            && (forall u :: u in l.registered <==> Created(l.created, u) && u !in l.closed)
            && l.count == l.created - |l.closed|
  {
    RunKeepsClose(Init(workers, threads), steps);
  }

  lemma {:induction false} ClosedStays(s: S.Server, steps: seq<Step>, u: int)
    requires |s.router.workers| > 0 && u in s.life.closed
    ensures u in Run(s, steps).life.closed
    decreases |steps|
  {
    if steps != [] { ClosedStays(Next(s, steps[0]), steps[1..], u); }
  }

  // A closed session is never registered again.
  lemma NeverRegisteredAgain(workers: nat, threads: nat, steps: seq<Step>, more: seq<Step>, u: int)
    requires workers > 0 && u in Run(Init(workers, threads), steps).life.closed
    requires Run(Init(workers, threads), steps + more).life.created <= 0x1_0000_0000
    ensures u !in Run(Init(workers, threads), steps + more).life.registered
  {
    var s := Init(workers, threads);
    RunConcat(s, steps, more);
    ClosedStays(Run(s, steps), more, u);
    RegisteredUntilClosed(workers, threads, steps + more);
  }

  // ------------------------------------------------------------------- closed once

  // A thread finds a session while another one is about to close it.
  predicate FindPasses(l: Life, step: Step, u: int) {
    step == Find(u) && u in l.taken && u in l.registered
  }

  predicate FindOverlap(s: S.Server, steps: seq<Step>, u: int)
    requires |s.router.workers| > 0
    decreases |steps|
  {
    steps != [] &&
    ((FindPasses(s.life, steps[0], u) && u in s.life.closing) || FindOverlap(Next(s, steps[0]), steps[1..], u))
  }

  // Closings of a session, and threads that are about to close it.
  ghost function Closes(l: Life, u: int): nat {
    multiset(l.closed)[u] + l.closing[u]
  }

  lemma StepCloses(l: Life, step: Step, u: int)
    ensures Closes(NextLife(l, step), u) == Closes(l, u) + if FindPasses(l, step, u) then 1 else 0
  {
    hide Failed, Checked, MarkedLate, Polled, Taken, Drained, Created, Uid, CloseInv;
    match step
    case Close(v) => assert multiset(l.closed + [v]) == multiset(l.closed) + multiset{v};
    case Find(v) =>
    case Accept =>
    case _ => OthersClose(l, step);
  }

  lemma {:induction false} RunCloses(s: S.Server, steps: seq<Step>, u: int)
    requires |s.router.workers| > 0 && CloseInv(s.life) && Run(s, steps).life.created <= 0x1_0000_0000
    ensures Closes(Run(s, steps).life, u) >= Closes(s.life, u)
    ensures Closes(Run(s, steps).life, u) <= 1 <==> Closes(s.life, u) <= 1 && !FindOverlap(s, steps, u)
    decreases |steps|
  {
    if steps != [] {
      var next := Next(s, steps[0]);
      CreatedGrows(next, steps[1..]);
      CloseKeeps(s.life, steps[0]);
      StepCloses(s.life, steps[0], u);
      RegisteredIsNotClosed(s.life, u);
      RunCloses(next, steps[1..], u);
      hide CloseInv, NextLife, NextRouter, Closes;
    }
  }

  lemma RegisteredIsNotClosed(l: Life, u: int)
    requires CloseInv(l)
    ensures u in l.registered ==> Closes(l, u) == l.closing[u]
  {
    hide Created;
  }

  // A session is closed more than once, or about to be, exactly when a thread finds
  // it while another one is about to close it.
  lemma ClosedOnceIffApart(workers: nat, threads: nat, steps: seq<Step>, u: int)
    requires workers > 0 && Run(Init(workers, threads), steps).life.created <= 0x1_0000_0000
    ensures var l := Run(Init(workers, threads), steps).life;
            multiset(l.closed)[u] + l.closing[u] <= 1 <==> !FindOverlap(Init(workers, threads), steps, u)
  {
    RunCloses(Init(workers, threads), steps, u);
  }

  // -------------------------------------------------------------------- the counter

  lemma {:induction false} NoDuplicates(s: seq<int>)
    ensures |set x | x in s| <= |s|
    ensures |set x | x in s| == |s| <==> forall u :: multiset(s)[u] <= 1
  {
    if s != [] {
      var x, rest := s[0], s[1..];
      NoDuplicates(rest);
      assert s == [x] + rest;
      assert multiset(s) == multiset{x} + multiset(rest);
      assert (set y | y in s) == {x} + set y | y in rest;
      if x in rest {
        assert {x} + (set y | y in rest) == set y | y in rest;
        assert multiset(s)[x] > 1;
      } else {
        assert multiset(rest)[x] == 0;
        assert forall u :: multiset(rest)[u] <= multiset(s)[u] <= if u == x then 1 else multiset(rest)[u];
      }
    }
  }

  // The UIDs of the first connections.
  function Uids(n: nat): (us: set<int>)
    requires n <= 0x1_0000_0000
  {
    if n == 0 then {} else Uids(n - 1) + {Uid(n - 1)}
  }

  lemma {:induction false} UidsAreCreated(n: nat)
    requires n <= 0x1_0000_0000
    ensures |Uids(n)| == n && forall u :: u in Uids(n) <==> Created(n, u)
  {
    if n > 0 {
      UidsAreCreated(n - 1);
      hide Uid, Created;
      forall u ensures !Created(n - 1, Uid(n - 1)) && (Created(n, u) <==> Created(n - 1, u) || u == Uid(n - 1)) {
        CreatedNext(n - 1, u);
      }
      assert Uid(n - 1) !in Uids(n - 1);
    } else {
      assert forall u :: !Created(0, u);
    }
  }

  // In every run: the counter is the number of registered sessions exactly when no
  // session was closed twice.
  lemma CounterIffClosedOnce(workers: nat, threads: nat, steps: seq<Step>)
    requires workers > 0 && Run(Init(workers, threads), steps).life.created <= 0x1_0000_0000
    ensures var l := Run(Init(workers, threads), steps).life;
            l.count == |l.registered| <==> forall u :: multiset(l.closed)[u] <= 1
  {
    RunKeepsClose(Init(workers, threads), steps);
    CounterOf(Run(Init(workers, threads), steps).life);
  }

  lemma CounterOf(l: Life)
    requires CloseInv(l)
    ensures l.count == |l.registered| <==> forall u :: multiset(l.closed)[u] <= 1
  {
    var all, gone := Uids(l.created), set u | u in l.closed;
    UidsAreCreated(l.created);
    NoDuplicates(l.closed);
    assert forall u :: u in all <==> Created(l.created, u);
    hide Created, Uids;
    forall u | u in gone ensures u in all { assert u in l.closed; }
    forall u ensures u in l.registered <==> u in all && u !in gone { assert u in gone <==> u in l.closed; }
    assert l.registered == all - gone;
    assert |all - gone| == |all| - |gone|;
  }

  // Once no thread is about to close anything, this says which runs get it right.
  lemma CounterIffApart(workers: nat, threads: nat, steps: seq<Step>)
    requires workers > 0 && Run(Init(workers, threads), steps).life.created <= 0x1_0000_0000
    requires Run(Init(workers, threads), steps).life.closing == multiset{}
    ensures var l := Run(Init(workers, threads), steps).life;
            l.count == |l.registered| <==> forall u :: !FindOverlap(Init(workers, threads), steps, u)
  {
    var s := Init(workers, threads);
    var l := Run(s, steps).life;
    CounterIffClosedOnce(workers, threads, steps);
    if forall u :: multiset(l.closed)[u] <= 1 {
      forall u ensures !FindOverlap(s, steps, u) { ClosedOnceIffApart(workers, threads, steps, u); }
    } else {
      var u :| multiset(l.closed)[u] > 1;
      ClosedOnceIffApart(workers, threads, steps, u);
    }
  }

  // ------------------------------------------------------------------ without races

  // A run without overlap in ProcessDisconnect has none here either.
  lemma ApartClosesOnce(workers: nat, threads: nat, steps: seq<Step>, u: int)
    requires workers > 0 && Apart(Init(workers, threads), steps)
    requires Run(Init(workers, threads), steps).life.created <= 0x1_0000_0000
    ensures !FindOverlap(Init(workers, threads), steps, u)
  {
    InitInv(workers, threads);
    RunKeepsLife(Init(workers, threads), steps);
    ClosedOnceIffApart(workers, threads, steps, u);
    AtMostOnce(Run(Init(workers, threads), steps).life, u);
  }

  lemma AtMostOnce(l: Life, u: int)
    requires LifeInv(l)
    ensures multiset(l.closed)[u] + l.closing[u] <= 1
    ensures u in l.closed || u in l.lost ==>
              u !in l.tasks && u !in l.taken && u !in l.closing && multiset(l.closed)[u] + multiset(l.lost)[u] == 1
  {
    hide Created;
    var p := multiset(l.pushed);
    assert p[u] == multiset(l.tasks)[u] + l.taken[u] + l.closing[u] + multiset(l.closed)[u] + multiset(l.lost)[u];
    assert p[u] + l.passed[u] <= 1;
    assert u in l.closed <==> multiset(l.closed)[u] > 0;
    assert u in l.lost <==> multiset(l.lost)[u] > 0;
    assert u in l.tasks <==> multiset(l.tasks)[u] > 0;
  }

  // Then no task is left for a closed session; when no task is left at all, every
  // session with a task is closed, but for those whose task was lost at shutdown,
  // and these stay registered; and the counter is right.
  lemma ClosedForGood(workers: nat, threads: nat, steps: seq<Step>)
    requires workers > 0 && Apart(Init(workers, threads), steps)
    requires Run(Init(workers, threads), steps).life.created <= 0x1_0000_0000
    ensures var l := Run(Init(workers, threads), steps).life;
            && (forall u :: u in l.closed ==>
                  u !in l.tasks && u !in l.taken && u !in l.closing && u !in l.lost && multiset(l.closed)[u] == 1)
            && (l.tasks == [] && l.taken == multiset{} && l.closing == multiset{} ==>
                  multiset(l.closed) + multiset(l.lost) == multiset(l.pushed))
            && (l.running ==> l.lost == [])
            && (forall u :: u in l.lost ==> u in l.registered)
            && l.count == |l.registered|
  {
    InitInv(workers, threads);
    RunKeepsLife(Init(workers, threads), steps);
    var l := Run(Init(workers, threads), steps).life;
    hide Run, Created, Apart;
    forall u
      ensures u in l.closed ==>
                u !in l.tasks && u !in l.taken && u !in l.closing && u !in l.lost && multiset(l.closed)[u] == 1
      ensures u in l.lost ==> u in l.registered
    {
      AtMostOnce(l, u);
      LostIsOpen(l, u);
    }
    AllDone(l);
  }

  lemma LostIsOpen(l: Life, u: int)
    requires LifeInv(l)
    ensures u in l.lost ==> u in l.registered && u !in l.closed
    ensures u in l.closed ==> u !in l.lost
  {
    AtMostOnce(l, u);
    hide Created;
    assert u in l.lost ==> u in multiset(l.lost) && u in multiset(l.pushed);
    assert u in l.closed ==> u in multiset(l.closed);
  }

  lemma AllDone(l: Life)
    requires LifeInv(l)
    ensures l.tasks == [] && l.taken == multiset{} && l.closing == multiset{} ==>
              multiset(l.closed) + multiset(l.lost) == multiset(l.pushed)
    ensures l.running ==> l.lost == []
  {
    hide Created;
  }

  // A shutdown before a thread gets to the task leaves the session open.
  lemma ShutdownLosesTask()
    ensures var l := Run(Init(1, 1), [Accept, Fail(0), StopTasks, Drain]).life;
            l.pushed == [0] && l.tasks == [] && l.lost == [0] && l.closed == [] && l.registered == {0}
  {
    var s := Init(1, 1);
    hide Run, NextRouter, Checked, MarkedLate, Polled, Taken, Found, Closed;
    var s1 := Next(s, Accept);
    var s2 := Next(s1, Fail(0));
    var rest, last := [Fail(0), StopTasks, Drain], [StopTasks, Drain];
    assert [Accept] + rest == [Accept, Fail(0), StopTasks, Drain] && [Fail(0)] + last == rest;
    RunOne(s, Accept, rest);
    RunOne(s1, Fail(0), last);
    RunTwo(s2, StopTasks, Drain);
    OneLost(s2.life);
  }

  lemma OneLost(l: Life)
    requires l.tasks == [0] && l.ready == 0 && l.taken == multiset{} && l.closing == multiset{} && l.lost == []
    ensures NextLife(NextLife(l, StopTasks), Drain) == l.(running := false, tasks := [], lost := [0])
  {
    hide Accepted, Failed, Checked, MarkedLate, Polled, Taken, Found, Closed;
  }

  // ------------------------------------------------------------------ with a race

  // Check and write as two steps of two threads: two tasks, one session closed
  // twice, and a session counter below zero.
  lemma RaceClosesTwice()
    ensures var steps := [Accept, Check(0), Check(0)] + [Mark(0), Mark(0)] + [Poll, Poll] + [Take, Take] + [Find(0), Find(0)]
                         + [Close(0), Close(0)];
            var l := Run(Init(1, 2), steps).life;
            l.pushed == [0, 0] && l.closed == [0, 0] && l.count == -1
  {
    var r := Init(1, 2).router;
    var two := multiset{0, 0};
    var l1 := Life(1, {0}, 1, {}, multiset{}, true, 2, 0, [], multiset{}, multiset{}, [], [], []);
    var l2 := l1.(passed := two);
    var l3 := l1.(down := {0}, tasks := [0, 0], pushed := [0, 0]);
    var l4 := l3.(ready := 2);
    var l5 := l3.(tasks := [], taken := two);
    var l6 := l3.(tasks := [], closing := two);
    var s1, s2, s3 := S.Server(r, l1), S.Server(r, l2), S.Server(r, l3);
    var s4, s5, s6 := S.Server(r, l4), S.Server(r, l5), S.Server(r, l6);
    assert Next(Init(1, 2), Accept) == s1;
    BothPass(s1);
    BothMark(s2);
    BothPoll(s3);
    BothTake(s4);
    BothFind(s5);
    BothClose(s6);
    hide Next, Run, Init;
    var a, b, c, d, e, f :=
      [Check(0), Check(0)], [Mark(0), Mark(0)], [Poll, Poll], [Take, Take], [Find(0), Find(0)], [Close(0), Close(0)];
    assert [Accept] + a == [Accept, Check(0), Check(0)];
    RunOne(Init(1, 2), Accept, a);
    RunConcat(Init(1, 2), [Accept] + a, b);
    RunConcat(Init(1, 2), [Accept] + a + b, c);
    RunConcat(Init(1, 2), [Accept] + a + b + c, d);
    RunConcat(Init(1, 2), [Accept] + a + b + c + d, e);
    RunConcat(Init(1, 2), [Accept] + a + b + c + d + e, f);
  }

  lemma BothPass(s: S.Server)
    requires |s.router.workers| > 0 && s.life.created == 1 && s.life.down == {} && s.life.passed == multiset{}
    ensures Run(s, [Check(0), Check(0)]) == s.(life := s.life.(passed := multiset{0, 0}))
  {
    hide Run, Dispatched, Popping, LookingUp, QueuesCleared, Failed, Accepted, MarkedLate, Taken, Found, Closed;
    RunTwo(s, Check(0), Check(0));
  }

  lemma BothMark(s: S.Server)
    requires |s.router.workers| > 0 && s.life.running && s.life.passed == multiset{0, 0}
    requires s.life.down == {} && s.life.tasks == [] && s.life.pushed == []
    ensures Run(s, [Mark(0), Mark(0)])
         == s.(life := s.life.(passed := multiset{}, down := {0}, tasks := [0, 0], pushed := [0, 0]))
  {
    hide Run, Dispatched, Popping, LookingUp, QueuesCleared, Failed, Accepted, Checked, Taken, Found, Closed;
    RunTwo(s, Mark(0), Mark(0));
  }

  lemma BothPoll(s: S.Server)
    requires |s.router.workers| > 0 && s.life.running && s.life.threads == 2 && s.life.ready == 0
    requires s.life.taken == multiset{} && s.life.closing == multiset{}
    ensures Run(s, [Poll, Poll]) == s.(life := s.life.(ready := 2))
  {
    hide Run, Dispatched, Popping, LookingUp, QueuesCleared, Failed, Accepted, Checked, MarkedLate, Found, Closed;
    RunTwo(s, Poll, Poll);
  }

  lemma BothTake(s: S.Server)
    requires |s.router.workers| > 0 && s.life.ready == 2
    requires s.life.tasks == [0, 0] && s.life.taken == multiset{}
    ensures Run(s, [Take, Take]) == s.(life := s.life.(ready := 0, tasks := [], taken := multiset{0, 0}))
  {
    hide Run, Dispatched, Popping, LookingUp, QueuesCleared, Failed, Accepted, Checked, MarkedLate, Found, Closed;
    RunTwo(s, Take, Take);
  }

  lemma BothFind(s: S.Server)
    requires |s.router.workers| > 0 && 0 in s.life.registered
    requires s.life.taken == multiset{0, 0} && s.life.closing == multiset{}
    ensures Run(s, [Find(0), Find(0)]) == s.(life := s.life.(taken := multiset{}, closing := multiset{0, 0}))
  {
    hide Run, Dispatched, Popping, LookingUp, QueuesCleared, Failed, Accepted, Checked, MarkedLate, Taken, Closed;
    RunTwo(s, Find(0), Find(0));
  }

  lemma BothClose(s: S.Server)
    requires |s.router.workers| > 0 && s.life.closing == multiset{0, 0} && s.life.closed == []
    ensures var l := Run(s, [Close(0), Close(0)]).life;
            l.pushed == s.life.pushed && l.closed == [0, 0] && l.count == s.life.count - 2
  {
    hide Run, Dispatched, Popping, LookingUp, QueuesCleared, Failed, Accepted, Checked, MarkedLate, Taken, Found;
    RunTwo(s, Close(0), Close(0));
  }

  lemma RunOne(s: S.Server, a: Step, rest: seq<Step>)
    requires |s.router.workers| > 0
    ensures Run(s, [a] + rest) == Run(Next(s, a), rest)
  {
    assert ([a] + rest)[1..] == rest;
  }

  lemma RunTwo(s: S.Server, a: Step, b: Step)
    requires |s.router.workers| > 0
    ensures Run(s, [a, b]) == Next(Next(s, a), b)
  {
    assert [a, b] == [a] + [b] && [b] == [b] + [];
    RunOne(s, a, [b]);
    RunOne(Next(s, a), b, []);
  }

  lemma {:induction false} RunConcat(s: S.Server, a: seq<Step>, b: seq<Step>)
    requires |s.router.workers| > 0
    ensures Run(s, a + b) == Run(Run(s, a), b)
    decreases |a|
  {
    if a == [] {
      assert a + b == b;
    } else {
      assert (a + b)[1..] == a[1..] + b;
      RunConcat(Next(s, a[0]), a[1..], b);
    }
  }
}
