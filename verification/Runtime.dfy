// The machine of module Server as the objects that run it: every method is one
// step of that machine.
module Runtime {
  import opened Bytes
  import S = Server

  class SessionManager {
    var sessions: set<int>

    constructor ()
      ensures sessions == {}
    {
      sessions := {};
    }

    method AddSession(uid: int)
      modifies this
      ensures sessions == old(sessions) + {uid}
    {
      if uid !in sessions { sessions := sessions + {uid}; }
    }

    method RemoveSession(uid: int)
      modifies this
      ensures sessions == old(sessions) - {uid}
    {
      sessions := sessions - {uid};
    }

    method GetSession(uid: int) returns (found: bool)
      ensures found <==> uid in sessions
    {
      found := uid in sessions;
    }
  }

  class PacketRouter {
    var isRunning: bool
    var queues: seq<seq<S.Item>>
    // What each worker thread holds between its steps.
    var phases: seq<S.Phase>
    ghost var done: seq<seq<S.Outcome>>
    ghost var lost: seq<seq<S.Item>>
    ghost var dispatched: seq<S.Item>
    ghost var fault: bool

    ghost predicate Valid()
      reads this
    {
      |queues| == |phases| == |done| == |lost| > 0
    }

    ghost function View(): (r: S.Router)
      requires Valid()
      reads this
      ensures |r.workers| == |queues|
    {
      S.Router(seq(|queues|, i requires 0 <= i < |queues| && Valid() reads this =>
                               S.Worker(queues[i], phases[i], done[i], lost[i])),
               isRunning, dispatched, fault)
    }

    // Init: without a number of threads, half as many workers as cores, and at
    // least one.
    constructor (numThread: int, cores: nat)
      ensures Valid() && View() == S.Init(S.WorkerCount(numThread, cores), 0).router
      ensures isRunning && !fault && (forall i :: 0 <= i < |queues| ==> queues[i] == [] && phases[i].Idle?)
      ensures numThread > 0 ==> |queues| == numThread
      ensures numThread <= 0 && cores >= 2 ==> 2 * |queues| <= cores < 2 * |queues| + 2
      ensures numThread <= 0 && cores < 2 ==> |queues| == 1
    {
      var numWorkers: int := numThread;
      if numThread <= 0 {
        numWorkers := cores / 2;
        if numWorkers < 1 { numWorkers := 1; }
      }
      isRunning := true;
      queues := seq(numWorkers, _ => []);
      phases := seq(numWorkers, _ => S.Idle);
      done := seq(numWorkers, _ => []);
      lost := seq(numWorkers, _ => []);
      dispatched, fault := [], false;
    }

    method Dispatch(item: S.Item)
      requires Valid()
      modifies this
      ensures Valid() && View() == S.Dispatched(old(View()), item)
      ensures phases == old(phases) && isRunning == old(isRunning) && |queues| == |old(queues)|
      ensures fault <==> old(fault) || (isRunning && item.uid < 0 && -item.uid % |queues| != 0)
      ensures forall i :: 0 <= i < |queues| ==>
                var mine := isRunning && i == if item.uid >= 0 then item.uid % |queues| else -(-item.uid % |queues|);
                queues[i] == old(queues[i]) + if mine then [item] else []
    {
      if !isRunning { return; }
      var workerIdx := S.WorkerIndex(item.uid, |queues|);
      if workerIdx < 0 {
        fault := true;
        return;
      }
      queues := queues[workerIdx := queues[workerIdx] + [item]];
      dispatched := dispatched + [item];
    }

    // The loop condition of worker `i`; the pop comes later, and does not look
    // again.
    method TestRunning(i: nat) returns (running: bool)
      requires Valid() && i < |queues| && phases[i].Idle?
      modifies this
      ensures Valid() && running == old(isRunning)
      ensures View() == if running then S.WithWorker(old(View()), i, S.Testing(old(View()).workers[i])) else old(View())
      ensures phases == if running then old(phases)[i := S.Ready] else old(phases)
    {
      running := isRunning;
      if running { phases := phases[i := S.Ready]; }
    }

    method TryPop(i: nat) returns (popped: bool)
      requires Valid() && i < |queues| && phases[i].Ready?
      modifies this
      ensures Valid() && View() == S.WithWorker(old(View()), i, S.Popping(old(View()).workers[i]))
      ensures popped <==> old(queues[i]) != []
      ensures queues == old(queues)[i := if popped then old(queues[i])[1..] else []]
      ensures phases == old(phases)[i := if popped then S.Popped(old(queues[i])[0]) else S.Idle]
    {
      if queues[i] == [] {
        phases := phases[i := S.Idle];
        return false;
      }
      phases := phases[i := S.Popped(queues[i][0])];
      queues := queues[i := queues[i][1..]];
      popped := true;
    }

    // GetSession behind the pop: without a session the item is skipped.
    method LookUp(i: nat, manager: SessionManager)
      requires Valid() && i < |queues| && phases[i].Popped?
      modifies this
      ensures Valid() && View() == S.WithWorker(old(View()), i, S.LookingUp(old(View()).workers[i], manager.sessions))
      ensures var item := old(phases[i]).item;
              phases == old(phases)[i := if item.uid in manager.sessions then S.Handling(item) else S.Idle]
    {
      var item := phases[i].item;
      var found := manager.GetSession(item.uid);
      if found {
        phases := phases[i := S.Handling(item)];
        done := done[i := done[i] + [S.Handled(item)]];
      } else {
        phases := phases[i := S.Idle];
        done := done[i := done[i] + [S.Dropped(item)]];
      }
    }

    method Handled(i: nat)
      requires Valid() && i < |queues| && phases[i].Handling?
      modifies this
      ensures Valid() && View() == S.WithWorker(old(View()), i, S.Finishing(old(View()).workers[i]))
      ensures phases == old(phases)[i := S.Idle]
    {
      phases := phases[i := S.Idle];
    }

    // Shutdown up to the wait for the workers.
    method Stop()
      requires Valid()
      modifies this`isRunning
      ensures Valid() && View() == old(View()).(running := false)
    {
      isRunning := false;
      assert View().workers == old(View()).workers;
    }

    // Shutdown after the workers were joined.
    method ClearQueues()
      requires Valid() && !isRunning && forall i :: 0 <= i < |phases| ==> phases[i].Idle?
      modifies this
      ensures Valid() && View() == S.QueuesCleared(old(View()))
      ensures forall i :: 0 <= i < |queues| ==> queues[i] == [] && lost[i] == old(queues[i] + lost[i])
    {
      ghost var was := queues;
      lost := seq(|lost|, i requires 0 <= i < |lost| && |was| == |lost| reads this => was[i] + lost[i]);
      queues := seq(|queues|, _ => []);
    }
  }

  class TaskQueue {
    var isRunning: bool
    var tasks: seq<int>

    constructor ()
      ensures isRunning && tasks == []
    {
      isRunning, tasks := true, [];
    }

    method PushTask(uid: int)
      modifies this
      ensures isRunning == old(isRunning)
      ensures tasks == if isRunning then old(tasks) + [uid] else old(tasks)
    {
      if !isRunning { return; }
      tasks := tasks + [uid];
    }

    method Stop()
      modifies this`isRunning
      ensures !isRunning
    {
      isRunning := false;
    }

    // Shutdown after the threads were joined.
    method Drain()
      modifies this`tasks
      ensures tasks == []
    {
      var task := Some(0);
      while task.Some?
        invariant isRunning == old(isRunning) && (task.None? ==> tasks == [])
        decreases |tasks|, task.Some?
      {
        task := TryPop();
      }
    }

    method TryPop() returns (task: Option<int>)
      modifies this`tasks
      ensures task == if old(tasks) == [] then None else Some(old(tasks)[0])
      ensures tasks == if old(tasks) == [] then [] else old(tasks)[1..]
    {
      if tasks == [] { return None; }
      task := Some(tasks[0]);
      tasks := tasks[1..];
    }
  }

  // AsioService's session numbers and counter, the sessions' states, and the
  // threads of the task queue.
  class Lifecycle {
    const manager: SessionManager
    const queue: TaskQueue
    const threads: nat
    var nextUid: int
    var sessionCount: int
    var disconnected: set<int>
    // Threads of ProcessDisconnect that passed the check and have not written yet.
    ghost var passed: multiset<int>
    var ready: nat
    var taken: multiset<int>
    var closing: multiset<int>
    ghost var created: nat
    ghost var pushed: seq<int>
    ghost var closed: seq<int>
    ghost var lost: seq<int>

    ghost predicate Valid()
      reads this
    {
      nextUid == S.Uid(created)
    }

    ghost function View(): S.Life
      reads this, manager, queue
    {
      S.Life(created, manager.sessions, sessionCount, disconnected, passed, queue.isRunning, threads, ready,
             queue.tasks, taken, closing, pushed, closed, lost)
    }

    constructor (threads: nat)
      ensures Valid() && View() == S.Init(1, threads).life
      ensures fresh(manager) && fresh(queue)
    {
      manager := new SessionManager();
      queue := new TaskQueue();
      this.threads := threads;
      nextUid, sessionCount, disconnected, ready, taken, closing := 0, 0, {}, 0, multiset{}, multiset{};
      created, pushed, closed, lost, passed := 0, [], [], [], multiset{};
    }

    // HandleAccept: CreateSession, then OnConnected.  The UID is an int32 that is
    // fetched and incremented.
    method Accept() returns (uid: int)
      requires Valid()
      modifies this, manager
      ensures Valid() && uid == S.Uid(old(created)) && View() == S.Accepted(old(View()))
      ensures uid == old(nextUid) && nextUid == if uid == 0x7FFF_FFFF then -0x8000_0000 else uid + 1
      ensures sessionCount == old(sessionCount) + 1 && manager.sessions == old(manager.sessions) + {uid}
    {
      uid := nextUid;
      nextUid := if nextUid == 0x7FFF_FFFF then -0x8000_0000 else nextUid + 1;
      sessionCount := sessionCount + 1;
      manager.AddSession(uid);
      created := created + 1;
    }

    // ProcessDisconnect reads the state ...
    method CheckState(uid: int) returns (passes: bool)
      requires Valid() && S.Created(View().created, uid)
      modifies this
      ensures Valid() && View() == S.Checked(old(View()), uid)
      ensures passes <==> uid !in old(disconnected)
      ensures passed == old(passed) + (if passes then multiset{uid} else multiset{})
    {
      passes := uid !in disconnected;
      if passes { passed := passed + multiset{uid}; }
    }

    // ... and then writes it and pushes the task, without another look.
    method MarkAndPush(uid: int)
      requires Valid() && uid in passed
      modifies this`passed, this`disconnected, this`pushed, queue
      ensures Valid() && View() == S.MarkedLate(old(View()), uid)
      ensures disconnected == old(disconnected) + {uid}
      ensures queue.tasks == old(queue.tasks) + if queue.isRunning then [uid] else []
    {
      S.MarkedLateIs(View(), uid);
      hide S.MarkedLate, Valid;
      disconnected, passed := disconnected + {uid}, passed - multiset{uid};
      PushTask(uid);
    }

    method PushTask(uid: int)
      modifies this`pushed, queue
      ensures View() == old(View()).(tasks := if queue.isRunning then old(queue.tasks) + [uid] else old(queue.tasks),
                                     pushed := if queue.isRunning then old(pushed) + [uid] else old(pushed))
      ensures queue.isRunning == old(queue.isRunning)
    {
      queue.PushTask(uid);
      if queue.isRunning { pushed := pushed + [uid]; }
    }

    // The two in a row, with no other thread between them.
    method ProcessDisconnect(uid: int)
      requires Valid() && S.Created(View().created, uid)
      modifies this, queue
      ensures Valid() && View() == S.Failed(old(View()), uid)
    {
      ghost var before := passed;
      var passes := CheckState(uid);
      if !passes { return; }
      MarkAndPush(uid);
      assert before + multiset{uid} - multiset{uid} == before;
    }

    // A free thread's loop condition; the pop comes later, and does not look again.
    method TestRunning() returns (running: bool)
      requires Valid() && ready + |taken| + |closing| < threads
      modifies this`ready
      ensures Valid() && running == queue.isRunning && View() == S.Polled(old(View()))
    {
      running := queue.isRunning;
      if running { ready := ready + 1; }
    }

    method TakeTask() returns (task: Option<int>)
      requires Valid() && ready > 0
      modifies this, queue
      ensures Valid() && View() == S.Taken(old(View()))
      ensures task == if old(queue.tasks) == [] then None else Some(old(queue.tasks)[0])
      ensures taken == old(taken) + if task.Some? then multiset{task.value} else multiset{}
    {
      task := queue.TryPop();
      ready := ready - 1;
      if task.Some? { taken := taken + multiset{task.value}; }
    }

    // ProcessIoTask up to the call of CloseSession.
    method FindSession(uid: int) returns (found: bool)
      requires Valid() && uid in taken
      modifies this
      ensures Valid() && View() == S.Found(old(View()), uid)
      ensures found <==> uid in manager.sessions
      ensures taken == old(taken) - multiset{uid} && closing == old(closing) + if found then multiset{uid} else multiset{}
    {
      found := manager.GetSession(uid);
      taken := taken - multiset{uid};
      if found { closing := closing + multiset{uid}; }
    }

    // Shutdown up to the wait for the threads.
    method StopTasks()
      requires Valid()
      modifies queue
      ensures Valid() && View() == old(View()).(running := false)
    {
      queue.Stop();
    }

    // Shutdown after the threads were joined.
    method DrainTasks()
      requires Valid() && !queue.isRunning && ready == 0 && taken == multiset{} && closing == multiset{}
      modifies this`lost, queue
      ensures Valid() && View() == S.Drained(old(View()))
    {
      lost := lost + queue.tasks;
      queue.Drain();
    }

    // CloseSession: OnDisconnected, then ReleaseSession.
    method CloseSession(uid: int)
      requires Valid() && uid in closing
      modifies this, manager
      ensures Valid() && View() == S.Closed(old(View()), uid)
      ensures manager.sessions == old(manager.sessions) - {uid} && sessionCount == old(sessionCount) - 1
    {
      manager.RemoveSession(uid);
      sessionCount := sessionCount - 1;
      closing := closing - multiset{uid};
      closed := closed + [uid];
    }
  }
}
