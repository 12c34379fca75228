/** The server of background tasks (asynctask.hpp, asynctaskserver.cpp). A task runs in a thread of
    its own; its end is posted to the main loop, which completes it there. */
module AsyncTasks {

  class Task {
    /** Task::Abort has been called. */
    var aborted: bool
    /** How often the handler has run. */
    var completed: nat

    constructor ()
      ensures !aborted && completed == 0
    {
      aborted, completed := false, 0;
    }
  }

  /** What the handler of a task may do with the server, among other things. */
  datatype Action = AddAnother | AbortTask(k: nat) | AbortEverything

  ghost predicate Distinct(s: seq<Task>) {
    forall i, j :: 0 <= i < j < |s| ==> s[i] != s[j]
  }

  /** The queue without one task, the others in their order. */
  ghost predicate IsWithout(s: seq<Task>, p: Task, rest: seq<Task>) {
    if p in s then exists i :: 0 <= i < |s| && s[i] == p && rest == s[..i] + s[i + 1..] else rest == s
  }

  /** How many tasks a handler adds. */
  function CountAdds(handler: seq<Action>): nat {
    if handler == [] then 0
    else CountAdds(handler[..|handler| - 1]) + if handler[|handler| - 1].AddAnother? then 1 else 0
  }

  class Server {
    const size: nat
    /** Tasks that wait for a thread. */
    var tasks: seq<Task>
    /** Tasks that have a thread. */
    var threads: set<Task>
    /** Ends of threads that the main loop has not seen yet. */
    var posted: seq<Task>
    /** All tasks there have been. */
    var created: seq<Task>

    ghost var everyone: set<Task>
    /** Tasks that somebody aborted before they were complete. */
    ghost var cancelled: set<Task>

    ghost predicate Core()
      reads this, everyone
    {
      && Distinct(tasks) && Distinct(posted) && |threads| <= size
      && threads <= everyone && cancelled <= everyone
      && (forall k :: 0 <= k < |created| ==> created[k] in everyone)
      && (forall p :: p in tasks ==> p in everyone && !p.aborted && p !in threads && p !in cancelled && p.completed == 0)
      && (forall p :: p in threads ==> p.completed == 0 && (p.aborted <==> p in cancelled))
      && (forall p :: p in posted ==> p in threads)
      && (forall p :: p in everyone ==> p.completed <= 1)
      && (forall p :: p in cancelled ==> p.completed == 0)
    }

    /** If a task waits, all slots but `free` are busy: none is free between two events, one may be
        in the middle of one. */
    ghost predicate Sound(free: nat)
      reads this, everyone
    {
      Core() && (tasks != [] ==> size <= |threads| + free)
    }

    ghost predicate Valid()
      reads this, everyone
    {
      Sound(0)
    }

    constructor (n: nat)
      ensures Valid() && size == n && everyone == {}
    {
      size, tasks, threads, posted, created := n, [], {}, [], [];
      everyone, cancelled := {}, {};
    }

    /** A free slot, if there is one, goes to the task that has waited longest. */
    method Update()
      requires Core() && (|tasks| > 1 ==> size <= |threads| + 1)
      modifies this`tasks, this`threads
      ensures Valid()
      ensures if old(tasks) != [] && |old(threads)| < size
              then threads == old(threads) + {old(tasks)[0]} && tasks == old(tasks)[1..]
              else threads == old(threads) && tasks == old(tasks)
    {
      if tasks == [] { return; }
      if |threads| == size { return; }
      assert |threads| < size;
      var p := tasks[0];
      assert p in tasks && !p.aborted;
      assert tasks[..0] + tasks[1..] == tasks[1..];
      tasks := tasks[1..];
      threads := threads + {p};
    }

    method Add(p: Task)
      requires Sound(1) && p !in everyone && !p.aborted && p.completed == 0
      modifies this`tasks, this`threads, this`created, this`everyone
      ensures Valid() && everyone == old(everyone) + {p} && created == old(created) + [p] && (p in threads || p in tasks)
      ensures if |old(threads)| < size
              then threads == old(threads) + {(old(tasks) + [p])[0]} && tasks == (old(tasks) + [p])[1..]
              else threads == old(threads) && tasks == old(tasks) + [p]
    {
      tasks, created, everyone := tasks + [p], created + [p], everyone + {p};
      assert tasks == [tasks[0]] + tasks[1..] && p in tasks;
      Update();
    }

    /** Aborting waits until the thread of a running task has ended; a queued task is forgotten. */
    method Abort(p: Task, ghost free: nat)
      requires Sound(free) && p in everyone
      modifies this`tasks, this`posted, this`cancelled, p`aborted
      ensures Sound(free) && everyone == old(everyone) && threads == old(threads) && old(cancelled) <= cancelled
      ensures cancelled == old(cancelled) + if p.completed == 0 then {p} else {}
      ensures if p in threads then p.aborted && tasks == old(tasks) else p.aborted == old(p.aborted) && IsWithout(old(tasks), p, tasks)
      ensures posted == if p in threads && p !in old(posted) then old(posted) + [p] else old(posted)
    {
      if p in threads {
        AbortRunning(p, free);
      } else {
        AbortWaiting(p, free);
      }
    }

    method AbortRunning(p: Task, ghost free: nat)
      requires Sound(free) && p in threads
      modifies this`posted, this`cancelled, p`aborted
      ensures Sound(free) && p.aborted && cancelled == old(cancelled) + {p}
      ensures posted == if p in old(posted) then old(posted) else old(posted) + [p]
    {
      cancelled := cancelled + {p};
      p.aborted := true;
      if p !in posted { Finish(p, free); }
    }

    method AbortWaiting(p: Task, ghost free: nat)
      requires Sound(free) && p in everyone && p !in threads
      modifies this`tasks, this`cancelled
      ensures Sound(free) && p !in tasks && IsWithout(old(tasks), p, tasks)
      ensures cancelled == old(cancelled) + if p.completed == 0 then {p} else {}
    {
      for i := 0 to |tasks|
        invariant tasks == old(tasks)
        invariant forall j :: 0 <= j < i ==> tasks[j] != p
      {
        if tasks[i] == p {
          tasks := tasks[..i] + tasks[i + 1..];
          break;
        }
      }
      if p.completed == 0 { cancelled := cancelled + {p}; }
    }

    /** The thread of a task ends: its completion is posted. */
    method Finish(p: Task, ghost free: nat)
      requires Sound(free) && p in threads && p !in posted
      modifies this`posted
      ensures Sound(free) && posted == old(posted) + [p]
    {
      posted := posted + [p];
    }

    /** Add a new task to the server. */
    method AddNew()
      requires Sound(1)
      modifies this`tasks, this`threads, this`created, this`everyone
      ensures Valid() && fresh(everyone - old(everyone)) && old(everyone) <= everyone && cancelled == old(cancelled)
      ensures |created| == |old(created)| + 1 && created[..|old(created)|] == old(created)
      ensures fresh(created[|old(created)|]) && (created[|old(created)|] in threads || created[|old(created)|] in tasks)
    {
      var p := new Task();
      Add(p);
    }

    method AbortAll(ghost free: nat)
      requires Sound(free)
      modifies this`tasks, this`posted, this`cancelled, threads
      ensures Sound(free) && tasks == [] && everyone == old(everyone) && threads == old(threads) && old(cancelled) <= cancelled
      ensures forall p :: p in threads ==> p.aborted && p in posted
    {
      ghost var dropped := set p | p in tasks;
      tasks, cancelled := [], cancelled + dropped;
      var rest := threads;
      while rest != {}
        invariant rest <= threads && threads == old(threads) && everyone == old(everyone) && tasks == []
        invariant Sound(free) && old(cancelled) <= cancelled
        invariant forall p :: p in threads && p !in rest ==> p.aborted && p in posted
        decreases |rest|
      {
        var p :| p in rest;
        rest := rest - {p};
        AbortRunning(p, free);
      }
    }

    /** What the handler of a completed task does with the server. */
    method Perform(a: Action)
      requires Sound(1)
      modifies this, everyone
      ensures Sound(1) && fresh(everyone - old(everyone)) && old(everyone) <= everyone
      ensures old(cancelled) <= cancelled && forall p :: p in old(everyone) ==> p.completed == old(p.completed)
      ensures |created| == |old(created)| + if a.AddAnother? then 1 else 0
      ensures created[..|old(created)|] == old(created)
      ensures a.AbortTask? && a.k < |created| && old(created[a.k].completed) == 0 ==> created[a.k] in cancelled
      ensures a.AbortEverything? ==> tasks == [] && forall p :: p in threads ==> p.aborted
    {
      match a {
        case AddAnother => AddNew();
        case AbortTask(k) => if k < |created| { Abort(created[k], 1); }
        case AbortEverything => AbortAll(1);
      }
    }

    /** The main loop dispatches a posted completion. The task is found, is dropped from the
        threads first, and its handler runs unless it was aborted; then a waiting task starts. */
    method Complete(i: nat, handler: seq<Action>)
      requires Valid() && i < |posted|
      modifies this, everyone
      ensures Valid() && fresh(everyone - old(everyone)) && old(everyone) <= everyone
      ensures old(cancelled) <= cancelled
      ensures forall p :: p in old(everyone) ==>
        p.completed == old(p.completed) + if p == old(posted[i]) && !old(p.aborted) then 1 else 0
      ensures old(posted[i]) !in threads
      ensures |created| == |old(created)| + if old(posted[i].aborted) then 0 else CountAdds(handler)
      ensures old(posted[i].aborted) || handler == [] ==>
        && posted == old(posted)[..i] + old(posted)[i + 1..]
        && threads == old(threads) - {old(posted[i])} + (if old(tasks) == [] then {} else {old(tasks)[0]})
        && tasks == if old(tasks) == [] then [] else old(tasks)[1..]
    {
      hide Server.Core;
      var p := Drop(i);
      if !p.aborted { RunHandler(p, handler); }
      Update();
    }

    method RunHandler(p: Task, handler: seq<Action>)
      requires Sound(1) && p in everyone && p !in threads && p !in tasks && p !in cancelled && p.completed == 0
      modifies this, everyone
      ensures Sound(1) && fresh(everyone - old(everyone)) && old(everyone) <= everyone && old(cancelled) <= cancelled
      ensures p !in threads && p !in tasks && forall q :: q in old(everyone) ==> q.completed == old(q.completed) + if q == p then 1 else 0
      ensures handler == [] ==> unchanged(this)
      ensures |created| == |old(created)| + CountAdds(handler)
    {
      p.completed := p.completed + 1;
      Handle(handler);
    }

    /** The dispatched task leaves the threads, so that it is no longer busy. */
    method Drop(i: nat) returns (p: Task)
      requires Valid() && i < |posted|
      modifies this`posted, this`threads
      ensures p == old(posted[i]) && p in old(threads) && p in everyone && p.completed == 0 && p !in tasks && p !in threads && p !in posted
      ensures threads == old(threads) - {p} && posted == old(posted)[..i] + old(posted)[i + 1..]
      ensures Sound(1) && |threads| < size && (p.aborted <==> p in cancelled)
    {
      p := posted[i];
      assert p in posted && p in threads;
      posted := posted[..i] + posted[i + 1..];
      threads := threads - {p};
    }

    /** The handler of a completed task acts on the server. */
    method Handle(handler: seq<Action>)
      requires Sound(1)
      modifies this, everyone
      ensures Sound(1) && fresh(everyone - old(everyone)) && old(everyone) <= everyone && old(cancelled) <= cancelled
      ensures forall q :: q in old(everyone) ==> q.completed == old(q.completed)
      ensures handler == [] ==> unchanged(this)
      ensures |created| == |old(created)| + CountAdds(handler)
    {
      for j := 0 to |handler|
        invariant Sound(1) && fresh(everyone - old(everyone)) && old(everyone) <= everyone && old(cancelled) <= cancelled
        invariant forall q :: q in old(everyone) ==> q.completed == old(q.completed)
        invariant j == 0 ==> unchanged(this)
        invariant |created| == |old(created)| + CountAdds(handler[..j])
      {
        assert handler[..j + 1][..j] == handler[..j];
        Perform(handler[j]);
      }
      assert handler[..|handler|] == handler;
    }
  }

  datatype Event = Add | Abort(k: nat) | AbortAll | Finish(k: nat) | Dispatch(i: nat, handler: seq<Action>)

  /** In any run: at most size tasks have a thread, a task waits only when all slots are busy,
      waiting tasks are neither aborted nor running, every posted completion still finds its
      task, and the handler of a task runs at most once, and never after the task was aborted. */
  method Run(server: Server, events: seq<Event>)
    requires server.Valid()
    modifies server, server.everyone
    ensures server.Valid()
    ensures |server.threads| <= server.size && (server.tasks != [] ==> |server.threads| == server.size)
    ensures forall p :: p in server.tasks ==> !p.aborted && p !in server.threads
    ensures forall p :: p in server.posted ==> p in server.threads
    ensures old(server.everyone) <= server.everyone && old(server.cancelled) <= server.cancelled
    ensures forall p :: p in server.everyone ==> p.completed <= if p in server.cancelled then 0 else 1
  {
    for n := 0 to |events|
      invariant server.Valid() && fresh(server.everyone - old(server.everyone))
      invariant old(server.everyone) <= server.everyone && old(server.cancelled) <= server.cancelled
    {
      match events[n] {
        case Add => server.AddNew();
        case Abort(k) => if k < |server.created| { server.Abort(server.created[k], 0); }
        case AbortAll => server.AbortAll(0);
        case Finish(k) =>
          if k < |server.created| && server.created[k] in server.threads && server.created[k] !in server.posted {
            server.Finish(server.created[k], 0);
          }
        case Dispatch(i, handler) => if i < |server.posted| { server.Complete(i, handler); }
      }
    }
  }
}
