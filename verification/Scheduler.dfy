/** The task queue of src/scheduler.cpp, and its locked sections interleaved by any number of threads. */
module Scheduler {
  import opened Strings

  datatype Task = Task(id: nat, name: string)

  // ---------- The locked sections ----------

  /** The fields behind the lock. */
  datatype Queue = Queue(q: seq<Task>, next: nat, stopping: bool)

  ghost function Submitted(s: Queue, name: string): Queue {
    s.(q := s.q + [Task(s.next, name)], next := s.next + 1)
  }

  ghost predicate CanTake(s: Queue) { !s.stopping && s.q != [] }

  ghost function Taken(s: Queue): Queue
    requires s.q != []
  {
    s.(q := s.q[1..])
  }

  ghost function Stopped(s: Queue): Queue { s.(q := [], stopping := true) }

  class TaskQueue {
    var q: seq<Task>
    var nextId: nat
    var stopping: bool

    constructor ()
      ensures Value() == Queue([], 1, false)
    {
      q, nextId, stopping := [], 1, false;
    }

    ghost function Value(): Queue
      reads this
    {
      Queue(q, nextId, stopping)
    }

    /** Tasks are accepted even after `Stop`. */
    method Submit(name: string) returns (id: nat)
      modifies this
      ensures id == old(nextId) && Value() == Submitted(old(Value()), name)
    {
      id := nextId;
      nextId := nextId + 1;
      q := q + [Task(id, name)];
    }

    /** The part of `RunOnce` under the lock. */
    method Take() returns (cur: Option<Task>)
      modifies this
      ensures cur.Some? <==> CanTake(old(Value()))
      ensures cur.Some? ==> cur.value == old(q)[0] && Value() == Taken(old(Value()))
      ensures cur.None? ==> Value() == old(Value())
    {
      if stopping || q == [] { return None; }
      cur := Some(q[0]);
      q := q[1..];
    }

    /** With no other thread and tasks that leave the queue alone: the first tasks, in order, as time permits. */
    method RunOnce(turns: nat) returns (ran: seq<Task>)
      modifies this
      ensures var n := if old(stopping) then 0 else if turns < |old(q)| then turns else |old(q)|;
              ran == old(q)[..n] && Value() == old(Value()).(q := old(q)[n..])
    {
      ran := [];
      var left := turns;
      while left > 0
        invariant 0 <= left <= turns && nextId == old(nextId) && stopping == old(stopping)
        invariant |ran| <= |old(q)| && ran == old(q)[..|ran|] && q == old(q)[|ran|..]
        invariant left == turns - |ran| && (stopping ==> ran == [])
      {
        var cur := Take();
        if cur.None? { break; }
        ran := ran + [cur.value];
        left := left - 1;
      }
    }

    method Stop()
      modifies this
      ensures Value() == Stopped(old(Value()))
    {
      stopping := true;
      while q != []
        invariant stopping && nextId == old(nextId)
        decreases |q|
      {
        q := q[1..];
      }
    }

    /** Copies the queue by emptying a copy of it. */
    method Snapshot() returns (out: seq<Task>)
      ensures out == q
    {
      var tmp := q;
      out := [];
      while tmp != []
        invariant out + tmp == q
        decreases |tmp|
      {
        out := out + [tmp[0]];
        tmp := tmp[1..];
      }
    }
  }

  // ---------- Interleaved threads ----------

  /** What any thread may do next; `Begin` and `Finish` are the two ends of running one task. */
  datatype Step = Submit(name: string) | Begin(thread: nat) | Finish(thread: nat) | Stop

  /** The queue, the task each thread is running, and what became of all others. */
  datatype System = System(
    queue: Queue,
    running: map<nat, Task>,
    finished: seq<Task>,
    dequeued: seq<Task>,
    dropped: seq<Task>
  )

  ghost const START := System(Queue([], 1, false), map[], [], [], [])

  ghost function Apply(s: System, step: Step): System {
    match step
    case Submit(name) => s.(queue := Submitted(s.queue, name))
    case Begin(t) =>
      if t in s.running || !CanTake(s.queue) then s
      else
        var cur := s.queue.q[0];
        s.(queue := Taken(s.queue), running := s.running[t := cur], dequeued := s.dequeued + [cur])
    case Finish(t) =>
      if t !in s.running then s
      else s.(running := s.running - {t}, finished := s.finished + [s.running[t]])
    case Stop => s.(queue := Stopped(s.queue), dropped := s.dropped + s.queue.q)
  }

  ghost function Run(steps: seq<Step>): System {
    if steps == [] then START else Apply(Run(steps[..|steps| - 1]), steps[|steps| - 1])
  }

  ghost predicate Numbered(tasks: seq<Task>) { forall i | 0 <= i < |tasks| :: tasks[i].id == i + 1 }

  /** Every task ever submitted, in the order of its number: taken out, then dropped, then still waiting. */
  ghost function All(s: System): seq<Task> { s.dequeued + s.dropped + s.queue.q }

  ghost predicate Waits(s: System, id: nat) { exists i :: 0 <= i < |s.queue.q| && s.queue.q[i].id == id }
  ghost predicate Runs(s: System, id: nat) { exists t :: t in s.running && s.running[t].id == id }
  ghost predicate Done(s: System, id: nat) { exists i :: 0 <= i < |s.finished| && s.finished[i].id == id }
  ghost predicate Dropped(s: System, id: nat) { exists i :: 0 <= i < |s.dropped| && s.dropped[i].id == id }
  ghost predicate Out(s: System, id: nat) { exists i :: 0 <= i < |s.dequeued| && s.dequeued[i].id == id }

  ghost predicate OneThreadEach(running: map<nat, Task>) {
    forall t, u | t in running && u in running && t != u :: running[t].id != running[u].id
  }

  ghost predicate OnceEach(tasks: seq<Task>) {
    forall i, j | 0 <= i < j < |tasks| :: tasks[i].id != tasks[j].id
  }

  ghost predicate Invariant(s: System) {
    && Numbered(All(s)) && |All(s)| + 1 == s.queue.next
    && (s.dropped != [] ==> s.queue.stopping)
    && OneThreadEach(s.running) && OnceEach(s.finished)
    && (forall id :: Out(s, id) <==> Runs(s, id) || Done(s, id))
    && (forall id :: !(Runs(s, id) && Done(s, id)))
  }

  lemma RunsMore(s: System, r: System, t: nat, cur: Task, id: nat)
    requires t !in s.running && r.running == s.running[t := cur]
    ensures Runs(r, id) <==> Runs(s, id) || id == cur.id
  {
    if Runs(s, id) {
      var u :| u in s.running && s.running[u].id == id;
      assert u in r.running && r.running[u].id == id;
    }
    assert t in r.running && r.running[t].id == cur.id;
  }

  lemma BeginKeeps(s: System, t: nat)
    requires Invariant(s) && t !in s.running && CanTake(s.queue)
    ensures Invariant(Apply(s, Begin(t)))
  {
    var r, cur := Apply(s, Begin(t)), s.queue.q[0];
    assert s.dropped == [];
    assert All(r) == All(s);
    var n := |s.dequeued|;
    assert All(s)[n] == cur;
    forall id ensures Out(r, id) <==> Out(s, id) || id == cur.id {
      if Out(s, id) {
        var i :| 0 <= i < |s.dequeued| && s.dequeued[i].id == id;
        assert r.dequeued[i].id == id;
      }
      assert r.dequeued[n].id == cur.id;
    }
    assert !Out(s, cur.id) by {
      assert forall i | 0 <= i < n :: All(s)[i] == s.dequeued[i];
    }
    forall id ensures Runs(r, id) <==> Runs(s, id) || id == cur.id { RunsMore(s, r, t, cur, id); }
    forall id ensures Done(r, id) == Done(s, id) {}
  }

  lemma FinishKeeps(s: System, t: nat)
    requires Invariant(s) && t in s.running
    ensures Invariant(Apply(s, Finish(t)))
  {
    var r, cur := Apply(s, Finish(t)), s.running[t];
    assert All(r) == All(s);
    assert Runs(s, cur.id);
    forall id ensures Done(r, id) <==> Done(s, id) || id == cur.id {
      if Done(s, id) {
        var i :| 0 <= i < |s.finished| && s.finished[i].id == id;
        assert r.finished[i].id == id;
      }
      assert r.finished[|s.finished|].id == cur.id;
    }
    forall id ensures Runs(r, id) <==> Runs(s, id) && id != cur.id {
      if Runs(s, id) && id != cur.id {
        var u :| u in s.running && s.running[u].id == id;
        assert u in r.running && r.running[u].id == id;
      }
    }
    forall id ensures Out(r, id) == Out(s, id) {}
  }

  lemma StepKeeps(s: System, step: Step)
    requires Invariant(s)
    ensures Invariant(Apply(s, step))
  {
    var r := Apply(s, step);
    match step
    case Submit(name) =>
      assert All(r) == All(s) + [Task(s.queue.next, name)];
      SameFates(s, r);
    case Begin(t) => if t !in s.running && CanTake(s.queue) { BeginKeeps(s, t); }
    case Finish(t) => if t in s.running { FinishKeeps(s, t); }
    case Stop =>
      assert All(r) == All(s);
      SameFates(s, r);
  }

  lemma SameFates(s: System, r: System)
    requires s.dequeued == r.dequeued && s.running == r.running && s.finished == r.finished
    ensures forall id :: Out(r, id) == Out(s, id) && Runs(r, id) == Runs(s, id) && Done(r, id) == Done(s, id)
  {
  }

  /** Under every interleaving. */
  lemma {:induction false} AlwaysInvariant(steps: seq<Step>)
    ensures Invariant(Run(steps))
  {
    if steps != [] {
      AlwaysInvariant(steps[..|steps| - 1]);
      StepKeeps(Run(steps[..|steps| - 1]), steps[|steps| - 1]);
    } else {
      assert forall id :: !Out(START, id) && !Runs(START, id) && !Done(START, id);
    }
  }

  /** Each submitted id is exactly one of waiting, running, done or dropped; no other id is any of them. */
  lemma ExactlyOneFate(steps: seq<Step>, id: nat)
    ensures var s := Run(steps);
            && (1 <= id < s.queue.next <==> Waits(s, id) || Runs(s, id) || Done(s, id) || Dropped(s, id))
            && !(Waits(s, id) && Runs(s, id)) && !(Waits(s, id) && Done(s, id)) && !(Waits(s, id) && Dropped(s, id))
            && !(Runs(s, id) && Done(s, id)) && !(Runs(s, id) && Dropped(s, id)) && !(Done(s, id) && Dropped(s, id))
  {
    var s := Run(steps);
    AlwaysInvariant(steps);
    Parts(s, id);
  }

  /** The three stretches of the numbered sequence. */
  lemma Parts(s: System, id: nat)
    requires Numbered(All(s))
    ensures Out(s, id) <==> 1 <= id <= |s.dequeued|
    ensures Dropped(s, id) <==> |s.dequeued| < id <= |s.dequeued| + |s.dropped|
    ensures Waits(s, id) <==> |s.dequeued| + |s.dropped| < id <= |All(s)|
  {
    var d, e, all := |s.dequeued|, |s.dropped|, All(s);
    assert forall i | 0 <= i < d :: all[i] == s.dequeued[i];
    assert forall i | 0 <= i < e :: all[d + i] == s.dropped[i];
    assert forall i | 0 <= i < |s.queue.q| :: all[d + e + i] == s.queue.q[i];
    if 1 <= id <= d { assert s.dequeued[id - 1].id == id; }
    if d < id <= d + e { assert s.dropped[id - d - 1].id == id; }
    if d + e < id <= |all| { assert s.queue.q[id - d - e - 1].id == id; }
  }

  /** A submitted task waits, also after a stop; nothing else changes its fate. */
  lemma SubmitWaits(steps: seq<Step>, name: string, id: nat)
    ensures var s, r := Run(steps), Apply(Run(steps), Submit(name));
            && (Waits(r, id) <==> Waits(s, id) || id == s.queue.next) && r.queue.next == s.queue.next + 1
            && (Runs(r, id) <==> Runs(s, id)) && (Done(r, id) <==> Done(s, id)) && (Dropped(r, id) <==> Dropped(s, id))
  {
    var s, r := Run(steps), Apply(Run(steps), Submit(name));
    AlwaysInvariant(steps);
    StepKeeps(s, Submit(name));
    assert All(r) == All(s) + [Task(s.queue.next, name)];
    Parts(s, id);
    Parts(r, id);
    SameFates(s, r);
  }

  /** An idle thread takes the first waiting task, unless the queue is stopping or empty. */
  lemma BeginRuns(steps: seq<Step>, t: nat, id: nat)
    ensures var s, r := Run(steps), Apply(Run(steps), Begin(t));
            if t in s.running || s.queue.stopping || s.queue.q == [] then r == s
            else
              && t in r.running && r.running[t] == s.queue.q[0]
              && (Runs(r, id) <==> Runs(s, id) || id == s.queue.q[0].id)
              && (Waits(r, id) <==> Waits(s, id) && id != s.queue.q[0].id)
              && (Done(r, id) <==> Done(s, id)) && (Dropped(r, id) <==> Dropped(s, id))
  {
    var s, r := Run(steps), Apply(Run(steps), Begin(t));
    AlwaysInvariant(steps);
    if t !in s.running && CanTake(s.queue) {
      var n, cur := |s.dequeued| + |s.dropped|, s.queue.q[0];
      BeginKeeps(s, t);
      assert All(s)[n] == cur;
      Parts(s, id);
      Parts(r, id);
      RunsMore(s, r, t, cur, id);
    }
  }

  /** A thread that finishes has done its task and runs no other. */
  lemma FinishDone(steps: seq<Step>, t: nat, id: nat)
    ensures var s, r := Run(steps), Apply(Run(steps), Finish(t));
            if t !in s.running then r == s
            else
              && t !in r.running
              && (Done(r, id) <==> Done(s, id) || id == s.running[t].id)
              && (Runs(r, id) <==> Runs(s, id) && id != s.running[t].id)
              && (Waits(r, id) <==> Waits(s, id)) && (Dropped(r, id) <==> Dropped(s, id))
  {
    var s, r := Run(steps), Apply(Run(steps), Finish(t));
    AlwaysInvariant(steps);
    if t in s.running {
      if Runs(s, id) && id != s.running[t].id {
        var u :| u in s.running && s.running[u].id == id;
        assert u in r.running;
      }
      if Done(s, id) {
        var i :| 0 <= i < |s.finished| && s.finished[i].id == id;
        assert r.finished[i].id == id;
      }
      assert r.finished[|s.finished|] == s.running[t];
    }
  }

  /** A stop drops what waits; what runs or is done stays. */
  lemma StopDrops(steps: seq<Step>, id: nat)
    ensures var s, r := Run(steps), Apply(Run(steps), Stop);
            && !Waits(r, id) && (Dropped(r, id) <==> Dropped(s, id) || Waits(s, id)) && r.queue.stopping
            && (Runs(r, id) <==> Runs(s, id)) && (Done(r, id) <==> Done(s, id)) && r.queue.next == s.queue.next
  {
    var s, r := Run(steps), Apply(Run(steps), Stop);
    AlwaysInvariant(steps);
    assert All(r) == All(s);
    Parts(s, id);
    Parts(r, id);
    SameFates(s, r);
  }

  /** Tasks leave the queue in strictly increasing order of id: the first one out is 1, the next 2, and so on. */
  lemma DequeuedInOrder(steps: seq<Step>, i: nat)
    requires i < |Run(steps).dequeued|
    ensures Run(steps).dequeued[i].id == i + 1
    ensures OnceEach(Run(steps).finished)
  {
    AlwaysInvariant(steps);
    assert All(Run(steps))[i] == Run(steps).dequeued[i];
  }

  /** After a `Stop` nothing is taken out any more, whatever is submitted and whichever threads go on. */
  lemma {:induction false} NothingAfterStop(before: seq<Step>, after: seq<Step>)
    ensures Run(before + [Stop] + after).dequeued == Run(before).dequeued
    ensures Run(before + [Stop] + after).queue.stopping
    decreases |after|
  {
    var steps := before + [Stop] + after;
    if after == [] {
      assert steps[..|steps| - 1] == before && steps[|steps| - 1] == Stop;
    } else {
      assert steps[..|steps| - 1] == before + [Stop] + after[..|after| - 1];
      assert steps[|steps| - 1] == after[|after| - 1];
      NothingAfterStop(before, after[..|after| - 1]);
    }
  }
}
