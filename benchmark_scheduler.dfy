/**
 * The bounded-parallelism executor of the benchmark sweep: a fixed array of slots is
 * polled pass after pass; an empty slot takes the next task of the launch queue, a slot
 * whose process ended with exit value 0 is freed, a non-zero exit value ends the whole
 * loop at once. Afterwards every process still alive is forcibly terminated.
 *
 * Processes are abstract handles. The host (the operating system) is a parameter: each
 * task's process answers "alive" to a fixed number of liveness polls and "ended" to
 * every later one, and has a fixed exit value. A process that never ends is outside the
 * model.
 */
module BenchmarkScheduler {
  import opened Wrappers

  /** A launched process: the index of its task in the launch queue, and how many polls
      have found it alive so far (the host's side of the handle). */
  datatype Proc = Proc(task: nat, polls: nat)

  /** Task `t`'s process is alive for its first `lifetime(t)` polls and then exits with
      `exitValue(t)`. */
  datatype Host = Host(lifetime: nat -> nat, exitValue: nat -> int)

  predicate Alive(host: Host, p: Proc) {
    p.polls < host.lifetime(p.task)
  }

  /** The loop as written leaves the `running` flag alone when it frees a slot; the
      corrected loop counts a freed slot as a reason for another pass. */
  datatype Loop = AsWritten | Refilling

  /** The slots after one pass, how many tasks have been launched, and the two flags the
      pass leaves behind. */
  datatype PassResult = PassResult(slots: seq<Option<Proc>>, started: nat, running: bool, failed: bool)

  /** Visiting slot `i` during a pass: an empty slot takes the next queued task (if
      any), a live process is polled again, an ended one frees its slot on exit value 0
      and stops the pass (`failed`) on any other exit value. */
  function Visit(host: Host, loop: Loop, n: nat, slots: seq<Option<Proc>>, i: nat, started: nat, running: bool): (r: PassResult)
    requires i < |slots| && started <= n
    ensures |r.slots| == |slots| && started <= r.started <= n
    ensures r.started <= started + 1
    ensures r.started == started + 1 ==> slots[i] == None && r.slots[i] == Some(Proc(started, 0))
    ensures r.failed ==> !r.running && r.slots == slots
    ensures running ==> r.running || r.failed
    ensures forall k | 0 <= k < |slots| && k != i :: r.slots[k] == slots[k]
  {
    match slots[i]
    case None =>
      if started == n then PassResult(slots, started, running, false)
      else PassResult(slots[i := Some(Proc(started, 0))], started + 1, true, false)
    case Some(p) =>
      if Alive(host, p) then PassResult(slots[i := Some(Proc(p.task, p.polls + 1))], started, true, false)
      else if host.exitValue(p.task) != 0 then PassResult(slots, started, false, true)
      else PassResult(slots[i := None], started, running || loop == Refilling, false)
  }

  /** The rest of a pass over `n` queued tasks, from slot `i` on. */
  function PassFrom(host: Host, loop: Loop, n: nat, slots: seq<Option<Proc>>, i: nat, started: nat, running: bool): (r: PassResult)
    requires i <= |slots| && started <= n
    ensures |r.slots| == |slots| && started <= r.started <= n
    ensures r.failed ==> !r.running
    ensures running ==> r.running || r.failed
    ensures forall k | 0 <= k < i :: r.slots[k] == slots[k]
    decreases |slots| - i
  {
    if i == |slots| then PassResult(slots, started, running, false)
    else
      var v := Visit(host, loop, n, slots, i, started, running);
      if v.failed then v else PassFrom(host, loop, n, v.slots, i + 1, v.started, v.running)
  }

  /** One pass of the polling loop over the slot array. */
  method Pass(host: Host, loop: Loop, n: nat, slots: array<Option<Proc>>, started0: nat)
    returns (started: nat, running: bool, failed: bool)
    requires started0 <= n
    modifies slots
    ensures PassResult(slots[..], started, running, failed) == PassFrom(host, loop, n, old(slots[..]), 0, started0, false)
  {
    started, running, failed := started0, false, false;
    var i := 0;
    while i < slots.Length
      invariant 0 <= i <= slots.Length && started <= n && !failed
      decreases slots.Length - i
      invariant PassFrom(host, loop, n, slots[..], i, started, running) == PassFrom(host, loop, n, old(slots[..]), 0, started0, false)
    {
      ghost var v := Visit(host, loop, n, slots[..], i, started, running);
      match slots[i] {
        case None =>
          if started < n {
            slots[i] := Some(Proc(started, 0));
            started := started + 1;
            running := true;
          }
        case Some(p) =>
          if !Alive(host, p) {
            if host.exitValue(p.task) != 0 {
              running := false;
              failed := true;
              break;
            }
            slots[i] := None;
            if loop == Refilling {
              running := true;
            }
          } else {
            slots[i] := Some(Proc(p.task, p.polls + 1));
            running := true;
          }
      }
      assert v == PassResult(slots[..], started, running, false);
      i := i + 1;
    }
  }

  // ---------------------------------------------------------------------------------
  // Termination: every pass that asks for another one uses up host work.

  function Remaining(host: Host, p: Proc): nat {
    if Alive(host, p) then host.lifetime(p.task) - p.polls else 0
  }

  function Cost(host: Host, s: Option<Proc>): nat {
    match s
    case None => 0
    case Some(p) => Remaining(host, p) + 1
  }

  function SlotWork(host: Host, slots: seq<Option<Proc>>): nat
    decreases |slots|
  {
    if |slots| == 0 then 0 else SlotWork(host, slots[..|slots| - 1]) + Cost(host, slots[|slots| - 1])
  }

  function PendingWork(host: Host, started: nat, n: nat): nat
    decreases n - started
  {
    if started >= n then 0 else host.lifetime(started) + 2 + PendingWork(host, started + 1, n)
  }

  /** Polls, launches and frees still possible: a bound on the passes left. */
  function Work(host: Host, slots: seq<Option<Proc>>, started: nat, n: nat): nat {
    SlotWork(host, slots) + PendingWork(host, started, n)
  }

  lemma {:induction false} SlotWorkUpdate(host: Host, slots: seq<Option<Proc>>, i: nat, x: Option<Proc>)
    requires i < |slots|
    ensures SlotWork(host, slots[i := x]) + Cost(host, slots[i]) == SlotWork(host, slots) + Cost(host, x)
    decreases |slots|
  {
    var m := |slots| - 1;
    if i == m {
      assert slots[i := x][..m] == slots[..m];
    } else {
      SlotWorkUpdate(host, slots[..m], i, x);
      assert slots[i := x][..m] == slots[..m][i := x];
    }
  }

  /** A visit never adds work, and a visit that sets `running` removes some. */
  lemma VisitWork(host: Host, loop: Loop, n: nat, slots: seq<Option<Proc>>, i: nat, started: nat, running: bool)
    requires i < |slots| && started <= n
    ensures var v := Visit(host, loop, n, slots, i, started, running);
      Work(host, v.slots, v.started, n) <= Work(host, slots, started, n)
      && (v.running && !running ==> Work(host, v.slots, v.started, n) < Work(host, slots, started, n))
  {
    var v := Visit(host, loop, n, slots, i, started, running);
    SlotWorkUpdate(host, slots, i, v.slots[i]);
    assert v.slots == slots[i := v.slots[i]];
  }

  /** A pass never adds work, and a pass that asks for another one removes some. */
  lemma {:induction false} PassWork(host: Host, loop: Loop, n: nat, slots: seq<Option<Proc>>, i: nat, started: nat, running: bool)
    requires i <= |slots| && started <= n
    ensures var r := PassFrom(host, loop, n, slots, i, started, running);
      Work(host, r.slots, r.started, n) <= Work(host, slots, started, n)
      && (r.running && !running ==> Work(host, r.slots, r.started, n) < Work(host, slots, started, n))
    decreases |slots| - i
  {
    if i < |slots| {
      var v := Visit(host, loop, n, slots, i, started, running);
      VisitWork(host, loop, n, slots, i, started, running);
      if !v.failed {
        PassWork(host, loop, n, v.slots, i + 1, v.started, v.running);
      }
    }
  }

  // ---------------------------------------------------------------------------------
  // The whole polling loop.

  /** The slots when the loop stops, how many tasks were launched, and whether it stopped
      on a non-zero exit value. */
  datatype RunResult = RunResult(slots: seq<Option<Proc>>, started: nat, failed: bool)

  /** Passes until one of them leaves `running` false (the first pass always happens). */
  function Run(host: Host, loop: Loop, n: nat, slots: seq<Option<Proc>>, started: nat): (r: RunResult)
    requires started <= n
    ensures |r.slots| == |slots| && started <= r.started <= n
    decreases Work(host, slots, started, n)
  {
    var p := PassFrom(host, loop, n, slots, 0, started, false);
    PassWork(host, loop, n, slots, 0, started, false);
    if p.running then Run(host, loop, n, p.slots, p.started)
    else RunResult(p.slots, p.started, p.failed)
  }

  /** `parallelSims` empty slots. */
  function EmptySlots(parallelSims: nat): (s: seq<Option<Proc>>)
    ensures |s| == parallelSims && forall k | 0 <= k < parallelSims :: s[k] == None
  {
    seq(parallelSims, _ => None)
  }

  /** The polling loop over a fresh slot array, launching the `n` queued tasks in queue
      order. */
  method RunQueue(host: Host, loop: Loop, n: nat, parallelSims: nat)
    returns (finalSlots: seq<Option<Proc>>, started: nat, failed: bool)
    ensures RunResult(finalSlots, started, failed) == Run(host, loop, n, EmptySlots(parallelSims), 0)
  {
    var slots := new Option<Proc>[parallelSims](_ => None);
    assert slots[..] == EmptySlots(parallelSims);
    started, failed := 0, false;
    var running := true;
    while running
      invariant started <= n
      invariant running ==> Run(host, loop, n, slots[..], started) == Run(host, loop, n, EmptySlots(parallelSims), 0)
      invariant !running ==> RunResult(slots[..], started, failed) == Run(host, loop, n, EmptySlots(parallelSims), 0)
      decreases if running then Work(host, slots[..], started, n) + 1 else 0
    {
      ghost var before := slots[..];
      ghost var started0 := started;
      PassWork(host, loop, n, before, 0, started, false);
      started, running, failed := Pass(host, loop, n, slots, started);
    }
    finalSlots := slots[..];
  }

  // ---------------------------------------------------------------------------------
  // What the loop guarantees.

  predicate Holds(slots: seq<Option<Proc>>, t: nat) {
    exists k :: 0 <= k < |slots| && slots[k].Some? && slots[k].value.task == t
  }

  /** Every occupied slot holds a launched task, no task occupies two slots, and every
      launched task no slot holds any more ended with exit value 0. */
  predicate Consistent(host: Host, slots: seq<Option<Proc>>, started: nat) {
    (forall k | 0 <= k < |slots| && slots[k].Some? :: slots[k].value.task < started)
    && (forall k, k' | 0 <= k < k' < |slots| && slots[k].Some? && slots[k'].Some? ::
          slots[k].value.task != slots[k'].value.task)
    && (forall t: nat | t < started && !Holds(slots, t) :: host.exitValue(t) == 0)
  }

  lemma ConsistentStart(host: Host, slots: seq<Option<Proc>>, i: nat, started: nat)
    requires i < |slots| && slots[i] == None && Consistent(host, slots, started)
    ensures Consistent(host, slots[i := Some(Proc(started, 0))], started + 1)
  {
    var s := slots[i := Some(Proc(started, 0))];
    assert s[i] == Some(Proc(started, 0));
    forall t: nat | Holds(slots, t) ensures Holds(s, t) {
      var k :| 0 <= k < |slots| && slots[k].Some? && slots[k].value.task == t;
      assert s[k] == slots[k];
    }
  }

  lemma ConsistentPoll(host: Host, slots: seq<Option<Proc>>, i: nat, started: nat, p: Proc)
    requires i < |slots| && slots[i] == Some(p) && Consistent(host, slots, started)
    ensures Consistent(host, slots[i := Some(Proc(p.task, p.polls + 1))], started)
  {
    var s := slots[i := Some(Proc(p.task, p.polls + 1))];
    forall t: nat | Holds(slots, t) ensures Holds(s, t) {
      var k :| 0 <= k < |slots| && slots[k].Some? && slots[k].value.task == t;
      assert s[k].Some? && s[k].value.task == t;
    }
  }

  lemma ConsistentFree(host: Host, slots: seq<Option<Proc>>, i: nat, started: nat, p: Proc)
    requires i < |slots| && slots[i] == Some(p) && host.exitValue(p.task) == 0
    requires Consistent(host, slots, started)
    ensures Consistent(host, slots[i := None], started)
  {
    var s := slots[i := None];
    forall t: nat | t != p.task && Holds(slots, t) ensures Holds(s, t) {
      var k :| 0 <= k < |slots| && slots[k].Some? && slots[k].value.task == t;
      assert s[k] == slots[k];
    }
  }

  lemma VisitConsistent(host: Host, loop: Loop, n: nat, slots: seq<Option<Proc>>, i: nat, started: nat, running: bool)
    requires i < |slots| && started <= n && Consistent(host, slots, started)
    ensures var v := Visit(host, loop, n, slots, i, started, running);
      Consistent(host, v.slots, v.started)
  {
    match slots[i]
    case None =>
      if started < n {
        ConsistentStart(host, slots, i, started);
      }
    case Some(p) =>
      if Alive(host, p) {
        ConsistentPoll(host, slots, i, started, p);
      } else if host.exitValue(p.task) == 0 {
        ConsistentFree(host, slots, i, started, p);
      }
  }

  lemma {:induction false} PassConsistent(host: Host, loop: Loop, n: nat, slots: seq<Option<Proc>>, i: nat, started: nat, running: bool)
    requires i <= |slots| && started <= n && Consistent(host, slots, started)
    ensures var r := PassFrom(host, loop, n, slots, i, started, running);
      Consistent(host, r.slots, r.started)
    decreases |slots| - i
  {
    if i < |slots| {
      var v := Visit(host, loop, n, slots, i, started, running);
      VisitConsistent(host, loop, n, slots, i, started, running);
      if !v.failed {
        PassConsistent(host, loop, n, v.slots, i + 1, v.started, v.running);
      }
    }
  }

  /** A pass that fails has found an ended process with a non-zero exit value, and
      leaves it in its slot. */
  lemma {:induction false} PassFailure(host: Host, loop: Loop, n: nat, slots: seq<Option<Proc>>, i: nat, started: nat, running: bool)
    requires i <= |slots| && started <= n
    ensures var r := PassFrom(host, loop, n, slots, i, started, running);
      r.failed ==> exists k :: (0 <= k < |r.slots| && r.slots[k].Some?
        && !Alive(host, r.slots[k].value) && host.exitValue(r.slots[k].value.task) != 0)
    decreases |slots| - i
  {
    if i < |slots| {
      var v := Visit(host, loop, n, slots, i, started, running);
      if !v.failed {
        PassFailure(host, loop, n, v.slots, i + 1, v.started, v.running);
      } else {
        assert slots[i].Some? && !Alive(host, slots[i].value) && host.exitValue(slots[i].value.task) != 0;
      }
    }
  }

  /** A pass that neither fails nor asks for another one launched nothing and leaves
      every slot it visited empty; the corrected loop only gets there with an empty queue
      (or no slot at all). */
  lemma {:induction false} PassQuiet(host: Host, loop: Loop, n: nat, slots: seq<Option<Proc>>, i: nat, started: nat)
    requires i <= |slots| && started <= n
    ensures var r := PassFrom(host, loop, n, slots, i, started, false);
      !r.failed && !r.running ==>
        r.started == started
        && (forall k | i <= k < |slots| :: r.slots[k] == None)
        && (loop == Refilling && i < |slots| ==> started == n)
    decreases |slots| - i
  {
    if i < |slots| {
      var v := Visit(host, loop, n, slots, i, started, false);
      if !v.failed && !v.running {
        PassQuiet(host, loop, n, v.slots, i + 1, v.started);
      }
    }
  }

  /** The loop keeps the slots consistent. */
  lemma {:induction false} RunConsistent(host: Host, loop: Loop, n: nat, slots: seq<Option<Proc>>, started: nat)
    requires started <= n && Consistent(host, slots, started)
    ensures var r := Run(host, loop, n, slots, started); Consistent(host, r.slots, r.started)
    decreases Work(host, slots, started, n)
  {
    var p := PassFrom(host, loop, n, slots, 0, started, false);
    PassWork(host, loop, n, slots, 0, started, false);
    PassConsistent(host, loop, n, slots, 0, started, false);
    if p.running {
      RunConsistent(host, loop, n, p.slots, p.started);
    }
  }

  /** The loop stops either on a failure it can point to, or with every slot empty. */
  lemma {:induction false} RunOutcome(host: Host, loop: Loop, n: nat, slots: seq<Option<Proc>>, started: nat)
    requires started <= n
    ensures var r := Run(host, loop, n, slots, started);
      (r.failed ==> exists k :: (0 <= k < |r.slots| && r.slots[k].Some?
        && !Alive(host, r.slots[k].value) && host.exitValue(r.slots[k].value.task) != 0))
      && (!r.failed ==> forall k | 0 <= k < |r.slots| :: r.slots[k] == None)
      && (!r.failed && loop == Refilling && |slots| > 0 ==> r.started == n)
    decreases Work(host, slots, started, n)
  {
    var p := PassFrom(host, loop, n, slots, 0, started, false);
    PassWork(host, loop, n, slots, 0, started, false);
    if p.running {
      RunOutcome(host, loop, n, p.slots, p.started);
    } else {
      PassFailure(host, loop, n, slots, 0, started, false);
      PassQuiet(host, loop, n, slots, 0, started);
    }
  }

  /** With the corrected loop, a sweep that does not fail launches every queued task,
      every one of them exits with 0, and it ends with every slot empty (given at least
      one slot). */
  lemma RefillingRunsEveryTask(host: Host, n: nat, parallelSims: nat)
    requires parallelSims > 0
    ensures var r := Run(host, Refilling, n, EmptySlots(parallelSims), 0);
      !r.failed ==> (r.started == n && (forall t: nat | t < n :: host.exitValue(t) == 0)
                     && forall k | 0 <= k < |r.slots| :: r.slots[k] == None)
  {
    var r := Run(host, Refilling, n, EmptySlots(parallelSims), 0);
    RunConsistent(host, Refilling, n, EmptySlots(parallelSims), 0);
    RunOutcome(host, Refilling, n, EmptySlots(parallelSims), 0);
    if !r.failed {
      assert forall t: nat :: !Holds(r.slots, t);
    }
  }

  /** With one slot the loop as written never launches a second task: the pass that
      frees the slot also ends the loop. */
  lemma {:induction false} AsWrittenOneSlotStartsAtMostOne(host: Host, n: nat, slots: seq<Option<Proc>>, started: nat)
    requires |slots| == 1 && started <= n && started <= 1
    requires started == 0 <==> slots[0] == None
    ensures Run(host, AsWritten, n, slots, started).started <= 1
    decreases Work(host, slots, started, n)
  {
    var p := PassFrom(host, AsWritten, n, slots, 0, started, false);
    PassWork(host, AsWritten, n, slots, 0, started, false);
    match slots[0]
    case None =>
      if started < n {
        var next := [Some(Proc(started, 0))];
        assert slots[0 := Some(Proc(started, 0))] == next;
        assert p == PassFrom(host, AsWritten, n, next, 1, started + 1, true);
        AsWrittenOneSlotStartsAtMostOne(host, n, next, started + 1);
      } else {
        assert p == PassFrom(host, AsWritten, n, slots, 1, started, false);
      }
    case Some(q) =>
      if Alive(host, q) {
        var next := [Some(Proc(q.task, q.polls + 1))];
        assert slots[0 := Some(Proc(q.task, q.polls + 1))] == next;
        assert p == PassFrom(host, AsWritten, n, next, 1, started, true);
        AsWrittenOneSlotStartsAtMostOne(host, n, next, started);
      } else if host.exitValue(q.task) == 0 {
        assert p == PassFrom(host, AsWritten, n, slots[0 := None], 1, started, false);
      }
  }

  /** Two queued tasks that both end at once with exit value 0, one slot: the loop as
      written stops after the first, the corrected loop runs both. */
  lemma OneSlotLeavesSecondTaskQueued()
    ensures var host := Host(_ => 0, _ => 0);
      Run(host, AsWritten, 2, [None], 0) == RunResult([None], 1, false)
      && Run(host, Refilling, 2, [None], 0).started == 2
  {
    var host := Host(_ => 0, _ => 0);
    assert PassFrom(host, AsWritten, 2, [None], 0, 0, false) == PassResult([Some(Proc(0, 0))], 1, true, false);
    assert PassFrom(host, AsWritten, 2, [Some(Proc(0, 0))], 0, 1, false) == PassResult([None], 1, false, false);
    assert PassFrom(host, Refilling, 2, [None], 0, 0, false) == PassResult([Some(Proc(0, 0))], 1, true, false);
    assert PassFrom(host, Refilling, 2, [Some(Proc(0, 0))], 0, 1, false) == PassResult([None], 1, true, false);
    assert PassFrom(host, Refilling, 2, [None], 0, 1, false) == PassResult([Some(Proc(1, 0))], 2, true, false);
    assert PassFrom(host, Refilling, 2, [Some(Proc(1, 0))], 0, 2, false) == PassResult([None], 2, true, false);
    assert PassFrom(host, Refilling, 2, [None], 0, 2, false) == PassResult([None], 2, false, false);
  }

  // ---------------------------------------------------------------------------------
  // After the loop.

  /** The tasks whose processes are still alive when the loop has stopped. */
  function LiveTasks(host: Host, slots: seq<Option<Proc>>): set<nat> {
    set k | 0 <= k < |slots| && slots[k].Some? && Alive(host, slots[k].value) :: slots[k].value.task
  }

  /** Forcibly terminates every process still alive; returns their tasks. */
  method TerminateLive(host: Host, slots: seq<Option<Proc>>) returns (killed: set<nat>)
    ensures killed == LiveTasks(host, slots)
  {
    killed := {};
    for i := 0 to |slots|
      invariant killed == LiveTasks(host, slots[..i])
    {
      assert slots[..i + 1][..i] == slots[..i];
      if slots[i].Some? && Alive(host, slots[i].value) {
        killed := killed + {slots[i].value.task};
      }
    }
    assert slots[..|slots|] == slots;
  }

  /** Nothing is left to terminate after a loop that did not fail; after a failure the
      failing task is not among the terminated ones. */
  lemma TerminationAfterRun(host: Host, loop: Loop, n: nat, parallelSims: nat)
    ensures var r := Run(host, loop, n, EmptySlots(parallelSims), 0);
      (!r.failed ==> LiveTasks(host, r.slots) == {})
      && (r.failed ==> exists k :: (0 <= k < |r.slots| && r.slots[k].Some?
            && host.exitValue(r.slots[k].value.task) != 0 && r.slots[k].value.task !in LiveTasks(host, r.slots)))
  {
    var r := Run(host, loop, n, EmptySlots(parallelSims), 0);
    RunOutcome(host, loop, n, EmptySlots(parallelSims), 0);
    RunConsistent(host, loop, n, EmptySlots(parallelSims), 0);
    if r.failed {
      var k :| 0 <= k < |r.slots| && r.slots[k].Some?
        && !Alive(host, r.slots[k].value) && host.exitValue(r.slots[k].value.task) != 0;
      forall k' | 0 <= k' < |r.slots| && r.slots[k'].Some? && Alive(host, r.slots[k'].value)
        ensures r.slots[k'].value.task != r.slots[k].value.task
      {
        assert k' != k;
      }
    }
  }

  /** The polling loop followed by the forced termination, stated on launch indices:
      at most the queued tasks are launched; only launched ones are terminated, and none
      after a loop without failure, in which every launched task exited with 0 (and with
      the corrected loop and at least one slot, every queued task was launched); a failure
      points at a launched task with a non-zero exit value; the loop as written with one
      slot launches at most one task. The launch count and failure flag are those of the
      loop specification, and the terminated tasks are exactly those still alive when it
      stops. */
  method RunAndTerminate(host: Host, loop: Loop, n: nat, parallelSims: nat)
    returns (started: nat, failed: bool, killed: set<nat>)
    ensures started <= n
    ensures forall t | t in killed :: t < started
    ensures !failed ==> killed == {} && forall t: nat | t < started :: host.exitValue(t) == 0
    ensures !failed && loop == Refilling && parallelSims > 0 ==> started == n
    ensures failed ==> exists t: nat | t < started :: host.exitValue(t) != 0
    ensures loop == AsWritten && parallelSims == 1 ==> started <= 1
    ensures var r := Run(host, loop, n, EmptySlots(parallelSims), 0);
      started == r.started && failed == r.failed && killed == LiveTasks(host, r.slots)
  {
    var finalSlots;
    finalSlots, started, failed := RunQueue(host, loop, n, parallelSims);
    killed := TerminateLive(host, finalSlots);
    RunConsistent(host, loop, n, EmptySlots(parallelSims), 0);
    RunOutcome(host, loop, n, EmptySlots(parallelSims), 0);
    TerminationAfterRun(host, loop, n, parallelSims);
    if loop == AsWritten && parallelSims == 1 {
      AsWrittenOneSlotStartsAtMostOne(host, n, EmptySlots(1), 0);
    }
    if failed {
      var k :| 0 <= k < |finalSlots| && finalSlots[k].Some?
        && !Alive(host, finalSlots[k].value) && host.exitValue(finalSlots[k].value.task) != 0;
    } else {
      assert forall t: nat | t < started :: !Holds(finalSlots, t);
    }
  }
}
