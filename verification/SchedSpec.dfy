// The process manager of kernel/process.c as a state machine: states and pids
// of the 64 slots, the ready queue as a sequence of slots, the current slot.

module SchedSpec {

  const MAX_PROCESSES: nat := 64
  // next_pid is a uint32_t.
  const PIDS: nat := 0x1_0000_0000

  datatype State = NEW | READY | RUNNING | BLOCKED | TERMINATED

  datatype Sched = Sched(state: seq<State>, pid: seq<nat>, queue: seq<nat>, current: nat, nextPid: nat)

  ghost predicate Shaped(s: Sched) {
    && |s.state| == |s.pid| == MAX_PROCESSES && s.current < MAX_PROCESSES
    && forall i | 0 <= i < |s.queue| :: s.queue[i] < MAX_PROCESSES
  }

  ghost predicate Distinct(q: seq<nat>) {
    forall i, j | 0 <= i < j < |q| :: q[i] != q[j]
  }

  // ---------------------------------------------------------------- transitions

  // kernel/process.c:38-41: a running process goes back to the queue.
  function Requeue(s: Sched): Sched
    requires Shaped(s)
  {
    if s.state[s.current] == RUNNING then
      s.(state := s.state[s.current := READY], queue := s.queue + [s.current])
    else s
  }

  // kernel/process.c:42-51: the head of the queue runs, or slot 0 if there is
  // none.
  function Dispatch(s: Sched): Sched
    requires Shaped(s)
  {
    if s.queue == [] then s.(state := s.state[0 := RUNNING], current := 0)
    else s.(state := s.state[s.queue[0] := RUNNING], queue := s.queue[1..], current := s.queue[0])
  }

  // scheduler_get_next.
  function Next(s: Sched): Sched
    requires Shaped(s)
  {
    Dispatch(Requeue(s))
  }

  predicate Reusable(s: Sched, i: nat)
    requires |s.state| == |s.pid| == MAX_PROCESSES && i < MAX_PROCESSES
  {
    s.state[i] == TERMINATED || s.pid[i] == 0
  }

  // The first slot that can be reused, from slot i on; 64 if there is none.
  function FreeSlot(s: Sched, i: nat): (r: nat)
    requires |s.state| == |s.pid| == MAX_PROCESSES && i <= MAX_PROCESSES
    ensures i <= r <= MAX_PROCESSES
    ensures r < MAX_PROCESSES ==> Reusable(s, r)
    ensures forall j | i <= j < r :: !Reusable(s, j)
    decreases MAX_PROCESSES - i
  {
    if i == MAX_PROCESSES || Reusable(s, i) then i else FreeSlot(s, i + 1)
  }

  // next_pid++.
  function PidAfter(pid: nat): nat {
    (pid + 1) % PIDS
  }

  // fork_process and create_process: a fresh process in the first free slot,
  // ready at the end of the queue.
  function Create(s: Sched): Sched
    requires Shaped(s)
  {
    var i := FreeSlot(s, 0);
    if i == MAX_PROCESSES then s
    else s.(state := s.state[i := READY], pid := s.pid[i := s.nextPid], queue := s.queue + [i],
             nextPid := PidAfter(s.nextPid))
  }

  // exit, wait and sleep: the current process takes state st, another runs.
  function Leave(s: Sched, st: State): Sched
    requires Shaped(s)
  {
    Next(s.(state := s.state[s.current := st]))
  }

  // add_to_ready_queue.
  function Wake(s: Sched, i: nat): Sched
    requires Shaped(s) && i < MAX_PROCESSES
  {
    s.(state := s.state[i := READY], queue := s.queue + [i])
  }

  // The slot kill_process finds, from slot i on; 64 if there is none.
  function Victim(s: Sched, pid: nat, i: nat): (r: nat)
    requires |s.state| == |s.pid| == MAX_PROCESSES && i <= MAX_PROCESSES
    ensures i <= r <= MAX_PROCESSES
    ensures r < MAX_PROCESSES ==> s.pid[r] == pid && s.state[r] != TERMINATED
    ensures forall j | i <= j < r :: s.pid[j] != pid || s.state[j] == TERMINATED
    decreases MAX_PROCESSES - i
  {
    if i == MAX_PROCESSES || (s.pid[i] == pid && s.state[i] != TERMINATED) then i else Victim(s, pid, i + 1)
  }

  function Kill(s: Sched, pid: nat): Sched
    requires Shaped(s)
  {
    var v := Victim(s, pid, 0);
    if v == MAX_PROCESSES then s else s.(state := s.state[v := TERMINATED])
  }

  // ---------------------------------------------------------------- invariant

  // The queue holds exactly the READY slots, each once.
  ghost predicate QueueIsReady(s: Sched)
    requires Shaped(s)
  {
    Distinct(s.queue) && forall i: nat | i < MAX_PROCESSES :: i in s.queue <==> s.state[i] == READY
  }

  // At most the current slot runs.
  ghost predicate OneRuns(s: Sched)
    requires Shaped(s)
  {
    forall i | 0 <= i < MAX_PROCESSES && s.state[i] == RUNNING :: i == s.current
  }

  ghost predicate PidsOk(s: Sched)
    requires Shaped(s)
  {
    && 0 < s.nextPid < PIDS
    && (forall i | 0 <= i < MAX_PROCESSES :: s.pid[i] < s.nextPid)
    && (forall i, j | 0 <= i < j < MAX_PROCESSES && s.pid[i] != 0 :: s.pid[i] != s.pid[j])
  }

  // A slot without a process is never queued, and only slot 0 can run without
  // one - while there is no process at all.
  ghost predicate IdleOk(s: Sched)
    requires Shaped(s)
  {
    && (forall i | 0 <= i < MAX_PROCESSES && s.pid[i] == 0 :: s.state[i] != READY && (i > 0 ==> s.state[i] != RUNNING))
    && (s.pid[0] == 0 ==> s.queue == [] && forall i | 0 <= i < MAX_PROCESSES :: s.pid[i] == 0)
  }

  ghost predicate Inv(s: Sched) {
    Shaped(s) && QueueIsReady(s) && OneRuns(s) && PidsOk(s) && IdleOk(s)
  }

  function Initial(): Sched {
    Sched(seq(MAX_PROCESSES, i => if i == 0 then RUNNING else NEW), seq(MAX_PROCESSES, _ => 0), [], 0, 1)
  }

  lemma InitialInv()
    ensures Inv(Initial())
  {
  }

  // ---------------------------------------------------------------- each step keeps it

  lemma InTail(q: seq<nat>, x: nat)
    requires Distinct(q) && q != []
    ensures x in q[1..] <==> x in q && x != q[0]
  {
    if x in q && x != q[0] {
      var i :| 0 <= i < |q| && q[i] == x;
      assert q[1..][i - 1] == x;
    }
  }

  // Nothing runs; the queue holds the READY slots, and perhaps at its head a
  // slot that has just left that state.
  ghost predicate Poised(s: Sched) {
    && Shaped(s) && PidsOk(s) && Distinct(s.queue)
    && (forall i: nat | i < MAX_PROCESSES :: s.state[i] == READY ==> i in s.queue)
    && (forall i: nat | i in s.queue :: s.state[i] == READY || i == s.queue[0])
    && (forall i | 0 <= i < MAX_PROCESSES :: s.state[i] != RUNNING)
    && (forall i | 0 < i < MAX_PROCESSES && s.pid[i] == 0 :: i !in s.queue)
    && (s.pid[0] == 0 ==>
          && |s.queue| <= 1 && (0 in s.queue || s.queue == [])
          && forall i | 0 <= i < MAX_PROCESSES :: s.pid[i] == 0)
  }

  lemma DispatchInv(s: Sched)
    requires Poised(s)
    ensures Inv(Dispatch(s))
  {
    var t := Dispatch(s);
    if s.queue != [] {
      forall i: nat | i < MAX_PROCESSES
        ensures i in t.queue <==> t.state[i] == READY
      {
        InTail(s.queue, i);
      }
    }
  }

  lemma RequeuePoised(s: Sched)
    requires Inv(s)
    ensures Poised(Requeue(s))
  {
    if s.state[s.current] == RUNNING {
      assert s.current !in s.queue;
    }
  }

  // Whether exit, wait and sleep do no harm: a current process that is queued is
  // at the head of the queue.
  predicate MayLeave(s: Sched)
    requires |s.state| == MAX_PROCESSES && s.current < MAX_PROCESSES
  {
    s.state[s.current] == READY ==> s.queue != [] && s.queue[0] == s.current
  }

  // The current process may leave the RUNNING state for good.
  lemma LeftPoised(s: Sched, st: State)
    requires Inv(s) && MayLeave(s) && (st == BLOCKED || st == TERMINATED)
    ensures Poised(s.(state := s.state[s.current := st]))
  {
  }

  lemma NextInv(s: Sched)
    requires Inv(s)
    ensures Inv(Next(s))
  {
    RequeuePoised(s);
    DispatchInv(Requeue(s));
  }

  // One that stays queued behind another is lost in the queue.
  lemma LeftBehind(s: Sched, st: State)
    requires Inv(s) && !MayLeave(s) && (st == BLOCKED || st == TERMINATED)
    ensures !Inv(Leave(s, st))
  {
    var t := Leave(s, st);
    assert s.current in s.queue;
    InTail(s.queue, s.current);
  }

  // exit, wait and sleep keep the invariant exactly under that condition.
  lemma LeaveInv(s: Sched, st: State)
    requires Inv(s) && (st == BLOCKED || st == TERMINATED)
    ensures Inv(Leave(s, st)) <==> MayLeave(s)
  {
    if MayLeave(s) {
      LeftPoised(s, st);
      DispatchInv(s.(state := s.state[s.current := st]));
    } else {
      LeftBehind(s, st);
    }
  }

  // They take effect exactly when the process dispatched next is another one:
  // when the caller is not queued and the fall-back to slot 0 does not pick it
  // again at once.
  lemma LeaveTakes(s: Sched, st: State)
    requires Inv(s) && (st == BLOCKED || st == TERMINATED)
    ensures Leave(s, st).state[s.current] == st
            <==> if s.queue == [] then s.current != 0 else s.queue[0] != s.current
    ensures MayLeave(s) ==>
              (Leave(s, st).state[s.current] == st
               <==> s.state[s.current] != READY && (s.queue != [] || s.current != 0))
  {
    if s.queue != [] && s.queue[0] == s.current {
      assert s.current in s.queue;
    }
  }

  // Whether a process can be created without next_pid wrapping to the pid of a
  // slot without a process.
  predicate PidLeft(s: Sched)
    requires |s.state| == |s.pid| == MAX_PROCESSES
  {
    FreeSlot(s, 0) == MAX_PROCESSES || s.nextPid + 1 < PIDS
  }

  // Pids are left until next_pid is the last number of 32 bits, or while no slot
  // can be reused.
  lemma PidLeftIs(s: Sched)
    requires |s.state| == |s.pid| == 64
    ensures PidLeft(s) <==> s.nextPid < 0xFFFF_FFFF || forall i | 0 <= i < 64 :: !Reusable(s, i)
    ensures forall i | 0 <= i < 64 :: Reusable(s, i) <==> s.state[i] == TERMINATED || s.pid[i] == 0
  {
    if FreeSlot(s, 0) < 64 {
      assert Reusable(s, FreeSlot(s, 0));
    }
  }

  lemma CreateKeeps(s: Sched, i: nat, next: nat)
    requires Inv(s) && i == FreeSlot(s, 0) < MAX_PROCESSES && next == s.nextPid + 1 < PIDS
    ensures Inv(s.(state := s.state[i := READY], pid := s.pid[i := s.nextPid], queue := s.queue + [i], nextPid := next))
  {
    assert s.state[i] != READY;
  }

  lemma CreateInv(s: Sched)
    requires Inv(s)
    ensures Inv(Create(s)) <==> PidLeft(s)
  {
    var i := FreeSlot(s, 0);
    if i < MAX_PROCESSES && s.nextPid + 1 < PIDS {
      CreateKeeps(s, i, s.nextPid + 1);
    }
  }

  // add_to_ready_queue keeps the invariant exactly for a process that exists
  // and is not queued already.
  lemma WakeInv(s: Sched, i: nat)
    requires Inv(s) && i < MAX_PROCESSES
    ensures Inv(Wake(s, i)) <==> s.state[i] != READY && s.pid[i] != 0
  {
    var t := Wake(s, i);
    if s.state[i] == READY {
      assert i in s.queue;
      var k :| 0 <= k < |s.queue| && s.queue[k] == i;
      assert t.queue[k] == t.queue[|s.queue|];
    }
  }

  // Killing a process that does not wait in the queue does no harm ...
  lemma KillHarmless(s: Sched, v: nat)
    requires Inv(s) && v < MAX_PROCESSES && s.state[v] != READY
    ensures Inv(s.(state := s.state[v := TERMINATED]))
  {
  }

  // ... but one that waits stays queued.
  lemma KillHarmful(s: Sched, v: nat)
    requires Inv(s) && v < MAX_PROCESSES && s.state[v] == READY
    ensures !Inv(s.(state := s.state[v := TERMINATED]))
  {
    assert v in s.queue;
  }

  // kill_process keeps the invariant exactly when its victim does not wait in
  // the queue.
  lemma KillInv(s: Sched, pid: nat)
    requires Inv(s)
    ensures var v := Victim(s, pid, 0);
            Inv(Kill(s, pid)) <==> v == MAX_PROCESSES || s.state[v] != READY
  {
    var v := Victim(s, pid, 0);
    if v < MAX_PROCESSES {
      if s.state[v] == READY {
        KillHarmful(s, v);
      } else {
        KillHarmless(s, v);
      }
    }
  }

  // A process created at boot and killed while it waits runs all the same.
  lemma KilledRuns()
    ensures var s := Kill(Create(Initial()), 1);
            s.state[0] == TERMINATED && !Inv(s) && Next(s).state[0] == RUNNING && Next(s).pid[0] == 1
  {
    var s := Create(Initial());
    InitialInv();
    CreateInv(Initial());
    assert FreeSlot(Initial(), 0) == 0;
    KillHarmful(s, 0);
  }

  // ---------------------------------------------------------------- runs

  datatype Event = Schedule | CreateOrFork | Exit | WaitOrSleep | AddToReady(slot: nat) | KillPid(pid: nat)

  function Apply(s: Sched, e: Event): Sched
    requires Shaped(s) && (e.AddToReady? ==> e.slot < MAX_PROCESSES)
  {
    match e
    case Schedule => Next(s)
    case CreateOrFork => Create(s)
    case Exit => Leave(s, TERMINATED)
    case WaitOrSleep => Leave(s, BLOCKED)
    case AddToReady(i) => Wake(s, i)
    case KillPid(pid) => Kill(s, pid)
  }

  // Waking and killing are for processes that are not queued, leaving for one
  // that is not queued behind others, and pids must not run out; every other
  // call is always allowed.
  ghost predicate Permitted(s: Sched, e: Event) {
    && Shaped(s)
    && match e
       case AddToReady(i) => i < MAX_PROCESSES && s.state[i] != READY && s.pid[i] != 0
       case KillPid(pid) => var v := Victim(s, pid, 0); v == MAX_PROCESSES || s.state[v] != READY
       case CreateOrFork => PidLeft(s)
       case Schedule => true
       case _ => MayLeave(s)
  }

  ghost predicate StepOf(s: Sched, e: Event, t: Sched) {
    Permitted(s, e) && t == Apply(s, e)
  }

  // A run: the states before, between and after the events.
  ghost predicate RunOf(trace: seq<Sched>, es: seq<Event>) {
    && |trace| == |es| + 1
    && forall i | 0 <= i < |es| :: StepOf(trace[i], es[i], trace[i + 1])
  }

  lemma StepInv(s: Sched, e: Event, t: Sched)
    requires Inv(s) && StepOf(s, e, t)
    ensures Inv(t)
  {
    match e
    case Schedule => NextInv(s);
    case CreateOrFork => CreateInv(s);
    case Exit => LeaveInv(s, TERMINATED);
    case WaitOrSleep => LeaveInv(s, BLOCKED);
    case AddToReady(i) => WakeInv(s, i);
    case KillPid(pid) => KillInv(s, pid);
  }

  // Whatever is called in whatever order, as far as permitted, the invariant
  // holds throughout.
  lemma {:induction false} RunInv(trace: seq<Sched>, es: seq<Event>, i: nat)
    requires RunOf(trace, es) && Inv(trace[0]) && i <= |es|
    ensures Inv(trace[i])
  {
    if i > 0 {
      RunInv(trace, es, i - 1);
      StepInv(trace[i - 1], es[i - 1], trace[i]);
    }
  }

  // ---------------------------------------------------------------- what the events do

  // From s to t nothing has changed but the states of some slots, the queue and
  // the current slot.
  ghost predicate SameProcesses(s: Sched, t: Sched) {
    t.pid == s.pid && t.nextPid == s.nextPid
  }

  // From s to t no state has changed but those of slots a and b.
  ghost predicate OthersStay(s: Sched, t: Sched, a: nat, b: nat) {
    |t.state| == |s.state| && forall i | 0 <= i < |s.state| && i != a && i != b :: t.state[i] == s.state[i]
  }

  // Round robin: the running process goes to the end of the queue, and the one
  // at its head runs; alone it runs on. Without a running process the head of
  // the queue runs, or slot 0.
  lemma RoundRobin(s: Sched, t: Sched)
    requires Inv(s) && StepOf(s, Schedule, t)
    ensures Shaped(t) && SameProcesses(s, t) && t.state[t.current] == RUNNING
    ensures s.queue != [] ==> t.current == s.queue[0] && OthersStay(s, t, s.current, s.queue[0])
    ensures s.queue != [] && s.state[s.current] == RUNNING ==>
              t.current != s.current && t.state[s.current] == READY && t.queue == s.queue[1..] + [s.current]
    ensures s.queue != [] && s.state[s.current] != RUNNING ==>
              t.queue == s.queue[1..] && (s.current != s.queue[0] ==> t.state[s.current] == s.state[s.current])
    ensures s.queue == [] && s.state[s.current] == RUNNING ==> t == s
    ensures s.queue == [] && s.state[s.current] != RUNNING ==>
              t.current == 0 && t.queue == [] && OthersStay(s, t, 0, 0)
  {
    if s.queue == [] && s.state[s.current] == RUNNING {
      assert t.state == s.state && t.queue == s.queue;
    }
  }

  // exit, wait and sleep: the process at the head of the queue runs, or slot 0,
  // and the caller takes the state given unless it is itself that process.
  lemma LeaveDoes(s: Sched, e: Event, t: Sched)
    requires Inv(s) && StepOf(s, e, t) && (e.Exit? || e.WaitOrSleep?)
    ensures Shaped(t) && SameProcesses(s, t) && t.state[t.current] == RUNNING
    ensures t.current == (if s.queue == [] then 0 else s.queue[0])
    ensures t.queue == (if s.queue == [] then [] else s.queue[1..])
    ensures t.current != s.current ==> t.state[s.current] == if e.Exit? then TERMINATED else BLOCKED
    ensures OthersStay(s, t, s.current, t.current)
  {
  }

  // A process is created in the first slot that is terminated or has no pid; it
  // gets next_pid and waits at the end of the queue.
  lemma CreateDoes(s: Sched, t: Sched, i: nat)
    requires Inv(s) && StepOf(s, CreateOrFork, t) && i < MAX_PROCESSES
    requires s.state[i] == TERMINATED || s.pid[i] == 0
    requires forall j | 0 <= j < i :: s.state[j] != TERMINATED && s.pid[j] != 0
    ensures t.state == s.state[i := READY] && t.pid == s.pid[i := s.nextPid] && t.queue == s.queue + [i]
    ensures t.current == s.current && t.nextPid == s.nextPid + 1
  {
    assert Reusable(s, i);
    assert FreeSlot(s, 0) == i;
  }

  lemma NoneCreated(s: Sched, t: Sched)
    requires Inv(s) && StepOf(s, CreateOrFork, t)
    requires forall j | 0 <= j < MAX_PROCESSES :: s.state[j] != TERMINATED && s.pid[j] != 0
    ensures t == s
  {
    assert FreeSlot(s, 0) == MAX_PROCESSES;
  }

  // A process woken is READY and last in the queue.
  lemma WakeDoes(s: Sched, t: Sched, i: nat)
    requires Inv(s) && StepOf(s, AddToReady(i), t)
    ensures t.state == s.state[i := READY] && t.queue == s.queue + [i]
    ensures SameProcesses(s, t) && t.current == s.current
  {
  }

  // After a kill no slot holds a live process with that pid, and nothing else
  // has changed. 0 is the pid of every slot without a process.
  lemma KillDoes(s: Sched, t: Sched, pid: nat)
    requires Inv(s) && StepOf(s, KillPid(pid), t)
    ensures SameProcesses(s, t) && t.queue == s.queue && t.current == s.current && |t.state| == MAX_PROCESSES
    ensures forall i | 0 <= i < MAX_PROCESSES && s.pid[i] != pid :: t.state[i] == s.state[i]
    ensures pid != 0 ==> forall i | 0 <= i < MAX_PROCESSES && s.pid[i] == pid :: t.state[i] == TERMINATED
    ensures pid == 0 ==> forall i, j | 0 <= i < j < MAX_PROCESSES && s.pid[i] == 0 && s.state[i] != TERMINATED ::
                           t.state[j] == s.state[j]
  {
    var v := Victim(s, pid, 0);
    assert v < MAX_PROCESSES ==> s.pid[v] == pid && t.state[v] == TERMINATED;
  }

  // ---------------------------------------------------------------- who stays active

  ghost predicate Active(s: Sched, p: nat) {
    p < |s.state| && (s.state[p] == READY || s.state[p] == RUNNING)
  }

  // The event takes slot p out of scheduling: it exits, waits or sleeps while
  // current, or it is killed.
  ghost predicate Departs(s: Sched, e: Event, p: nat) {
    && Shaped(s)
    && match e
       case Exit => s.current == p
       case WaitOrSleep => s.current == p
       case KillPid(pid) => Victim(s, pid, 0) == p
       case _ => false
  }

  lemma ActiveStep(s: Sched, e: Event, t: Sched, p: nat)
    requires Inv(s) && StepOf(s, e, t) && Active(s, p) && !Departs(s, e, p)
    ensures Active(t, p)
  {
  }

  // Over any run a process that waits in the queue or runs goes on to do one of
  // the two unless it leaves itself or is killed.
  lemma {:induction false} StaysActive(trace: seq<Sched>, es: seq<Event>, i: nat, p: nat)
    requires RunOf(trace, es) && Inv(trace[0]) && i <= |es| && Active(trace[0], p)
    requires forall j | 0 <= j < i :: !Departs(trace[j], es[j], p)
    ensures Active(trace[i], p)
  {
    if i > 0 {
      StaysActive(trace, es, i - 1, p);
      RunInv(trace, es, i - 1);
      ActiveStep(trace[i - 1], es[i - 1], trace[i], p);
    }
  }

  // The current process runs, or - after the first process has taken over the
  // slot of the idle process - is about to.
  ghost predicate Seated(s: Sched)
    requires Shaped(s)
  {
    s.state[s.current] == RUNNING || (s.queue != [] && s.queue[0] == s.current)
  }

  // The event takes the current process out of its seat: it is killed, or woken
  // while it runs and others wait.
  ghost predicate Unseats(s: Sched, e: Event) {
    && Shaped(s)
    && match e
       case AddToReady(i) => i == s.current && s.queue != []
       case KillPid(pid) => Victim(s, pid, 0) == s.current
       case _ => false
  }

  // It leaves its seat with exactly these two events, and every scheduling event
  // seats another.
  lemma SeatedStep(s: Sched, e: Event, t: Sched)
    requires Inv(s) && StepOf(s, e, t)
    ensures Inv(t) && (Seated(s) ==> (Seated(t) <==> !Unseats(s, e)))
    ensures e.Schedule? || e.Exit? || e.WaitOrSleep? ==> Seated(t)
  {
    StepInv(s, e, t);
  }

  // So exit, wait and sleep are always allowed while none of the two occurs.
  lemma {:induction false} RunSeated(trace: seq<Sched>, es: seq<Event>, i: nat)
    requires RunOf(trace, es) && Inv(trace[0]) && Seated(trace[0]) && i <= |es|
    requires forall j | 0 <= j < i :: !Unseats(trace[j], es[j])
    ensures Inv(trace[i]) && Seated(trace[i]) && MayLeave(trace[i])
  {
    if i > 0 {
      RunSeated(trace, es, i - 1);
      SeatedStep(trace[i - 1], es[i - 1], trace[i]);
    }
  }

  // ---------------------------------------------------------------- bounded waiting

  predicate Schedules(e: Event) {
    e.Schedule? || e.Exit? || e.WaitOrSleep?
  }

  function CallOf(e: Event): nat {
    if Schedules(e) then 1 else 0
  }

  // Calls of scheduler_get_next among the first i events.
  function Calls(es: seq<Event>, i: nat): nat
    requires i <= |es|
  {
    if i == 0 then 0 else Calls(es, i - 1) + CallOf(es[i - 1])
  }

  ghost predicate WaitsAt(s: Sched, p: nat, k: int) {
    0 <= k < |s.queue| && s.queue[k] == p
  }

  // One event moves every waiting process up by one place if it schedules, and
  // not at all otherwise.
  lemma QueueMoves(s: Sched, e: Event, t: Sched, p: nat, k: nat)
    requires Inv(s) && StepOf(s, e, t) && WaitsAt(s, p, k) && CallOf(e) <= k
    ensures WaitsAt(t, p, k - CallOf(e))
  {
  }

  // The head of the queue runs after the next event that schedules.
  lemma HeadRuns(s: Sched, e: Event, t: Sched, p: nat)
    requires Inv(s) && StepOf(s, e, t) && WaitsAt(s, p, 0) && Schedules(e)
    ensures Shaped(t) && t.current == p && t.state[p] == RUNNING
  {
  }

  // While fewer than k + 1 calls have been made, the process is still waiting.
  lemma {:induction false} StillWaiting(trace: seq<Sched>, es: seq<Event>, i: nat, p: nat, k: nat)
    requires RunOf(trace, es) && Inv(trace[0]) && i <= |es|
    requires WaitsAt(trace[0], p, k) && Calls(es, i) <= k
    ensures WaitsAt(trace[i], p, k - Calls(es, i))
  {
    if i > 0 {
      StillWaiting(trace, es, i - 1, p, k);
      RunInv(trace, es, i - 1);
      QueueMoves(trace[i - 1], es[i - 1], trace[i], p, k - Calls(es, i - 1));
    }
  }

  lemma {:induction false} CallsGrow(es: seq<Event>, i: nat, j: nat)
    requires i <= j <= |es|
    ensures Calls(es, i) <= Calls(es, j)
  {
    if i < j {
      CallsGrow(es, i, j - 1);
    }
  }

  // The process at position k of the ready queue starts to run with exactly
  // the (k + 1)-th call of the scheduler, whatever else happens in between.
  lemma BoundedWaiting(trace: seq<Sched>, es: seq<Event>, i: nat, p: nat, k: nat)
    requires RunOf(trace, es) && Inv(trace[0]) && i < |es|
    requires WaitsAt(trace[0], p, k) && Calls(es, i) == k && Schedules(es[i])
    ensures Shaped(trace[i + 1]) && trace[i + 1].current == p && trace[i + 1].state[p] == RUNNING
    ensures forall j | 0 <= j <= i :: p in trace[j].queue
  {
    forall j | 0 <= j <= i
      ensures p in trace[j].queue
    {
      CallsGrow(es, j, i);
      StillWaiting(trace, es, j, p, k);
    }
    StillWaiting(trace, es, i, p, k);
    RunInv(trace, es, i);
    HeadRuns(trace[i], es[i], trace[i + 1], p);
  }

  lemma {:induction false} CallsTail(es: seq<Event>, i: nat)
    requires 1 <= i <= |es|
    ensures Calls(es, i) == CallOf(es[0]) + Calls(es[1..], i - 1)
  {
    if i > 1 {
      CallsTail(es, i - 1);
      assert es[1..][i - 2] == es[i - 1];
    } else {
      assert Calls(es, 0) == 0;
    }
  }

  // A process that is preempted waits and runs again with exactly the call
  // number |queue| + 1, counting the one that preempted it.
  lemma PreemptedReturns(trace: seq<Sched>, es: seq<Event>, i: nat)
    requires RunOf(trace, es) && Inv(trace[0]) && i < |es| && es[0] == Schedule
    requires trace[0].state[trace[0].current] == RUNNING
    requires Calls(es, i) == |trace[0].queue| && Schedules(es[i])
    ensures var p := trace[0].current;
            && Shaped(trace[i + 1]) && trace[i + 1].current == p && trace[i + 1].state[p] == RUNNING
            && forall j | 1 <= j <= i :: p in trace[j].queue
  {
    var p, n := trace[0].current, |trace[0].queue|;
    RoundRobin(trace[0], trace[1]);
    assert Calls(es, 0) == 0;
    if i > 0 {
      CallsTail(es, i);
    }
    if n > 0 {
      StepInv(trace[0], es[0], trace[1]);
      var tail, rest := trace[1..], es[1..];
      forall j | 0 <= j < |rest|
        ensures StepOf(tail[j], rest[j], tail[j + 1])
      {
        assert StepOf(trace[j + 1], es[j + 1], trace[j + 2]);
      }
      BoundedWaiting(tail, rest, i - 1, p, n - 1);
      forall j | 1 <= j <= i
        ensures p in trace[j].queue
      {
        assert tail[j - 1] == trace[j];
      }
    }
  }

  lemma {:induction false} DistinctCount(q: seq<nat>, n: nat)
    requires Distinct(q) && forall i | 0 <= i < |q| :: q[i] < n
    ensures |q| <= n
    decreases n
  {
    if q != [] {
      assert q[0] < n;
      if exists k :: 0 <= k < |q| && q[k] == n - 1 {
        var k :| 0 <= k < |q| && q[k] == n - 1;
        DistinctCount(q[..k] + q[k + 1..], n - 1);
      } else {
        DistinctCount(q, n - 1);
      }
    }
  }

  // So nobody waits for more than 64 calls.
  lemma WaitAtMost64(s: Sched, k: nat)
    requires Inv(s) && k < |s.queue|
    ensures k + 1 <= 64
  {
    DistinctCount(s.queue, MAX_PROCESSES);
  }
}
