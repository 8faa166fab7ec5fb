// kernel/process.c: the process table, the ready queue threaded through its
// slots, and the calls that change them.

module Process {
  import opened Options
  import opened SchedSpec
  import opened PcbLists

  // The address of kernel_page_dir; not NULL is all that counts here.
  const KERNEL_DIR: nat := 1

  // The table seen as the state machine's components.
  ghost function View(ts: seq<Pcb>, q: seq<nat>, current: nat, nextPid: nat): Sched {
    Sched(seq(|ts|, i requires 0 <= i < |ts| => ts[i].state), seq(|ts|, i requires 0 <= i < |ts| => ts[i].pid), q,
          current, nextPid)
  }

  lemma ViewLinks(ts: seq<Pcb>, us: seq<Pcb>, q: seq<nat>, current: nat, nextPid: nat)
    requires SameButLinks(ts, us)
    ensures View(us, q, current, nextPid) == View(ts, q, current, nextPid)
  {
    var v, w := View(ts, q, current, nextPid), View(us, q, current, nextPid);
    assert v.state == w.state && v.pid == w.pid;
  }

  // A change of slot i shows in the machine as a change of its state and pid.
  lemma ViewSlot(ts: seq<Pcb>, i: nat, p: Pcb, q: seq<nat>, current: nat, nextPid: nat)
    requires i < |ts|
    ensures var v := View(ts, q, current, nextPid);
            View(ts[i := p], q, current, nextPid) == v.(state := v.state[i := p.state], pid := v.pid[i := p.pid])
  {
    var v, w := View(ts, q, current, nextPid), View(ts[i := p], q, current, nextPid);
    assert w.state == v.state[i := p.state] && w.pid == v.pid[i := p.pid];
  }

  // The tables differ in links and states only.
  ghost predicate OnlyMoved(ts: seq<Pcb>, us: seq<Pcb>) {
    |us| == |ts| && forall i: nat | i < |ts| :: us[i] == ts[i].(next := us[i].next, state := us[i].state)
  }

  // Apart from one slot, only links differ.
  ghost predicate OthersKept(ts: seq<Pcb>, us: seq<Pcb>, slot: Option<nat>) {
    |us| == |ts| && forall i: nat | i < |ts| && slot != Some(i) :: us[i] == ts[i].(next := us[i].next)
  }

  // Apart from slot i, the table ts shows the processes of s.
  ghost predicate ShownBut(ts: seq<Pcb>, i: nat, s: Sched)
    requires Shaped(s)
  {
    && |ts| == MAX_PROCESSES && i < MAX_PROCESSES
    && forall j | 0 <= j < MAX_PROCESSES && j != i :: ts[j].state == s.state[j] && ts[j].pid == s.pid[j]
  }

  lemma ShowsCreate(ts: seq<Pcb>, i: nat, p: Pcb, s: Sched)
    requires Shaped(s) && ShownBut(ts, i, s) && i == FreeSlot(s, 0) && p.pid == s.nextPid && p.state == READY
    ensures View(ts[i := p], s.queue + [i], s.current, PidAfter(s.nextPid)) == Create(s)
  {
    var v := View(ts[i := p], s.queue + [i], s.current, PidAfter(s.nextPid));
    assert v.state == s.state[i := READY] && v.pid == s.pid[i := s.nextPid];
  }

  lemma StartedOthers(ts: seq<Pcb>, us: seq<Pcb>, vs: seq<Pcb>, i: nat, e: Pcb, p: Pcb)
    requires i < |ts| && us == ts[i := e] && SameButLinks(us[i := p], vs)
    ensures OthersKept(ts, vs, Some(i))
  {
  }

  class ProcessManager {
    const table: array<Pcb>
    var current: Option<nat>
    var head: Option<nat>
    var nextPid: nat
    ghost var queue: seq<nat>

    // The queue is well linked; nothing about states.
    ghost predicate Linked()
      reads this, table
    {
      table.Length == MAX_PROCESSES && Chain(table[..], head, queue)
    }

    // The machine if slot c were current.
    ghost function MachineAt(c: nat): Sched
      reads this, table
    {
      View(table[..], queue, c, nextPid)
    }

    ghost function Machine(): Sched
      requires current.Some?
      reads this, table
    {
      MachineAt(current.value)
    }

    ghost predicate Valid()
      reads this, table
    {
      Linked() && current.Some? && Inv(Machine())
    }

    // ---- the queue

    // kernel/process.c:22-23: along the links of q up to its slot last, where
    // they end.
    method WalkToLast(start: nat, ghost q: seq<nat>, ghost last: nat) returns (p: nat)
      requires table.Length == MAX_PROCESSES && last < |q| && q[0] == start
      requires forall i | 0 <= i <= last :: q[i] < MAX_PROCESSES
      requires forall i | 0 <= i < last :: table[q[i]].next == NextOf(q, i)
      requires table[q[last]].next == None
      ensures p == q[last]
    {
      p := start;
      ghost var k := 0;
      while table[p].next != None
        invariant 0 <= k <= last && p == q[k]
        decreases last - k
      {
        p := table[p].next.value;
        k := k + 1;
      }
    }

    // kernel/process.c:22-24.
    method HangBehind(proc: nat, ghost q: seq<nat>, ghost last: nat)
      requires table.Length == MAX_PROCESSES && last < |q| && head == Some(q[0])
      requires forall i | 0 <= i <= last :: q[i] < MAX_PROCESSES
      requires forall i | 0 <= i < last :: table[q[i]].next == NextOf(q, i)
      requires table[q[last]].next == None
      modifies table
      ensures table[..] == LinkedTo(old(table[..]), q[last], proc)
    {
      var p := WalkToLast(head.value, q, last);
      table[p] := table[p].(next := Some(proc));
    }

    method UnlinkAndHang(proc: nat, ghost q: seq<nat>)
      requires table.Length == MAX_PROCESSES && proc < MAX_PROCESSES && q != [] && Chain(table[..], head, q)
      modifies table
      ensures table[..] == LinkedTo(Unlinked(old(table[..]), proc), q[WalkEnd(q, proc)], proc)
    {
      ghost var ts := table[..];
      table[proc] := table[proc].(next := None);
      assert table[..] == Unlinked(ts, proc);
      LinksUpTo(ts, table[..], q, proc, WalkEnd(q, proc));
      HangBehind(proc, q, WalkEnd(q, proc));
    }

    // kernel/process.c:17-26. A slot queued twice ends up linked to itself.
    method Enqueue(proc: nat)
      requires Linked() && proc < MAX_PROCESSES
      modifies this`head, this`queue, table
      ensures SameButLinks(old(table[..]), table[..])
      ensures proc !in old(queue) ==> Linked() && queue == old(queue) + [proc]
      ensures proc in old(queue) ==>
                table[proc].next == Some(proc) && queue == old(queue) && forall q :: !Chain(table[..], head, q)
    {
      if head == None {
        Enqueued(table[..], None, queue, proc);
        table[proc] := table[proc].(next := None);
        assert table[..] == Unlinked(old(table[..]), proc);
        head := Some(proc);
        queue := [proc];
      } else {
        EnqueueOutcome(table[..], head, queue, proc);
        UnlinkAndHang(proc, queue);
        if proc !in queue {
          queue := queue + [proc];
        }
      }
    }

    method Dequeue() returns (p: Option<nat>)
      requires Linked()
      modifies this`head, this`queue, table
      ensures Linked() && SameButLinks(old(table[..]), table[..])
      ensures old(queue) == [] ==> p == None && queue == []
      ensures old(queue) != [] ==> p == Some(old(queue)[0]) && queue == old(queue)[1..]
    {
      if head == None {
        return None;
      }
      ghost var ts := table[..];
      p := head;
      assert ts[queue[0]].next == NextOf(queue, 0);
      head := table[p.value].next;
      table[p.value] := table[p.value].(next := None);
      ChainTail(ts, table[..], Some(queue[0]), queue);
      queue := queue[1..];
    }

    // Slot i takes state st.
    method SetState(i: nat, st: State, ghost c: nat)
      requires Linked() && i < MAX_PROCESSES
      modifies table
      ensures Linked() && MachineAt(c) == old(MachineAt(c)).(state := old(MachineAt(c)).state[i := st])
      ensures OnlyMoved(old(table[..]), table[..])
    {
      ghost var ts := table[..];
      ChainSlot(ts, i, ts[i].(state := st), head, queue);
      ViewSlot(ts, i, ts[i].(state := st), queue, c, nextPid);
      table[i] := table[i].(state := st);
      assert table[..] == ts[i := ts[i].(state := st)];
      assert old(MachineAt(c)).pid[i := ts[i].pid] == old(MachineAt(c)).pid;
    }

    // ---- scheduling

    // kernel/process.c:42-52.
    method DispatchNext(ghost c: nat) returns (next: nat)
      requires Linked() && Shaped(MachineAt(c))
      modifies this`current, this`head, this`queue, table
      ensures Linked() && current == Some(next)
      ensures MachineAt(next) == Dispatch(old(MachineAt(c))) && OnlyMoved(old(table[..]), table[..])
    {
      ghost var ts := table[..];
      var p := Dequeue();
      ViewLinks(ts, table[..], queue, c, nextPid);
      if p == None {
        next := 0;
      } else {
        next := p.value;
      }
      SetState(next, RUNNING, c);
      current := Some(next);
    }

    // Without a current process there is nothing to put back; c stands for it
    // then.
    method SchedulerGetNext(ghost c: nat) returns (next: nat)
      requires Linked() && Shaped(MachineAt(c)) && (current.Some? ==> current.value == c)
      requires current.Some? && MachineAt(c).state[c] == RUNNING ==> c !in queue
      modifies this`current, this`head, this`queue, table
      ensures Linked() && current == Some(next) && OnlyMoved(old(table[..]), table[..])
      ensures Machine() == if old(current).Some? then Next(old(MachineAt(c))) else Dispatch(old(MachineAt(c)))
    {
      ghost var s := MachineAt(c);
      if current.Some? && table[current.value].state == RUNNING {
        SetState(current.value, READY, c);
        ghost var ts := table[..];
        Enqueue(current.value);
        ViewLinks(ts, table[..], queue, c, nextPid);
      }
      assert MachineAt(c) == if current.Some? then Requeue(s) else s;
      next := DispatchNext(c);
    }

    // ---- the calls

    constructor ()
      ensures table.Length == MAX_PROCESSES && fresh(table) && current == None
    {
      table := new Pcb[MAX_PROCESSES](_ => CLEARED);
      current, head, nextPid, queue := None, None, 1, [];
    }

    // The memset of kernel/process.c:68.
    method ClearTable()
      modifies table
      ensures forall i | 0 <= i < table.Length :: table[i] == CLEARED
    {
      for i := 0 to table.Length
        invariant forall j | 0 <= j < i :: table[j] == CLEARED
      {
        table[i] := CLEARED;
      }
    }

    method InitProcessManager()
      requires table.Length == MAX_PROCESSES
      modifies this, table
      ensures Valid() && Machine() == Initial()
      ensures table[0] == CLEARED.(name := "idle", state := RUNNING, pageDir := KERNEL_DIR, brk := 0x10_0000,
                                   fd := NO_FILES, timeSlice := 10)
      ensures forall i | 0 < i < MAX_PROCESSES :: table[i] == CLEARED
    {
      ClearTable();
      head := None;
      queue := [];
      table[0] := table[0].(pid := 0, name := "idle", state := RUNNING, pageDir := KERNEL_DIR, brk := 0x10_0000,
                            timeSlice := 10, fd := NO_FILES);
      current := Some(0);
      nextPid := 1;
      assert Machine().state == Initial().state;
      assert Machine().pid == Initial().pid;
      InitialInv();
    }

    // Slot i has been cleared for a new process; ts and s are the table and the
    // machine before that.
    ghost predicate Claimed(i: nat, s: Sched, ts: seq<Pcb>)
      reads this, table
    {
      && Linked() && current.Some? && Inv(s) && i == FreeSlot(s, 0) < MAX_PROCESSES && i !in queue
      && queue == s.queue && current.value == s.current && nextPid == PidAfter(s.nextPid)
      && |ts| == MAX_PROCESSES && table[..] == ts[i := CLEARED.(pid := s.nextPid, timeSlice := 10, fd := NO_FILES)]
      && ShownBut(table[..], i, s)
    }

    // A slot for a new process, or None.
    method CreateProcessEmpty() returns (r: Option<nat>)
      requires Valid()
      modifies this`nextPid, table
      ensures current == old(current)
      ensures r == None ==>
                && FreeSlot(old(Machine()), 0) == MAX_PROCESSES && nextPid == old(nextPid)
                && table[..] == old(table[..]) && Valid()
                && Machine() == Create(old(Machine())) && PidLeft(old(Machine()))
      ensures r.Some? ==> Claimed(r.value, old(Machine()), old(table[..]))
    {
      ghost var s := Machine();
      for i := 0 to MAX_PROCESSES
        invariant FreeSlot(s, i) == FreeSlot(s, 0) && table[..] == old(table[..]) && nextPid == old(nextPid)
      {
        if table[i].state == TERMINATED || table[i].pid == 0 {
          assert Reusable(s, i);
          assert s.state[i] != READY;
          ghost var ts := table[..];
          var p := CLEARED.(pid := nextPid, timeSlice := 10, fd := NO_FILES);
          ChainSlot(ts, i, p, head, queue);
          table[i] := p;
          nextPid := PidAfter(nextPid);
          return Some(i);
        }
      }
      return None;
    }

    // The tail common to fork_process and create_process: slot i, filled in,
    // becomes READY at the end of the queue.
    method Start(i: nat, p: Pcb, ghost s: Sched, ghost ts0: seq<Pcb>)
      requires Claimed(i, s, ts0) && p.next == table[i].next && p.pid == s.nextPid && p.state == READY
      modifies this`head, this`queue, table
      ensures Linked() && Machine() == Create(s) && (Valid() <==> PidLeft(s))
      ensures table[i] == p.(next := None) && OthersKept(ts0, table[..], Some(i))
    {
      ghost var ts := table[..];
      ShowsCreate(ts, i, p, s);
      ChainSlot(ts, i, p, head, queue);
      table[i] := p;
      assert table[..] == ts[i := p];
      ghost var us := table[..];
      Enqueue(i);
      ViewLinks(us, table[..], queue, current.value, nextPid);
      CreateInv(s);
      assert queue[|queue| - 1] == i;
      assert table[i] == us[i].(next := table[i].next) && table[i].next == NextOf(queue, |queue| - 1);
      StartedOthers(ts0, ts, table[..], i, ts[i], p);
    }

    method ForkProcess() returns (child: Option<nat>)
      requires Valid()
      modifies this`head, this`queue, this`nextPid, table
      ensures Linked() && Machine() == Create(old(Machine())) && (Valid() <==> PidLeft(old(Machine())))
      ensures OthersKept(old(table[..]), table[..], child)
      ensures child == (var i := FreeSlot(old(Machine()), 0); if i == MAX_PROCESSES then None else Some(i))
      // The child continues where the parent was, with 0 as its result - unless
      // it has taken over the parent's own slot, which is cleared by then.
      ensures child.Some? ==>
                table[child.value] ==
                var parent := if child == current then CLEARED.(fd := NO_FILES) else old(table[current.value]);
                CLEARED.(pid := old(nextPid), name := parent.name, state := READY,
                         context := parent.context.(eax := 0), pageDir := parent.pageDir,
                         brk := parent.brk, fd := parent.fd, parent := current, timeSlice := 10)
    {
      ghost var s := Machine();
      var slot := CreateProcessEmpty();
      if slot == None {
        return None;
      }
      var i := slot.value;
      var parent := table[current.value];
      var p := table[i].(name := parent.name, parent := current, pageDir := parent.pageDir, brk := parent.brk,
                         fd := parent.fd,
                         context := parent.context.(eax := 0), state := READY);
      Start(i, p, s, old(table[..]));
      return Some(i);
    }

    // strcpy must not run out of the name field.
    method CreateProcess(name: string, entry: nat, stackTop: nat) returns (child: Option<nat>)
      requires Valid() && |name| <= MAX_NAME
      modifies this`head, this`queue, this`nextPid, table
      ensures Linked() && Machine() == Create(old(Machine())) && (Valid() <==> PidLeft(old(Machine())))
      ensures OthersKept(old(table[..]), table[..], child)
      ensures child == (var i := FreeSlot(old(Machine()), 0); if i == MAX_PROCESSES then None else Some(i))
      ensures child.Some? ==>
                table[child.value] == CLEARED.(pid := old(nextPid), name := name, state := READY,
                                               context := ZERO.(eip := entry, esp := stackTop),
                                               pageDir := if child == current then 0
                                                          else old(table[current.value]).pageDir,
                                               brk := 0x10_0000, fd := NO_FILES, timeSlice := 10)
    {
      ghost var s := Machine();
      var slot := CreateProcessEmpty();
      if slot == None {
        return None;
      }
      var i := slot.value;
      var p := table[i].(name := name, context := table[i].context.(eip := entry, esp := stackTop, ebp := 0),
                         pageDir := table[current.value].pageDir, brk := 0x10_0000, state := READY);
      Start(i, p, s, old(table[..]));
      return Some(i);
    }

    method ExitProcess(exitCode: int)
      requires Valid()
      modifies this`current, this`head, this`queue, table
      ensures Linked() && current.Some? && Machine() == Leave(old(Machine()), TERMINATED)
      ensures Valid() <==> MayLeave(old(Machine()))
      ensures OnlyMoved(old(table[..])[old(current.value) := old(table[current.value]).(exitCode := exitCode)],
                        table[..])
    {
      ghost var s, ts := Machine(), table[..];
      var p := table[current.value].(exitCode := exitCode);
      ChainSlot(ts, current.value, p, head, queue);
      ViewSlot(ts, current.value, p, queue, current.value, nextPid);
      table[current.value] := p;
      assert table[..] == ts[current.value := p];
      assert s.state[s.current := p.state] == s.state && s.pid[s.current := p.pid] == s.pid;
      SetState(current.value, TERMINATED, s.current);
      LeaveInv(s, TERMINATED);
      var next := SchedulerGetNext(s.current);
    }

    // wait_process and sleep_process: both ignore their argument.
    method Block()
      requires Valid()
      modifies this`current, this`head, this`queue, table
      ensures Linked() && current.Some? && Machine() == Leave(old(Machine()), BLOCKED)
      ensures Valid() <==> MayLeave(old(Machine()))
      ensures OnlyMoved(old(table[..]), table[..])
    {
      ghost var c := current.value;
      LeaveInv(Machine(), BLOCKED);
      SetState(current.value, BLOCKED, c);
      var next := SchedulerGetNext(c);
    }

    // kernel/process.c:168-170: the first slot that holds a live process pid.
    method FindVictim(pid: nat) returns (v: nat)
      requires Valid()
      ensures v == Victim(Machine(), pid, 0)
    {
      ghost var s := Machine();
      v := 0;
      while v < MAX_PROCESSES && !(table[v].pid == pid && table[v].state != TERMINATED)
        invariant v <= MAX_PROCESSES && Victim(s, pid, v) == Victim(s, pid, 0)
      {
        assert s.pid[v] == table[v].pid && s.state[v] == table[v].state;
        v := v + 1;
      }
      assert v < MAX_PROCESSES ==> s.pid[v] == table[v].pid && s.state[v] == table[v].state;
    }

    // The invariant survives exactly when the victim does not wait in the queue.
    method KillProcess(pid: nat) returns (r: int)
      requires Valid()
      modifies table
      ensures Linked() && Machine() == Kill(old(Machine()), pid) && OnlyMoved(old(table[..]), table[..])
      ensures var v := Victim(old(Machine()), pid, 0);
              && r == (if v == MAX_PROCESSES then -1 else 0)
              && (Valid() <==> v == MAX_PROCESSES || old(Machine()).state[v] != READY)
    {
      KillInv(Machine(), pid);
      var v := FindVictim(pid);
      if v == MAX_PROCESSES {
        return -1;
      }
      SetState(v, TERMINATED, current.value);
      return 0;
    }

    // A slot that is queued already - as after create_process - is linked to
    // itself, and no list of slots describes the queue any more.
    method AddToReadyQueue(proc: Option<nat>)
      requires Valid() && (proc.Some? ==> proc.value < MAX_PROCESSES)
      modifies this`head, this`queue, table
      ensures OnlyMoved(old(table[..]), table[..])
      ensures proc == None ==> Valid() && Machine() == old(Machine())
      ensures proc.Some? && proc.value !in old(queue) ==>
                && Linked() && Machine() == Wake(old(Machine()), proc.value)
                && (Valid() <==> old(Machine()).pid[proc.value] != 0)
      ensures proc.Some? && proc.value in old(queue) ==>
                table[proc.value].next == proc && forall q :: !Chain(table[..], head, q)
    {
      if proc == None {
        return;
      }
      ghost var s := Machine();
      WakeInv(s, proc.value);
      SetState(proc.value, READY, current.value);
      ghost var ts := table[..];
      Enqueue(proc.value);
      if proc.value !in old(queue) {
        ViewLinks(ts, table[..], queue, current.value, nextPid);
      }
    }
  }
}
