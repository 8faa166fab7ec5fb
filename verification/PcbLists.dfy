// Process control blocks and the lists threaded through their next links
// (include/process.h); kernel/process.c and kernel/scheduler.c both keep such
// lists.

module PcbLists {
  import opened Options
  import opened SchedSpec

  // The register context a fork copies.
  datatype Context = Context(eax: nat, ebx: nat, ecx: nat, edx: nat, esi: nat, edi: nat, ebp: nat, esp: nat,
                             eip: nat, eflags: nat, cs: nat, ds: nat, es: nat, fs: nat, gs: nat, ss: nat)

  const ZERO: Context := Context(0, 0, 0, 0, 0, 0, 0, 0, 0, 0, 0, 0, 0, 0, 0, 0)

  // pcb_t (include/process.h:18-54); slots stand for pointers into the table,
  // name for the text before its terminator.
  datatype Pcb = Pcb(kernelEsp: nat, pageDirPhys: nat, pid: nat, name: string, state: State, context: Context,
                     pageDir: nat,
                     brk: nat, fd: seq<int>, parent: Option<nat>, children: Option<nat>, sibling: Option<nat>,
                     next: Option<nat>, timeSlice: nat, exitCode: int, wakeupTime: nat)

  // Characters that fit into name with a terminator.
  const MAX_NAME: nat := 31

  // No descriptor is open.
  const NO_FILES: seq<int> := seq(16, _ => -1)

  // A slot after memset.
  const CLEARED: Pcb := Pcb(0, 0, 0, "", NEW, ZERO, 0, 0, seq(16, _ => 0), None, None, None, None, 0, 0, 0)

  // ---------------------------------------------------------------- the linked queue

  // The link of the i-th slot of a list.
  function NextOf(q: seq<nat>, i: nat): Option<nat>
    requires i < |q|
  {
    if i + 1 < |q| then Some(q[i + 1]) else None
  }

  // The links from head lead through the slots of q, in order, and end there.
  ghost predicate Chain(ts: seq<Pcb>, head: Option<nat>, q: seq<nat>) {
    && |ts| == MAX_PROCESSES && Distinct(q)
    && (forall i | 0 <= i < |q| :: q[i] < MAX_PROCESSES)
    && head == (if q == [] then None else Some(q[0]))
    && forall i {:trigger NextOf(q, i)} | 0 <= i < |q| :: ts[q[i]].next == NextOf(q, i)
  }

  ghost function IndexOf(q: seq<nat>, x: nat): (i: nat)
    requires x in q
    ensures i < |q| && q[i] == x
  {
    var i :| 0 <= i < |q| && q[i] == x;
    i
  }

  // Two lists from the same head run through the same slots as long as the
  // links agree.
  lemma {:induction false} SamePath(ts: seq<Pcb>, us: seq<Pcb>, head: Option<nat>, q: seq<nat>, r: seq<nat>, j: nat)
    requires Chain(ts, head, q) && Chain(us, head, r) && j < |q|
    requires forall i | 0 <= i < j :: us[q[i]].next == ts[q[i]].next
    ensures j < |r| && r[j] == q[j]
  {
    if j > 0 {
      SamePath(ts, us, head, q, r, j - 1);
      assert ts[q[j - 1]].next == NextOf(q, j - 1);
      assert us[r[j - 1]].next == NextOf(r, j - 1);
    }
  }

  lemma NoSelfLink(ts: seq<Pcb>, head: Option<nat>, q: seq<nat>, i: nat)
    requires Chain(ts, head, q) && i < |q|
    ensures ts[q[i]].next != Some(q[i])
  {
    assert ts[q[i]].next == NextOf(q, i);
  }

  // Once a slot of a queue is linked to itself the links from the head lead
  // around for ever: no list of slots describes them.
  lemma SelfLoop(ts: seq<Pcb>, us: seq<Pcb>, head: Option<nat>, q: seq<nat>, p: nat)
    requires Chain(ts, head, q) && p in q && |us| == |ts|
    requires us[p].next == Some(p) && forall i: nat | i < |ts| && i != p :: us[i].next == ts[i].next
    ensures forall r :: !Chain(us, head, r)
  {
    forall r
      ensures !Chain(us, head, r)
    {
      if Chain(us, head, r) {
        var i := IndexOf(q, p);
        SamePath(ts, us, head, q, r, i);
        NoSelfLink(us, head, r, i);
      }
    }
  }

  // The tables differ in links only.
  ghost predicate SameButLinks(ts: seq<Pcb>, us: seq<Pcb>) {
    |ts| == |us| && forall i | 0 <= i < |ts| :: us[i] == ts[i].(next := us[i].next)
  }

  // Hanging slot p behind the last of a list that does not hold it.
  lemma ChainAppend(ts: seq<Pcb>, us: seq<Pcb>, head: Option<nat>, q: seq<nat>, p: nat)
    requires Chain(ts, head, q) && p < MAX_PROCESSES && p !in q && |us| == |ts|
    requires us[p].next == None
    requires q != [] ==> us[q[|q| - 1]].next == Some(p)
    requires forall i | 0 <= i < |q| - 1 :: us[q[i]].next == ts[q[i]].next
    ensures Chain(us, if q == [] then Some(p) else head, q + [p])
  {
    var r := q + [p];
    forall i | 0 <= i < |r|
      ensures us[r[i]].next == NextOf(r, i)
    {
      if i < |q| - 1 {
        assert ts[q[i]].next == NextOf(q, i);
      }
    }
  }

  function Unlinked(ts: seq<Pcb>, p: nat): seq<Pcb>
    requires p < |ts|
  {
    ts[p := ts[p].(next := None)]
  }

  function LinkedTo(ts: seq<Pcb>, l: nat, p: nat): seq<Pcb>
    requires l < |ts|
  {
    ts[l := ts[l].(next := Some(p))]
  }

  // Once slot p is unlinked the list ends at p, or where it ended before.
  lemma LinksUpTo(ts: seq<Pcb>, us: seq<Pcb>, q: seq<nat>, p: nat, last: nat)
    requires |ts| == MAX_PROCESSES && p < MAX_PROCESSES && us == Unlinked(ts, p) && Distinct(q) && last < |q|
    requires forall i | 0 <= i < |q| :: q[i] < MAX_PROCESSES && ts[q[i]].next == NextOf(q, i)
    requires if p in q then q[last] == p else last == |q| - 1
    ensures forall i | 0 <= i < last :: us[q[i]].next == NextOf(q, i)
    ensures us[q[last]].next == None
  {
    forall i | 0 <= i < last
      ensures us[q[i]].next == NextOf(q, i)
    {
      assert q[i] != q[last];
    }
  }

  // What enqueue_process leaves behind: the slot hung behind the last one.
  lemma Enqueued(ts: seq<Pcb>, head: Option<nat>, q: seq<nat>, p: nat)
    requires Chain(ts, head, q) && p < MAX_PROCESSES && p !in q
    ensures q == [] ==> Chain(Unlinked(ts, p), Some(p), [p])
    ensures q != [] ==> Chain(LinkedTo(Unlinked(ts, p), q[|q| - 1], p), head, q + [p])
  {
    if q != [] {
      var us := LinkedTo(Unlinked(ts, p), q[|q| - 1], p);
      forall i | 0 <= i < |q| - 1
        ensures us[q[i]].next == ts[q[i]].next
      {
        assert q[i] != q[|q| - 1];
      }
      ChainAppend(ts, us, head, q, p);
    }
  }

  // Where the walk of enqueue_process ends: at the slot itself if it is queued
  // already, for its link has just been cleared, or else at the last slot.
  ghost function WalkEnd(q: seq<nat>, p: nat): (last: nat)
    requires q != []
    ensures last < |q| && if p in q then q[last] == p else last == |q| - 1
  {
    if p in q then IndexOf(q, p) else |q| - 1
  }

  lemma EnqueueOutcome(ts: seq<Pcb>, head: Option<nat>, q: seq<nat>, p: nat)
    requires Chain(ts, head, q) && p < MAX_PROCESSES && q != []
    ensures var vs := LinkedTo(Unlinked(ts, p), q[WalkEnd(q, p)], p);
            && SameButLinks(ts, vs)
            && (p !in q ==> Chain(vs, head, q + [p]))
            && (p in q ==> vs[p].next == Some(p) && forall r :: !Chain(vs, head, r))
  {
    if p !in q {
      Enqueued(ts, head, q, p);
    } else {
      SelfLoop(ts, LinkedTo(Unlinked(ts, p), q[WalkEnd(q, p)], p), head, q, p);
    }
  }

  lemma ChainTail(ts: seq<Pcb>, us: seq<Pcb>, head: Option<nat>, q: seq<nat>)
    requires Chain(ts, head, q) && q != [] && |us| == |ts|
    requires forall i | 1 <= i < |q| :: us[q[i]].next == ts[q[i]].next
    ensures Chain(us, ts[q[0]].next, q[1..])
  {
    assert ts[q[0]].next == NextOf(q, 0);
    forall i | 0 <= i < |q| - 1
      ensures us[q[1..][i]].next == NextOf(q[1..], i)
    {
      assert ts[q[i + 1]].next == NextOf(q, i + 1);
    }
  }

  // Changing a slot keeps a list that does not run through it, or if its link stays.
  lemma ChainSlot(ts: seq<Pcb>, i: nat, p: Pcb, head: Option<nat>, q: seq<nat>)
    requires Chain(ts, head, q) && i < |ts| && (p.next == ts[i].next || i !in q)
    ensures Chain(ts[i := p], head, q)
  {
    forall j | 0 <= j < |q|
      ensures ts[i := p][q[j]].next == NextOf(q, j)
    {
      assert ts[q[j]].next == NextOf(q, j);
    }
  }
}
