// kernel/scheduler.c: the ready queue with a tail pointer, the blocked queue,
// and the loop of the timer tick that moves sleepers from one to the other.

module Scheduler {
  import opened Options
  import opened SchedSpec
  import opened PcbLists
  import opened WakeOrder

  // The tick counter is a uint32_t.
  const TICKS: nat := 0x1_0000_0000

  function TailOf(q: seq<nat>): Option<nat> {
    if q == [] then None else Some(q[|q| - 1])
  }

  function At(q: seq<nat>, i: nat): Option<nat> {
    if i < |q| then Some(q[i]) else None
  }

  ghost predicate Apart(q: seq<nat>, w: seq<nat>) {
    forall x | x in q :: x !in w
  }

  // The list that is left when the link of p is cleared.
  ghost function Cut(q: seq<nat>, p: nat): seq<nat> {
    if p in q then q[..IndexOf(q, p) + 1] else q
  }

  ghost function Removed(q: seq<nat>, p: nat): seq<nat> {
    if p in q then q[..IndexOf(q, p)] + q[IndexOf(q, p) + 1..] else q
  }

  function Relinked(ts: seq<Pcb>, l: nat, n: Option<nat>): seq<Pcb>
    requires l < |ts|
  {
    ts[l := ts[l].(next := n)]
  }

  lemma CutChain(ts: seq<Pcb>, head: Option<nat>, q: seq<nat>, p: nat)
    requires Chain(ts, head, q) && p < MAX_PROCESSES
    ensures Chain(Unlinked(ts, p), head, Cut(q, p))
  {
    var us, r := Unlinked(ts, p), Cut(q, p);
    forall i | 0 <= i < |r|
      ensures us[r[i]].next == NextOf(r, i)
    {
      assert ts[q[i]].next == NextOf(q, i);
    }
  }

  // The links after kernel/scheduler.c:28-36.
  function Hung(ts: seq<Pcb>, tail: Option<nat>, p: nat): seq<Pcb>
    requires p < |ts| && (tail.Some? ==> tail.value < |ts|)
  {
    if tail == None then Unlinked(ts, p) else LinkedTo(Unlinked(ts, p), tail.value, p)
  }

  // Hanging p behind a queue leaves a list that does not share slots with it
  // as it was, or cut behind p.
  lemma OtherCut(ts: seq<Pcb>, q: seq<nat>, b: Option<nat>, w: seq<nat>, p: nat)
    requires Chain(ts, b, w) && Apart(q, w) && p < MAX_PROCESSES && forall i | 0 <= i < |q| :: q[i] < MAX_PROCESSES
    ensures Chain(Hung(ts, TailOf(q), p), b, Cut(w, p)) && SameButLinks(ts, Hung(ts, TailOf(q), p))
  {
    CutChain(ts, b, w, p);
    if q != [] {
      var us, l := Unlinked(ts, p), q[|q| - 1];
      assert l !in Cut(w, p);
      ChainSlot(us, l, us[l].(next := Some(p)), b, Cut(w, p));
    }
  }

  lemma ApartAdded(q: seq<nat>, w: seq<nat>, p: nat)
    requires Apart(q, w)
    ensures Apart(q + [p], Cut(w, p)) <==> p !in w
  {
    assert (q + [p])[|q|] == p;
    if p in w {
      assert Cut(w, p)[IndexOf(w, p)] == p;
    }
  }

  lemma AddedNew(ts: seq<Pcb>, head: Option<nat>, q: seq<nat>, p: nat)
    requires Chain(ts, head, q) && p < MAX_PROCESSES && p !in q
    ensures Chain(Hung(ts, TailOf(q), p), if q == [] then Some(p) else head, q + [p]) && TailOf(q + [p]) == Some(p)
  {
    Enqueued(ts, head, q, p);
  }

  lemma AddedTwice(ts: seq<Pcb>, head: Option<nat>, q: seq<nat>, p: nat)
    requires Chain(ts, head, q) && p in q && q[|q| - 1] != p
    ensures Chain(Hung(ts, TailOf(q), p), head, Cut(q, p)) && TailOf(Cut(q, p)) == Some(p)
  {
    var us, l := Unlinked(ts, p), q[|q| - 1];
    CutChain(ts, head, q, p);
    assert l !in Cut(q, p);
    ChainSlot(us, l, us[l].(next := Some(p)), head, Cut(q, p));
  }

  lemma AddedLast(ts: seq<Pcb>, head: Option<nat>, q: seq<nat>, p: nat)
    requires Chain(ts, head, q) && q != [] && q[|q| - 1] == p
    ensures Hung(ts, Some(p), p)[p].next == Some(p) && forall r :: !Chain(Hung(ts, Some(p), p), head, r)
  {
    SelfLoop(ts, Hung(ts, Some(p), p), head, q, p);
  }

  lemma LinkKept(ts: seq<Pcb>, us: seq<Pcb>, q: seq<nat>, i: nat, j: nat)
    requires |ts| == MAX_PROCESSES && Distinct(q) && i < |q| && j < |q| - 1
             && forall k | 0 <= k < |q| :: q[k] < MAX_PROCESSES
    requires us == if i == 0 then ts else Relinked(ts, q[i - 1], NextOf(q, i))
    requires forall k {:trigger NextOf(q, k)} | 0 <= k < |q| :: ts[q[k]].next == NextOf(q, k)
    ensures var r := q[..i] + q[i + 1..]; us[r[j]].next == NextOf(r, j)
  {
    var r, l := q[..i] + q[i + 1..], if j < i then j else j + 1;
    assert r[j] == q[l] && ts[q[l]].next == NextOf(q, l);
    assert i > 0 && l != i - 1 ==> q[l] != q[i - 1];
  }

  // Leading the links past the i-th process of a list.
  lemma TakenOut(ts: seq<Pcb>, head: Option<nat>, q: seq<nat>, i: nat)
    requires Chain(ts, head, q) && i < |q|
    ensures Chain(if i == 0 then ts else Relinked(ts, q[i - 1], ts[q[i]].next), if i == 0 then ts[q[0]].next else head,
                  q[..i] + q[i + 1..])
  {
    var us := if i == 0 then ts else Relinked(ts, q[i - 1], ts[q[i]].next);
    var r := q[..i] + q[i + 1..];
    assert ts[q[i]].next == NextOf(q, i);
    forall j | 0 <= j < |r|
      ensures us[r[j]].next == NextOf(r, j)
    {
      LinkKept(ts, us, q, i, j);
    }
  }

  // Wherever p stands in a queue, removing it leaves what is before and what is
  // behind, and cutting the queue there what is before, and p.
  lemma AroundIs(a: seq<nat>, p: nat, b: seq<nat>)
    requires Distinct(a + [p] + b)
    ensures Removed(a + [p] + b, p) == a + b && Cut(a + [p] + b, p) == a + [p]
  {
    var q := a + [p] + b;
    assert q[|a|] == p;
    assert IndexOf(q, p) == |a|;
    assert q[..|a|] == a && q[|a| + 1..] == b && q[..|a| + 1] == a + [p];
  }

  lemma RemovedDrops(q: seq<nat>, p: nat)
    requires Distinct(q)
    ensures p !in Removed(q, p) && forall x | x in Removed(q, p) :: x in q
  {
  }

  // The links after kernel/scheduler.c:43-60.
  ghost function Passed(ts: seq<Pcb>, q: seq<nat>, p: nat): seq<Pcb>
    requires p < |ts| && forall i | 0 <= i < |q| :: q[i] < |ts|
  {
    if p in q && IndexOf(q, p) > 0 then Relinked(ts, q[IndexOf(q, p) - 1], ts[p].next) else ts
  }

  // Where the head and the tail point then.
  function HeadPast(ts: seq<Pcb>, head: Option<nat>, p: nat): Option<nat>
    requires p < |ts|
  {
    if head == Some(p) then ts[p].next else head
  }

  ghost function TailPast(q: seq<nat>, p: nat): Option<nat> {
    if q == [] || q[|q| - 1] != p then TailOf(q)
    else if IndexOf(q, p) == 0 then None else Some(q[IndexOf(q, p) - 1])
  }

  lemma TailRemoved(q: seq<nat>, p: nat)
    requires Distinct(q)
    ensures TailOf(Removed(q, p)) == TailPast(q, p)
  {
    if p in q && IndexOf(q, p) < |q| - 1 {
      assert q[|q| - 1] != p;
    }
  }

  lemma PassedList(ts: seq<Pcb>, head: Option<nat>, q: seq<nat>, p: nat)
    requires Chain(ts, head, q) && p < MAX_PROCESSES
    ensures Chain(Passed(ts, q, p), HeadPast(ts, head, p), Removed(q, p))
  {
    if p in q {
      var i := IndexOf(q, p);
      assert i > 0 ==> q[0] != p;
      TakenOut(ts, head, q, i);
    } else {
      assert head != Some(p);
    }
  }

  // Leading a queue past p and clearing the link of p leaves a list that does
  // not share slots with it as it was, or cut behind p.
  lemma OtherPassed(ts: seq<Pcb>, q: seq<nat>, b: Option<nat>, w: seq<nat>, p: nat)
    requires Chain(ts, b, w) && Apart(q, w) && p < MAX_PROCESSES && forall i | 0 <= i < |q| :: q[i] < MAX_PROCESSES
    ensures Chain(Unlinked(Passed(ts, q, p), p), b, Cut(w, p))
    ensures SameButLinks(ts, Unlinked(Passed(ts, q, p), p))
  {
    if p in q && IndexOf(q, p) > 0 {
      var l := q[IndexOf(q, p) - 1];
      assert l in q;
      ChainSlot(ts, l, ts[l].(next := ts[p].next), b, w);
    }
    CutChain(Passed(ts, q, p), b, w, p);
  }

  lemma QueuePassed(us: seq<Pcb>, head: Option<nat>, q: seq<nat>, w: seq<nat>, p: nat)
    requires Distinct(q) && Chain(us, head, Removed(q, p)) && Apart(q, w) && p < MAX_PROCESSES
    ensures Chain(Unlinked(us, p), head, Removed(q, p)) && Apart(Removed(q, p), Cut(w, p))
  {
    RemovedDrops(q, p);
    ChainSlot(us, p, us[p].(next := None), head, Removed(q, p));
  }

  // ---------------------------------------------------------------- waking up

  function SleeperAt(ts: seq<Pcb>, x: nat): Sleeper
    requires x < |ts|
  {
    Sleeper(x, ts[x].state == BLOCKED, ts[x].wakeupTime)
  }

  // The blocked queue q as the tick sees it.
  ghost function Sleepers(ts: seq<Pcb>, q: seq<nat>): seq<Sleeper>
    requires forall i | 0 <= i < |q| :: q[i] < |ts|
  {
    seq(|q|, i requires 0 <= i < |q| => SleeperAt(ts, q[i]))
  }

  function SlotsOf(s: seq<Sleeper>): seq<nat> {
    seq(|s|, i requires 0 <= i < |s| => s[i].slot)
  }

  lemma SlotsSnoc(s: seq<Sleeper>, x: Sleeper)
    ensures SlotsOf(s + [x]) == SlotsOf(s) + [x.slot]
  {
  }

  // Apart from links, only the slots in woken have changed: they are READY.
  ghost predicate Woke(ts: seq<Pcb>, us: seq<Pcb>, woken: seq<nat>) {
    |us| == |ts| && forall i: nat | i < |ts| ::
      us[i] == ts[i].(next := us[i].next, state := if i in woken then READY else ts[i].state)
  }

  lemma WokeMore(ts: seq<Pcb>, us: seq<Pcb>, vs: seq<Pcb>, woken: seq<nat>, p: nat)
    requires Woke(ts, us, woken) && Woke(us, vs, [p])
    ensures Woke(ts, vs, woken + [p])
  {
  }

  // The loop has dealt with the first k sleepers: it kept some and woke others.
  ghost predicate Sifted(es: seq<Sleeper>, k: nat, tick: nat, kept: seq<nat>, woken: seq<nat>) {
    k <= |es| && kept == SlotsOf(Rest(es[..k], tick)) && woken == SlotsOf(Due(es[..k], tick))
  }

  lemma SiftOne(es: seq<Sleeper>, k: nat, tick: nat, kept: seq<nat>, woken: seq<nat>)
    requires Sifted(es, k, tick, kept, woken) && k < |es|
    ensures IsDue(es[k], tick) ==> Sifted(es, k + 1, tick, kept, woken + [es[k].slot])
    ensures !IsDue(es[k], tick) ==> Sifted(es, k + 1, tick, kept + [es[k].slot], woken)
  {
    assert es[..k + 1][..k] == es[..k];
    SlotsSnoc(Due(es[..k], tick), es[k]);
    SlotsSnoc(Rest(es[..k], tick), es[k]);
  }

  lemma SiftedAll(es: seq<Sleeper>, tick: nat, kept: seq<nat>, woken: seq<nat>)
    requires Sifted(es, |es|, tick, kept, woken)
    ensures kept == SlotsOf(Rest(es, tick)) && woken == SlotsOf(Due(es, tick))
  {
    assert es[..|es|] == es;
  }

  lemma ApartSuffix(q: seq<nat>, r: seq<nat>, w: seq<nat>)
    requires Apart(q + r, w)
    ensures Apart(r, w)
  {
    forall x | x in r
      ensures x !in w
    {
      assert x in q + r;
    }
  }

  // Where the k-th of w stands among those kept so far and those still to visit.
  lemma NextToVisit(kept: seq<nat>, w: seq<nat>, k: nat, waiting: seq<nat>)
    requires k < |w| && waiting == kept + w[k..]
    ensures var i := |kept|;
            && i < |waiting| && waiting[i] == w[k] && waiting[..i] == kept
            && NextOf(waiting, i) == At(w, k + 1) && waiting == kept + [w[k]] + w[k + 1..]
            && waiting[..i] + waiting[i + 1..] == kept + w[k + 1..] && At(kept + w[k + 1..], i) == At(w, k + 1)
  {
  }

  lemma NotYetWoken(ts: seq<Pcb>, us: seq<Pcb>, r: seq<nat>, woken: seq<nat>, waiting: seq<nat>, p: nat)
    requires Woke(ts, us, woken) && Apart(r + woken, waiting) && p in waiting && p < |ts|
    ensures SleeperAt(us, p) == SleeperAt(ts, p)
  {
    ApartSuffix(r, woken, waiting);
  }

  // Who does not wake up looks as before.
  lemma StillAsleep(ts: seq<Pcb>, us: seq<Pcb>, w: seq<nat>, woken: seq<nat>, tick: nat)
    requires (forall i | 0 <= i < |w| :: w[i] < |ts|) && Woke(ts, us, woken)
    requires Apart(woken, SlotsOf(Rest(Sleepers(ts, w), tick)))
    ensures var r := SlotsOf(Rest(Sleepers(ts, w), tick));
            (forall i | 0 <= i < |r| :: r[i] < |us|) && Sleepers(us, r) == Rest(Sleepers(ts, w), tick)
  {
    var s, es := Rest(Sleepers(ts, w), tick), Sleepers(ts, w);
    Partition(es, tick);
    forall i | 0 <= i < |s|
      ensures s[i].slot < |us| && SleeperAt(us, s[i].slot) == s[i]
    {
      assert s[i] in multiset(s);
      assert s[i] in multiset(es);
      var j :| 0 <= j < |es| && es[j] == s[i];
      assert es[j] == SleeperAt(ts, w[j]);
      assert SlotsOf(s)[i] == s[i].slot;
    }
  }

  // ---------------------------------------------------------------- many ticks

  // What the ticks see: the ready queue, the blocked queue and the tick counter.
  datatype Snapshot = Snapshot(ready: seq<nat>, asleep: seq<Sleeper>, tick: nat)

  function TickStep(s: Snapshot): Snapshot {
    var tick := (s.tick + 1) % TICKS;
    Snapshot(s.ready + SlotsOf(Due(s.asleep, tick)), Rest(s.asleep, tick), tick)
  }

  function TickRun(s: Snapshot, n: nat): Snapshot {
    if n == 0 then s else TickStep(TickRun(s, n - 1))
  }

  function Seen(s: Snapshot, w: Wakes, tick: nat): Snapshot {
    Snapshot(s.ready + SlotsOf(w.woken), w.asleep, tick)
  }

  lemma SeenStep(s: Snapshot, w: Wakes, tick: nat)
    requires tick + 1 < TICKS
    ensures TickStep(Seen(s, w, tick)) == Seen(s, TickOf(w, tick + 1), tick + 1)
  {
    var a, b := w.woken, Due(w.asleep, tick + 1);
    assert SlotsOf(a + b) == SlotsOf(a) + SlotsOf(b);
    assert s.ready + SlotsOf(a) + SlotsOf(b) == s.ready + (SlotsOf(a) + SlotsOf(b));
  }

  lemma RunStep(s: Snapshot, n: nat)
    ensures TickRun(s, n + 1) == TickStep(TickRun(s, n))
  {
  }

  lemma FirstTickSeen(s: Snapshot)
    requires s.tick + 1 < TICKS
    ensures TickStep(s) == Seen(s, AllAtOnce(Wakes(s.asleep, []), s.tick, s.tick + 1), s.tick + 1)
  {
    var w := Wakes(s.asleep, []);
    assert s.ready + SlotsOf([]) == s.ready;
    assert Seen(s, w, s.tick) == s;
    SeenStep(s, w, s.tick);
    FirstTickAtOnce(w, s.tick);
  }

  lemma NextTickSeen(s: Snapshot, w: Wakes, t: nat, u: nat)
    requires t < u && u + 1 < TICKS
    ensures TickStep(Seen(s, AllAtOnce(w, t, u), u)) == Seen(s, AllAtOnce(w, t, u + 1), u + 1)
  {
    SeenStep(s, AllAtOnce(w, t, u), u);
    NextTickAtOnce(w, t, u);
  }

  // All wake-ups up to tick u seen at once.
  function SeenAtOnce(s: Snapshot, u: nat): Snapshot {
    Seen(s, AllAtOnce(Wakes(s.asleep, []), s.tick, u), u)
  }

  lemma RunOnce(s: Snapshot)
    requires s.tick + 1 < TICKS
    ensures TickRun(s, 1) == SeenAtOnce(s, s.tick + 1)
  {
    assert TickRun(s, 0) == s;
    RunStep(s, 0);
    FirstTickSeen(s);
  }

  lemma RunOnceMore(s: Snapshot, r: Snapshot, u: nat)
    requires s.tick < u && u + 1 < TICKS && r == SeenAtOnce(s, u)
    ensures TickStep(r) == SeenAtOnce(s, u + 1)
  {
    NextTickSeen(s, Wakes(s.asleep, []), s.tick, u);
  }

  // While the counter does not wrap, the ticks s.tick + 1 .. u append to the
  // ready queue the sleepers due by then, stably sorted by the time they asked
  // for, times already past counting as the first tick; the others stay asleep
  // in their order.
  lemma {:induction false} SortedWakeUps(s: Snapshot, n: nat, u: nat)
    requires n > 0 && u == s.tick + n < 0x1_0000_0000
    ensures TickRun(s, n) == SeenAtOnce(s, u)
  {
    if n == 1 {
      RunOnce(s);
    } else {
      SortedWakeUps(s, n - 1, u - 1);
      RunOnceMore(s, TickRun(s, n - 1), u - 1);
    }
  }

  // ---------------------------------------------------------------- scheduling

  // schedule leaves the current process alone while its time slice lasts.
  predicate SliceLeft(ts: seq<Pcb>, current: Option<nat>, init: Option<nat>)
    requires current.Some? ==> current.value < |ts|
  {
    current.Some? && current != init && ts[current.value].timeSlice > 0
  }

  // It puts the current process back only if that is marked as running.
  predicate Requeues(ts: seq<Pcb>, current: Option<nat>, init: Option<nat>)
    requires current.Some? ==> current.value < |ts|
  {
    current.Some? && current != init && ts[current.value].state == RUNNING
  }

  function Chosen(q: seq<nat>, init: Option<nat>): Option<nat> {
    if q == [] then init else Some(q[0])
  }

  // The ready queue without the process chosen; the idle process stays.
  function Remaining(q: seq<nat>, init: Option<nat>): seq<nat> {
    if q == [] || Some(q[0]) == init then q else q[1..]
  }

  // Apart from links, only the slot of the current process has changed.
  ghost predicate OnlyCurrent(ts: seq<Pcb>, us: seq<Pcb>, current: Option<nat>, slice: nat, requeued: bool) {
    |us| == |ts| && forall i: nat | i < |ts| ::
      us[i] == if current != Some(i) then ts[i].(next := us[i].next)
               else ts[i].(next := us[i].next, timeSlice := slice,
                           state := if requeued then READY else ts[i].state)
  }

  // A current process that is put back is in neither queue.
  ghost predicate NotQueued(ts: seq<Pcb>, current: Option<nat>, init: Option<nat>, q: seq<nat>, w: seq<nat>)
    requires current.Some? ==> current.value < |ts|
  {
    Requeues(ts, current, init) ==> current.value !in Remaining(q, init) && current.value !in w
  }

  // The process chosen is the head of the ready queue and leaves it; without one
  // it is the idle process, which never leaves the queue.
  lemma ChosenLeaves(q: seq<nat>, init: Option<nat>)
    requires Distinct(q)
    ensures q == [] ==> Chosen(q, init) == init && Remaining(q, init) == []
    ensures q != [] ==> Chosen(q, init) == Some(q[0])
    ensures q != [] && Some(q[0]) != init ==> q[0] !in Remaining(q, init) && [q[0]] + Remaining(q, init) == q
    ensures q != [] && Some(q[0]) == init ==> Remaining(q, init) == q
  {
  }

  // What the ticks see after schedule.
  function Scheduled(s: Snapshot, current: Option<nat>, init: Option<nat>, back: bool): Snapshot {
    Snapshot(Remaining(s.ready, init) + (if back && current.Some? then [current.value] else []), s.asleep, s.tick)
  }

  // Who is about to be woken does not run.
  lemma DueBlocked(ts: seq<Pcb>, q: seq<nat>, tick: nat, x: nat)
    requires (forall i | 0 <= i < |q| :: q[i] < |ts|) && x in SlotsOf(Due(Sleepers(ts, q), tick))
    ensures x in q && x < |ts| && ts[x].state == BLOCKED && ts[x].wakeupTime <= tick
  {
    var es := Sleepers(ts, q);
    var due := Due(es, tick);
    var j :| 0 <= j < |due| && SlotsOf(due)[j] == x;
    Partition(es, tick);
    assert due[j] in multiset(due);
    assert due[j] in multiset(es);
    var k :| 0 <= k < |es| && es[k] == due[j];
    assert es[k] == SleeperAt(ts, q[k]);
  }

  lemma BlockedDue(ts: seq<Pcb>, q: seq<nat>, tick: nat, k: nat)
    requires (forall i | 0 <= i < |q| :: q[i] < |ts|) && k < |q|
    requires ts[q[k]].state == BLOCKED && ts[q[k]].wakeupTime <= tick
    ensures q[k] in SlotsOf(Due(Sleepers(ts, q), tick))
  {
    var es := Sleepers(ts, q);
    var due, rest := Due(es, tick), Rest(es, tick);
    Partition(es, tick);
    assert es[k] == SleeperAt(ts, q[k]);
    assert es[k] in multiset(es);
    assert es[k] in multiset(due) + multiset(rest);
    assert es[k] !in multiset(rest) by {
      assert es[k] !in rest;
    }
    var j :| 0 <= j < |due| && due[j] == es[k];
    assert SlotsOf(due)[j] == q[k];
  }

  // Exactly those wake up that are on the blocked queue, are BLOCKED and whose
  // time has come.
  lemma WhoWakes(ts: seq<Pcb>, q: seq<nat>, tick: nat, x: nat)
    requires forall i | 0 <= i < |q| :: q[i] < |ts|
    ensures x in SlotsOf(Due(Sleepers(ts, q), tick))
            <==> x in q && ts[x].state == BLOCKED && ts[x].wakeupTime <= tick
  {
    if x in SlotsOf(Due(Sleepers(ts, q), tick)) {
      DueBlocked(ts, q, tick, x);
    }
    if x in q && ts[x].state == BLOCKED && ts[x].wakeupTime <= tick {
      var k :| 0 <= k < |q| && q[k] == x;
      BlockedDue(ts, q, tick, k);
    }
  }

  // The tick leaves the verdict of schedule on the current process alone.
  lemma SameVerdict(ts: seq<Pcb>, us: seq<Pcb>, q: seq<nat>, tick: nat, current: Option<nat>, init: Option<nat>)
    requires (forall i | 0 <= i < |q| :: q[i] < |ts|) && Woke(ts, us, SlotsOf(Due(Sleepers(ts, q), tick)))
    requires current.Some? ==> current.value < |ts|
    ensures SliceLeft(us, current, init) == SliceLeft(ts, current, init)
    ensures Requeues(us, current, init) == Requeues(ts, current, init)
  {
    if current.Some? && current.value in SlotsOf(Due(Sleepers(ts, q), tick)) {
      DueBlocked(ts, q, tick, current.value);
    }
  }

  lemma SleepersSame(ts: seq<Pcb>, us: seq<Pcb>, q: seq<nat>, current: Option<nat>, slice: nat, requeued: bool)
    requires (forall i | 0 <= i < |q| :: q[i] < |ts|) && OnlyCurrent(ts, us, current, slice, requeued)
    requires requeued && current.Some? ==> current.value !in q
    ensures Sleepers(us, q) == Sleepers(ts, q)
  {
  }

  lemma HeadRemoved(q: seq<nat>, w: seq<nat>)
    requires Distinct(q) && q != [] && Apart(q, w)
    ensures Removed(q, q[0]) == q[1..] && Cut(w, q[0]) == w
  {
    assert q[0] in q;
  }

  class Queues {
    const table: array<Pcb>
    var head: Option<nat>
    var tail: Option<nat>
    var blocked: Option<nat>
    var tickCount: nat
    ghost var ready: seq<nat>
    ghost var waiting: seq<nat>

    ghost predicate ReadyOk()
      reads this, table
    {
      table.Length == MAX_PROCESSES && Chain(table[..], head, ready) && tail == TailOf(ready)
    }

    ghost predicate Valid()
      reads this, table
    {
      ReadyOk() && Chain(table[..], blocked, waiting) && Apart(ready, waiting)
    }

    constructor (table: array<Pcb>)
      requires table.Length == MAX_PROCESSES
      ensures this.table == table && Valid() && ready == [] && waiting == [] && tickCount == 0
    {
      this.table := table;
      head, tail, blocked, tickCount := None, None, None, 0;
      ready, waiting := [], [];
    }

    // kernel/scheduler.c:28-36.
    method Hang(p: nat)
      requires table.Length == MAX_PROCESSES && p < MAX_PROCESSES && (tail.Some? ==> tail.value < MAX_PROCESSES)
      requires head == None <==> tail == None
      modifies this`head, this`tail, table
      ensures table[..] == Hung(old(table[..]), old(tail), p)
      ensures head == (if old(head) == None then Some(p) else old(head)) && tail == Some(p)
    {
      table[p] := table[p].(next := None);
      if head == None {
        head := Some(p);
        tail := Some(p);
      } else {
        table[tail.value] := table[tail.value].(next := Some(p));
        tail := Some(p);
      }
    }

    // kernel/scheduler.c:25-37. A process that is queued already cuts off
    // everything behind it; the last one is linked to itself.
    method AddToReadyQueue(process: Option<nat>)
      requires Valid() && (process.Some? ==> process.value < MAX_PROCESSES)
      modifies this`head, this`tail, this`ready, this`waiting, table
      ensures SameButLinks(old(table[..]), table[..])
      ensures process == None ==> Valid() && ready == old(ready) && waiting == old(waiting)
      ensures process.Some? && process.value !in old(ready) ==>
                && ready == old(ready) + [process.value] && waiting == Cut(old(waiting), process.value)
                && ReadyOk() && Chain(table[..], blocked, waiting)
                && (Valid() <==> process.value !in old(waiting))
      ensures process.Some? && process.value in old(ready) && process != old(tail) ==>
                Valid() && ready == Cut(old(ready), process.value) && waiting == old(waiting)
      ensures process.Some? && process == old(tail) ==>
                table[process.value].next == process && forall q :: !Chain(table[..], head, q)
    {
      if process == None {
        return;
      }
      ghost var ts, q := table[..], ready;
      Hang(process.value);
      OtherCut(ts, q, blocked, waiting, process.value);
      waiting := Cut(waiting, process.value);
      if process.value !in q {
        AddedNew(ts, old(head), q, process.value);
        ApartAdded(q, old(waiting), process.value);
        ready := q + [process.value];
      } else if old(tail) == process {
        AddedLast(ts, old(head), q, process.value);
      } else {
        AddedTwice(ts, head, q, process.value);
        ready := Cut(q, process.value);
      }
    }

    // kernel/scheduler.c:49-52: the process before the given one, or the last.
    method FindBefore(process: nat) returns (prev: nat, ghost k: nat)
      requires ReadyOk() && ready != [] && ready[0] != process
      ensures k < |ready| && prev == ready[k] && prev < MAX_PROCESSES && table[prev].next == NextOf(ready, k)
      ensures if process in ready then k + 1 < |ready| && ready[k + 1] == process else k + 1 == |ready|
    {
      prev := head.value;
      k := 0;
      while table[prev].next != None && table[prev].next != Some(process)
        invariant 0 <= k < |ready| && prev == ready[k]
        invariant forall j | 0 <= j <= k :: ready[j] != process
        decreases |ready| - k
      {
        assert table[ready[k]].next == NextOf(ready, k);
        prev := table[prev].next.value;
        k := k + 1;
      }
      assert table[ready[k]].next == NextOf(ready, k);
    }

    // kernel/scheduler.c:43-60: the head or the link before the process is led
    // past it, and the tail moves back if it was the last.
    method Bypass(process: nat)
      requires ReadyOk() && ready != [] && process < MAX_PROCESSES
      modifies this`head, this`tail, table
      ensures Chain(table[..], head, Removed(ready, process)) && tail == TailOf(Removed(ready, process))
      ensures table[..] == Passed(old(table[..]), ready, process)
    {
      ghost var ts := table[..];
      PassedList(ts, head, ready, process);
      TailRemoved(ready, process);
      if head == Some(process) {
        assert ready[0] == process;
        assert IndexOf(ready, process) == 0;
        head := table[process].next;
        if tail == Some(process) {
          tail := None;
        }
      } else {
        var prev, k := FindBefore(process);
        if table[prev].next == Some(process) {
          assert IndexOf(ready, process) == k + 1;
          table[prev] := table[prev].(next := table[process].next);
          assert table[..] == Passed(ts, ready, process);
          if tail == Some(process) {
            tail := Some(prev);
          }
        }
      }
    }

    // kernel/scheduler.c:40-63. The link of a process that is not in the ready
    // queue is cleared as well, which cuts the blocked queue behind it.
    method RemoveFromReadyQueue(process: Option<nat>)
      requires Valid() && (process.Some? ==> process.value < MAX_PROCESSES)
      modifies this`head, this`tail, this`ready, this`waiting, table
      ensures Valid() && SameButLinks(old(table[..]), table[..])
      ensures process == None || old(ready) == [] ==> ready == old(ready) && waiting == old(waiting)
      ensures process.Some? && old(ready) != [] ==>
                && table[process.value].next == None
                && ready == Removed(old(ready), process.value) && waiting == Cut(old(waiting), process.value)
    {
      if process == None || head == None {
        return;
      }
      var p := process.value;
      OtherPassed(table[..], ready, blocked, waiting, p);
      Bypass(p);
      QueuePassed(table[..], head, ready, waiting, p);
      ghost var ts := table[..];
      table[p] := table[p].(next := None);
      assert table[..] == Unlinked(ts, p);
      ready := Removed(ready, p);
      waiting := Cut(waiting, p);
    }

    // kernel/scheduler.c:139-143.
    method Detach(proc: nat, prev: Option<nat>, ghost i: nat)
      requires Valid() && i < |waiting| && waiting[i] == proc && prev == TailOf(waiting[..i])
      modifies this`blocked, this`waiting, table
      ensures Valid() && SameButLinks(old(table[..]), table[..])
      ensures waiting == old(waiting)[..i] + old(waiting)[i + 1..] && proc !in waiting && proc !in ready
    {
      ghost var ts, w := table[..], waiting;
      TakenOut(ts, blocked, w, i);
      assert proc in w;
      if prev != None {
        assert w[i - 1] in w;
        ChainSlot(ts, w[i - 1], ts[w[i - 1]].(next := ts[proc].next), head, ready);
        table[prev.value] := table[prev.value].(next := table[proc].next);
        assert table[..] == Relinked(ts, w[i - 1], ts[proc].next);
      } else {
        blocked := table[proc].next;
      }
      waiting := w[..i] + w[i + 1..];
    }

    // kernel/scheduler.c:139-148: the i-th of the blocked queue moves to the end
    // of the ready queue.
    method Wake(proc: nat, prev: Option<nat>, ghost i: nat) returns (next: Option<nat>)
      requires Valid() && i < |waiting| && waiting[i] == proc && prev == TailOf(waiting[..i])
      modifies this`head, this`tail, this`blocked, this`ready, this`waiting, table
      ensures Valid() && Woke(old(table[..]), table[..], [proc])
      ensures ready == old(ready) + [proc] && waiting == old(waiting)[..i] + old(waiting)[i + 1..]
      ensures next == At(waiting, i)
    {
      Detach(proc, prev, i);
      ghost var ts := table[..];
      ChainSlot(ts, proc, ts[proc].(state := READY), head, ready);
      ChainSlot(ts, proc, ts[proc].(state := READY), blocked, waiting);
      table[proc] := table[proc].(state := READY);
      assert table[..] == ts[proc := ts[proc].(state := READY)];
      AddToReadyQueue(Some(proc));
      if prev != None {
        assert waiting[i - 1] == prev.value;
        assert table[waiting[i - 1]].next == NextOf(waiting, i - 1);
        next := table[prev.value].next;
      } else {
        next := blocked;
      }
    }

    // The walk along the blocked queue, begun with the table ts and the queues r
    // and w, is about to visit proc, the k-th of w.
    ghost predicate Visiting(ts: seq<Pcb>, r: seq<nat>, w: seq<nat>, k: nat, kept: seq<nat>, woken: seq<nat>,
                             prev: Option<nat>, proc: Option<nat>)
      requires forall i | 0 <= i < |w| :: w[i] < |ts|
      reads this, table
    {
      && Valid() && Woke(ts, table[..], woken) && k <= |w| && Sifted(Sleepers(ts, w), k, tickCount, kept, woken)
      && waiting == kept + w[k..] && ready == r + woken
      && prev == TailOf(kept) && proc == At(w, k)
    }

    // The visited process and whether it is due are as they were at the start.
    lemma AtVisit(ts: seq<Pcb>, r: seq<nat>, w: seq<nat>, k: nat, kept: seq<nat>, woken: seq<nat>, prev: Option<nat>,
                  p: nat)
      requires forall i | 0 <= i < |w| :: w[i] < |ts|
      requires Visiting(ts, r, w, k, kept, woken, prev, Some(p))
      ensures k < |w| && w[k] == p < MAX_PROCESSES && |kept| < |waiting| && waiting[|kept|] == p
              && waiting[..|kept|] == kept
      ensures IsDue(Sleepers(ts, w)[k], tickCount) <==> table[p].state == BLOCKED && table[p].wakeupTime <= tickCount
    {
      NextToVisit(kept, w, k, waiting);
      assert p in waiting;
      NotYetWoken(ts, table[..], r, woken, waiting, p);
    }

    // kernel/scheduler.c:150-151.
    lemma PassOver(ts: seq<Pcb>, r: seq<nat>, w: seq<nat>, k: nat, kept: seq<nat>, woken: seq<nat>, prev: Option<nat>,
                   p: nat)
      requires forall i | 0 <= i < |w| :: w[i] < |ts|
      requires Visiting(ts, r, w, k, kept, woken, prev, Some(p)) && k < |w| && w[k] == p < MAX_PROCESSES
      requires !IsDue(Sleepers(ts, w)[k], tickCount)
      ensures Visiting(ts, r, w, k + 1, kept + [p], woken, Some(p), table[p].next)
    {
      SiftOne(Sleepers(ts, w), k, tickCount, kept, woken);
      NextToVisit(kept, w, k, waiting);
      assert table[waiting[|kept|]].next == NextOf(waiting, |kept|);
    }

    // kernel/scheduler.c:134-152: one round of the loop.
    method Visit(p: nat, prev: Option<nat>, ghost ts: seq<Pcb>, ghost r: seq<nat>, ghost w: seq<nat>, ghost k: nat,
                 ghost kept: seq<nat>, ghost woken: seq<nat>)
      returns (proc': Option<nat>, prev': Option<nat>, ghost kept': seq<nat>, ghost woken': seq<nat>)
      requires forall i | 0 <= i < |w| :: w[i] < |ts|
      requires Visiting(ts, r, w, k, kept, woken, prev, Some(p))
      modifies this`head, this`tail, this`blocked, this`ready, this`waiting, table
      ensures k < |w| && Visiting(ts, r, w, k + 1, kept', woken', prev', proc')
    {
      AtVisit(ts, r, w, k, kept, woken, prev, p);
      if table[p].state == BLOCKED && table[p].wakeupTime <= tickCount {
        ghost var us := table[..];
        SiftOne(Sleepers(ts, w), k, tickCount, kept, woken);
        NextToVisit(kept, w, k, waiting);
        proc' := Wake(p, prev, |kept|);
        WokeMore(ts, us, table[..], woken, p);
        prev', kept', woken' := prev, kept, woken + [p];
      } else {
        PassOver(ts, r, w, k, kept, woken, prev, p);
        proc', prev', kept', woken' := table[p].next, Some(p), kept + [p], woken;
      }
    }

    // kernel/scheduler.c:130-153: exactly the processes that are due move to the
    // ready queue, in order.
    method WakeUp(ghost es: seq<Sleeper>)
      requires Valid() && es == Sleepers(table[..], waiting)
      modifies this`head, this`tail, this`blocked, this`ready, this`waiting, table
      ensures Valid()
      ensures ready == old(ready) + SlotsOf(Due(es, tickCount))
      ensures waiting == SlotsOf(Rest(es, tickCount)) && Sleepers(table[..], waiting) == Rest(es, tickCount)
      ensures Woke(old(table[..]), table[..], SlotsOf(Due(es, tickCount)))
    {
      ghost var ts, w, r := table[..], waiting, ready;
      ghost var k, kept, due := 0, [], [];
      var proc := blocked;
      var prev: Option<nat> := None;
      while proc != None
        invariant Visiting(ts, r, w, k, kept, due, prev, proc)
        decreases |w| - k
      {
        proc, prev, kept, due := Visit(proc.value, prev, ts, r, w, k, kept, due);
        k := k + 1;
      }
      SiftedAll(es, tickCount, kept, due);
      ApartSuffix(r, due, waiting);
      StillAsleep(ts, table[..], w, due, tickCount);
    }

    // A change of slot i that leaves its link alone.
    method SetSlot(i: nat, p: Pcb)
      requires Valid() && i < MAX_PROCESSES && p.next == table[i].next
      modifies table
      ensures Valid() && table[..] == old(table[..])[i := p]
    {
      ghost var ts := table[..];
      ChainSlot(ts, i, p, head, ready);
      ChainSlot(ts, i, p, blocked, waiting);
      table[i] := p;
      assert table[..] == ts[i := p];
    }

    // kernel/scheduler.c:84-93.
    method TakeNext(init: Option<nat>) returns (next: Option<nat>)
      requires Valid()
      modifies this`head, this`tail, this`ready, this`waiting, table
      ensures Valid() && SameButLinks(old(table[..]), table[..])
      ensures next == Chosen(old(ready), init) && ready == Remaining(old(ready), init) && waiting == old(waiting)
    {
      next := head;
      if next == None {
        next := init;
      }
      if next != init {
        HeadRemoved(ready, waiting);
        RemoveFromReadyQueue(next);
      }
    }

    // kernel/scheduler.c:96-100.
    method PutBack(current: Option<nat>, init: Option<nat>)
      requires Valid() && (current.Some? ==> current.value < MAX_PROCESSES)
      modifies this`head, this`tail, this`ready, this`waiting, table
      ensures !Requeues(old(table[..]), current, init) ==>
                Valid() && ready == old(ready) && waiting == old(waiting) && table[..] == old(table[..])
      ensures Valid() <==> !Requeues(old(table[..]), current, init)
                           || (current.value !in old(waiting) && current != TailOf(old(ready)))
      ensures Requeues(old(table[..]), current, init)
              && current.value !in old(ready) && current.value !in old(waiting) ==>
                && Valid() && ready == old(ready) + [current.value] && waiting == old(waiting)
                && Woke(old(table[..]), table[..], [current.value])
    {
      if current.Some? && current != init && table[current.value].state == RUNNING {
        SetSlot(current.value, table[current.value].(state := READY));
        AddToReadyQueue(current);
      }
    }

    // kernel/scheduler.c:66-106, up to the switch: the process to switch to.
    method Schedule(current: Option<nat>, init: Option<nat>) returns (next: Option<nat>)
      requires Valid() && (current.Some? ==> current.value < MAX_PROCESSES)
      modifies this`head, this`tail, this`ready, this`waiting, table
      ensures SliceLeft(old(table[..]), current, init) ==>
                && Valid() && next == current && ready == old(ready) && waiting == old(waiting)
                && OnlyCurrent(old(table[..]), table[..], current, old(table[..])[current.value].timeSlice - 1, false)
      ensures current.Some? && current != init && old(table[..])[current.value].timeSlice > 0 ==>
                next == current && table[current.value].timeSlice == old(table[..])[current.value].timeSlice - 1
      ensures !SliceLeft(old(table[..]), current, init) ==>
                next == if old(ready) == [] then init else Some(old(ready)[0])
      ensures !SliceLeft(old(table[..]), current, init) && current.Some? && current != init
              && old(table[..])[current.value].state == RUNNING
              && current.value !in old(ready) && current.value !in old(waiting) ==>
                && table[current.value].state == READY && table[current.value].timeSlice == 100
                && ready == (if next == init then old(ready) else old(ready)[1..]) + [current.value]
      // The queues stay in order exactly unless a running process is put back
      // that sleeps, or that is the last of the ready queue; it should be in none.
      ensures !SliceLeft(old(table[..]), current, init) ==>
                (Valid() <==> !Requeues(old(table[..]), current, init)
                              || (current.value !in old(waiting) && current != TailOf(Remaining(old(ready), init))))
      ensures !SliceLeft(old(table[..]), current, init)
              && NotQueued(old(table[..]), current, init, old(ready), old(waiting)) ==>
                var back := Requeues(old(table[..]), current, init);
                && Valid() && waiting == old(waiting)
                && ready == Remaining(old(ready), init) + (if back then [current.value] else [])
                && OnlyCurrent(old(table[..]), table[..], current, 100, back)
    {
      if current.Some? && current != init {
        if table[current.value].timeSlice > 0 {
          SetSlot(current.value, table[current.value].(timeSlice := table[current.value].timeSlice - 1));
          return current;
        }
      }
      if current.Some? {
        SetSlot(current.value, table[current.value].(timeSlice := 100));
      }
      next := TakeNext(init);
      PutBack(current, init);
    }

    ghost predicate Sees(s: Snapshot)
      reads this, table
    {
      Valid() && ready == s.ready && Sleepers(table[..], waiting) == s.asleep && tickCount == s.tick
    }

    // kernel/scheduler.c:121-153.
    method TimerTick(ghost s: Snapshot)
      requires Sees(s)
      modifies this, table
      ensures Sees(TickStep(s)) && Woke(old(table[..]), table[..], SlotsOf(Due(s.asleep, tickCount)))
      ensures old(tickCount) < 0xFFFF_FFFF ==> tickCount == old(tickCount) + 1
      ensures old(tickCount) == 0xFFFF_FFFF ==> tickCount == 0
    {
      tickCount := (tickCount + 1) % TICKS;
      WakeUp(s.asleep);
    }

    // kernel/scheduler.c:121-157: the tick, and then schedule.
    method TimerTickHandler(current: Option<nat>, init: Option<nat>, ghost s: Snapshot) returns (next: Option<nat>)
      requires Sees(s) && (current.Some? ==> current.value < MAX_PROCESSES)
      modifies this, table
      ensures SliceLeft(old(table[..]), current, init) ==> Sees(TickStep(s)) && next == current
      ensures !SliceLeft(old(table[..]), current, init) ==> next == Chosen(TickStep(s).ready, init)
      ensures !SliceLeft(old(table[..]), current, init)
              && NotQueued(old(table[..]), current, init, TickStep(s).ready, SlotsOf(TickStep(s).asleep)) ==>
                Sees(Scheduled(TickStep(s), current, init, Requeues(old(table[..]), current, init)))
    {
      ghost var ts, w := table[..], waiting;
      TimerTick(s);
      ghost var us, r1, w1 := table[..], ready, waiting;
      SameVerdict(ts, us, w, tickCount, current, init);
      assert SlotsOf(Sleepers(us, w1)) == w1;
      ghost var back := Requeues(us, current, init);
      next := Schedule(current, init);
      if SliceLeft(us, current, init) {
        SleepersSame(us, table[..], w1, current, us[current.value].timeSlice - 1, false);
      } else if NotQueued(us, current, init, r1, w1) {
        SleepersSame(us, table[..], w1, current, 100, back);
      }
    }
  }
}
