// The order in which sleepers wake up: what the timer tick of
// kernel/scheduler.c:121-153 takes from the blocked queue, tick after tick.

module WakeOrder {

  // A process on the blocked queue: its slot, whether its state is BLOCKED, and
  // when it asked to be woken.
  datatype Sleeper = Sleeper(slot: nat, blocked: bool, time: nat)

  // kernel/scheduler.c:134-135.
  predicate IsDue(x: Sleeper, tick: nat) {
    x.blocked && x.time <= tick
  }

  // q, and x behind it if the answer is yes.
  function AddedIf(q: seq<Sleeper>, x: Sleeper, yes: bool): seq<Sleeper> {
    if yes then q + [x] else q
  }

  // The sleepers of q that wake up at the given tick, in order.
  function Due(q: seq<Sleeper>, tick: nat): seq<Sleeper> {
    if q == [] then []
    else
      var h, x := q[..|q| - 1], q[|q| - 1];
      if IsDue(x, tick) then Due(h, tick) + [x] else Due(h, tick)
  }

  // Those that sleep on, in order.
  function Rest(q: seq<Sleeper>, tick: nat): seq<Sleeper> {
    if q == [] then []
    else
      var h, x := q[..|q| - 1], q[|q| - 1];
      if IsDue(x, tick) then Rest(h, tick) else Rest(h, tick) + [x]
  }

  ghost predicate AllDue(q: seq<Sleeper>, tick: nat) {
    forall i | 0 <= i < |q| :: IsDue(q[i], tick)
  }

  ghost predicate NoneDue(q: seq<Sleeper>, tick: nat) {
    forall i | 0 <= i < |q| :: !IsDue(q[i], tick)
  }

  // Nobody is lost and nobody is in both: the two parts make up the queue.
  lemma {:induction false} Partition(q: seq<Sleeper>, tick: nat)
    ensures multiset(Due(q, tick)) + multiset(Rest(q, tick)) == multiset(q)
    ensures AllDue(Due(q, tick), tick) && NoneDue(Rest(q, tick), tick)
  {
    if q != [] {
      assert q == q[..|q| - 1] + [q[|q| - 1]];
      Partition(q[..|q| - 1], tick);
    }
  }

  // Each part is what a filter leaves: sleeper by sleeper, in order.
  lemma {:induction false} PartsInOrder(q: seq<Sleeper>, r: seq<Sleeper>, tick: nat)
    ensures Due(q + r, tick) == Due(q, tick) + Due(r, tick)
    ensures Rest(q + r, tick) == Rest(q, tick) + Rest(r, tick)
    decreases |r|
  {
    if r == [] {
      assert q + r == q;
    } else {
      var h, x := r[..|r| - 1], r[|r| - 1];
      PartsInOrder(q, h, tick);
      assert (q + r)[..|q + r| - 1] == q + h;
    }
  }

  lemma OneSleeper(x: Sleeper, tick: nat)
    ensures x.blocked && x.time <= tick ==> Due([x], tick) == [x] && Rest([x], tick) == []
    ensures !(x.blocked && x.time <= tick) ==> Due([x], tick) == [] && Rest([x], tick) == [x]
  {
    assert [x][..0] == [];
  }

  // ---------------------------------------------------------------- a stable sort

  // When a sleeper wakes up if the next tick is t + 1.
  function Key(x: Sleeper, t: nat): nat {
    if x.time <= t then t + 1 else x.time
  }

  // x goes behind the last one that does not wake up later.
  function Insert(t: nat, x: Sleeper, r: seq<Sleeper>): seq<Sleeper> {
    if r == [] || Key(r[|r| - 1], t) <= Key(x, t) then r + [x] else Insert(t, x, r[..|r| - 1]) + [r[|r| - 1]]
  }

  // Insertion sort by key.
  function Sort(t: nat, q: seq<Sleeper>): seq<Sleeper> {
    if q == [] then [] else Insert(t, q[|q| - 1], Sort(t, q[..|q| - 1]))
  }

  ghost predicate Sorted(t: nat, r: seq<Sleeper>) {
    forall i, j | 0 <= i < j < |r| :: Key(r[i], t) <= Key(r[j], t)
  }

  ghost predicate AtMost(t: nat, r: seq<Sleeper>, k: nat) {
    forall i | 0 <= i < |r| :: Key(r[i], t) <= k
  }

  ghost predicate AllKey(t: nat, r: seq<Sleeper>, k: nat) {
    forall i | 0 <= i < |r| :: Key(r[i], t) == k
  }

  // The sleepers of q with key k, in order.
  function Of(t: nat, q: seq<Sleeper>, k: nat): seq<Sleeper> {
    if q == [] then []
    else
      var h, x := q[..|q| - 1], q[|q| - 1];
      if Key(x, t) == k then Of(t, h, k) + [x] else Of(t, h, k)
  }

  lemma {:induction false} InsertAtMost(t: nat, x: Sleeper, r: seq<Sleeper>, k: nat)
    requires Key(x, t) <= k && AtMost(t, r, k)
    ensures AtMost(t, Insert(t, x, r), k)
  {
    if r != [] {
      InsertAtMost(t, x, r[..|r| - 1], k);
    }
  }

  lemma {:induction false} SortAtMost(t: nat, q: seq<Sleeper>, k: nat)
    requires AtMost(t, q, k)
    ensures AtMost(t, Sort(t, q), k)
  {
    if q != [] {
      SortAtMost(t, q[..|q| - 1], k);
      InsertAtMost(t, q[|q| - 1], Sort(t, q[..|q| - 1]), k);
    }
  }

  lemma {:induction false} InsertSorted(t: nat, x: Sleeper, r: seq<Sleeper>)
    requires Sorted(t, r)
    ensures Sorted(t, Insert(t, x, r))
  {
    if r != [] && Key(r[|r| - 1], t) > Key(x, t) {
      InsertSorted(t, x, r[..|r| - 1]);
      InsertAtMost(t, x, r[..|r| - 1], Key(r[|r| - 1], t));
    }
  }

  lemma {:induction false} InsertStable(t: nat, x: Sleeper, r: seq<Sleeper>, k: nat)
    ensures Of(t, Insert(t, x, r), k) == Of(t, r, k) + Of(t, [x], k)
  {
    var s := Insert(t, x, r);
    assert [x][..0] == [];
    if r == [] || Key(r[|r| - 1], t) <= Key(x, t) {
      assert s[..|s| - 1] == r;
    } else {
      InsertStable(t, x, r[..|r| - 1], k);
      assert s[..|s| - 1] == Insert(t, x, r[..|r| - 1]);
    }
  }

  // Sort sorts, and keeps the order of sleepers with equal keys.
  lemma {:induction false} SortIsStable(t: nat, q: seq<Sleeper>, k: nat)
    ensures Sorted(t, Sort(t, q)) && Of(t, Sort(t, q), k) == Of(t, q, k)
  {
    if q != [] {
      SortIsStable(t, q[..|q| - 1], k);
      InsertSorted(t, q[|q| - 1], Sort(t, q[..|q| - 1]));
      InsertStable(t, q[|q| - 1], Sort(t, q[..|q| - 1]), k);
      assert [q[|q| - 1]][..0] == [];
    }
  }

  lemma {:induction false} OfMember(t: nat, q: seq<Sleeper>, x: Sleeper, k: nat)
    requires x in Of(t, q, k)
    ensures x in q && Key(x, t) == k
  {
    if x in Of(t, q[..|q| - 1], k) {
      OfMember(t, q[..|q| - 1], x, k);
    }
  }

  // There is only one such sequence.
  lemma {:induction false} StableSortIsUnique(t: nat, r: seq<Sleeper>, s: seq<Sleeper>)
    requires Sorted(t, r) && Sorted(t, s) && forall k: nat :: Of(t, r, k) == Of(t, s, k)
    ensures r == s
    decreases |r| + |s|
  {
    if r == [] {
      assert s != [] ==> Of(t, r, Key(s[|s| - 1], t)) == Of(t, s, Key(s[|s| - 1], t));
    } else if s == [] {
      var k := Key(r[|r| - 1], t);
      if Of(t, r, k) == Of(t, s, k) {
        assert false;
      }
    } else {
      var x, y := r[|r| - 1], s[|s| - 1];
      var g, h := r[..|r| - 1], s[..|s| - 1];
      assert Of(t, r, Key(x, t)) == Of(t, s, Key(x, t));
      assert Of(t, r, Key(y, t)) == Of(t, s, Key(y, t));
      OfMember(t, s, x, Key(x, t));
      OfMember(t, r, y, Key(y, t));
      assert Of(t, r, Key(x, t)) == Of(t, g, Key(x, t)) + [x];
      assert Of(t, s, Key(x, t)) == Of(t, h, Key(x, t)) + [y];
      assert (Of(t, g, Key(x, t)) + [x])[|Of(t, g, Key(x, t))|] == x;
      assert (Of(t, h, Key(x, t)) + [y])[|Of(t, h, Key(x, t))|] == y;
      forall k: nat
        ensures Of(t, g, k) == Of(t, h, k)
      {
        assert Of(t, r, k) == Of(t, s, k);
        assert Of(t, g, k) + [x] == Of(t, h, k) + [x] ==> Of(t, g, k) == (Of(t, g, k) + [x])[..|Of(t, g, k)|];
      }
      StableSortIsUnique(t, g, h);
      assert r == g + [x] && s == h + [y];
    }
  }

  // ---------------------------------------------------------------- many ticks

  // The sleepers, and those woken so far in the order in which that happened.
  datatype Wakes = Wakes(asleep: seq<Sleeper>, woken: seq<Sleeper>)

  function TickOf(s: Wakes, tick: nat): Wakes {
    Wakes(Rest(s.asleep, tick), s.woken + Due(s.asleep, tick))
  }

  // All wake-ups up to tick u at once: the sleepers due by then, stably sorted,
  // times already past counting as the first tick t + 1.
  function AllAtOnce(s: Wakes, t: nat, u: nat): Wakes {
    Wakes(Rest(s.asleep, u), s.woken + Sort(t, Due(s.asleep, u)))
  }

  lemma Snoc(h: seq<Sleeper>, x: Sleeper)
    ensures (h + [x])[..|h + [x]| - 1] == h && (h + [x])[|h + [x]| - 1] == x
  {
  }

  lemma {:induction false} RestOfRest(q: seq<Sleeper>, a: nat, b: nat)
    requires a <= b
    ensures Rest(Rest(q, a), b) == Rest(q, b)
  {
    if q != [] {
      RestOfRest(q[..|q| - 1], a, b);
      Snoc(Rest(q[..|q| - 1], a), q[|q| - 1]);
    }
  }

  // x belongs before all of b.
  lemma {:induction false} InsertBefore(t: nat, x: Sleeper, a: seq<Sleeper>, b: seq<Sleeper>)
    requires forall i | 0 <= i < |b| :: Key(b[i], t) > Key(x, t)
    ensures Insert(t, x, a + b) == Insert(t, x, a) + b
    decreases |b|
  {
    if b == [] {
      assert a + b == a;
    } else {
      var c, y := b[..|b| - 1], b[|b| - 1];
      InsertBefore(t, x, a, c);
      assert (a + b)[..|a + b| - 1] == a + c;
      assert Insert(t, x, a) + c + [y] == Insert(t, x, a) + b;
    }
  }

  // Those that wake up at u + 1 but not before have that key.
  lemma {:induction false} LateKeys(q: seq<Sleeper>, t: nat, u: nat)
    requires t < u
    ensures AllKey(t, Due(Rest(q, u), u + 1), u + 1)
  {
    if q != [] {
      var h, x := q[..|q| - 1], q[|q| - 1];
      LateKeys(h, t, u);
      Snoc(Rest(h, u), x);
    }
  }

  lemma DueAtMost(q: seq<Sleeper>, t: nat, u: nat)
    requires t < u
    ensures AtMost(t, Due(q, u), u)
  {
    Partition(q, u);
  }

  lemma SortSnoc(t: nat, h: seq<Sleeper>, x: Sleeper)
    ensures Sort(t, h + [x]) == Insert(t, x, Sort(t, h))
  {
    Snoc(h, x);
  }

  lemma SplitSnoc(h: seq<Sleeper>, x: Sleeper, tick: nat)
    ensures Due(h + [x], tick) == AddedIf(Due(h, tick), x, IsDue(x, tick))
    ensures Rest(h + [x], tick) == AddedIf(Rest(h, tick), x, !IsDue(x, tick))
  {
    Snoc(h, x);
  }

  // A sleeper that is due already belongs before the late ones ...
  lemma EarlyOne(t: nat, u: nat, x: Sleeper, d: seq<Sleeper>, e: seq<Sleeper>, late: seq<Sleeper>)
    requires t < u && IsDue(x, u) && AllKey(t, late, u + 1) && Sort(t, e) == Sort(t, d) + late
    ensures Sort(t, e + [x]) == Sort(t, d + [x]) + late
  {
    InsertBefore(t, x, Sort(t, d), late);
    SortSnoc(t, d, x);
    SortSnoc(t, e, x);
  }

  // ... and one that is due with the tick u + 1 comes last.
  lemma LateOne(t: nat, u: nat, x: Sleeper, d: seq<Sleeper>, e: seq<Sleeper>, late: seq<Sleeper>)
    requires t < u && !IsDue(x, u) && IsDue(x, u + 1) && AtMost(t, e, u + 1) && Sort(t, e) == Sort(t, d) + late
    ensures Sort(t, e + [x]) == Sort(t, d) + (late + [x])
  {
    SortSnoc(t, e, x);
    SortAtMost(t, e, u + 1);
    assert Sort(t, d) + late + [x] == Sort(t, d) + (late + [x]);
  }

  ghost predicate Splits(q: seq<Sleeper>, t: nat, u: nat) {
    Sort(t, Due(q, u + 1)) == Sort(t, Due(q, u)) + Due(Rest(q, u), u + 1)
  }

  lemma OneMore(t: nat, u: nat, x: Sleeper, d: seq<Sleeper>, e: seq<Sleeper>, late: seq<Sleeper>)
    requires t < u && AllKey(t, late, u + 1) && AtMost(t, e, u + 1) && Sort(t, e) == Sort(t, d) + late
    ensures Sort(t, AddedIf(e, x, IsDue(x, u + 1))) ==
            Sort(t, AddedIf(d, x, IsDue(x, u))) + AddedIf(late, x, !IsDue(x, u) && IsDue(x, u + 1))
  {
    if IsDue(x, u) {
      EarlyOne(t, u, x, d, e, late);
    } else if IsDue(x, u + 1) {
      LateOne(t, u, x, d, e, late);
    }
  }

  lemma RestSnoc(h: seq<Sleeper>, x: Sleeper, u: nat)
    ensures Due(Rest(h + [x], u), u + 1) == AddedIf(Due(Rest(h, u), u + 1), x, !IsDue(x, u) && IsDue(x, u + 1))
  {
    SplitSnoc(h, x, u);
    SplitSnoc(Rest(h, u), x, u + 1);
  }

  lemma SplitsSnoc(h: seq<Sleeper>, x: Sleeper, t: nat, u: nat)
    requires t < u && Splits(h, t, u)
    ensures Splits(h + [x], t, u)
  {
    LateKeys(h, t, u);
    DueAtMost(h, t, u + 1);
    OneMore(t, u, x, Due(h, u), Due(h, u + 1), Due(Rest(h, u), u + 1));
    SplitSnoc(h, x, u);
    SplitSnoc(h, x, u + 1);
    RestSnoc(h, x, u);
  }

  // The sleepers due by tick u + 1, sorted, are those due by tick u, sorted,
  // followed by the others in queue order.
  lemma {:induction false} OneMoreTick(q: seq<Sleeper>, t: nat, u: nat)
    requires t < u
    ensures Splits(q, t, u)
  {
    if q != [] {
      OneMoreTick(q[..|q| - 1], t, u);
      SplitsSnoc(q[..|q| - 1], q[|q| - 1], t, u);
      assert q == q[..|q| - 1] + [q[|q| - 1]];
    }
  }

  // The first tick takes everybody whose time has passed, in queue order.
  lemma {:induction false} FirstTick(q: seq<Sleeper>, t: nat)
    ensures Sort(t, Due(q, t + 1)) == Due(q, t + 1)
  {
    if q != [] {
      var h, x := q[..|q| - 1], q[|q| - 1];
      FirstTick(h, t);
      Snoc(Due(h, t + 1), x);
      DueAtMost(h, t, t + 1);
    }
  }

  lemma FirstTickAtOnce(s: Wakes, t: nat)
    ensures TickOf(s, t + 1) == AllAtOnce(s, t, t + 1)
  {
    FirstTick(s.asleep, t);
  }

  lemma NextTickAtOnce(s: Wakes, t: nat, u: nat)
    requires t < u
    ensures TickOf(AllAtOnce(s, t, u), u + 1) == AllAtOnce(s, t, u + 1)
  {
    var a, b := Sort(t, Due(s.asleep, u)), Due(Rest(s.asleep, u), u + 1);
    RestOfRest(s.asleep, u, u + 1);
    OneMoreTick(s.asleep, t, u);
    assert s.woken + a + b == s.woken + (a + b);
  }
}
