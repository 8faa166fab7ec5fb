// Runs of map_page and unmap_page: the flat map of 2^20 pages that the tables
// refine, and what it holds after any run.

module PageRuns {
  import opened Memory
  import opened Options
  import opened PageTables

  // frameLeft: whether the allocator can still supply a frame for a table.
  datatype PageOp = MapOp(v: nat, x: Mapping, frameLeft: bool) | UnmapOp(v: nat)

  datatype Rights = Rights(rw: bool, user: bool)

  // What each page maps to, and the rights of each 4 MB slot with a table.
  datatype Space = Space(flat: map<nat, Mapping>, slots: map<nat, Rights>)

  function Step(s: Space, op: PageOp): Space {
    match op
    case MapOp(v, x, frameLeft) =>
      if v / ENTRIES in s.slots then Space(s.flat[v := x], s.slots)
      else if frameLeft then Space(s.flat[v := x], s.slots[v / ENTRIES := Rights(x.rw, x.user)])
      else s
    case UnmapOp(v) => Space(s.flat - {v}, s.slots)
  }

  function Run(s: Space, ops: seq<PageOp>): Space {
    if ops == [] then s else Step(Run(s, ops[..|ops| - 1]), ops[|ops| - 1])
  }

  // What init_paging leaves: the low 4 MB mapped to themselves, writable and
  // not for users.
  function Booted(): Space {
    Space(map v: nat | v < ENTRIES :: v := Mapping(v, true, false), map[0 := Rights(true, false)])
  }

  // The processor's view of page v.
  function Effective(s: Space, v: nat): Option<Mapping> {
    if v in s.flat && v / ENTRIES in s.slots then
      var r := s.slots[v / ENTRIES];
      Some(Mapping(s.flat[v].frame, r.rw && s.flat[v].rw, r.user && s.flat[v].user))
    else None
  }

  // ---------------------------------------------------------------- refinement

  ghost predicate SlotRefines(e: Entry, t: nat, s: Space, k: nat) {
    && (t != 0 <==> k in s.slots)
    && (k in s.slots ==> s.slots[k] == Rights(e.rw, e.user))
  }

  // The tables hold exactly the mappings and slots of s.
  ghost predicate Refines(entries: seq<Entry>, tables: seq<nat>, m: seq<byte>, s: Space) {
    && |entries| == |tables| == ENTRIES
    && (forall v: nat | v < PAGES ::
          SoftWalk(tables, m, v) == if v in s.flat then Some(s.flat[v]) else None)
    && (forall k: nat | k < ENTRIES :: SlotRefines(entries[k], tables[k], s, k))
  }

  // The contract of map_page carries the refinement over a step.
  lemma MapRefines(entries: seq<Entry>, tables: seq<nat>, m: seq<byte>, entries': seq<Entry>, tables': seq<nat>,
                   m': seq<byte>,
                   s: Space, v: nat, x: Mapping, frameLeft: bool)
    requires Refines(entries, tables, m, s) && v < PAGES
    requires if tables[v / ENTRIES] == 0 && !frameLeft then m' == m && tables' == tables && entries' == entries
             else Remapped(tables, m, tables', m', v, Some(x))
                  && NewSlot(tables, entries, tables', entries', v / ENTRIES, x.rw, x.user)
    ensures Refines(entries', tables', m', Step(s, MapOp(v, x, frameLeft)))
  {
    assert SlotRefines(entries[v / ENTRIES], tables[v / ENTRIES], s, v / ENTRIES);
    var s' := Step(s, MapOp(v, x, frameLeft));
    forall k: nat | k < ENTRIES
      ensures SlotRefines(entries'[k], tables'[k], s', k)
    {
      assert SlotRefines(entries[k], tables[k], s, k);
    }
  }

  // So does that of unmap_page.
  lemma UnmapRefines(entries: seq<Entry>, tables: seq<nat>, m: seq<byte>, m': seq<byte>, s: Space, v: nat)
    requires Refines(entries, tables, m, s) && Remapped(tables, m, tables, m', v, None)
    ensures Refines(entries, tables, m', Step(s, UnmapOp(v)))
  {
    var s' := Step(s, UnmapOp(v));
    forall k: nat | k < ENTRIES
      ensures SlotRefines(entries[k], tables[k], s', k)
    {
      assert SlotRefines(entries[k], tables[k], s, k);
    }
  }

  // Whatever the tables held, they hold what a step makes of it.
  lemma MapRefinesAny(entries: seq<Entry>, tables: seq<nat>, m: seq<byte>, entries': seq<Entry>, tables': seq<nat>,
                      m': seq<byte>, v: nat, x: Mapping, frameLeft: bool)
    requires v < PAGES && |tables| == ENTRIES
    requires if tables[v / ENTRIES] == 0 && !frameLeft then m' == m && tables' == tables && entries' == entries
             else Remapped(tables, m, tables', m', v, Some(x))
                  && NewSlot(tables, entries, tables', entries', v / ENTRIES, x.rw, x.user)
    ensures forall s | Refines(entries, tables, m, s) ::
              Refines(entries', tables', m', Step(s, MapOp(v, x, frameLeft)))
  {
    forall s | Refines(entries, tables, m, s)
      ensures Refines(entries', tables', m', Step(s, MapOp(v, x, frameLeft)))
    {
      MapRefines(entries, tables, m, entries', tables', m', s, v, x, frameLeft);
    }
  }

  lemma UnmapRefinesAny(entries: seq<Entry>, tables: seq<nat>, m: seq<byte>, m': seq<byte>, v: nat)
    requires Remapped(tables, m, tables, m', v, None)
    ensures forall s | Refines(entries, tables, m, s) :: Refines(entries, tables, m', Step(s, UnmapOp(v)))
  {
    forall s | Refines(entries, tables, m, s)
      ensures Refines(entries, tables, m', Step(s, UnmapOp(v)))
    {
      UnmapRefines(entries, tables, m, m', s, v);
    }
  }

  lemma BootRefines(entries: seq<Entry>, tables: seq<nat>, m: seq<byte>)
    requires IdentityMap(entries, tables, m)
    requires tables[0] != 0 && entries[0].rw && !entries[0].user && forall k | 0 < k < ENTRIES :: tables[k] == 0
    ensures Refines(entries, tables, m, Booted())
  {
  }

  // What the processor sees is the flat map through the rights of the slots.
  lemma EffectiveIsHard(entries: seq<Entry>, tables: seq<nat>, m: seq<byte>, s: Space, v: nat)
    requires Refines(entries, tables, m, s) && DirAgrees(entries, tables) && v < PAGES
    ensures HardWalk(entries, m, v) == Effective(s, v)
  {
    WalksAgree(entries, tables, m, v);
    assert SlotRefines(entries[v / ENTRIES], tables[v / ENTRIES], s, v / ENTRIES);
  }

  // ---------------------------------------------------------------- the last operation wins

  predicate Supplies(op: PageOp, k: nat) {
    op.MapOp? && op.v / ENTRIES == k && op.frameLeft
  }

  // Operation j is the first to give slot k a table.
  ghost predicate Creates(ops: seq<PageOp>, j: nat, k: nat) {
    && j < |ops| && Supplies(ops[j], k)
    && forall i | 0 <= i < j :: !Supplies(ops[i], k)
  }

  // Operation i of a run from s is not lost for want of a table.
  ghost predicate Works(s: Space, ops: seq<PageOp>, i: nat)
    requires i < |ops|
  {
    || ops[i].UnmapOp? || ops[i].v / ENTRIES in s.slots
    || exists j | 0 <= j <= i :: Supplies(ops[j], ops[i].v / ENTRIES)
  }

  // Operation i is the last on page v that was not lost.
  ghost predicate LastOn(s: Space, ops: seq<PageOp>, v: nat, i: nat) {
    && i < |ops| && ops[i].v == v && Works(s, ops, i)
    && forall j | i < j < |ops| && ops[j].v == v :: !Works(s, ops, j)
  }

  // A slot has a table once some operation could supply it.
  lemma {:induction false} RunSlots(s: Space, ops: seq<PageOp>, k: nat)
    ensures k in Run(s, ops).slots <==> k in s.slots || exists j | 0 <= j < |ops| :: Supplies(ops[j], k)
  {
    if ops != [] {
      var n := |ops| - 1;
      RunSlots(s, ops[..n], k);
      assert forall j | 0 <= j < n :: ops[..n][j] == ops[j];
    }
  }

  // A slot that has a table keeps its rights, whatever follows ...
  lemma {:induction false} RunKeepsRights(s: Space, ops: seq<PageOp>, k: nat)
    requires k in s.slots
    ensures k in Run(s, ops).slots && Run(s, ops).slots[k] == s.slots[k]
  {
    if ops != [] {
      RunKeepsRights(s, ops[..|ops| - 1], k);
    }
  }

  // ... and one that gets its table in the run those of the call that created it.
  lemma {:induction false} RunRights(s: Space, ops: seq<PageOp>, j: nat, k: nat)
    requires Creates(ops, j, k) && k !in s.slots
    ensures k in Run(s, ops).slots && Run(s, ops).slots[k] == Rights(ops[j].x.rw, ops[j].x.user)
  {
    var n := |ops| - 1;
    assert forall i | 0 <= i < n :: ops[..n][i] == ops[i];
    if j < n {
      assert Creates(ops[..n], j, k);
      RunRights(s, ops[..n], j, k);
    } else {
      RunSlots(s, ops[..n], k);
    }
  }

  lemma WorksPrefix(s: Space, ops: seq<PageOp>, n: nat, i: nat)
    requires i < n <= |ops|
    ensures Works(s, ops[..n], i) <==> Works(s, ops, i)
  {
    if Works(s, ops, i) && !ops[i].UnmapOp? && ops[i].v / ENTRIES !in s.slots {
      var j :| 0 <= j <= i && Supplies(ops[j], ops[i].v / ENTRIES);
      assert Supplies(ops[..n][j], ops[..n][i].v / ENTRIES);
    }
  }

  // Whether the operation just appended takes effect.
  lemma LastWorks(s: Space, ops: seq<PageOp>)
    requires ops != [] && ops[|ops| - 1].MapOp?
    ensures var op := ops[|ops| - 1];
            Works(s, ops, |ops| - 1) <==> op.v / ENTRIES in Run(s, ops[..|ops| - 1]).slots || op.frameLeft
  {
    var n := |ops| - 1;
    var k := ops[n].v / ENTRIES;
    RunSlots(s, ops[..n], k);
    if k in Run(s, ops[..n]).slots && k !in s.slots {
      var j :| 0 <= j < n && Supplies(ops[..n][j], k);
      assert Supplies(ops[j], k);
    }
    if Works(s, ops, n) && !ops[n].frameLeft && k !in s.slots {
      var j :| 0 <= j <= n && Supplies(ops[j], k);
      assert Supplies(ops[..n][j], k);
    }
  }

  ghost predicate SameAt(s: Space, t: Space, v: nat) {
    (v in t.flat <==> v in s.flat) && (v in s.flat ==> t.flat[v] == s.flat[v])
  }

  lemma LastPrefix(s: Space, ops: seq<PageOp>, v: nat, i: nat)
    requires ops != []
    requires ops[|ops| - 1].v != v || !Works(s, ops, |ops| - 1)
    ensures LastOn(s, ops, v, i) <==> LastOn(s, ops[..|ops| - 1], v, i)
  {
    var n := |ops| - 1;
    forall j: nat | j < n
      ensures Works(s, ops[..n], j) <==> Works(s, ops, j)
    {
      WorksPrefix(s, ops, n, j);
    }
  }

  // After any run a page holds what the last operation on it that was not lost
  // put there; a page no operation reached holds what it held before.
  lemma {:induction false} RunLast(s: Space, ops: seq<PageOp>, v: nat)
    ensures forall i: nat | LastOn(s, ops, v, i) ::
              if ops[i].MapOp? then v in Run(s, ops).flat && Run(s, ops).flat[v] == ops[i].x else v !in Run(s, ops).flat
    ensures (forall i: nat :: !LastOn(s, ops, v, i)) ==> SameAt(s, Run(s, ops), v)
  {
    if ops != [] {
      var n := |ops| - 1;
      var before := ops[..n];
      RunLast(s, before, v);
      if ops[n].MapOp? {
        LastWorks(s, ops);
      }
      if ops[n].v == v && Works(s, ops, n) {
        assert LastOn(s, ops, v, n);
        assert forall i: nat | LastOn(s, ops, v, i) :: i == n;
      } else {
        forall i: nat
          ensures LastOn(s, ops, v, i) <==> LastOn(s, before, v, i)
        {
          LastPrefix(s, ops, v, i);
        }
      }
    }
  }

  // ---------------------------------------------------------------- what the processor sees after a run

  // The rights under which slot k has its table: those it began with, or those
  // of the call that created it.
  ghost predicate SlotRights(s: Space, ops: seq<PageOp>, k: nat, r: Rights) {
    if k in s.slots then r == s.slots[k]
    else exists j: nat :: Creates(ops, j, k) && r == Rights(ops[j].x.rw, ops[j].x.user)
  }

  // Tables that refine the outcome of a run let the processor see, at each page
  // mapped in it, the mapping of the last map_page that was not lost, with its
  // flags ANDed with those of the call that created the 4 MB table.
  lemma RunSeen(entries: seq<Entry>, tables: seq<nat>, m: seq<byte>, s: Space, ops: seq<PageOp>,
                v: nat, i: nat, r: Rights)
    requires v < PAGES && LastOn(s, ops, v, i) && ops[i].MapOp? && SlotRights(s, ops, v / ENTRIES, r)
    ensures var x := Some(Mapping(ops[i].x.frame, r.rw && ops[i].x.rw, r.user && ops[i].x.user));
            && Effective(Run(s, ops), v) == x
            && (Refines(entries, tables, m, Run(s, ops)) && DirAgrees(entries, tables) ==> HardWalk(entries, m, v) == x)
  {
    var k := v / ENTRIES;
    RunLast(s, ops, v);
    if k in s.slots {
      RunKeepsRights(s, ops, k);
    } else {
      var j: nat :| Creates(ops, j, k) && r == Rights(ops[j].x.rw, ops[j].x.user);
      RunRights(s, ops, j, k);
    }
    if Refines(entries, tables, m, Run(s, ops)) && DirAgrees(entries, tables) {
      EffectiveIsHard(entries, tables, m, Run(s, ops), v);
    }
  }

  // No run that starts at boot ever opens the low 4 MB to users.
  lemma LowStaysClosed(entries: seq<Entry>, tables: seq<nat>, m: seq<byte>, ops: seq<PageOp>, v: nat)
    requires Refines(entries, tables, m, Run(Booted(), ops)) && DirAgrees(entries, tables) && v < ENTRIES
    ensures HardWalk(entries, m, v).Some? ==> !HardWalk(entries, m, v).value.user
  {
    EffectiveIsHard(entries, tables, m, Run(Booted(), ops), v);
    RunKeepsRights(Booted(), ops, 0);
  }
}
