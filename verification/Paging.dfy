// kernel/paging.c: page directories whose tables live in frames handed out by
// the physical allocator, the mappings they hold, and the processor's TLB.

module Paging {
  import opened Memory
  import opened Options
  import opened Pmm
  import opened PageTables
  import PageRuns

  const PAGE_WRITE: nat := 2
  const PAGE_USER: nat := 4

  // flags & bit, for a single-bit mask.
  predicate HasFlag(flags: nat, bit: nat)
    requires bit > 0
  {
    flags / bit % 2 == 1
  }

  class PageDirectory {
    // The entries the processor reads, and the kernel's pointers to the tables.
    var entries: seq<Entry>
    var tables: seq<nat>

    constructor ()
      ensures entries == seq(ENTRIES, _ => EMPTY) && tables == seq(ENTRIES, _ => 0)
    {
      entries := seq(ENTRIES, _ => EMPTY);
      tables := seq(ENTRIES, _ => 0);
    }

    ghost predicate Ok(m: seq<byte>)
      reads this
    {
      DirAgrees(entries, tables) && TablesIn(tables, m)
    }
  }

  // kernel/paging.c:77-80: directory entry e once it leads to table t.
  function TableEntry(e: Entry, t: nat, rw: bool, user: bool): Entry {
    e.(present := true, rw := rw, user := user, frame := t / PAGE_SIZE)
  }

  // Frame f holds zeroes.
  ghost predicate ZeroTable(m: seq<byte>, f: nat) {
    FrameIn(m, f) && forall x | PAGE_SIZE * f <= x < PAGE_SIZE * f + PAGE_SIZE :: m[x] == 0
  }

  // The memories agree on every frame but f.
  ghost predicate OthersSame(m: seq<byte>, n: seq<byte>, f: nat) {
    |m| == |n| && forall g: nat | g != f && FrameIn(m, g) :: FrameSame(m, n, g)
  }

  // A slot of a directory.
  datatype Slot = Slot(dir: PageDirectory, index: nat)

  // Every table of d is registered as the table of its slot.
  ghost predicate Registered(owner: map<nat, Slot>, d: PageDirectory, tables: seq<nat>) {
    forall i | 0 <= i < |tables| && tables[i] != 0 ::
      tables[i] / PAGE_SIZE in owner && owner[tables[i] / PAGE_SIZE] == Slot(d, i)
  }

  // A frame without an owner is no table.
  lemma Unhung(owner: map<nat, Slot>, d: PageDirectory, tables: seq<nat>, f: nat)
    requires Registered(owner, d, tables) && f !in owner
    ensures NotTable(tables, f)
  {
  }

  // The table of slot k serves no other slot of its directory ...
  lemma OwnedOnce(owner: map<nat, Slot>, d: PageDirectory, tables: seq<nat>, k: nat)
    requires Registered(owner, d, tables) && k < |tables| && tables[k] != 0
    ensures OnlyTable(tables, k, tables[k] / PAGE_SIZE)
  {
  }

  // ... and no other directory.
  lemma OwnedElsewhere(owner: map<nat, Slot>, d: PageDirectory, tables: seq<nat>, k: nat, e: PageDirectory,
                       others: seq<nat>)
    requires Registered(owner, d, tables) && k < |tables| && tables[k] != 0
    requires Registered(owner, e, others) && e != d
    ensures NotTable(others, tables[k] / PAGE_SIZE)
  {
  }

  lemma SameThenRemapped(t0: seq<nat>, m0: seq<byte>, t1: seq<nat>, m1: seq<byte>, t2: seq<nat>, m2: seq<byte>, v: nat,
                         x: Option<Mapping>)
    requires SameMap(t0, m0, t1, m1) && Remapped(t1, m1, t2, m2, v, x)
    ensures Remapped(t0, m0, t2, m2, v, x)
  {
  }

  lemma SameThenSame(t0: seq<nat>, m0: seq<byte>, t1: seq<nat>, m1: seq<byte>, t2: seq<nat>, m2: seq<byte>)
    requires SameMap(t0, m0, t1, m1) && SameMap(t1, m1, t2, m2)
    ensures SameMap(t0, m0, t2, m2)
  {
  }

  // The memories agree on the given frames.
  ghost predicate FramesSame(m: seq<byte>, n: seq<byte>, frames: set<nat>) {
    |m| == |n| && forall f | f in frames :: FrameSame(m, n, f)
  }

  lemma OthersTwice(m: seq<byte>, n: seq<byte>, o: seq<byte>, f: nat)
    requires OthersSame(m, n, f) && OthersSame(n, o, f)
    ensures OthersSame(m, o, f)
  {
    forall g: nat | g != f && FrameIn(m, g)
      ensures FrameSame(m, o, g)
    {
      assert FrameSame(m, n, g) && FrameSame(n, o, g);
    }
  }

  // From m to n the first y bytes at off have been copied to the start of
  // frame f, and nothing else has changed.
  ghost predicate Copied(tables: seq<nat>, m: seq<byte>, n: seq<byte>, f: nat, code: seq<byte>, off: nat, y: nat) {
    && SameMap(tables, m, tables, n) && OthersSame(m, n, f) && FrameIn(n, f)
    && y <= PAGE_SIZE && off + y <= |code|
    && n[f * PAGE_SIZE..f * PAGE_SIZE + y] == code[off..off + y]
  }

  lemma CopiedStep(tables: seq<nat>, m: seq<byte>, n: seq<byte>, n': seq<byte>, f: nat, code: seq<byte>, off: nat,
                   y: nat)
    requires Copied(tables, m, n, f, code, off, y) && y < PAGE_SIZE && off + y < |code|
    requires SameMap(tables, n, tables, n') && OthersSame(n, n', f)
    requires n' == n[f * PAGE_SIZE + y := code[off + y]]
    ensures Copied(tables, m, n', f, code, off, y + 1)
  {
    SameThenSame(tables, m, tables, n, tables, n');
    OthersTwice(m, n, n', f);
    var a := f * PAGE_SIZE;
    assert n'[a..a + (y + 1)] == n[a..a + y] + [code[off + y]];
    assert code[off..off + (y + 1)] == code[off..off + y] + [code[off + y]];
  }

  lemma OthersUntouched(m: seq<byte>, n: seq<byte>, f: nat, o: nat)
    requires FrameIn(m, f) && o < PAGE_SIZE && |m| == |n|
    requires forall x | 0 <= x < |m| && x != f * PAGE_SIZE + o :: n[x] == m[x]
    ensures OthersSame(m, n, f)
  {
    forall g: nat | g != f && FrameIn(m, g)
      ensures FrameSame(m, n, g)
    {
      if g < f {
        assert g * PAGE_SIZE + PAGE_SIZE <= f * PAGE_SIZE;
      } else {
        assert f * PAGE_SIZE + PAGE_SIZE <= g * PAGE_SIZE;
      }
    }
  }

  // Unmapping page v shows in the processor's walk, and a TLB without v, or one
  // that could not hold v before, stays right.
  lemma UnmappedOk(tlb: map<nat, Mapping>, tables: seq<nat>, entries: seq<Entry>, m: seq<byte>, m': seq<byte>, v: nat)
    requires DirAgrees(entries, tables) && Remapped(tables, m, tables, m', v, None)
    ensures HardRemapped(entries, m, entries, m', v, None)
    ensures TlbOk(tlb, entries, m) ==> TlbOk(tlb - {v}, entries, m')
    ensures TlbOk(tlb, entries, m) && tables[v / ENTRIES] == 0 ==> TlbOk(tlb, entries, m')
  {
    HardFollowsSame(tables, entries, m, m', v, None);
    if TlbOk(tlb, entries, m) {
      StaleOrNot(tlb, entries, m, entries, m', v, None);
      WalksAgree(entries, tables, m, v);
    }
  }

  // The bits map_page leaves in memory, and in a directory entry it has filled in.
  ghost predicate MapStored(tables: seq<nat>, entries: seq<Entry>, m: seq<byte>, vaddr: nat, paddr: nat, flags: nat,
                            filled: bool)
  {
    && |tables| == |entries| == ENTRIES && vaddr < WORD && FrameIn(m, tables[vaddr / 0x40_0000] / 4096)
    && EntryBits(EntryWord(tables, m, vaddr), flags, paddr)
    && (filled ==> EntryBits(Encode(entries[vaddr / 0x40_0000]), flags, tables[vaddr / 0x40_0000]))
  }

  lemma MapBits(tables0: seq<nat>, entries0: seq<Entry>, tables: seq<nat>, entries: seq<Entry>, m: seq<byte>,
                vaddr: nat, paddr: nat, flags: nat)
    requires DirAgrees(entries, tables) && vaddr < WORD
    requires var x := Mapping(paddr / PAGE_SIZE, HasFlag(flags, PAGE_WRITE), HasFlag(flags, PAGE_USER));
             && SoftWalk(tables, m, vaddr / PAGE_SIZE) == Some(x)
             && NewSlot(tables0, entries0, tables, entries, vaddr / PAGE_SIZE / ENTRIES, x.rw, x.user)
    ensures MapStored(tables, entries, m, vaddr, paddr, flags, tables0[vaddr / PAGE_SIZE / ENTRIES] == 0)
  {
    Indices(vaddr);
    var k := vaddr / 0x40_0000;
    DecodedBits(EntryWord(tables, m, vaddr), flags, paddr);
    if tables0[k] == 0 {
      assert EntryAgrees(entries[k], tables[k]);
      DecodeEncode(entries[k]);
      DecodedBits(Encode(entries[k]), flags, tables[k]);
    }
  }

  // What map_page does to a directory and to memory: nothing without a table or
  // a frame for one; otherwise page v, and no other, becomes x.
  ghost predicate MapEffect(tables: seq<nat>, entries: seq<Entry>, m: seq<byte>, tables': seq<nat>,
                            entries': seq<Entry>, m': seq<byte>, v: nat, x: Mapping, left: bool)
  {
    && |tables| == ENTRIES && v < PAGES
    && if tables[v / ENTRIES] == 0 && !left then m' == m && tables' == tables && entries' == entries
       else && Remapped(tables, m, tables', m', v, Some(x))
            && NewSlot(tables, entries, tables', entries', v / ENTRIES, x.rw, x.user)
            && HardRemapped(entries, m, entries', m', v, Through(entries'[v / ENTRIES], Some(x)))
  }

  // It is one step of the flat map; the TLB stays right exactly if it does not
  // hold v, or holds what is there then; and every TLB exactly if the page was
  // not mapped, or is seen as before.
  lemma MapOutcome(tlb: map<nat, Mapping>, tables: seq<nat>, entries: seq<Entry>, m: seq<byte>, tables': seq<nat>,
                   entries': seq<Entry>, m': seq<byte>, v: nat, x: Mapping, left: bool,
                   vaddr: nat, paddr: nat, flags: nat)
    requires DirAgrees(entries, tables) && DirAgrees(entries', tables') && vaddr < WORD && v == vaddr / PAGE_SIZE
    requires x == Mapping(paddr / PAGE_SIZE, HasFlag(flags, PAGE_WRITE), HasFlag(flags, PAGE_USER))
    requires MapEffect(tables, entries, m, tables', entries', m', v, x, left)
    ensures TlbOk(tlb, entries, m) ==>
              (TlbOk(tlb, entries', m') <==> v in tlb ==> HardWalk(entries', m', v) == Some(tlb[v]))
    ensures TlbSafe(entries, m, entries', m')
            <==> HardWalk(entries, m, v) == None || HardWalk(entries, m, v) == Through(entries[v / ENTRIES], Some(x))
    ensures forall s | PageRuns.Refines(entries, tables, m, s) ::
              PageRuns.Refines(entries', tables', m', PageRuns.Step(s, PageRuns.MapOp(v, x, left)))
    ensures tables[vaddr / 0x40_0000] != 0 || left ==>
              MapStored(tables', entries', m', vaddr, paddr, flags, tables[vaddr / 0x40_0000] == 0)
  {
    if TlbOk(tlb, entries, m) && (tables[v / ENTRIES] != 0 || left) {
      StaleOrNot(tlb, entries, m, entries', m', v, Through(entries'[v / ENTRIES], Some(x)));
    }
    MapSafe(tables, entries, m, tables', entries', m', v, x);
    PageRuns.MapRefinesAny(entries, tables, m, entries', tables', m', v, x, left);
    Indices(vaddr);
    if tables[v / ENTRIES] != 0 || left {
      MapBits(tables, entries, tables', entries', m', vaddr, paddr, flags);
    }
  }

  class Mmu {
    const phys: array<byte>
    const pmm: FrameAllocator
    const kernelDir: PageDirectory
    var current: PageDirectory
    // Translations the processor remembers.
    var tlb: map<nat, Mapping>
    // All directories, the slot whose table each table frame is, and the
    // frames clients hold.
    ghost var dirs: set<PageDirectory>
    ghost var owner: map<nat, Slot>
    ghost var data: set<nat>

    ghost predicate Valid()
      reads this, phys, pmm, pmm.bitmap, dirs
    {
      && pmm.Valid() && pmm.initialized
      && phys.Length == pmm.totalPages * PAGE_SIZE && phys as object != pmm.bitmap
      && pmm.Conserved() && owner.Keys <= pmm.held && data <= pmm.held
      && kernelDir in dirs && current in dirs
      && (forall d | d in dirs :: d.Ok(phys[..]))
      && (forall d | d in dirs :: Registered(owner, d, d.tables))
      && owner.Keys !! data
    }

    // The processor's translation of page v.
    function Translation(v: nat): Option<Mapping>
      reads this, current, phys
      requires |current.entries| == ENTRIES && v < PAGES
    {
      HardWalk(current.entries, phys[..], v)
    }

    // The tables of the current directory hold exactly what s says.
    ghost predicate Holds(s: PageRuns.Space)
      reads this, current, phys
    {
      PageRuns.Refines(current.entries, current.tables, phys[..], s)
    }

    ghost predicate Coherent()
      reads this, current, phys
    {
      TlbOk(tlb, current.entries, phys[..])
    }

    // The kernel's first 4 MB are behind a directory entry without user rights.
    ghost predicate LowKernel()
      reads this, kernelDir
    {
      |kernelDir.entries| == ENTRIES && kernelDir.entries[0].present && !kernelDir.entries[0].user
    }

    // Every directory maps what it mapped before.
    twostate predicate MapsSame()
      reads this, phys, dirs
    {
      forall d | d in dirs && d in old(dirs) :: SameMap(old(d.tables), old(phys[..]), d.tables, phys[..])
    }

    constructor (pmm: FrameAllocator, phys: array<byte>)
      requires pmm.Valid() && pmm.initialized && pmm.Conserved()
      requires phys.Length == pmm.totalPages * PAGE_SIZE && phys as object != pmm.bitmap
      ensures Valid() && this.pmm == pmm && this.phys == phys && fresh(kernelDir)
      ensures current == kernelDir && dirs == {kernelDir} && owner == map[] && data == {} && tlb == map[]
    {
      this.pmm, this.phys := pmm, phys;
      var d := new PageDirectory();
      kernelDir, current := d, d;
      tlb := map[];
      dirs, owner, data := {d}, map[], {};
    }

    // No walk ever grants user rights on the low 4 MB.
    lemma LowKernelSafe(v: nat)
      requires Valid() && LowKernel() && v < ENTRIES
      ensures HardWalk(kernelDir.entries, phys[..], v).Some? ==> !HardWalk(kernelDir.entries, phys[..], v).value.user
    {
    }

    // Page tables and client pages lie beyond the reserved pages.
    lemma BeyondReserved(f: nat)
      requires Valid() && (f in data || f in owner)
      ensures FirstFree(pmm.totalPages) <= f < pmm.totalPages
      ensures 0x20_0000 + 4 * BitmapWords(pmm.totalPages) <= 4096 * f
    {
      assert f in pmm.held;
      FreeAtBoot(pmm.totalPages, f);
    }

    lemma ClientPage(page: nat)
      requires Valid() && page / PAGE_SIZE in data
      ensures page < WORD && page / PAGE_SIZE < pmm.totalPages
    {
      BeyondReserved(page / PAGE_SIZE);
    }

    // ---- frames for clients (include/pmm.h:7)

    // pmm_alloc_page, for the kernel or for a client: 0 without a free frame.
    method NewFrame() returns (frame: nat)
      requires pmm.Valid() && pmm.initialized && pmm.Conserved()
      modifies pmm`freePages, pmm`held, pmm.bitmap
      ensures pmm.Valid() && pmm.initialized && pmm.Conserved()
      ensures frame == 0 <==> old(pmm.freePages) == 0
      ensures frame == 0 ==> pmm.Books() == old(pmm.Books()) && pmm.freePages == 0
      ensures frame != 0 ==>
                && frame % PAGE_SIZE == 0 && IsLeast(frame / PAGE_SIZE, old(pmm.Free()))
                && frame / PAGE_SIZE !in old(pmm.held)
                && pmm.Books() == Taken(old(pmm.Books()), frame / PAGE_SIZE)
                && pmm.freePages == old(pmm.freePages) - 1
    {
      ghost var s := pmm.Books();
      frame := pmm.AllocFrame();
      StepBalances(s, if frame == 0 then Refuse else Take(frame / PAGE_SIZE), pmm.Books(), pmm.totalPages);
    }

    // A client holds frame f from now on.
    ghost method Hold(f: nat)
      requires Valid() && f in pmm.held && f !in owner
      modifies this`data
      ensures Valid() && data == old(data) + {f}
    {
      data := data + {f};
    }

    method AllocPage() returns (frame: nat)
      requires Valid()
      modifies this`data, pmm`freePages, pmm`held, pmm.bitmap
      ensures Valid()
      ensures frame == 0 <==> old(pmm.freePages) == 0
      ensures frame == 0 ==> data == old(data) && pmm.Free() == old(pmm.Free())
      ensures frame != 0 ==>
                && frame % PAGE_SIZE == 0 && IsLeast(frame / PAGE_SIZE, old(pmm.Free()))
                && data == old(data) + {frame / PAGE_SIZE} && pmm.Free() == old(pmm.Free()) - {frame / PAGE_SIZE}
                && pmm.freePages == old(pmm.freePages) - 1
                && frame / PAGE_SIZE !in old(data) && frame / PAGE_SIZE !in owner
    {
      frame := NewFrame();
      if frame != 0 {
        Hold(frame / PAGE_SIZE);
      }
    }

    // pmm_free_page on a frame held.
    method GiveFrame(frame: nat)
      requires pmm.Valid() && pmm.initialized && pmm.Conserved() && frame / PAGE_SIZE in pmm.held && frame < WORD
      requires 0 < frame / PAGE_SIZE < pmm.totalPages
      modifies pmm`freePages, pmm`held, pmm.bitmap
      ensures pmm.Valid() && pmm.initialized && pmm.Conserved()
      ensures pmm.Books() == Given(old(pmm.Books()), frame / PAGE_SIZE)
    {
      pmm.FreeFrame(frame);
    }

    method FreePage(frame: nat)
      requires Valid() && frame % PAGE_SIZE == 0 && frame / PAGE_SIZE in data && frame < WORD
      modifies this`data, pmm`freePages, pmm`held, pmm.bitmap
      ensures Valid()
      ensures data == old(data) - {frame / PAGE_SIZE}
      ensures pmm.Free() == old(pmm.Free()) + {frame / PAGE_SIZE}
    {
      GiveFrame(frame);
      data := data - {frame / PAGE_SIZE};
    }

    // ---- page tables

    // The memset of kernel/paging.c:16.
    method ZeroFrame(t: nat)
      requires Valid() && t % PAGE_SIZE == 0 && t / PAGE_SIZE in pmm.held
      requires t / PAGE_SIZE !in data && t / PAGE_SIZE !in owner
      modifies phys
      ensures Valid()
      ensures ZeroTable(phys[..], t / PAGE_SIZE) && OthersSame(old(phys[..]), phys[..], t / PAGE_SIZE)
      ensures MapsSame()
    {
      ghost var m, f := phys[..], t / PAGE_SIZE;
      assert f < pmm.totalPages;
      ZeroBytes(phys, t, PAGE_SIZE);
      assert OthersSame(m, phys[..], f);
      forall d | d in dirs
        ensures SameMap(d.tables, m, d.tables, phys[..]) && d.Ok(phys[..])
      {
        Unhung(owner, d, d.tables, f);
        UnrelatedChange(d.tables, m, phys[..], f);
      }
    }

    // A zeroed frame for a table, or 0.
    method CreatePageTable() returns (t: nat)
      requires Valid()
      modifies phys, pmm`freePages, pmm`held, pmm.bitmap
      ensures Valid()
      ensures t == 0 <==> old(pmm.freePages) == 0
      ensures t == 0 ==> phys[..] == old(phys[..]) && pmm.Free() == old(pmm.Free())
      ensures t != 0 ==>
                && t % PAGE_SIZE == 0 && t / PAGE_SIZE in old(pmm.Free()) && t / PAGE_SIZE in pmm.held
                && pmm.freePages == old(pmm.freePages) - 1
                && t / PAGE_SIZE !in data && t / PAGE_SIZE !in owner
                && ZeroTable(phys[..], t / PAGE_SIZE)
                && OthersSame(old(phys[..]), phys[..], t / PAGE_SIZE)
      ensures MapsSame()
    {
      t := NewFrame();
      if t != 0 {
        ZeroFrame(t);
      }
    }

    // kernel/paging.c:76-80: table t becomes slot k of the current directory.
    method Hang(k: nat, t: nat, rw: bool, user: bool)
      requires Valid() && k < ENTRIES && current.tables[k] == 0
      requires t % PAGE_SIZE == 0 && t / PAGE_SIZE in pmm.held
      requires t / PAGE_SIZE !in data && t / PAGE_SIZE !in owner
      modifies current, this`owner
      ensures Valid()
      ensures current.tables == old(current.tables)[k := t]
      ensures current.entries == old(current.entries)[k := TableEntry(old(current.entries)[k], t, rw, user)]
    {
      assert EntryAgrees(current.entries[k], 0);
      current.tables := current.tables[k := t];
      current.entries := current.entries[k := TableEntry(current.entries[k], t, rw, user)];
      owner := owner[t / PAGE_SIZE := Slot(current, k)];
      assert t / PAGE_SIZE < pmm.totalPages;
      assert TableIn(t, phys[..]);
    }

    // The entry of page v in the table at t.
    method StoreEntry(t: nat, v: nat, e: Entry)
      requires Valid() && t % PAGE_SIZE == 0 && FrameIn(phys[..], t / PAGE_SIZE) && EntryOk(e)
      modifies phys
      ensures Valid()
      ensures phys[..] == PutEntry(old(phys[..]), t / PAGE_SIZE, v, e)
      ensures OthersSame(old(phys[..]), phys[..], t / PAGE_SIZE)
    {
      ghost var m, f := phys[..], t / PAGE_SIZE;
      DecodeEncode(e);
      PokeWord(phys, t + 4 * (v % ENTRIES), Encode(e));
      forall g: nat | g != f && FrameIn(m, g)
        ensures FrameSame(m, phys[..], g)
      {
        StoreElsewhere(m, f, v % ENTRIES, Encode(e), g);
      }
    }

    method LoadEntry(t: nat, v: nat) returns (e: Entry)
      requires t % PAGE_SIZE == 0 && FrameIn(phys[..], t / PAGE_SIZE)
      ensures e == EntryAt(phys[..], t / PAGE_SIZE, v % ENTRIES) && EntryOk(e)
    {
      var w := PeekWord(phys, t + 4 * (v % ENTRIES));
      DecodeOk(w);
      e := Decode(w);
    }

    // kernel/paging.c:73-81: slot k of the current directory has a table,
    // unless no frame is left for one.
    method EnsureTable(k: nat, rw: bool, user: bool) returns (ok: bool)
      requires Valid() && k < ENTRIES
      modifies phys, current, this`owner, pmm`freePages, pmm`held, pmm.bitmap
      ensures Valid()
      ensures ok == (old(current.tables)[k] != 0 || old(pmm.freePages) > 0)
      ensures ok ==> current.tables[k] != 0
      ensures old(current.tables)[k] != 0 || !ok ==>
                && phys[..] == old(phys[..]) && pmm.Free() == old(pmm.Free())
                && current.tables == old(current.tables) && current.entries == old(current.entries)
      ensures old(current.tables)[k] == 0 && ok ==>
                && pmm.freePages == old(pmm.freePages) - 1
                && current.tables == old(current.tables)[k := current.tables[k]]
                && current.entries == old(current.entries)[k := current.entries[k]]
                && current.entries[k].present && current.entries[k].rw == rw && current.entries[k].user == user
                && current.tables[k] / PAGE_SIZE !in old(owner) && current.tables[k] / PAGE_SIZE !in data
                && OthersSame(old(phys[..]), phys[..], current.tables[k] / PAGE_SIZE)
      ensures FramesSame(old(phys[..]), phys[..], data)
      ensures MapsSame()
    {
      ok := true;
      if current.tables[k] == 0 {
        ghost var m, tables := phys[..], current.tables;
        var t := CreatePageTable();
        if t == 0 {
          return false;
        }
        Unhung(owner, current, current.tables, t / PAGE_SIZE);
        TableAdded(tables, m, phys[..], k, t / PAGE_SIZE);
        Hang(k, t, rw, user);
        assert t == t / PAGE_SIZE * PAGE_SIZE;
      }
    }

    // The entry of page v of the current directory becomes e.
    method SetEntry(v: nat, e: Entry)
      requires Valid() && v < PAGES && current.tables[v / ENTRIES] != 0 && EntryOk(e)
      modifies phys
      ensures Valid()
      ensures Remapped(current.tables, old(phys[..]), current.tables, phys[..], v, Meaning(e))
      ensures EntryAt(phys[..], current.tables[v / ENTRIES] / PAGE_SIZE, v % ENTRIES) == e
      ensures forall d | d in dirs && d != current :: SameMap(d.tables, old(phys[..]), d.tables, phys[..])
      ensures FramesSame(old(phys[..]), phys[..], data)
    {
      ghost var m := phys[..];
      var t := current.tables[v / ENTRIES];
      assert TableIn(t, m);
      OwnedOnce(owner, current, current.tables, v / ENTRIES);
      EntryChanged(current.tables, m, v, e);
      StoreEntry(t, v, e);
      EntryStored(m, t / PAGE_SIZE, v % ENTRIES, e, v % ENTRIES);
      forall d | d in dirs && d != current
        ensures SameMap(d.tables, m, d.tables, phys[..])
      {
        OwnedElsewhere(owner, current, current.tables, v / ENTRIES, d, d.tables);
        UnrelatedChange(d.tables, m, phys[..], t / PAGE_SIZE);
      }
      forall f | f in data
        ensures FrameSame(m, phys[..], f)
      {
        assert FrameIn(m, f);
      }
    }

    // kernel/paging.c:83-87.
    method Overwrite(v: nat, x: Mapping)
      requires Valid() && v < PAGES && current.tables[v / ENTRIES] != 0 && x.frame < 0x10_0000
      modifies phys
      ensures Valid()
      ensures Remapped(current.tables, old(phys[..]), current.tables, phys[..], v, Some(x))
      ensures forall d | d in dirs && d != current :: SameMap(d.tables, old(phys[..]), d.tables, phys[..])
      ensures FramesSame(old(phys[..]), phys[..], data)
    {
      var t := current.tables[v / ENTRIES];
      assert TableIn(t, phys[..]);
      var e := LoadEntry(t, v);
      SetEntry(v, e.(present := true, rw := x.rw, user := x.user, frame := x.frame));
    }

    // kernel/paging.c:69-87 for page v.
    method MapInto(v: nat, x: Mapping)
      requires Valid() && v < PAGES && x.frame < 0x10_0000
      modifies phys, current, this`owner, pmm`freePages, pmm`held, pmm.bitmap
      ensures Valid()
      ensures MapEffect(old(current.tables), old(current.entries), old(phys[..]), current.tables, current.entries,
                        phys[..], v, x, old(pmm.freePages) > 0)
      ensures old(pmm.freePages) == 0 ==> pmm.Free() == old(pmm.Free())
      ensures pmm.freePages == old(pmm.freePages)
                - if old(current.tables)[v / ENTRIES] == 0 && old(pmm.freePages) > 0 then 1 else 0
      ensures forall d | d in dirs && d != current :: SameMap(d.tables, old(phys[..]), d.tables, phys[..])
      ensures FramesSame(old(phys[..]), phys[..], data)
    {
      ghost var m, tables, entries := phys[..], current.tables, current.entries;
      var ok := EnsureTable(v / ENTRIES, x.rw, x.user);
      if !ok {
        return;
      }
      ghost var m1, tables1 := phys[..], current.tables;
      Overwrite(v, x);
      SameThenRemapped(tables, m, tables1, m1, current.tables, phys[..], v, Some(x));
      HardFollows(tables, entries, m, current.tables, current.entries, phys[..], v, x, x.rw, x.user);
      forall d | d in dirs && d != current
        ensures SameMap(d.tables, m, d.tables, phys[..])
      {
        SameThenSame(d.tables, m, d.tables, m1, d.tables, phys[..]);
      }
    }

    // Ghost v and x are the page and the mapping that the arguments denote.
    method MapPage(vaddr: nat, paddr: nat, flags: nat, ghost v: nat, ghost x: Mapping)
      requires Valid() && vaddr < WORD && paddr < WORD
      requires v == vaddr / PAGE_SIZE
      requires x == Mapping(paddr / PAGE_SIZE, HasFlag(flags, PAGE_WRITE), HasFlag(flags, PAGE_USER))
      modifies phys, current, this`owner, pmm`freePages, pmm`held, pmm.bitmap
      ensures Valid()
      // A missing table that cannot be allocated: nothing happens, silently.
      ensures old(current.tables)[v / ENTRIES] == 0 && old(pmm.freePages) == 0 ==>
                && phys[..] == old(phys[..]) && pmm.Free() == old(pmm.Free())
                && current.tables == old(current.tables) && current.entries == old(current.entries)
      // Otherwise the page, and no other, is remapped; the processor sees the
      // same, with the rights of the directory entry.
      ensures old(current.tables)[v / ENTRIES] != 0 || old(pmm.freePages) > 0 ==>
                && Remapped(old(current.tables), old(phys[..]), current.tables, phys[..], v, Some(x))
                && NewSlot(old(current.tables), old(current.entries), current.tables, current.entries, v / ENTRIES,
                           x.rw, x.user)
                && HardRemapped(old(current.entries), old(phys[..]), current.entries, phys[..], v,
                                Through(current.entries[v / ENTRIES], Some(x)))
      // What is stored then, bit by bit.
      ensures old(current.tables)[vaddr / 0x40_0000] != 0 || old(pmm.freePages) > 0 ==>
                MapStored(current.tables, current.entries, phys[..], vaddr, paddr, flags,
                          old(current.tables)[vaddr / 0x40_0000] == 0)
      // Either way that is one step of the flat map.
      ensures forall s | old(Holds(s)) :: Holds(PageRuns.Step(s, PageRuns.MapOp(v, x, old(pmm.freePages) > 0)))
      ensures pmm.freePages == old(pmm.freePages)
                - if old(current.tables)[v / ENTRIES] == 0 && old(pmm.freePages) > 0 then 1 else 0
      ensures forall d | d in dirs && d != current :: SameMap(d.tables, old(phys[..]), d.tables, phys[..])
      ensures FramesSame(old(phys[..]), phys[..], data)
      // There is no invlpg: the TLB stays right exactly when it did not hold
      // the page, or held what is there now; whatever it held, exactly when the
      // page was not mapped, or is seen as before.
      ensures old(Coherent()) ==> (Coherent() <==> v in tlb ==> Translation(v) == Some(tlb[v]))
      ensures TlbSafe(old(current.entries), old(phys[..]), current.entries, phys[..])
              <==> old(Translation(v)).None?
                   || old(Translation(v)) == Through(old(current.entries)[v / ENTRIES], Some(x))
      ensures old(LowKernel()) ==> LowKernel()
    {
      ghost var m, tables, entries, left := phys[..], current.tables, current.entries, pmm.freePages > 0;
      var page := vaddr / PAGE_SIZE;
      MapInto(page, Mapping(paddr / PAGE_SIZE, HasFlag(flags, PAGE_WRITE), HasFlag(flags, PAGE_USER)));
      MapOutcome(tlb, tables, entries, m, current.tables, current.entries, phys[..], v, x, left, vaddr, paddr, flags);
    }

    // kernel/paging.c:99-102 for page v.
    method ClearEntry(v: nat)
      requires Valid() && v < PAGES && current.tables[v / ENTRIES] != 0
      modifies phys
      ensures Valid()
      ensures Remapped(current.tables, old(phys[..]), current.tables, phys[..], v, None)
      ensures var t, j := current.tables[v / ENTRIES] / PAGE_SIZE, v % ENTRIES;
              EntryAt(phys[..], t, j) == EntryAt(old(phys[..]), t, j).(present := false, frame := 0)
      ensures forall d | d in dirs && d != current :: SameMap(d.tables, old(phys[..]), d.tables, phys[..])
      ensures FramesSame(old(phys[..]), phys[..], data)
    {
      var t := current.tables[v / ENTRIES];
      assert TableIn(t, phys[..]);
      var e := LoadEntry(t, v);
      SetEntry(v, e.(present := false, frame := 0));
    }

    method UnmapPage(vaddr: nat)
      requires Valid() && vaddr < WORD
      modifies phys, this`tlb
      ensures Valid()
      ensures Remapped(current.tables, old(phys[..]), current.tables, phys[..], vaddr / PAGE_SIZE, None)
      ensures HardRemapped(current.entries, old(phys[..]), current.entries, phys[..], vaddr / PAGE_SIZE, None)
      // The entry loses its frame and the bit that makes it present, and keeps
      // the other bits.
      ensures current.tables[vaddr / 0x40_0000] != 0 ==>
                var t, j := current.tables[vaddr / 0x40_0000] / 4096, vaddr / 4096 % 1024;
                EntryAt(phys[..], t, j) == EntryAt(old(phys[..]), t, j).(present := false, frame := 0)
      ensures forall s | old(Holds(s)) :: Holds(PageRuns.Step(s, PageRuns.UnmapOp(vaddr / PAGE_SIZE)))
      ensures forall d | d in dirs && d != current :: SameMap(d.tables, old(phys[..]), d.tables, phys[..])
      ensures FramesSame(old(phys[..]), phys[..], data)
      ensures old(Coherent()) ==> Coherent()
    {
      var v := vaddr / PAGE_SIZE;
      ghost var m, tlb0 := phys[..], tlb;
      Indices(vaddr);
      if current.tables[v / ENTRIES] != 0 {
        ClearEntry(v);
        tlb := tlb - {v};
      }
      UnmappedOk(tlb0, current.tables, current.entries, m, phys[..], v);
      PageRuns.UnmapRefinesAny(current.entries, current.tables, m, phys[..], v);
    }

    // A null directory is ignored; otherwise CR3 is loaded, which empties the
    // TLB.
    method SwitchPageDirectory(dir: PageDirectory?)
      requires Valid() && (dir == null || dir in dirs)
      modifies this`current, this`tlb
      ensures Valid()
      ensures dir == null ==> current == old(current) && tlb == old(tlb)
      ensures dir != null ==> current == dir && tlb == map[] && Coherent()
    {
      if dir == null {
        return;
      }
      current := dir;
      tlb := map[];
    }

    // The processor remembers a translation it has walked.
    method Fill(v: nat)
      requires Valid() && v < PAGES && Translation(v).Some?
      modifies this`tlb
      ensures Valid() && tlb == old(tlb)[v := Translation(v).value]
      ensures old(Coherent()) ==> Coherent()
    {
      tlb := tlb[v := Translation(v).value];
    }

    // kernel/paging.c:35-41: the table at t maps the first 1024 pages to
    // themselves.
    method FillIdentity(t: nat)
      requires Valid() && t % PAGE_SIZE == 0 && FrameIn(phys[..], t / PAGE_SIZE)
      requires Filled(phys[..], t / PAGE_SIZE, 0)
      modifies phys
      ensures Valid() && Filled(phys[..], t / PAGE_SIZE, ENTRIES)
    {
      for i := 0 to ENTRIES
        invariant Valid() && Filled(phys[..], t / PAGE_SIZE, i)
      {
        FilledStep(phys[..], t / PAGE_SIZE, i);
        var e := LoadEntry(t, i);
        StoreEntry(t, i, e.(present := true, rw := true, frame := i));
      }
    }

    // At boot: the kernel directory maps the low 4 MB to itself, writable and
    // not for users, and nothing else; without a frame for the table it maps
    // nothing.
    method InitPaging()
      requires Valid() && current == kernelDir && dirs == {kernelDir} && owner == map[]
      modifies phys, kernelDir, this`owner, this`tlb, pmm`freePages, pmm`held, pmm.bitmap
      ensures Valid() && Coherent()
      ensures old(pmm.freePages) == 0 ==> forall u: nat | u < PAGES :: SoftWalk(kernelDir.tables, phys[..], u) == None
      ensures old(pmm.freePages) > 0 ==>
                LowKernel() && IdentityMap(kernelDir.entries, kernelDir.tables, phys[..]) && Holds(PageRuns.Booted())
    {
      kernelDir.entries := seq(ENTRIES, _ => EMPTY);
      kernelDir.tables := seq(ENTRIES, _ => 0);
      tlb := map[];
      var t := CreatePageTable();
      if t == 0 {
        return;
      }
      ghost var f := t / PAGE_SIZE;
      forall j | 0 <= j < ENTRIES
        ensures EntryAt(phys[..], f, j) == EMPTY
      {
        ZeroedTable(phys[..], f, j);
      }
      FillIdentity(t);
      assert t == f * PAGE_SIZE;
      Hang(0, t, true, false);
      IdentityHung(kernelDir.entries, kernelDir.tables, phys[..], f);
      PageRuns.BootRefines(kernelDir.entries, kernelDir.tables, phys[..]);
    }

    // A directory without tables joins those in use.
    ghost method Adopt(d: PageDirectory)
      requires Valid() && d !in dirs
      requires d.entries == seq(ENTRIES, _ => EMPTY) && d.tables == seq(ENTRIES, _ => 0)
      modifies this`dirs
      ensures Valid() && dirs == old(dirs) + {d}
    {
      dirs := dirs + {d};
    }

    // ---- memory through the page tables

    // The byte a load from virtual address addr yields; None is a page fault.
    function ReadByte(addr: nat): Option<byte>
      reads this, current, phys
      requires |current.entries| == ENTRIES && addr < WORD
    {
      match Translation(addr / PAGE_SIZE)
      case None => None
      case Some(x) =>
        var a := x.frame * PAGE_SIZE + addr % PAGE_SIZE;
        if a < phys.Length then Some(phys[a]) else None
    }

    // A store at offset o of a virtual page v backed by a client's frame;
    // false is a page fault.
    method WriteByte(v: nat, o: nat, b: byte) returns (ok: bool)
      requires Valid() && v < PAGES && o < PAGE_SIZE
      requires Translation(v).Some? ==> Translation(v).value.frame in data
      modifies phys
      ensures Valid()
      ensures ok == old(Translation(v)).Some?
      ensures !ok ==> phys[..] == old(phys[..])
      ensures ok ==>
                var f := old(Translation(v)).value.frame;
                && FrameIn(phys[..], f)
                && phys[..] == old(phys[..])[f * PAGE_SIZE + o := b]
                && OthersSame(old(phys[..]), phys[..], f)
      ensures MapsSame()
      ensures Translation(v) == old(Translation(v))
    {
      ghost var m := phys[..];
      var x := Translation(v);
      if x.None? {
        return false;
      }
      ghost var f := x.value.frame;
      phys[x.value.frame * PAGE_SIZE + o] := b;
      OthersUntouched(m, phys[..], f, o);
      forall d | d in dirs
        ensures SameMap(d.tables, m, d.tables, phys[..])
      {
        Unhung(owner, d, d.tables, f);
        UnrelatedChange(d.tables, m, phys[..], f);
      }
      WalksAgree(current.entries, current.tables, m, v);
      WalksAgree(current.entries, current.tables, phys[..], v);
      ok := true;
    }

    lemma FrameOfData(f: nat)
      requires Valid() && f in data
      ensures FrameIn(phys[..], f)
    {
      assert f < pmm.totalPages;
    }

    method CopyByte(v: nat, y: nat, source: array<byte>, off: nat, ghost m: seq<byte>)
      requires Valid() && v < PAGES && y < PAGE_SIZE && off + y < source.Length && source != phys
      requires Translation(v).Some? && Translation(v).value.frame in data
      requires Copied(current.tables, m, phys[..], Translation(v).value.frame, source[..], off, y)
      modifies phys
      ensures Valid() && Translation(v) == old(Translation(v))
      ensures Copied(current.tables, m, phys[..], Translation(v).value.frame, source[..], off, y + 1)
    {
      ghost var n := phys[..];
      var ok := WriteByte(v, y, source[off + y]);
      CopiedStep(current.tables, m, n, phys[..], Translation(v).value.frame, source[..], off, y);
    }

    // memcpy into one virtual page, a byte at a time (include/system.h:43-47).
    method CopyToPage(v: nat, source: array<byte>, off: nat, len: nat)
      requires Valid() && v < PAGES && len <= PAGE_SIZE && off + len <= source.Length
      requires source != phys
      requires Translation(v).Some? && Translation(v).value.frame in data
      modifies phys
      ensures Valid()
      ensures Copied(current.tables, old(phys[..]), phys[..], old(Translation(v)).value.frame, source[..], off, len)
    {
      ghost var m, x := phys[..], Translation(v);
      FrameOfData(x.value.frame);
      for y := 0 to len
        invariant Valid() && Translation(v) == x
        invariant Copied(current.tables, m, phys[..], x.value.frame, source[..], off, y)
      {
        CopyByte(v, y, source, off, m);
      }
    }
  }
}
