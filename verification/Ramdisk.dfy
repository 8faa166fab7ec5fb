// ramdisk_register and ramdisk_load (kernel/syscall.c:16-75): a table of
// programs, and the loader that maps and copies one into user space.

module Ramdisk {
  import opened Memory
  import opened Options
  import opened Pmm
  import opened PageTables
  import opened Paging

  const RAMDISK_MAX: nat := 8
  const USER_BASE: nat := 0x40_0000
  const STACK_TOP: nat := 0xBFC0_0000
  // PAGE_USER | PAGE_PRESENT | PAGE_RW
  const USER_FLAGS: nat := 7

  // One slot of ramdisk[]; a null name is an empty slot.
  datatype Program = Program(name: Option<string>, data: array?<byte>, size: nat)

  // ---------------------------------------------------------------- the table of programs

  // The slot where a search for name ends: its own, the first empty one, or |rd|.
  function Find(rd: seq<Program>, name: string, from: nat): (i: nat)
    requires from <= |rd|
    ensures from <= i <= |rd|
    ensures i < |rd| ==> rd[i].name == Some(name) || rd[i].name == None
    ensures forall j | from <= j < i :: rd[j].name.Some? && rd[j].name != Some(name)
    decreases |rd| - from
  {
    if from == |rd| || rd[from].name == None || rd[from].name == Some(name) then from
    else Find(rd, name, from + 1)
  }

  // What a load of path finds.
  function Lookup(rd: seq<Program>, path: string): Option<Program> {
    var i := Find(rd, path, 0);
    if i < |rd| && rd[i].name == Some(path) then Some(rd[i]) else None
  }

  lemma FindIs(rd: seq<Program>, name: string, i: nat)
    requires i <= |rd|
    requires i < |rd| ==> rd[i].name == Some(name) || rd[i].name == None
    requires forall j | 0 <= j < i :: rd[j].name.Some? && rd[j].name != Some(name)
    ensures Find(rd, name, 0) == i
  {
  }

  // Programs sit at the front of the table.
  ghost predicate Packed(rd: seq<Program>) {
    forall i, j | 0 <= i < j < |rd| && rd[j].name.Some? :: rd[i].name.Some?
  }

  // Writing the slot a search for name ends at registers name and disturbs no
  // other program.
  lemma RegisterAt(rd: seq<Program>, name: string, p: Program, other: string)
    requires Packed(rd) && p.name == Some(name) && Find(rd, name, 0) < |rd|
    ensures var rd' := rd[Find(rd, name, 0) := p];
            && Packed(rd')
            && Lookup(rd', name) == Some(p)
            && (other != name ==> Lookup(rd', other) == Lookup(rd, other))
  {
    var i := Find(rd, name, 0);
    var rd' := rd[i := p];
    FindIs(rd', name, i);
    if other != name {
      var k := Find(rd, other, 0);
      if k < i || rd[i].name == Some(name) {
        FindIs(rd', other, k);
      } else {
        // The new program took the first empty slot; the search for other now
        // ends one further on.
        assert k == i;
        if i + 1 < |rd| {
          assert rd[i + 1].name == None;
        }
        FindIs(rd', other, i + 1);
      }
    }
  }

  // A load finds a program of that name, unless there is none.
  lemma LookupFinds(rd: seq<Program>, path: string)
    requires Packed(rd)
    ensures Lookup(rd, path) == None <==> forall i | 0 <= i < |rd| :: rd[i].name != Some(path)
    ensures Lookup(rd, path).Some? ==> Lookup(rd, path).value in rd && Lookup(rd, path).value.name == Some(path)
  {
    var k := Find(rd, path, 0);
    if k < |rd| && rd[k].name == None {
      forall i | 0 <= i < |rd|
        ensures rd[i].name != Some(path)
      {
        assert i >= k ==> rd[i].name == None;
      }
    }
  }

  // ---------------------------------------------------------------- what a load costs

  // The directory slot of the k-th page of an image.
  function SlotOf(k: nat): nat {
    (USER_BASE / PAGE_SIZE + k) / ENTRIES
  }

  const STACK_PAGE: nat := STACK_TOP / PAGE_SIZE - 1
  // Pages between USER_BASE and the stack page.
  const MAX_PAGES: nat := STACK_PAGE - USER_BASE / PAGE_SIZE

  // Whether slot s has a table once k image pages are mapped over tables.
  predicate HasSlot(tables: seq<nat>, s: nat, k: nat)
    requires |tables| == ENTRIES && s < ENTRIES
  {
    tables[s] != 0 || (k > 0 && SlotOf(0) <= s <= SlotOf(k - 1))
  }

  // Frames that the first k pages take: one each, and one for every table
  // missing.
  function Cost(tables: seq<nat>, k: nat): nat
    requires |tables| == ENTRIES && k <= MAX_PAGES
  {
    if k == 0 then 0
    else Cost(tables, k - 1) + 1 + if HasSlot(tables, SlotOf(k - 1), k - 1) then 0 else 1
  }

  // A slot that had a table keeps it with its rights; a new one is open to users.
  predicate SlotKept(t0: nat, e0: Entry, t: nat, e: Entry) {
    if t0 != 0 then t != 0 && e.rw == e0.rw && e.user == e0.user else t != 0 ==> e.rw && e.user
  }

  ghost predicate Kept(tables0: seq<nat>, entries0: seq<Entry>, tables: seq<nat>, entries: seq<Entry>) {
    && |tables0| == |entries0| == |tables| == |entries| == ENTRIES
    && forall s | 0 <= s < ENTRIES :: SlotKept(tables0[s], entries0[s], tables[s], entries[s])
  }

  // Tables are exactly those there at first and those of the pages mapped.
  ghost predicate Covered(tables0: seq<nat>, entries0: seq<Entry>, tables: seq<nat>, entries: seq<Entry>, k: nat) {
    && |tables0| == |entries0| == |tables| == |entries| == ENTRIES
    && (forall s | 0 <= s < ENTRIES :: tables[s] != 0 <==> HasSlot(tables0, s, k))
    && Kept(tables0, entries0, tables, entries)
  }

  lemma KeptStep(tables0: seq<nat>, entries0: seq<Entry>, tables: seq<nat>, entries: seq<Entry>,
                 tables': seq<nat>, entries': seq<Entry>, k: nat)
    requires Kept(tables0, entries0, tables, entries) && NewSlot(tables, entries, tables', entries', k, true, true)
    ensures Kept(tables0, entries0, tables', entries')
  {
    forall s | 0 <= s < ENTRIES
      ensures SlotKept(tables0[s], entries0[s], tables'[s], entries'[s])
    {
      assert SlotKept(tables0[s], entries0[s], tables[s], entries[s]);
    }
  }

  // The rights that the directory entry of slot s leaves to a page mapped for
  // users after the load: full rights if its table is new, or else its own.
  function LeftUser(tables0: seq<nat>, entries0: seq<Entry>, s: nat): bool
    requires s < |tables0| && s < |entries0|
  {
    tables0[s] == 0 || entries0[s].user
  }

  function LeftRw(tables0: seq<nat>, entries0: seq<Entry>, s: nat): bool
    requires s < |tables0| && s < |entries0|
  {
    tables0[s] == 0 || entries0[s].rw
  }

  // The rights with which the processor sees page v if the walk finds frame f
  // there, mapped for users.
  function Granted(tables0: seq<nat>, entries0: seq<Entry>, v: nat, f: nat): Mapping
    requires |tables0| == |entries0| == ENTRIES && v < PAGES
  {
    Mapping(f, LeftRw(tables0, entries0, v / ENTRIES), LeftUser(tables0, entries0, v / ENTRIES))
  }

  // A page mapped to frame f for users is seen by the processor with them.
  lemma SeenRights(tables0: seq<nat>, entries0: seq<Entry>, tables: seq<nat>, entries: seq<Entry>, m: seq<byte>,
                   v: nat, f: nat)
    requires Kept(tables0, entries0, tables, entries) && DirAgrees(entries, tables) && v < PAGES
    requires SoftWalk(tables, m, v) == Some(Mapping(f, true, true))
    ensures HardWalk(entries, m, v) == Some(Granted(tables0, entries0, v, f))
  {
    WalksAgree(entries, tables, m, v);
    assert SlotKept(tables0[v / ENTRIES], entries0[v / ENTRIES], tables[v / ENTRIES], entries[v / ENTRIES]);
  }

  // The processor sees all pages but v as before.
  ghost predicate SeenBut(entries: seq<Entry>, m: seq<byte>, entries': seq<Entry>, m': seq<byte>, v: nat) {
    && |entries| == |entries'| == ENTRIES
    && forall u: nat | u < PAGES && u != v :: HardWalk(entries', m', u) == HardWalk(entries, m, u)
  }

  lemma SeenTwice(entries: seq<Entry>, m: seq<byte>, entries1: seq<Entry>, m1: seq<byte>, entries': seq<Entry>,
                  m': seq<byte>, v: nat)
    requires SeenBut(entries, m, entries1, m1, v) && SeenBut(entries1, m1, entries', m', v)
    ensures SeenBut(entries, m, entries', m', v)
  {
  }

  lemma SameSeen(entries: seq<Entry>, tables: seq<nat>, m: seq<byte>, m': seq<byte>, v: nat)
    requires DirAgrees(entries, tables) && SameMap(tables, m, tables, m')
    ensures SeenBut(entries, m, entries, m', v)
  {
    forall u: nat | u < PAGES
      ensures HardWalk(entries, m', u) == HardWalk(entries, m, u)
    {
      WalksAgree(entries, tables, m, u);
      WalksAgree(entries, tables, m', u);
    }
  }

  // The processor sees all pages but the first k of the image as before.
  ghost predicate SeenAround(entries: seq<Entry>, m: seq<byte>, entries': seq<Entry>, m': seq<byte>, k: nat) {
    && |entries| == |entries'| == ENTRIES
    && forall u: nat | u < PAGES && !(USER_BASE / PAGE_SIZE <= u < USER_BASE / PAGE_SIZE + k) ::
         HardWalk(entries', m', u) == HardWalk(entries, m, u)
  }

  lemma SeenMore(entries: seq<Entry>, m: seq<byte>, entries1: seq<Entry>, m1: seq<byte>, entries': seq<Entry>,
                 m': seq<byte>, k: nat, n: nat)
    requires SeenAround(entries, m, entries1, m1, k) && k < n
    requires SeenBut(entries1, m1, entries', m', USER_BASE / PAGE_SIZE + k)
    ensures SeenAround(entries, m, entries', m', k + 1) && SeenAround(entries, m, entries', m', n)
  {
  }

  // Pages that hold no byte of an image of that size, and do not lie right below
  // the top of the stack, are seen as before.
  ghost predicate SeenElsewhere(entries: seq<Entry>, m: seq<byte>, entries': seq<Entry>, m': seq<byte>, size: nat) {
    && |entries| == |entries'| == ENTRIES
    && forall u: nat | u < PAGES && (4096 * u + 4096 <= 0x40_0000 || 0x40_0000 + size <= 4096 * u)
                       && 4096 * u + 4096 != 0xBFC0_0000 ::
         HardWalk(entries', m', u) == HardWalk(entries, m, u)
  }

  // The pages of an image.
  function PageCount(size: nat): nat {
    (size + PAGE_SIZE - 1) / PAGE_SIZE
  }

  lemma ImageThenStack(entries: seq<Entry>, m: seq<byte>, entries1: seq<Entry>, m1: seq<byte>, entries': seq<Entry>,
                       m': seq<byte>, size: nat)
    requires SeenAround(entries, m, entries1, m1, PageCount(size))
    requires SeenBut(entries1, m1, entries', m', STACK_PAGE)
    ensures SeenElsewhere(entries, m, entries', m', size)
  {
    forall u: nat | u < PAGES && (4096 * u + 4096 <= 0x40_0000 || 0x40_0000 + size <= 4096 * u)
                    && 4096 * u + 4096 != 0xBFC0_0000
      ensures HardWalk(entries', m', u) == HardWalk(entries, m, u)
    {
      if u >= 0x400 {
        WholePages(size, u - 0x400);
      }
    }
  }

  lemma SoftSeen(entries: seq<Entry>, tables: seq<nat>, m: seq<byte>, v: nat, f: nat)
    requires DirAgrees(entries, tables) && v < PAGES && SoftWalk(tables, m, v) == Some(Mapping(f, true, true))
    ensures HardWalk(entries, m, v).Some? && HardWalk(entries, m, v).value.frame == f
  {
    WalksAgree(entries, tables, m, v);
  }

  // No page of an image is without a byte of it, and no byte without a page.
  lemma PagesOfImage(size: nat)
    ensures size <= 4096 * PageCount(size) < size + 4096
  {
  }

  // Page j of the code, shorter than a page at the end (kernel/syscall.c:58).
  function Chunk(code: seq<byte>, j: nat): (c: seq<byte>)
    requires j * PAGE_SIZE <= |code|
    ensures |c| <= PAGE_SIZE
  {
    if |code| - j * PAGE_SIZE > PAGE_SIZE then code[j * PAGE_SIZE..j * PAGE_SIZE + PAGE_SIZE] else code[j * PAGE_SIZE..]
  }

  // Frame f holds page j of the code.
  ghost predicate PageHolds(m: seq<byte>, f: nat, code: seq<byte>, j: nat) {
    && j * PAGE_SIZE <= |code| && FrameIn(m, f)
    && m[f * PAGE_SIZE..f * PAGE_SIZE + |Chunk(code, j)|] == Chunk(code, j)
  }

  // A chunk of the file copied into frame f is page k of the code.
  lemma CopiedChunk(tables: seq<nat>, m: seq<byte>, n: seq<byte>, f: nat, file: seq<byte>, size: nat, k: nat, off: nat,
                    chunk: nat)
    requires Copied(tables, m, n, f, file, off, chunk) && size <= |file| && off == k * PAGE_SIZE <= size
    requires chunk == if size - off > PAGE_SIZE then PAGE_SIZE else size - off
    ensures SameMap(tables, m, tables, n) && OthersSame(m, n, f) && PageHolds(n, f, file[..size], k)
  {
    assert Chunk(file[..size], k) == file[off..off + chunk];
  }

  lemma HoldsStill(m: seq<byte>, n: seq<byte>, f: nat, code: seq<byte>, j: nat)
    requires PageHolds(m, f, code, j) && |m| == |n| && FrameSame(m, n, f)
    ensures PageHolds(n, f, code, j)
  {
    var o, c := f * PAGE_SIZE, |Chunk(code, j)|;
    assert n[o..o + c] == m[o..o + c];
  }

  ghost predicate ImagePage(tables: seq<nat>, m: seq<byte>, data: set<nat>, f: nat, j: nat, code: seq<byte>)
    requires |tables| == ENTRIES && j < MAX_PAGES
  {
    && f in data
    && SoftWalk(tables, m, USER_BASE / PAGE_SIZE + j) == Some(Mapping(f, true, true))
    && PageHolds(m, f, code, j)
  }

  // The image's first |frames| pages are mapped, each to its own frame, and
  // hold the code.
  ghost predicate Image(tables: seq<nat>, m: seq<byte>, data: set<nat>, frames: seq<nat>, code: seq<byte>) {
    && |tables| == ENTRIES && |frames| <= MAX_PAGES
    && (forall i, j | 0 <= i < j < |frames| :: frames[i] != frames[j])
    && forall j | 0 <= j < |frames| :: ImagePage(tables, m, data, frames[j], j, code)
  }

  // Mapping one more page and keeping the clients' frames keeps the image.
  lemma ImageKept(tables: seq<nat>, m: seq<byte>, tables': seq<nat>, m': seq<byte>, data: set<nat>, frames: seq<nat>,
                  code: seq<byte>, v: nat, x: Option<Mapping>)
    requires Image(tables, m, data, frames, code)
    requires Remapped(tables, m, tables', m', v, x) && FramesSame(m, m', data)
    requires v >= USER_BASE / PAGE_SIZE + |frames|
    ensures Image(tables', m', data, frames, code)
  {
    forall j | 0 <= j < |frames|
      ensures ImagePage(tables', m', data, frames[j], j, code)
    {
      assert ImagePage(tables, m, data, frames[j], j, code);
      assert FrameSame(m, m', frames[j]);
      HoldsStill(m, m', frames[j], code, j);
    }
  }

  // Filling frame f, which the image does not use yet, keeps the image.
  lemma ImageUndisturbed(tables: seq<nat>, m: seq<byte>, m': seq<byte>, data: set<nat>, f: nat, frames: seq<nat>,
                         code: seq<byte>)
    requires Image(tables, m, data - {f}, frames, code)
    requires SameMap(tables, m, tables, m') && OthersSame(m, m', f)
    ensures Image(tables, m', data, frames, code)
  {
    forall j | 0 <= j < |frames|
      ensures ImagePage(tables, m', data, frames[j], j, code)
    {
      assert ImagePage(tables, m, data - {f}, frames[j], j, code);
      assert FrameIn(m, frames[j]);
      HoldsStill(m, m', frames[j], code, j);
    }
  }

  // The frames of an image are held by clients.
  lemma ImageFrames(tables: seq<nat>, m: seq<byte>, data: set<nat>, frames: seq<nat>, code: seq<byte>, f: nat)
    requires Image(tables, m, data, frames, code) && f !in data
    ensures f !in frames
  {
    forall j | 0 <= j < |frames|
      ensures frames[j] != f
    {
      assert ImagePage(tables, m, data, frames[j], j, code);
    }
  }

  lemma ImageExtended(tables: seq<nat>, m: seq<byte>, data: set<nat>, frames: seq<nat>, f: nat, code: seq<byte>)
    requires Image(tables, m, data, frames, code) && |frames| < MAX_PAGES && f !in frames
    requires ImagePage(tables, m, data, f, |frames|, code)
    ensures Image(tables, m, data, frames + [f], code)
  {
  }

  // Filling the frame the next page is mapped to extends the image.
  lemma PageFilled(tables: seq<nat>, m: seq<byte>, m': seq<byte>, data: set<nat>, frames: seq<nat>, code: seq<byte>,
                   f: nat)
    requires Image(tables, m, data, frames, code) && |frames| < MAX_PAGES && f !in data
    requires SoftWalk(tables, m, USER_BASE / PAGE_SIZE + |frames|) == Some(Mapping(f, true, true))
    requires SameMap(tables, m, tables, m') && OthersSame(m, m', f) && PageHolds(m', f, code, |frames|)
    ensures Image(tables, m', data + {f}, frames + [f], code)
  {
    assert data + {f} - {f} == data;
    ImageUndisturbed(tables, m, m', data + {f}, f, frames, code);
    ImageFrames(tables, m, data, frames, code, f);
    ImageExtended(tables, m', data + {f}, frames, f, code);
  }

  // Consecutive pages lie in the same slot or in neighbouring ones.
  lemma SlotsAdvance(k: nat)
    requires k < MAX_PAGES
    ensures SlotOf(k) < ENTRIES && SlotOf(0) <= SlotOf(k)
    ensures k > 0 ==> SlotOf(k - 1) <= SlotOf(k) <= SlotOf(k - 1) + 1
  {
  }

  lemma CoveredStep(tables0: seq<nat>, entries0: seq<Entry>, tables: seq<nat>, entries: seq<Entry>,
                    tables': seq<nat>, entries': seq<Entry>, k: nat)
    requires Covered(tables0, entries0, tables, entries, k) && k < MAX_PAGES
    requires NewSlot(tables, entries, tables', entries', SlotOf(k), true, true)
    ensures Covered(tables0, entries0, tables', entries', k + 1)
  {
    KeptStep(tables0, entries0, tables, entries, tables', entries', SlotOf(k));
    forall s | 0 <= s < ENTRIES
      ensures tables'[s] != 0 <==> HasSlot(tables0, s, k + 1)
    {
      assert tables[s] != 0 <==> HasSlot(tables0, s, k);
      SlotsAdvance(k);
    }
  }

  lemma SlotKnown(tables0: seq<nat>, entries0: seq<Entry>, tables: seq<nat>, entries: seq<Entry>, k: nat)
    requires Covered(tables0, entries0, tables, entries, k) && k < MAX_PAGES
    ensures SlotOf(k) < ENTRIES && (tables[SlotOf(k)] != 0 <==> HasSlot(tables0, SlotOf(k), k))
  {
    SlotsAdvance(k);
  }

  lemma FramesFewer(m: seq<byte>, n: seq<byte>, frames: set<nat>, fewer: set<nat>)
    requires FramesSame(m, n, frames) && fewer <= frames
    ensures FramesSame(m, n, fewer)
  {
  }

  // The image so far is in place, its next page is mapped to frame f and the
  // slot of that page is covered.
  ghost predicate NextMapped(tables0: seq<nat>, entries0: seq<Entry>, tables: seq<nat>, entries: seq<Entry>,
                             m: seq<byte>, data: set<nat>, frames: seq<nat>, code: seq<byte>, f: nat) {
    && |frames| < MAX_PAGES && Image(tables, m, data, frames, code)
    && Covered(tables0, entries0, tables, entries, |frames| + 1)
    && SoftWalk(tables, m, USER_BASE / PAGE_SIZE + |frames|) == Some(Mapping(f, true, true))
  }

  // Mapping page k: the image so far stays, the page is there, its slot is
  // covered.
  lemma PageMapped(tables0: seq<nat>, entries0: seq<Entry>, tables: seq<nat>, entries: seq<Entry>, m: seq<byte>,
                   tables': seq<nat>, entries': seq<Entry>, m': seq<byte>, all: set<nat>, data: set<nat>,
                   frames: seq<nat>, code: seq<byte>, f: nat)
    requires |frames| < MAX_PAGES && Covered(tables0, entries0, tables, entries, |frames|)
    requires Image(tables, m, data, frames, code) && FramesSame(m, m', all) && data <= all
    requires Remapped(tables, m, tables', m', USER_BASE / PAGE_SIZE + |frames|, Some(Mapping(f, true, true)))
    requires NewSlot(tables, entries, tables', entries', SlotOf(|frames|), true, true)
    ensures NextMapped(tables0, entries0, tables', entries', m', data, frames, code, f)
  {
    CoveredStep(tables0, entries0, tables, entries, tables', entries', |frames|);
    FramesFewer(m, m', all, data);
    ImageKept(tables, m, tables', m', data, frames, code, USER_BASE / PAGE_SIZE + |frames|,
              Some(Mapping(f, true, true)));
  }

  lemma ImageMore(tables: seq<nat>, m: seq<byte>, data: set<nat>, data': set<nat>, frames: seq<nat>, code: seq<byte>)
    requires Image(tables, m, data, frames, code) && data <= data'
    ensures Image(tables, m, data', frames, code)
  {
    forall j | 0 <= j < |frames|
      ensures ImagePage(tables, m, data', frames[j], j, code)
    {
      assert ImagePage(tables, m, data, frames[j], j, code);
    }
  }

  lemma {:induction false} CostMono(tables: seq<nat>, j: nat, k: nat)
    requires |tables| == ENTRIES && j <= k <= MAX_PAGES
    ensures Cost(tables, j) + (k - j) <= Cost(tables, k)
    decreases k
  {
    if j < k {
      CostMono(tables, j, k - 1);
    }
  }

  // Page k of an image is the one for which a frame is left but none for the
  // table it needs.
  ghost predicate FaultsAt(tables: seq<nat>, free: nat, k: nat) {
    && |tables| == ENTRIES && k < MAX_PAGES
    && free == Cost(tables, k) + 1 && !HasSlot(tables, SlotOf(k), k)
  }

  lemma NoFault(tables: seq<nat>, free: nat, k: nat)
    requires |tables| == ENTRIES && k <= MAX_PAGES && Cost(tables, k) <= free
    ensures forall j | 0 <= j < k :: !FaultsAt(tables, free, j)
  {
    forall j | 0 <= j < k
      ensures !FaultsAt(tables, free, j)
    {
      CostMono(tables, j + 1, k);
    }
  }

  // A load that stops for lack of a frame at page k never met a missing table.
  lemma OutOfFrames(tables: seq<nat>, free: nat, k: nat, n: nat)
    requires |tables| == ENTRIES && k <= n <= MAX_PAGES && Cost(tables, k) == free
    ensures free < Cost(tables, n) + 1
    ensures forall j | 0 <= j < n :: !FaultsAt(tables, free, j)
  {
    CostMono(tables, k, n);
    NoFault(tables, free, k);
    forall j | k <= j < n
      ensures !FaultsAt(tables, free, j)
    {
      CostMono(tables, k, j);
    }
  }

  lemma OutOfTables(tables: seq<nat>, free: nat, k: nat, n: nat)
    requires k < n <= MAX_PAGES && FaultsAt(tables, free, k)
    ensures free < Cost(tables, n) + 1
  {
    CostMono(tables, k + 1, n);
  }

  // A fault excludes enough frames for all pages.
  lemma OutOfTablesAnyway(tables: seq<nat>, free: nat, n: nat)
    requires |tables| == ENTRIES && n <= MAX_PAGES && exists k | 0 <= k < n :: FaultsAt(tables, free, k)
    ensures free < Cost(tables, n) + 1
  {
    var k :| 0 <= k < n && FaultsAt(tables, free, k);
    OutOfTables(tables, free, k, n);
  }

  // How one page of the image fared.
  datatype PageResult = PageDone | NoFrame | PageFault

  // Why a load that stops at page k does, and that it could not have succeeded.
  lemma Stopped(tables: seq<nat>, free: nat, k: nat, n: nat, r: PageResult)
    requires |tables| == ENTRIES && k < n <= MAX_PAGES && Cost(tables, k) <= free
    requires r == if free == Cost(tables, k) then NoFrame
                  else if free == Cost(tables, k) + 1 && !HasSlot(tables, SlotOf(k), k) then PageFault else PageDone
    requires !r.PageDone?
    ensures free < Cost(tables, n) && (r.PageFault? <==> exists j | 0 <= j < n :: FaultsAt(tables, free, j))
  {
    CostMono(tables, k + 1, n);
    if r.NoFrame? {
      OutOfFrames(tables, free, k, n);
    } else {
      assert FaultsAt(tables, free, k);
    }
  }

  datatype LoadResult = Loaded(entry: nat, stackTop: nat) | Failed | Faulted

  lemma ImageSeen(entries: seq<Entry>, tables: seq<nat>, m: seq<byte>, data: set<nat>, tables0: seq<nat>,
                  entries0: seq<Entry>, frames: seq<nat>, code: seq<byte>, j: nat, v: nat)
    requires DirAgrees(entries, tables) && Image(tables, m, data, frames, code) && j < |frames|
    requires Kept(tables0, entries0, tables, entries) && v == USER_BASE / PAGE_SIZE + j
    ensures HardWalk(entries, m, v) == Some(Granted(tables0, entries0, v, frames[j]))
  {
    assert ImagePage(tables, m, data, frames[j], j, code);
    SeenRights(tables0, entries0, tables, entries, m, v, frames[j]);
  }

  lemma ImageAllSeen(entries: seq<Entry>, tables: seq<nat>, m: seq<byte>, data: set<nat>, tables0: seq<nat>,
                     entries0: seq<Entry>, frames: seq<nat>, code: seq<byte>, v: nat)
    requires DirAgrees(entries, tables) && Image(tables, m, data, frames, code)
    requires Kept(tables0, entries0, tables, entries) && v == USER_BASE / PAGE_SIZE
    ensures v + |frames| < PAGES
    ensures forall u: nat | v <= u < v + |frames| ::
              HardWalk(entries, m, u) == Some(Granted(tables0, entries0, u, frames[u - v]))
  {
    forall u: nat | v <= u < v + |frames|
      ensures HardWalk(entries, m, u) == Some(Granted(tables0, entries0, u, frames[u - v]))
    {
      ImageSeen(entries, tables, m, data, tables0, entries0, frames, code, u - v, u);
    }
  }

  lemma StackSeen(mmu: Mmu, tables0: seq<nat>, entries0: seq<Entry>, g: nat)
    requires mmu.Valid() && Kept(tables0, entries0, mmu.current.tables, mmu.current.entries)
    ensures SoftWalk(mmu.current.tables, mmu.phys[..], STACK_PAGE) == Some(Mapping(g, true, true)) ==>
              mmu.Translation(STACK_PAGE) == Some(Granted(tables0, entries0, STACK_PAGE, g))
  {
    if SoftWalk(mmu.current.tables, mmu.phys[..], STACK_PAGE) == Some(Mapping(g, true, true)) {
      SeenRights(tables0, entries0, mmu.current.tables, mmu.current.entries, mmu.phys[..], STACK_PAGE, g);
    }
  }

  lemma ChunkAt(code: seq<byte>, k: nat, y: nat)
    requires y < PAGE_SIZE && k * PAGE_SIZE + y < |code|
    ensures y < |Chunk(code, k)| && Chunk(code, k)[y] == code[k * PAGE_SIZE + y]
  {
  }

  lemma HoldsAt(m: seq<byte>, f: nat, code: seq<byte>, k: nat, y: nat)
    requires PageHolds(m, f, code, k) && y < PAGE_SIZE && k * PAGE_SIZE + y < |code|
    ensures f * PAGE_SIZE + y < |m| && m[f * PAGE_SIZE + y] == code[k * PAGE_SIZE + y]
  {
    ChunkAt(code, k, y);
    var o := f * PAGE_SIZE;
    assert m[o..o + |Chunk(code, k)|][y] == m[o + y];
  }

  // The image at byte a, page by page.
  lemma ImageByte(entries: seq<Entry>, tables: seq<nat>, m: seq<byte>, data: set<nat>, frames: seq<nat>,
                  code: seq<byte>, k: nat, y: nat)
    requires DirAgrees(entries, tables) && y < PAGE_SIZE && k * PAGE_SIZE + y < |code| && k < |frames|
    requires Image(tables, m, data, frames, code)
    ensures var x := HardWalk(entries, m, USER_BASE / PAGE_SIZE + k);
            && x.Some? && x.value.frame * PAGE_SIZE + y < |m|
            && m[x.value.frame * PAGE_SIZE + y] == code[k * PAGE_SIZE + y]
  {
    assert ImagePage(tables, m, data, frames[k], k, code);
    WalksAgree(entries, tables, m, USER_BASE / PAGE_SIZE + k);
    HoldsAt(m, frames[k], code, k, y);
  }

  lemma SamePageAddress(off: nat, k: nat, y: nat)
    requires off == k * PAGE_SIZE && y < PAGE_SIZE
    ensures (USER_BASE + off + y) / PAGE_SIZE == USER_BASE / PAGE_SIZE + k
    ensures (USER_BASE + off + y) % PAGE_SIZE == y
  {
  }

  // An image in place is the code, read through the processor's walk.
  lemma ImageReads(mmu: Mmu, frames: seq<nat>, code: seq<byte>, a: nat)
    requires mmu.Valid() && a < |code| && |frames| == PageCount(|code|)
    requires Image(mmu.current.tables, mmu.phys[..], mmu.data, frames, code)
    ensures USER_BASE + a < WORD && mmu.ReadByte(USER_BASE + a) == Some(code[a])
  {
    var k, y := a / PAGE_SIZE, a % PAGE_SIZE;
    ImageByte(mmu.current.entries, mmu.current.tables, mmu.phys[..], mmu.data, frames, code, k, y);
    SamePageAddress(k * PAGE_SIZE, k, y);
    assert a == k * PAGE_SIZE + y;
  }

  class Loader {
    const ramdisk: array<Program>
    const mmu: Mmu

    ghost predicate Valid()
      reads this, ramdisk, mmu, mmu.phys, mmu.pmm, mmu.pmm.bitmap, mmu.dirs
    {
      && mmu.Valid() && ramdisk.Length == RAMDISK_MAX && Packed(ramdisk[..])
      && ramdisk as object != mmu.phys && ramdisk as object != mmu.pmm.bitmap
      && forall i | 0 <= i < RAMDISK_MAX && ramdisk[i].data != null ::
           && ramdisk[i].data != mmu.phys && ramdisk[i].data as object != mmu.pmm.bitmap
           && ramdisk[i].size <= ramdisk[i].data.Length
    }

    constructor (mmu: Mmu)
      requires mmu.Valid()
      ensures Valid() && this.mmu == mmu && fresh(ramdisk) && ramdisk.Length == 8
      ensures forall i | 0 <= i < 8 :: ramdisk[i].name == None
    {
      this.mmu := mmu;
      ramdisk := new Program[RAMDISK_MAX](_ => Program(None, null, 0));
    }

    method Register(name: string, code: array?<byte>, size: nat) returns (r: int)
      requires Valid()
      requires code != null ==> code != mmu.phys && code as object != mmu.pmm.bitmap && size <= code.Length
      modifies ramdisk
      ensures Valid()
      ensures r == if Find(old(ramdisk[..]), name, 0) < RAMDISK_MAX then 0 else -1
      ensures r == 0 ==> Lookup(ramdisk[..], name) == Some(Program(Some(name), code, size))
      ensures r == -1 ==> ramdisk[..] == old(ramdisk[..])
      ensures forall other | other != name :: Lookup(ramdisk[..], other) == Lookup(old(ramdisk[..]), other)
    {
      ghost var rd := ramdisk[..];
      for i := 0 to RAMDISK_MAX
        invariant ramdisk[..] == rd && Find(rd, name, i) == Find(rd, name, 0)
      {
        if ramdisk[i].name == Some(name) || ramdisk[i].name == None {
          ramdisk[i] := Program(Some(name), code, size);
          assert ramdisk[..] == rd[i := Program(Some(name), code, size)];
          forall other: string
            ensures Packed(ramdisk[..]) && Lookup(ramdisk[..], name) == Some(Program(Some(name), code, size))
            ensures other != name ==> Lookup(ramdisk[..], other) == Lookup(rd, other)
          {
            RegisterAt(rd, name, Program(Some(name), code, size), other);
          }
          return 0;
        }
      }
      return -1;
    }

    // The memcpy of kernel/syscall.c:58-59: page k of the code through the
    // mapping of its virtual page.
    method CopyPage(k: nat, ghost f: nat, source: array<byte>, size: nat)
      requires mmu.Valid() && k < MAX_PAGES && k * PAGE_SIZE <= size <= source.Length
      requires source != mmu.phys
      requires mmu.Translation(USER_BASE / PAGE_SIZE + k).Some?
      requires mmu.Translation(USER_BASE / PAGE_SIZE + k).value.frame == f && f in mmu.data
      modifies mmu.phys
      ensures mmu.Valid()
      ensures SameMap(mmu.current.tables, old(mmu.phys[..]), mmu.current.tables, mmu.phys[..])
      ensures OthersSame(old(mmu.phys[..]), mmu.phys[..], f)
      ensures PageHolds(mmu.phys[..], f, source[..size], k)
    {
      var off := k * PAGE_SIZE;
      var chunk := if size - off > PAGE_SIZE then PAGE_SIZE else size - off;
      ghost var m := mmu.phys[..];
      mmu.CopyToPage(USER_BASE / PAGE_SIZE + k, source, off, chunk);
      CopiedChunk(mmu.current.tables, m, mmu.phys[..], f, source[..], size, k, off, chunk);
      assert source[..][..size] == source[..size];
    }

    // vmm_map_page of virtual page v for users, and whether it took effect.
    method MapUser(v: nat, page: nat) returns (ok: bool)
      requires mmu.Valid() && v < PAGES && page < WORD && page / PAGE_SIZE in mmu.data
      modifies mmu.phys, mmu.current, mmu`owner, mmu.pmm`freePages, mmu.pmm`held, mmu.pmm.bitmap
      ensures mmu.Valid()
      ensures ok == (old(mmu.current.tables)[v / ENTRIES] != 0 || old(mmu.pmm.freePages) > 0)
      ensures mmu.pmm.freePages == old(mmu.pmm.freePages)
                - if old(mmu.current.tables)[v / ENTRIES] == 0 && ok then 1 else 0
      ensures FramesSame(old(mmu.phys[..]), mmu.phys[..], mmu.data)
      ensures SeenBut(old(mmu.current.entries), old(mmu.phys[..]), mmu.current.entries, mmu.phys[..], v)
      ensures !ok ==> mmu.current.tables == old(mmu.current.tables) && mmu.current.entries == old(mmu.current.entries)
                      && mmu.phys[..] == old(mmu.phys[..]) && mmu.Translation(v).None?
      ensures ok ==>
                && Remapped(old(mmu.current.tables), old(mmu.phys[..]), mmu.current.tables, mmu.phys[..], v,
                            Some(Mapping(page / PAGE_SIZE, true, true)))
                && mmu.Translation(v).Some? && mmu.Translation(v).value.frame == page / PAGE_SIZE
                && NewSlot(old(mmu.current.tables), old(mmu.current.entries), mmu.current.tables, mmu.current.entries,
                           v / ENTRIES, true, true)
    {
      assert v * PAGE_SIZE / PAGE_SIZE == v;
      mmu.MapPage(v * PAGE_SIZE, page, USER_FLAGS, v, Mapping(page / PAGE_SIZE, true, true));
      WalksAgree(mmu.current.entries, mmu.current.tables, mmu.phys[..], v);
      ok := mmu.Translation(v).Some?;
    }

    // kernel/syscall.c:57 with the frame allocated.
    method MapNext(k: nat, page: nat, ghost code: seq<byte>,
                   ghost tables0: seq<nat>, ghost entries0: seq<Entry>, ghost frames: seq<nat>, ghost data0: set<nat>)
      returns (ok: bool)
      requires mmu.Valid() && k < MAX_PAGES && |frames| == k
      requires page / PAGE_SIZE !in data0 && mmu.data == data0 + {page / PAGE_SIZE} && page % PAGE_SIZE == 0
      requires Image(mmu.current.tables, mmu.phys[..], data0, frames, code)
      requires Covered(tables0, entries0, mmu.current.tables, mmu.current.entries, k)
      modifies mmu.phys, mmu.current, mmu`owner, mmu.pmm`freePages, mmu.pmm`held, mmu.pmm.bitmap
      ensures mmu.Valid()
      ensures ok == (HasSlot(tables0, SlotOf(k), k) || old(mmu.pmm.freePages) > 0)
      ensures SeenBut(old(mmu.current.entries), old(mmu.phys[..]), mmu.current.entries, mmu.phys[..],
                      USER_BASE / PAGE_SIZE + k)
      ensures ok ==>
                && NextMapped(tables0, entries0, mmu.current.tables, mmu.current.entries, mmu.phys[..], data0, frames,
                              code, page / PAGE_SIZE)
                && mmu.pmm.freePages == old(mmu.pmm.freePages) - if HasSlot(tables0, SlotOf(k), k) then 0 else 1
    {
      ghost var tables, entries, m, f := mmu.current.tables, mmu.current.entries, mmu.phys[..], page / PAGE_SIZE;
      SlotKnown(tables0, entries0, tables, entries, k);
      mmu.ClientPage(page);
      ok := MapUser(USER_BASE / PAGE_SIZE + k, page);
      if ok {
        PageMapped(tables0, entries0, tables, entries, m, mmu.current.tables, mmu.current.entries, mmu.phys[..],
                   mmu.data, data0, frames, code, f);
      }
    }

    // kernel/syscall.c:58-59.
    method Fill(k: nat, ghost f: nat, source: array<byte>, size: nat,
                ghost tables0: seq<nat>, ghost entries0: seq<Entry>, ghost frames: seq<nat>, ghost data0: set<nat>)
      requires mmu.Valid() && source != mmu.phys
      requires k < MAX_PAGES && k * PAGE_SIZE < size <= source.Length && |frames| == k
      requires f !in data0 && mmu.data == data0 + {f}
      requires NextMapped(tables0, entries0, mmu.current.tables, mmu.current.entries, mmu.phys[..], data0, frames,
                          source[..size], f)
      modifies mmu.phys
      ensures mmu.Valid()
      ensures Image(mmu.current.tables, mmu.phys[..], mmu.data, frames + [f], source[..size])
      ensures SeenBut(mmu.current.entries, old(mmu.phys[..]), mmu.current.entries, mmu.phys[..],
                      USER_BASE / PAGE_SIZE + k)
    {
      ghost var m1, code := mmu.phys[..], source[..size];
      SoftSeen(mmu.current.entries, mmu.current.tables, m1, USER_BASE / PAGE_SIZE + k, f);
      CopyPage(k, f, source, size);
      PageFilled(mmu.current.tables, m1, mmu.phys[..], data0, frames, code, f);
      SameSeen(mmu.current.entries, mmu.current.tables, m1, mmu.phys[..], USER_BASE / PAGE_SIZE + k);
    }

    // kernel/syscall.c:57-59 with the frame allocated.
    method Place(k: nat, page: nat, source: array<byte>, size: nat,
                 ghost tables0: seq<nat>, ghost entries0: seq<Entry>, ghost frames: seq<nat>, ghost data0: set<nat>)
      returns (ok: bool)
      requires mmu.Valid() && source != mmu.phys && source as object != mmu.pmm.bitmap
      requires k < MAX_PAGES && k * PAGE_SIZE < size <= source.Length && |frames| == k
      requires page / PAGE_SIZE !in data0 && mmu.data == data0 + {page / PAGE_SIZE} && page % PAGE_SIZE == 0
      requires Image(mmu.current.tables, mmu.phys[..], data0, frames, source[..size])
      requires Covered(tables0, entries0, mmu.current.tables, mmu.current.entries, k)
      modifies mmu.phys, mmu.current, mmu`owner, mmu.pmm`freePages, mmu.pmm`held, mmu.pmm.bitmap
      ensures mmu.Valid()
      ensures ok == (HasSlot(tables0, SlotOf(k), k) || old(mmu.pmm.freePages) > 0)
      ensures SeenBut(old(mmu.current.entries), old(mmu.phys[..]), mmu.current.entries, mmu.phys[..],
                      USER_BASE / PAGE_SIZE + k)
      ensures ok ==>
                && Image(mmu.current.tables, mmu.phys[..], mmu.data, frames + [page / PAGE_SIZE], source[..size])
                && Covered(tables0, entries0, mmu.current.tables, mmu.current.entries, k + 1)
                && mmu.pmm.freePages == old(mmu.pmm.freePages) - if HasSlot(tables0, SlotOf(k), k) then 0 else 1
    {
      ghost var code, entries, m := source[..size], mmu.current.entries, mmu.phys[..];
      ok := MapNext(k, page, code, tables0, entries0, frames, data0);
      if ok {
        assert source[..size] == code;
        ghost var entries1, m1 := mmu.current.entries, mmu.phys[..];
        Fill(k, page / PAGE_SIZE, source, size, tables0, entries0, frames, data0);
        SeenTwice(entries, m, entries1, m1, mmu.current.entries, mmu.phys[..], USER_BASE / PAGE_SIZE + k);
      }
    }

    // One turn of the loop at kernel/syscall.c:53-60.
    method LoadPage(k: nat, source: array<byte>, size: nat,
                    ghost tables0: seq<nat>, ghost entries0: seq<Entry>, ghost frames: seq<nat>)
      returns (r: PageResult, ghost f: nat)
      requires mmu.Valid() && source != mmu.phys && source as object != mmu.pmm.bitmap
      requires k < MAX_PAGES && k * PAGE_SIZE < size <= source.Length && |frames| == k
      requires Image(mmu.current.tables, mmu.phys[..], mmu.data, frames, source[..size])
      requires Covered(tables0, entries0, mmu.current.tables, mmu.current.entries, k)
      modifies mmu.phys, mmu.current, mmu`owner, mmu`data, mmu.pmm`freePages, mmu.pmm`held, mmu.pmm.bitmap
      ensures mmu.Valid()
      ensures r == if old(mmu.pmm.freePages) == 0 then NoFrame
                   else if old(mmu.pmm.freePages) == 1 && !HasSlot(tables0, SlotOf(k), k) then PageFault
                   else PageDone
      ensures SeenBut(old(mmu.current.entries), old(mmu.phys[..]), mmu.current.entries, mmu.phys[..],
                      USER_BASE / PAGE_SIZE + k)
      // The frame is fresh: no client held it, least of all for an earlier page.
      ensures r.PageDone? ==>
                && f !in old(mmu.data) && mmu.data == old(mmu.data) + {f} && f !in mmu.owner
                && Image(mmu.current.tables, mmu.phys[..], mmu.data, frames + [f], source[..size])
                && Covered(tables0, entries0, mmu.current.tables, mmu.current.entries, k + 1)
                && mmu.pmm.freePages == old(mmu.pmm.freePages) - 1 - if HasSlot(tables0, SlotOf(k), k) then 0 else 1
    {
      ghost var data0 := mmu.data;
      var page := mmu.AllocPage();
      f := page / PAGE_SIZE;
      if page == 0 {
        return NoFrame, f;
      }
      var ok := Place(k, page, source, size, tables0, entries0, frames, data0);
      r := if ok then PageDone else PageFault;
    }

    // After k rounds of the loop.
    ghost predicate LoadedSoFar(code: seq<byte>, tables0: seq<nat>, entries0: seq<Entry>, free0: nat, frames: seq<nat>,
                                k: nat)
      reads mmu, mmu.phys, mmu.current, mmu.pmm, mmu.pmm.bitmap, mmu.dirs
    {
      && mmu.Valid() && |frames| == k <= MAX_PAGES
      && Image(mmu.current.tables, mmu.phys[..], mmu.data, frames, code)
      && Covered(tables0, entries0, mmu.current.tables, mmu.current.entries, k)
      && Cost(tables0, k) <= free0 && mmu.pmm.freePages == free0 - Cost(tables0, k)
    }

    // kernel/syscall.c:53-60: the pages of the image, one after the other.
    method LoadPages(source: array<byte>, size: nat, ghost tables0: seq<nat>, ghost entries0: seq<Entry>)
      returns (r: PageResult, ghost frames: seq<nat>)
      requires mmu.Valid() && source != mmu.phys && source as object != mmu.pmm.bitmap
      requires size <= source.Length && size <= MAX_PAGES * PAGE_SIZE
      requires tables0 == mmu.current.tables && entries0 == mmu.current.entries
      modifies mmu.phys, mmu.current, mmu`owner, mmu`data, mmu.pmm`freePages, mmu.pmm`held, mmu.pmm.bitmap
      ensures mmu.Valid()
      ensures SeenAround(entries0, old(mmu.phys[..]), mmu.current.entries, mmu.phys[..], PageCount(size))
      ensures r.PageDone? <==> old(mmu.pmm.freePages) >= Cost(tables0, PageCount(size))
      ensures r.PageFault? <==> exists k | 0 <= k < PageCount(size) :: FaultsAt(tables0, old(mmu.pmm.freePages), k)
      ensures r.PageDone? ==>
                && |frames| == PageCount(size)
                && Image(mmu.current.tables, mmu.phys[..], mmu.data, frames, source[..size])
                && Covered(tables0, entries0, mmu.current.tables, mmu.current.entries, PageCount(size))
                && mmu.pmm.freePages == old(mmu.pmm.freePages) - Cost(tables0, PageCount(size))
    {
      ghost var free0, n, m0 := mmu.pmm.freePages, PageCount(size), mmu.phys[..];
      frames := [];
      var k := 0;
      while k * PAGE_SIZE < size
        invariant 0 <= k <= n && LoadedSoFar(source[..size], tables0, entries0, free0, frames, k)
        invariant SeenAround(entries0, m0, mmu.current.entries, mmu.phys[..], k)
        decreases n - k
      {
        ghost var entries, m := mmu.current.entries, mmu.phys[..];
        var p;
        ghost var f;
        p, f := LoadPage(k, source, size, tables0, entries0, frames);
        SeenMore(entries0, m0, entries, m, mmu.current.entries, mmu.phys[..], k, n);
        if p.PageDone? {
          frames := frames + [f];
          k := k + 1;
        } else {
          Stopped(tables0, free0, k, n, p);
          return p, frames;
        }
      }
      assert k == n;
      NoFault(tables0, free0, n);
      r := PageDone;
    }

    // If the stack page is mapped, it is to frame g, which no image page shares.
    ghost predicate StackIn(g: nat, frames: seq<nat>)
      requires mmu.Valid()
      reads mmu, mmu.phys, mmu.pmm, mmu.pmm.bitmap, mmu.dirs
    {
      && g in mmu.data && g !in frames
      && (mmu.Translation(STACK_PAGE).Some? ==>
            SoftWalk(mmu.current.tables, mmu.phys[..], STACK_PAGE) == Some(Mapping(g, true, true)))
    }

    // kernel/syscall.c:66 with the frame allocated.
    method PutStack(page: nat, ghost code: seq<byte>, ghost frames: seq<nat>, ghost tables0: seq<nat>,
                    ghost entries0: seq<Entry>)
      requires mmu.Valid() && page / PAGE_SIZE in mmu.data && page / PAGE_SIZE !in frames
      requires Image(mmu.current.tables, mmu.phys[..], mmu.data, frames, code)
      requires Covered(tables0, entries0, mmu.current.tables, mmu.current.entries, |frames|)
      modifies mmu.phys, mmu.current, mmu`owner, mmu.pmm`freePages, mmu.pmm`held, mmu.pmm.bitmap
      ensures mmu.Valid() && StackIn(page / PAGE_SIZE, frames)
      ensures Image(mmu.current.tables, mmu.phys[..], mmu.data, frames, code)
      ensures Kept(tables0, entries0, mmu.current.tables, mmu.current.entries)
      ensures mmu.Translation(STACK_PAGE).Some?
              <==> HasSlot(tables0, STACK_PAGE / ENTRIES, |frames|) || old(mmu.pmm.freePages) >= 1
      ensures SeenBut(old(mmu.current.entries), old(mmu.phys[..]), mmu.current.entries, mmu.phys[..], STACK_PAGE)
    {
      ghost var tables, entries, m, g := mmu.current.tables, mmu.current.entries, mmu.phys[..], page / PAGE_SIZE;
      assert tables[STACK_PAGE / ENTRIES] != 0 <==> HasSlot(tables0, STACK_PAGE / ENTRIES, |frames|);
      mmu.ClientPage(page);
      var mapped := MapUser(STACK_PAGE, page);
      if mapped {
        ImageKept(tables, m, mmu.current.tables, mmu.phys[..], mmu.data, frames, code, STACK_PAGE,
                  Some(Mapping(g, true, true)));
        KeptStep(tables0, entries0, tables, entries, mmu.current.tables, mmu.current.entries, STACK_PAGE / ENTRIES);
      }
    }

    // kernel/syscall.c:62-67.
    method MapStack(ghost code: seq<byte>, ghost frames: seq<nat>, ghost tables0: seq<nat>, ghost entries0: seq<Entry>)
      returns (ok: bool, ghost g: nat)
      requires mmu.Valid()
      requires Image(mmu.current.tables, mmu.phys[..], mmu.data, frames, code)
      requires Covered(tables0, entries0, mmu.current.tables, mmu.current.entries, |frames|)
      modifies mmu.phys, mmu.current, mmu`owner, mmu`data, mmu.pmm`freePages, mmu.pmm`held, mmu.pmm.bitmap
      ensures mmu.Valid()
      ensures ok == (old(mmu.pmm.freePages) > 0)
      ensures Image(mmu.current.tables, mmu.phys[..], mmu.data, frames, code)
      ensures Kept(tables0, entries0, mmu.current.tables, mmu.current.entries)
      ensures SeenBut(old(mmu.current.entries), old(mmu.phys[..]), mmu.current.entries, mmu.phys[..], STACK_PAGE)
      ensures ok ==> StackIn(g, frames) && g !in old(mmu.data)
      ensures ok ==> (mmu.Translation(STACK_PAGE).Some? <==>
                        HasSlot(tables0, STACK_PAGE / ENTRIES, |frames|) || old(mmu.pmm.freePages) >= 2)
    {
      ghost var data0, tables, m := mmu.data, mmu.current.tables, mmu.phys[..];
      var page := mmu.AllocPage();
      g := page / PAGE_SIZE;
      if page == 0 {
        return false, g;
      }
      ImageFrames(tables, m, data0, frames, code, g);
      ImageMore(tables, m, data0, mmu.data, frames, code);
      PutStack(page, code, frames, tables0, entries0);
      ok := true;
    }

    // kernel/syscall.c:48-71.
    method LoadImage(source: array<byte>, size: nat) returns (r: LoadResult, ghost frames: seq<nat>, ghost g: nat)
      requires mmu.Valid() && source != mmu.phys && source as object != mmu.pmm.bitmap
      requires size <= source.Length && size <= MAX_PAGES * PAGE_SIZE
      modifies mmu.phys, mmu.current, mmu`owner, mmu`data, mmu.pmm`freePages, mmu.pmm`held, mmu.pmm.bitmap
      ensures mmu.Valid()
      ensures SeenElsewhere(old(mmu.current.entries), old(mmu.phys[..]), mmu.current.entries, mmu.phys[..], size)
      ensures r.Loaded? <==> old(mmu.pmm.freePages) >= Cost(old(mmu.current.tables), PageCount(size)) + 1
      ensures r.Faulted? <==>
                exists k | 0 <= k < PageCount(size) :: FaultsAt(old(mmu.current.tables), old(mmu.pmm.freePages), k)
      ensures r.Loaded? ==>
                && r == Loaded(USER_BASE, STACK_TOP) && |frames| == PageCount(size)
                && Image(mmu.current.tables, mmu.phys[..], mmu.data, frames, source[..size])
                && Kept(old(mmu.current.tables), old(mmu.current.entries), mmu.current.tables, mmu.current.entries)
                && StackIn(g, frames)
      // The stack page is there unless its table was missing and the last
      // frame went into the page itself.
      ensures r.Loaded? ==>
                (mmu.Translation(STACK_PAGE).Some? <==>
                   HasSlot(old(mmu.current.tables), STACK_PAGE / ENTRIES, PageCount(size))
                   || old(mmu.pmm.freePages) >= Cost(old(mmu.current.tables), PageCount(size)) + 2)
    {
      ghost var tables0, entries0, m0 := mmu.current.tables, mmu.current.entries, mmu.phys[..];
      var p;
      p, frames := LoadPages(source, size, tables0, entries0);
      g := 0;
      ghost var entries, m := mmu.current.entries, mmu.phys[..];
      ImageThenStack(entries0, m0, entries, m, entries, m, size);
      if p.PageFault? {
        OutOfTablesAnyway(tables0, old(mmu.pmm.freePages), PageCount(size));
        return Faulted, frames, g;
      }
      if p.NoFrame? {
        return Failed, frames, g;
      }
      NoFault(tables0, old(mmu.pmm.freePages), PageCount(size));
      var ok;
      ok, g := MapStack(source[..size], frames, tables0, entries0);
      ImageThenStack(entries0, m0, entries, m, mmu.current.entries, mmu.phys[..], size);
      r := if ok then Loaded(USER_BASE, STACK_TOP) else Failed;
    }

    // Success, failure, page fault and the presence of a stack right below the
    // stack top returned, given the free frames and the tables before the load.
    ghost predicate LoadedWhen(size: nat, free0: nat, tables0: seq<nat>, r: LoadResult)
      requires mmu.Valid() && |tables0| == ENTRIES && size <= 0xBF7F_F000
      reads mmu, mmu.phys, mmu.pmm, mmu.pmm.bitmap, mmu.dirs
    {
      var n := PageCount(size);
      && (r.Loaded? <==> free0 >= Cost(tables0, n) + 1)
      && (r.Faulted? <==> exists k | 0 <= k < n :: FaultsAt(tables0, free0, k))
      && (r.Loaded? ==> r == Loaded(0x40_0000, 0xBFC0_0000))
      && (r.Loaded? ==>
            (mmu.Translation(r.stackTop / 4096 - 1).Some? <==>
               HasSlot(tables0, (r.stackTop / 4096 - 1) / 1024, n) || free0 >= Cost(tables0, n) + 2))
    }

    // If there is a stack below top, its 4096 bytes are those of frame g.
    ghost predicate StackUnder(top: nat, g: nat)
      requires mmu.Valid() && 4096 <= top < WORD
      reads mmu, mmu.phys, mmu.pmm, mmu.pmm.bitmap, mmu.dirs
    {
      mmu.Translation(top / 4096 - 1).Some? ==>
        forall a | top - 4096 <= a < top ::
          && g * 4096 + a % 4096 < mmu.phys.Length
          && mmu.ReadByte(a) == Some(mmu.phys[g * 4096 + a % 4096])
    }

    // The bytes of p are read from address entry on.
    ghost predicate ReadsBack(p: Program, entry: nat)
      requires p.data != null && mmu.Valid() && p.size <= p.data.Length && entry + p.size < WORD
      reads mmu, mmu.phys, mmu.pmm, mmu.pmm.bitmap, mmu.dirs, p.data
    {
      forall a | 0 <= a < p.size :: mmu.ReadByte(entry + a) == Some(p.data[a])
    }

    // From page v on the processor sees the frames given.
    ghost predicate ImageRights(tables0: seq<nat>, entries0: seq<Entry>, frames: seq<nat>, v: nat)
      requires mmu.Valid() && |tables0| == |entries0| == ENTRIES && v + |frames| < PAGES
      reads mmu, mmu.phys, mmu.pmm, mmu.pmm.bitmap, mmu.dirs
    {
      forall u: nat | v <= u < v + |frames| ::
        mmu.Translation(u) == Some(Granted(tables0, entries0, u, frames[u - v]))
    }

    // If page v is mapped, the processor sees frame g there.
    ghost predicate StackRights(tables0: seq<nat>, entries0: seq<Entry>, g: nat, v: nat)
      requires mmu.Valid() && |tables0| == |entries0| == ENTRIES && v < PAGES
      reads mmu, mmu.phys, mmu.pmm, mmu.pmm.bitmap, mmu.dirs
    {
      mmu.Translation(v).Some? ==>
        mmu.Translation(v) == Some(Granted(tables0, entries0, v, g))
    }

    // What a successful load of program p leaves: its bytes, read through the
    // page tables from the entry on, all below the stack; every image page in a
    // frame of its own, and the stack, if there is one, in another; and what the
    // processor lets users do with them.
    ghost predicate LoadedRight(p: Program, tables0: seq<nat>, entries0: seq<Entry>, frames: seq<nat>, g: nat,
                                r: LoadResult)
      requires p.data != null && mmu.Valid() && |tables0| == |entries0| == ENTRIES
      requires p.size <= p.data.Length && p.size <= 0xBF7F_F000 && r == Loaded(0x40_0000, 0xBFC0_0000)
      reads mmu, mmu.phys, mmu.pmm, mmu.pmm.bitmap, mmu.dirs, p.data
    {
      && ReadsBack(p, r.entry) && r.entry + p.size <= r.stackTop - 4096 && StackUnder(r.stackTop, g)
      && |frames| == PageCount(p.size) && Image(mmu.current.tables, mmu.phys[..], mmu.data, frames, p.data[..p.size])
      && StackIn(g, frames)
      && ImageRights(tables0, entries0, frames, r.entry / 4096)
      && StackRights(tables0, entries0, g, r.stackTop / 4096 - 1)
    }

    // One byte is loaded into an empty directory with three frames left: they go
    // into the page, its table and the stack page, and none is left for the
    // table of that. The load succeeds without a stack.
    lemma StackLost(r: LoadResult)
      requires mmu.Valid() && LoadedWhen(1, 3, seq(ENTRIES, _ => 0), r)
      ensures r == Loaded(0x40_0000, 0xBFC0_0000) && mmu.Translation(r.stackTop / 4096 - 1) == None
    {
      var tables: seq<nat> := seq(ENTRIES, _ => 0);
      assert PageCount(1) == 1 && SlotOf(0) == 1;
      assert Cost(tables, 0) == 0;
      assert Cost(tables, 1) == 2;
      assert !HasSlot(tables, STACK_PAGE / ENTRIES, 1);
    }

    lemma StackByte(g: nat, a: nat)
      requires mmu.Valid() && 0xBFBF_F000 <= a < 0xBFC0_0000 && FrameIn(mmu.phys[..], g)
      requires mmu.Translation(STACK_PAGE).Some? && mmu.Translation(STACK_PAGE).value.frame == g
      ensures g * 4096 + a % 4096 < mmu.phys.Length && mmu.ReadByte(a) == Some(mmu.phys[g * 4096 + a % 4096])
    {
      assert a / PAGE_SIZE == STACK_PAGE;
    }

    lemma StackBytes(top: nat, g: nat, frames: seq<nat>)
      requires mmu.Valid() && StackIn(g, frames) && top == 0xBFC0_0000
      ensures StackUnder(top, g)
    {
      if mmu.Translation(top / 4096 - 1).Some? {
        SoftSeen(mmu.current.entries, mmu.current.tables, mmu.phys[..], STACK_PAGE, g);
        mmu.FrameOfData(g);
        forall a | top - 4096 <= a < top
          ensures g * 4096 + a % 4096 < mmu.phys.Length && mmu.ReadByte(a) == Some(mmu.phys[g * 4096 + a % 4096])
        {
          StackByte(g, a);
        }
      }
    }

    lemma BytesReadBack(p: Program, frames: seq<nat>, entry: nat)
      requires p.data != null && mmu.Valid() && p.size <= p.data.Length && p.size <= 0xBF7F_F000
      requires |frames| == PageCount(p.size) && entry == 0x40_0000
      requires Image(mmu.current.tables, mmu.phys[..], mmu.data, frames, p.data[..p.size])
      ensures ReadsBack(p, entry)
    {
      var code := p.data[..p.size];
      forall a | 0 <= a < p.size
        ensures mmu.ReadByte(entry + a) == Some(p.data[a])
      {
        ImageReads(mmu, frames, code, a);
      }
    }

    lemma ImageRightsSeen(tables0: seq<nat>, entries0: seq<Entry>, frames: seq<nat>, code: seq<byte>, v: nat)
      requires mmu.Valid() && Image(mmu.current.tables, mmu.phys[..], mmu.data, frames, code) && v == 0x400
      requires Kept(tables0, entries0, mmu.current.tables, mmu.current.entries)
      ensures v + |frames| < PAGES && ImageRights(tables0, entries0, frames, v)
    {
      ImageAllSeen(mmu.current.entries, mmu.current.tables, mmu.phys[..], mmu.data, tables0, entries0, frames, code, v);
    }

    lemma StackRightsSeen(tables0: seq<nat>, entries0: seq<Entry>, frames: seq<nat>, g: nat, v: nat)
      requires mmu.Valid() && StackIn(g, frames) && v == 0xBFBFF
      requires Kept(tables0, entries0, mmu.current.tables, mmu.current.entries)
      ensures StackRights(tables0, entries0, g, v)
    {
      StackSeen(mmu, tables0, entries0, g);
    }

    lemma LoadedIs(p: Program, tables0: seq<nat>, entries0: seq<Entry>, frames: seq<nat>, g: nat, r: LoadResult)
      requires p.data != null && mmu.Valid() && p.size <= p.data.Length && p.size <= 0xBF7F_F000
      requires r == Loaded(0x40_0000, 0xBFC0_0000) && |frames| == PageCount(p.size)
      requires Image(mmu.current.tables, mmu.phys[..], mmu.data, frames, p.data[..p.size])
      requires StackIn(g, frames) && Kept(tables0, entries0, mmu.current.tables, mmu.current.entries)
      ensures LoadedRight(p, tables0, entries0, frames, g, r)
    {
      BytesReadBack(p, frames, r.entry);
      ImageRightsSeen(tables0, entries0, frames, p.data[..p.size], r.entry / 4096);
      StackRightsSeen(tables0, entries0, frames, g, r.stackTop / 4096 - 1);
      StackBytes(r.stackTop, g, frames);
    }

    // All that a load of program p does, given the state before it.
    ghost predicate Outcome(p: Program, free0: nat, tables0: seq<nat>, entries0: seq<Entry>, m0: seq<byte>,
                            r: LoadResult, frames: seq<nat>, g: nat)
      requires p.data != null && mmu.Valid() && p.size <= p.data.Length && p.size <= 0xBF7F_F000
      requires |tables0| == |entries0| == ENTRIES
      reads mmu, mmu.phys, mmu.pmm, mmu.pmm.bitmap, mmu.dirs, p.data
    {
      && LoadedWhen(p.size, free0, tables0, r)
      && (r.Loaded? ==> LoadedRight(p, tables0, entries0, frames, g, r))
      && SeenElsewhere(entries0, m0, mmu.current.entries, mmu.phys[..], p.size)
    }

    // kernel/syscall.c:48-71 for the program p found.
    method LoadProgram(source: array<byte>, size: nat, ghost p: Program)
      returns (r: LoadResult, ghost frames: seq<nat>, ghost g: nat)
      requires mmu.Valid() && source != mmu.phys && source as object != mmu.pmm.bitmap
      requires p.data == source && p.size == size <= source.Length && size <= 0xBF7F_F000
      modifies mmu.phys, mmu.current, mmu`owner, mmu`data, mmu.pmm`freePages, mmu.pmm`held, mmu.pmm.bitmap
      ensures mmu.Valid()
      ensures Outcome(p, old(mmu.pmm.freePages), old(mmu.current.tables), old(mmu.current.entries), old(mmu.phys[..]),
                      r, frames, g)
    {
      ghost var tables0, entries0 := mmu.current.tables, mmu.current.entries;
      r, frames, g := LoadImage(source, size);
      if r.Loaded? {
        LoadedIs(p, tables0, entries0, frames, g, r);
      }
    }

    // kernel/syscall.c:43-75. Ghost frames and g are those of the image and of
    // the stack.
    method Load(path: string) returns (r: LoadResult, ghost frames: seq<nat>, ghost g: nat)
      requires Valid()
      requires Lookup(ramdisk[..], path).Some? ==> Lookup(ramdisk[..], path).value.size <= 0xBF7F_F000
      modifies mmu.phys, mmu.current, mmu`owner, mmu`data, mmu.pmm`freePages, mmu.pmm`held, mmu.pmm.bitmap
      ensures Valid()
      ensures Lookup(ramdisk[..], path) == None || Lookup(ramdisk[..], path).value.data == null ==>
                r == Failed && mmu.phys[..] == old(mmu.phys[..]) && mmu.pmm.Free() == old(mmu.pmm.Free())
      ensures Lookup(ramdisk[..], path).Some? && Lookup(ramdisk[..], path).value.data != null ==>
                var p := Lookup(ramdisk[..], path).value;
                Outcome(p, old(mmu.pmm.freePages), old(mmu.current.tables), old(mmu.current.entries),
                        old(mmu.phys[..]), r, frames, g)
    {
      frames, g := [], 0;
      ghost var rd := ramdisk[..];
      var i := 0;
      while i < RAMDISK_MAX && ramdisk[i].name.Some?
        invariant 0 <= i <= RAMDISK_MAX && Find(rd, path, i) == Find(rd, path, 0)
      {
        if ramdisk[i].name == Some(path) {
          var data := ramdisk[i].data;
          if data == null {
            return Failed, frames, g;
          }
          r, frames, g := LoadProgram(data, ramdisk[i].size, ramdisk[i]);
          return;
        }
        i := i + 1;
      }
      return Failed, frames, g;
    }
  }

  // A store to a client's frame apart from the image, such as that of the
  // stack, leaves the image in place.
  lemma StoreElsewhereKeeps(mmu: Mmu, m: seq<byte>, frames: seq<nat>, code: seq<byte>, g: nat, o: nat, b: byte)
    requires mmu.Valid() && Image(mmu.current.tables, mmu.phys[..], mmu.data, frames, code)
    requires g in mmu.data && g !in frames && o < PAGE_SIZE && FrameIn(mmu.phys[..], g)
    requires m == mmu.phys[..][g * PAGE_SIZE + o := b]
    ensures Image(mmu.current.tables, m, mmu.data, frames, code)
  {
    var n, tables := mmu.phys[..], mmu.current.tables;
    OthersUntouched(n, m, g, o);
    Unhung(mmu.owner, mmu.current, tables, g);
    UnrelatedChange(tables, n, m, g);
    forall j | 0 <= j < |frames|
      ensures ImagePage(tables, m, mmu.data, frames[j], j, code)
    {
      assert ImagePage(tables, n, mmu.data, frames[j], j, code);
      HoldsStill(n, m, frames[j], code, j);
    }
  }
}
