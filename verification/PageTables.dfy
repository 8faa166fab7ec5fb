// Page tables in physical memory (kernel/paging.c): the bitfields of an entry,
// tables as 4096-byte frames of 1024 words, and the two ways to walk them.

module PageTables {
  import opened Memory
  import opened Options
  import opened Pmm

  const ENTRIES: nat := 1024
  // Virtual pages of a 4 GB address space.
  const PAGES: nat := 0x10_0000

  // page_dir_entry_t and page_table_entry_t (include/paging.h:22-48); rest is
  // the nine bits between user and frame.
  datatype Entry = Entry(present: bool, rw: bool, user: bool, rest: nat, frame: nat)

  predicate EntryOk(e: Entry) {
    e.rest < 512 && e.frame < 0x10_0000
  }

  function BitOf(b: bool): nat {
    if b then 1 else 0
  }

  function Encode(e: Entry): nat {
    BitOf(e.present) + 2 * BitOf(e.rw) + 4 * BitOf(e.user) + 8 * e.rest + 4096 * e.frame
  }

  function Decode(w: nat): Entry {
    Entry(w % 2 == 1, w / 2 % 2 == 1, w / 4 % 2 == 1, w / 8 % 512, w / 4096)
  }

  lemma DecodeEncode(e: Entry)
    requires EntryOk(e)
    ensures Encode(e) < WORD && Decode(Encode(e)) == e
  {
    var w := Encode(e);
    assert w / 2 == BitOf(e.rw) + 2 * BitOf(e.user) + 4 * e.rest + 2048 * e.frame;
    assert w / 4 == BitOf(e.user) + 2 * e.rest + 1024 * e.frame;
    assert w / 8 == e.rest + 512 * e.frame;
    assert w / 4096 == e.frame;
  }

  lemma DecodeOk(w: nat)
    requires w < WORD
    ensures EntryOk(Decode(w))
  {
  }

  // The word w is a present entry for the frame of address a, with the bits
  // PAGE_WRITE and PAGE_USER of the flags (Intel SDM Vol. 3A, section 4.3: bit 0
  // present, bit 1 writable, bit 2 user, bits 12-31 the frame).
  predicate EntryBits(w: nat, flags: nat, a: nat) {
    w % 2 == 1 && w / 2 % 4 == flags / 2 % 4 && w / 4096 == a / 4096
  }

  lemma TwoBits(w: nat)
    ensures w / 2 % 4 == w / 2 % 2 + 2 * (w / 4 % 2)
  {
    var h := w / 2;
    assert w / 4 == h / 2;
  }

  lemma DecodedBits(w: nat, flags: nat, a: nat)
    requires Decode(w).present && Decode(w).frame == a / 4096
    requires Decode(w).rw == (flags / 2 % 2 == 1) && Decode(w).user == (flags / 4 % 2 == 1)
    ensures EntryBits(w, flags, a)
  {
    TwoBits(w);
    TwoBits(flags);
  }

  const EMPTY: Entry := Entry(false, false, false, 0, 0)

  // ---------------------------------------------------------------- tables in memory

  // Frame f lies in memory m.
  predicate FrameIn(m: seq<byte>, f: nat) {
    PAGE_SIZE * f + PAGE_SIZE <= |m|
  }

  // Word i of frame f.
  function WordAt(m: seq<byte>, f: nat, i: nat): nat
    requires FrameIn(m, f) && i < ENTRIES
  {
    Le(m, PAGE_SIZE * f + 4 * i, PAGE_SIZE * f + 4 * i + 4)
  }

  // Entry i of the page table in frame f; absent where there is no memory.
  function EntryAt(m: seq<byte>, f: nat, i: nat): Entry
    requires i < ENTRIES
  {
    if FrameIn(m, f) then Decode(WordAt(m, f, i)) else EMPTY
  }

  // The two memories agree on frame f.
  ghost predicate FrameSame(m: seq<byte>, n: seq<byte>, f: nat) {
    Agree(m, n, PAGE_SIZE * f, PAGE_SIZE * f + PAGE_SIZE)
  }

  lemma EntrySame(m: seq<byte>, n: seq<byte>, f: nat, i: nat)
    requires FrameIn(m, f) && i < ENTRIES && FrameSame(m, n, f)
    ensures EntryAt(n, f, i) == EntryAt(m, f, i)
  {
    LeFrame(m, n, PAGE_SIZE * f + 4 * i, PAGE_SIZE * f + 4 * i + 4);
  }

  lemma WordStored(m: seq<byte>, f: nat, i: nat, w: nat, j: nat)
    requires FrameIn(m, f) && i < ENTRIES && j < ENTRIES && w < WORD
    ensures var n := PutLe(m, PAGE_SIZE * f + 4 * i, PAGE_SIZE * f + 4 * i + 4, w);
            WordAt(n, f, j) == if j == i then w else WordAt(m, f, j)
  {
    var o := PAGE_SIZE * f + 4 * i;
    PutWord(m, o, w);
    if j != i {
      var p := PAGE_SIZE * f + 4 * j;
      assert p + 4 <= o || o + 4 <= p;
      LeFrame(m, PutLe(m, o, o + 4, w), p, p + 4);
    }
  }

  // Storing entry i of the table in frame f.
  lemma EntryStored(m: seq<byte>, f: nat, i: nat, e: Entry, j: nat)
    requires FrameIn(m, f) && i < ENTRIES && j < ENTRIES && EntryOk(e)
    ensures var n := PutLe(m, PAGE_SIZE * f + 4 * i, PAGE_SIZE * f + 4 * i + 4, Encode(e));
            EntryAt(n, f, j) == if j == i then e else EntryAt(m, f, j)
  {
    var w := Encode(e);
    DecodeEncode(e);
    WordStored(m, f, i, w, j);
    var n := PutLe(m, PAGE_SIZE * f + 4 * i, PAGE_SIZE * f + 4 * i + 4, w);
    calc {
      EntryAt(n, f, j);
      Decode(WordAt(n, f, j));
      Decode(if j == i then w else WordAt(m, f, j));
    }
  }

  lemma StoreElsewhere(m: seq<byte>, f: nat, i: nat, w: nat, g: nat)
    requires FrameIn(m, f) && i < ENTRIES && g != f
    ensures FrameSame(m, PutLe(m, PAGE_SIZE * f + 4 * i, PAGE_SIZE * f + 4 * i + 4, w), g)
  {
    if g < f {
      assert PAGE_SIZE * g + PAGE_SIZE <= PAGE_SIZE * f;
    } else {
      assert PAGE_SIZE * f + PAGE_SIZE <= PAGE_SIZE * g;
    }
  }

  lemma {:induction false} LeZero(m: seq<byte>, lo: nat, hi: nat)
    requires lo <= hi <= |m| && forall x | lo <= x < hi :: m[x] == 0
    ensures Le(m, lo, hi) == 0
    decreases hi - lo
  {
    if lo < hi {
      LeZero(m, lo + 1, hi);
    }
  }

  // A zeroed frame is a table of absent entries.
  lemma ZeroedTable(m: seq<byte>, f: nat, i: nat)
    requires FrameIn(m, f) && i < ENTRIES
    requires forall x | PAGE_SIZE * f <= x < PAGE_SIZE * f + PAGE_SIZE :: m[x] == 0
    ensures EntryAt(m, f, i) == EMPTY
  {
    LeZero(m, PAGE_SIZE * f + 4 * i, PAGE_SIZE * f + 4 * i + 4);
  }

  // ---------------------------------------------------------------- walks

  // What a present page translates to, and the rights it grants.
  datatype Mapping = Mapping(frame: nat, rw: bool, user: bool)

  predicate TableIn(t: nat, m: seq<byte>) {
    t % PAGE_SIZE == 0 && FrameIn(m, t / PAGE_SIZE)
  }

  // Every table of the directory is a page-aligned frame in memory.
  predicate TablesIn(tables: seq<nat>, m: seq<byte>) {
    && |tables| == ENTRIES
    && forall i | 0 <= i < ENTRIES && tables[i] != 0 :: TableIn(tables[i], m)
  }

  // The walk of paging.c, through tables[].
  function SoftWalk(tables: seq<nat>, m: seq<byte>, v: nat): Option<Mapping>
    requires |tables| == ENTRIES && v < PAGES
  {
    var t := tables[v / ENTRIES];
    if t == 0 then None
    else
      var e := EntryAt(m, t / PAGE_SIZE, v % ENTRIES);
      if e.present then Some(Mapping(e.frame, e.rw, e.user)) else None
  }

  predicate EntryAgrees(e: Entry, t: nat) {
    && EntryOk(e) && (e.present <==> t != 0)
    && (e.present ==> t == e.frame * PAGE_SIZE)
  }

  // The directory the processor reads agrees with tables[].
  ghost predicate DirAgrees(entries: seq<Entry>, tables: seq<nat>) {
    && |entries| == |tables| == ENTRIES
    && forall i | 0 <= i < ENTRIES :: EntryAgrees(entries[i], tables[i])
  }

  // The processor's walk (Intel SDM Vol. 3A, sections 4.3 and 4.6), through
  // entries[].frame; rights are those of both levels.
  function HardWalk(entries: seq<Entry>, m: seq<byte>, v: nat): Option<Mapping>
    requires |entries| == ENTRIES && v < PAGES
  {
    var d := entries[v / ENTRIES];
    if !d.present then None
    else
      var e := EntryAt(m, d.frame, v % ENTRIES);
      if e.present then Some(Mapping(e.frame, d.rw && e.rw, d.user && e.user)) else None
  }

  // A mapping reached through directory entry d.
  function Through(d: Entry, s: Option<Mapping>): Option<Mapping> {
    match s
    case None => None
    case Some(x) => Some(Mapping(x.frame, d.rw && x.rw, d.user && x.user))
  }

  // The two walks reach the same entry; the processor's adds the directory's
  // rights to it.
  lemma WalksAgree(entries: seq<Entry>, tables: seq<nat>, m: seq<byte>, v: nat)
    requires DirAgrees(entries, tables) && v < PAGES
    ensures HardWalk(entries, m, v) == Through(entries[v / ENTRIES], SoftWalk(tables, m, v))
  {
    assert EntryAgrees(entries[v / ENTRIES], tables[v / ENTRIES]);
  }

  lemma Indices(vaddr: nat)
    ensures vaddr / PAGE_SIZE / ENTRIES == vaddr / 0x40_0000 && vaddr / PAGE_SIZE % ENTRIES == vaddr / 4096 % 1024
  {
  }

  // The entry of a virtual address as it lies in memory: word (address / 4096) %
  // 1024 of the table of directory slot address / 4194304.
  function EntryWord(tables: seq<nat>, m: seq<byte>, vaddr: nat): nat
    requires vaddr < WORD && |tables| == ENTRIES && FrameIn(m, tables[vaddr / 0x40_0000] / 4096)
  {
    WordAt(m, tables[vaddr / 0x40_0000] / 4096, vaddr / 4096 % 1024)
  }

  // ---------------------------------------------------------------- what updates do to the map

  // From (tables, m) to (tables', m') page v has become x, and no other page
  // has changed.
  ghost predicate Remapped(tables: seq<nat>, m: seq<byte>, tables': seq<nat>, m': seq<byte>, v: nat,
                           x: Option<Mapping>) {
    && |tables| == |tables'| == ENTRIES && v < PAGES
    && forall u: nat | u < PAGES ::
         SoftWalk(tables', m', u) == if u == v then x else SoftWalk(tables, m, u)
  }

  ghost predicate SameMap(tables: seq<nat>, m: seq<byte>, tables': seq<nat>, m': seq<byte>) {
    && |tables| == |tables'| == ENTRIES
    && forall u: nat | u < PAGES :: SoftWalk(tables', m', u) == SoftWalk(tables, m, u)
  }

  // Frame f is no table of this directory.
  ghost predicate NotTable(tables: seq<nat>, f: nat) {
    forall i | 0 <= i < |tables| && tables[i] != 0 :: tables[i] / PAGE_SIZE != f
  }

  // Frame f is the table of slot k only.
  ghost predicate OnlyTable(tables: seq<nat>, k: nat, f: nat) {
    forall i | 0 <= i < |tables| && tables[i] != 0 && i != k :: tables[i] / PAGE_SIZE != f
  }

  // A directory without a table in frame f does not notice a change there.
  lemma UnrelatedChange(tables: seq<nat>, m: seq<byte>, n: seq<byte>, f: nat)
    requires TablesIn(tables, m) && |m| == |n| && NotTable(tables, f)
    requires forall g: nat | g != f && FrameIn(m, g) :: FrameSame(m, n, g)
    ensures SameMap(tables, m, tables, n)
  {
    forall u: nat | u < PAGES
      ensures SoftWalk(tables, n, u) == SoftWalk(tables, m, u)
    {
      var t := tables[u / ENTRIES];
      if t != 0 {
        assert TableIn(t, m);
        EntrySame(m, n, t / PAGE_SIZE, u % ENTRIES);
      }
    }
  }

  // Hanging a zeroed frame in an empty slot maps nothing.
  lemma TableAdded(tables: seq<nat>, m: seq<byte>, n: seq<byte>, k: nat, f: nat)
    requires TablesIn(tables, m) && |m| == |n| && k < ENTRIES && tables[k] == 0
    requires FrameIn(m, f) && f > 0 && NotTable(tables, f)
    requires forall x | PAGE_SIZE * f <= x < PAGE_SIZE * f + PAGE_SIZE :: n[x] == 0
    requires forall g: nat | g != f && FrameIn(m, g) :: FrameSame(m, n, g)
    ensures SameMap(tables, m, tables[k := f * PAGE_SIZE], n)
  {
    UnrelatedChange(tables, m, n, f);
    forall u: nat | u < PAGES
      ensures SoftWalk(tables[k := f * PAGE_SIZE], n, u) == SoftWalk(tables, m, u)
    {
      if u / ENTRIES == k {
        ZeroedTable(n, f, u % ENTRIES);
      }
    }
  }

  // Memory after entry v % ENTRIES of the table in frame f has become e.
  function PutEntry(m: seq<byte>, f: nat, v: nat, e: Entry): seq<byte>
    requires FrameIn(m, f)
  {
    PutLe(m, PAGE_SIZE * f + 4 * (v % ENTRIES), PAGE_SIZE * f + 4 * (v % ENTRIES) + 4, Encode(e))
  }

  function Meaning(e: Entry): Option<Mapping> {
    if e.present then Some(Mapping(e.frame, e.rw, e.user)) else None
  }

  lemma SamePage(u: nat, v: nat)
    ensures u == v <==> u / ENTRIES == v / ENTRIES && u % ENTRIES == v % ENTRIES
  {
  }

  // Storing the entry of page v changes page v and no other.
  lemma EntryChanged(tables: seq<nat>, m: seq<byte>, v: nat, e: Entry)
    requires TablesIn(tables, m) && v < PAGES && EntryOk(e) && tables[v / ENTRIES] != 0
    requires FrameIn(m, tables[v / ENTRIES] / PAGE_SIZE)
    requires OnlyTable(tables, v / ENTRIES, tables[v / ENTRIES] / PAGE_SIZE)
    ensures Remapped(tables, m, tables, PutEntry(m, tables[v / ENTRIES] / PAGE_SIZE, v, e), v, Meaning(e))
  {
    var k, f := v / ENTRIES, tables[v / ENTRIES] / PAGE_SIZE;
    var n := PutEntry(m, f, v, e);
    forall u: nat | u < PAGES
      ensures SoftWalk(tables, n, u) == if u == v then Meaning(e) else SoftWalk(tables, m, u)
    {
      var t := tables[u / ENTRIES];
      if u / ENTRIES == k {
        EntryStored(m, f, v % ENTRIES, e, u % ENTRIES);
        SamePage(u, v);
      } else if t != 0 {
        assert TableIn(t, m);
        StoreElsewhere(m, f, v % ENTRIES, Encode(e), t / PAGE_SIZE);
        EntrySame(m, n, t / PAGE_SIZE, u % ENTRIES);
      }
    }
  }

  // Slot k has a table; if it had none, its directory entry is new and carries
  // the rights given, and every other slot is as before in any case.
  ghost predicate NewSlot(tables: seq<nat>, entries: seq<Entry>, tables': seq<nat>, entries': seq<Entry>, k: nat,
                          rw: bool, user: bool) {
    && |tables| == |tables'| == |entries| == |entries'| == ENTRIES && k < ENTRIES
    && tables'[k] != 0 && tables' == tables[k := tables'[k]] && entries' == entries[k := entries'[k]]
    && (if tables[k] != 0 then entries'[k] == entries[k] && tables'[k] == tables[k]
        else entries'[k].present && entries'[k].rw == rw && entries'[k].user == user)
  }

  // The same as Remapped, for the processor's walk.
  ghost predicate HardRemapped(entries: seq<Entry>, m: seq<byte>, entries': seq<Entry>, m': seq<byte>, v: nat,
                               x: Option<Mapping>) {
    && |entries| == |entries'| == ENTRIES && v < PAGES
    && forall u: nat | u < PAGES ::
         HardWalk(entries', m', u) == if u == v then x else HardWalk(entries, m, u)
  }

  // What map_page does to the tables it does to the processor's view, through
  // the rights of the directory entry.
  lemma HardFollows(tables: seq<nat>, entries: seq<Entry>, m: seq<byte>, tables': seq<nat>, entries': seq<Entry>,
                    m': seq<byte>,
                    v: nat, x: Mapping, rw: bool, user: bool)
    requires DirAgrees(entries, tables) && DirAgrees(entries', tables')
    requires Remapped(tables, m, tables', m', v, Some(x))
    requires NewSlot(tables, entries, tables', entries', v / ENTRIES, rw, user)
    ensures HardRemapped(entries, m, entries', m', v, Through(entries'[v / ENTRIES], Some(x)))
  {
    forall u: nat | u < PAGES
      ensures HardWalk(entries', m', u)
           == if u == v then Through(entries'[v / ENTRIES], Some(x)) else HardWalk(entries, m, u)
    {
      WalksAgree(entries, tables, m, u);
      WalksAgree(entries', tables', m', u);
    }
  }

  // With the directory unchanged the processor sees just the change made.
  lemma HardFollowsSame(tables: seq<nat>, entries: seq<Entry>, m: seq<byte>, m': seq<byte>, v: nat, x: Option<Mapping>)
    requires DirAgrees(entries, tables) && Remapped(tables, m, tables, m', v, x)
    ensures HardRemapped(entries, m, entries, m', v, Through(entries[v / ENTRIES], x))
  {
    forall u: nat | u < PAGES
      ensures HardWalk(entries, m', u)
           == if u == v then Through(entries[v / ENTRIES], x) else HardWalk(entries, m, u)
    {
      WalksAgree(entries, tables, m, u);
      WalksAgree(entries, tables, m', u);
    }
  }

  // ---------------------------------------------------------------- the TLB

  // The TLB holds nothing but what a walk would find.
  ghost predicate TlbOk(tlb: map<nat, Mapping>, entries: seq<Entry>, m: seq<byte>) {
    && |entries| == ENTRIES
    && forall v | v in tlb :: v < PAGES && HardWalk(entries, m, v) == Some(tlb[v])
  }

  // When page v is remapped to x without invlpg, the TLB stays right exactly
  // when it did not hold v, or held x.
  lemma StaleOrNot(tlb: map<nat, Mapping>, entries: seq<Entry>, m: seq<byte>, entries': seq<Entry>, m': seq<byte>,
                   v: nat, x: Option<Mapping>)
    requires TlbOk(tlb, entries, m) && HardRemapped(entries, m, entries', m', v, x)
    ensures TlbOk(tlb, entries', m') <==> (v in tlb ==> x == Some(tlb[v]))
    ensures TlbOk(tlb - {v}, entries', m')
  {
  }

  // No TLB that was right goes stale.
  ghost predicate TlbSafe(entries: seq<Entry>, m: seq<byte>, entries': seq<Entry>, m': seq<byte>) {
    forall tlb | TlbOk(tlb, entries, m) :: TlbOk(tlb, entries', m')
  }

  // A remapping without invlpg is safe exactly when the page was not mapped, or
  // to the same.
  lemma StaleIff(entries: seq<Entry>, m: seq<byte>, entries': seq<Entry>, m': seq<byte>, v: nat, x: Option<Mapping>)
    requires HardRemapped(entries, m, entries', m', v, x)
    ensures TlbSafe(entries, m, entries', m') <==> HardWalk(entries, m, v) == None || HardWalk(entries, m, v) == x
  {
    var y := HardWalk(entries, m, v);
    if y == None || y == x {
      forall tlb | TlbOk(tlb, entries, m)
        ensures TlbOk(tlb, entries', m')
      {
        StaleOrNot(tlb, entries, m, entries', m', v, x);
      }
    } else {
      var tlb := map[v := y.value];
      assert TlbOk(tlb, entries, m);
      assert !TlbOk(tlb, entries', m');
    }
  }

  // For map_page that can be told before the call: the page was not mapped, or
  // it was seen as it will be through the directory entry there is.
  lemma MapSafe(tables: seq<nat>, entries: seq<Entry>, m: seq<byte>, tables': seq<nat>, entries': seq<Entry>,
                m': seq<byte>, v: nat, x: Mapping)
    requires DirAgrees(entries, tables) && v < PAGES
    requires if tables[v / ENTRIES] == 0 && tables' == tables then entries' == entries && m' == m
             else NewSlot(tables, entries, tables', entries', v / ENTRIES, x.rw, x.user)
                  && HardRemapped(entries, m, entries', m', v, Through(entries'[v / ENTRIES], Some(x)))
    ensures TlbSafe(entries, m, entries', m')
            <==> HardWalk(entries, m, v) == None || HardWalk(entries, m, v) == Through(entries[v / ENTRIES], Some(x))
  {
    assert EntryAgrees(entries[v / ENTRIES], tables[v / ENTRIES]);
    if tables[v / ENTRIES] != 0 || tables' != tables {
      StaleIff(entries, m, entries', m', v, Through(entries'[v / ENTRIES], Some(x)));
    }
  }

  // ---------------------------------------------------------------- the identity table

  function IdentityEntry(i: nat): Entry {
    Entry(true, true, false, 0, i)
  }

  // The table in frame f maps its first i pages to themselves and nothing else.
  ghost predicate Filled(m: seq<byte>, f: nat, i: nat) {
    forall j | 0 <= j < ENTRIES :: EntryAt(m, f, j) == if j < i then IdentityEntry(j) else EMPTY
  }

  lemma PutEntryIs(m: seq<byte>, f: nat, i: nat, e: Entry)
    requires FrameIn(m, f) && i < ENTRIES && EntryOk(e)
    ensures PutEntry(m, f, i, e) == PutLe(m, PAGE_SIZE * f + 4 * i, PAGE_SIZE * f + 4 * i + 4, Encode(e))
  {
    assert i % ENTRIES == i;
  }

  lemma FilledAt(m: seq<byte>, f: nat, i: nat, j: nat, e: Entry)
    requires FrameIn(m, f) && i < ENTRIES && j < ENTRIES && EntryOk(e)
    ensures EntryAt(PutEntry(m, f, i, e), f, j) == if j == i then e else EntryAt(m, f, j)
  {
    PutEntryIs(m, f, i, e);
    EntryStored(m, f, i, e, j);
  }

  lemma FilledStep(m: seq<byte>, f: nat, i: nat)
    requires FrameIn(m, f) && i < ENTRIES && Filled(m, f, i)
    ensures Filled(PutEntry(m, f, i, IdentityEntry(i)), f, i + 1)
  {
    forall j | 0 <= j < ENTRIES
      ensures EntryAt(PutEntry(m, f, i, IdentityEntry(i)), f, j) == if j < i + 1 then IdentityEntry(j) else EMPTY
    {
      FilledAt(m, f, i, j, IdentityEntry(i));
    }
  }

  // Low pages map to themselves, writable and not for users; nothing else is
  // mapped. Both walks say so.
  ghost predicate IdentityMap(entries: seq<Entry>, tables: seq<nat>, m: seq<byte>) {
    && |entries| == |tables| == ENTRIES
    && (forall u: nat | u < PAGES ::
          SoftWalk(tables, m, u) == if u < ENTRIES then Some(Mapping(u, true, false)) else None)
    && (forall u: nat | u < PAGES :: HardWalk(entries, m, u) == SoftWalk(tables, m, u))
  }

  lemma IdentityAt(tables: seq<nat>, m: seq<byte>, f: nat, u: nat)
    requires |tables| == ENTRIES && f > 0 && Filled(m, f, ENTRIES) && u < PAGES
    requires tables[0] == f * PAGE_SIZE && forall k | 0 < k < ENTRIES :: tables[k] == 0
    ensures SoftWalk(tables, m, u) == if u < ENTRIES then Some(Mapping(u, true, false)) else None
  {
    if u < ENTRIES {
      assert u / ENTRIES == 0 && u % ENTRIES == u;
      assert EntryAt(m, f, u) == IdentityEntry(u);
    } else {
      assert 0 < u / ENTRIES < ENTRIES;
    }
  }

  lemma IdentityHung(entries: seq<Entry>, tables: seq<nat>, m: seq<byte>, f: nat)
    requires DirAgrees(entries, tables) && f > 0 && Filled(m, f, ENTRIES)
    requires tables[0] == f * PAGE_SIZE && forall k | 0 < k < ENTRIES :: tables[k] == 0
    requires entries[0].rw && !entries[0].user
    ensures IdentityMap(entries, tables, m)
  {
    forall u: nat | u < PAGES
      ensures SoftWalk(tables, m, u) == if u < ENTRIES then Some(Mapping(u, true, false)) else None
      ensures HardWalk(entries, m, u) == SoftWalk(tables, m, u)
    {
      IdentityAt(tables, m, f, u);
      WalksAgree(entries, tables, m, u);
      assert u < ENTRIES ==> u / ENTRIES == 0;
    }
  }
}
