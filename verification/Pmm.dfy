// kernel/pmm.c: the physical page allocator over a bitmap of 32-bit words.

module Pmm {
  import opened Memory

  const PAGE_SIZE: nat := 4096
  // Words of bitmap that 4 GB of memory need.
  const BITMAP_WORDS: nat := 0x8000
  // Pages 0-255 (BIOS) and 256-511 (kernel image).
  const LOW_PAGES: nat := 512
  const BITMAP_ADDR: nat := 0x20_0000

  type uint32 = w: nat | w < WORD

  // ---------------------------------------------------------------- bits

  // w & (1 << k), as a truth value.
  predicate Has(w: nat, k: nat) {
    if k == 0 then w % 2 == 1 else Has(w / 2, k - 1)
  }

  // w | (1 << k).
  function Raised(w: nat, k: nat): nat {
    if k == 0 then w / 2 * 2 + 1 else w % 2 + 2 * Raised(w / 2, k - 1)
  }

  // w & ~(1 << k).
  function Lowered(w: nat, k: nat): nat {
    if k == 0 then w / 2 * 2 else w % 2 + 2 * Lowered(w / 2, k - 1)
  }

  // The two updates in arithmetic: they add or take away 1 << k if it is not,
  // or is, there.
  lemma {:induction false} WordArithmetic(w: nat, k: nat)
    ensures Raised(w, k) == if Has(w, k) then w else w + Pow(2, k)
    ensures Lowered(w, k) == if Has(w, k) then w - Pow(2, k) else w
  {
    if k > 0 {
      WordArithmetic(w / 2, k - 1);
    }
  }

  // A word of n bits stays one.
  lemma {:induction false} WordBound(w: nat, k: nat, n: nat)
    requires w < Pow(2, n) && k < n
    ensures Raised(w, k) < Pow(2, n) && Lowered(w, k) < Pow(2, n)
  {
    if k > 0 {
      WordBound(w / 2, k - 1, n - 1);
    }
  }

  lemma BitInWord(w: uint32, k: nat)
    requires k < 32
    ensures Raised(w, k) < WORD && Lowered(w, k) < WORD
  {
    assert Pow(2, 8) == 0x100;
    assert Pow(2, 16) == 0x1_0000;
    assert Pow(2, 24) == 0x100_0000;
    assert Pow(2, 32) == WORD;
    WordBound(w, k, 32);
  }

  lemma Halves(w: nat, k: nat)
    requires k > 0
    ensures Raised(w, k) / 2 == Raised(w / 2, k - 1) && Raised(w, k) % 2 == w % 2
    ensures Lowered(w, k) / 2 == Lowered(w / 2, k - 1) && Lowered(w, k) % 2 == w % 2
  {
  }

  // Setting or clearing one bit of a word changes that bit and no other.
  lemma {:induction false} WordUpdate(w: nat, k: nat, j: nat)
    ensures Has(Raised(w, k), j) <==> j == k || Has(w, j)
    ensures Has(Lowered(w, k), j) <==> j != k && Has(w, j)
  {
    if k > 0 {
      Halves(w, k);
      if j > 0 {
        WordUpdate(w / 2, k - 1, j - 1);
      }
    }
  }

  // BITMAP_TEST.
  predicate Used(bm: seq<uint32>, i: nat)
    requires i / 32 < |bm|
  {
    Has(bm[i / 32], i % 32)
  }

  // BITMAP_SET.
  function SetBit(bm: seq<uint32>, i: nat): seq<uint32>
    requires i / 32 < |bm|
  {
    BitInWord(bm[i / 32], i % 32);
    bm[i / 32 := Raised(bm[i / 32], i % 32)]
  }

  // BITMAP_CLEAR.
  function ClearBit(bm: seq<uint32>, i: nat): seq<uint32>
    requires i / 32 < |bm|
  {
    BitInWord(bm[i / 32], i % 32);
    bm[i / 32 := Lowered(bm[i / 32], i % 32)]
  }

  lemma SameIndex(i: nat, j: nat)
    ensures i == j <==> i / 32 == j / 32 && i % 32 == j % 32
  {
  }

  // The two updates of the bitmap change the bit they name and no other,
  // within a word and across words.
  lemma BitUpdate(bm: seq<uint32>, i: nat, j: nat)
    requires i / 32 < |bm| && j / 32 < |bm|
    ensures Used(SetBit(bm, i), j) <==> j == i || Used(bm, j)
    ensures Used(ClearBit(bm, i), j) <==> j != i && Used(bm, j)
  {
    SameIndex(i, j);
    if i / 32 == j / 32 {
      WordUpdate(bm[i / 32], i % 32, j % 32);
    }
  }

  // ---------------------------------------------------------------- the free pages

  // The pages below total whose bit is clear.
  ghost function FreePages(bm: seq<uint32>, total: nat): set<nat>
    requires total <= 32 * |bm|
  {
    set i | 0 <= i < total && !Used(bm, i)
  }

  lemma SetTakes(bm: seq<uint32>, total: nat, i: nat)
    requires total <= 32 * |bm| && i / 32 < |bm|
    ensures FreePages(SetBit(bm, i), total) == FreePages(bm, total) - {i}
  {
    forall j: nat | j < total
      ensures Used(SetBit(bm, i), j) <==> j == i || Used(bm, j)
    {
      BitUpdate(bm, i, j);
    }
  }

  lemma ClearGives(bm: seq<uint32>, total: nat, i: nat)
    requires total <= 32 * |bm| && i < total
    ensures FreePages(ClearBit(bm, i), total) == FreePages(bm, total) + {i}
  {
    forall j: nat | j < total
      ensures Used(ClearBit(bm, i), j) <==> j != i && Used(bm, j)
    {
      BitUpdate(bm, i, j);
    }
  }

  ghost predicate IsLeast(i: nat, s: set<nat>) {
    i in s && forall j | j in s :: i <= j
  }

  // From bm to bm' exactly the pages lo..hi have been marked used.
  ghost predicate Marked(bm: seq<uint32>, bm': seq<uint32>, lo: nat, hi: nat) {
    && |bm| == |bm'|
    && forall j: nat | j < 32 * |bm| :: Used(bm', j) <==> lo <= j < hi || Used(bm, j)
  }

  lemma MarkedStep(bm: seq<uint32>, bm': seq<uint32>, lo: nat, hi: nat)
    requires lo <= hi < 32 * |bm| && Marked(bm, bm', lo, hi)
    ensures Marked(bm, SetBit(bm', hi), lo, hi + 1)
  {
    forall j: nat | j < 32 * |bm|
      ensures Used(SetBit(bm', hi), j) <==> lo <= j < hi + 1 || Used(bm, j)
    {
      BitUpdate(bm', hi, j);
    }
  }

  // ---------------------------------------------------------------- sizes at boot

  // kernel/pmm.c:20-21, in 32-bit arithmetic.
  function TotalPages(kb: nat): nat {
    kb * 1024 % WORD / PAGE_SIZE
  }

  // kernel/pmm.c:25-26: words of bitmap, a multiple of four.
  function BitmapWords(total: nat): nat {
    ((total + 31) / 32 + 3) / 4 * 4
  }

  // kernel/pmm.c:41: pages the bitmap itself occupies.
  function BitmapPages(total: nat): nat {
    (BitmapWords(total) * 4 + PAGE_SIZE - 1) / PAGE_SIZE
  }

  lemma BootSizes(kb: nat)
    ensures var total := TotalPages(kb);
            && total < 0x10_0000
            && total <= 32 * BitmapWords(total) && BitmapWords(total) <= BITMAP_WORDS
            && BitmapPages(total) <= 32
  {
    var bytes := kb * 1024 % WORD;
    assert bytes < WORD;
  }

  // Below 4 GB the pages are the whole 4 KB pages of the memory given.
  lemma PagesOfMemory(kb: nat)
    requires kb < 0x40_0000
    ensures 4 * TotalPages(kb) <= kb < 4 * TotalPages(kb) + 4
  {
    assert kb * 1024 % WORD == kb * 1024;
  }

  // The words of the bitmap have a bit for every page, and no more than their
  // alignment to four asks for.
  lemma WordsCover(total: nat)
    ensures total <= 32 * BitmapWords(total) < total + 128 && BitmapWords(total) % 4 == 0
  {
  }

  function Dec32(x: nat): nat {
    (x + WORD - 1) % WORD
  }

  // x after n decrements, as uint32_t.
  function Sub32(x: nat, n: nat): nat {
    if n == 0 then x else Dec32(Sub32(x, n - 1))
  }

  lemma {:induction false} SubExact(x: nat, n: nat)
    requires x < WORD && n < WORD
    ensures Sub32(x, n) == if n <= x then x - n else x - n + WORD
  {
    if n > 0 {
      SubExact(x, n - 1);
    }
  }

  lemma {:induction false} SubSub(x: nat, a: nat, b: nat)
    ensures Sub32(Sub32(x, a), b) == Sub32(x, a + b)
  {
    if b > 0 {
      SubSub(x, a, b - 1);
    }
  }

  lemma {:induction false} ZeroWord(k: nat)
    ensures !Has(0, k)
  {
    if k > 0 {
      ZeroWord(k - 1);
    }
  }

  // The pages lo, ..., hi - 1.
  ghost function Range(lo: nat, hi: nat): (r: set<nat>)
    ensures forall p :: p in r <==> lo <= p < hi
    ensures |r| == if lo < hi then hi - lo else 0
    decreases hi
  {
    if lo < hi then Range(lo, hi - 1) + {hi - 1} else {}
  }

  lemma SubsetCard(a: set<nat>, b: set<nat>)
    requires a <= b
    ensures |a| <= |b|
    decreases b
  {
    if a != {} {
      var x :| x in a;
      SubsetCard(a - {x}, b - {x});
    }
  }

  lemma FreeCard(bm: seq<uint32>, total: nat)
    requires total <= 32 * |bm|
    ensures |FreePages(bm, total)| <= total
  {
    SubsetCard(FreePages(bm, total), Range(0, total));
  }

  // First page not reserved at boot.
  function FirstFree(total: nat): nat {
    LOW_PAGES + BitmapPages(total)
  }

  // The counter computed at boot is right exactly when memory reaches beyond
  // the reserved pages.
  lemma BootCount(total: nat)
    requires total < 0x10_0000 && BitmapPages(total) <= 32
    ensures Sub32(total, FirstFree(total)) == |Range(FirstFree(total), total)| <==> total >= FirstFree(total)
  {
    SubExact(total, FirstFree(total));
  }

  lemma WholeWraps(k: nat)
    ensures k * 0x40_0000 * 1024 % WORD == 0
  {
    assert k * 0x40_0000 * 1024 == k * WORD;
  }

  // 4 GB of memory, or a multiple, wrap to no pages at all, and the counter to
  // almost 2^32.
  lemma FourGigabytes(k: nat)
    ensures var total := TotalPages(k * 0x40_0000);
            total == 0 && Sub32(total, FirstFree(total)) == WORD - LOW_PAGES
  {
    WholeWraps(k);
    SubExact(TotalPages(k * 0x40_0000), FirstFree(TotalPages(k * 0x40_0000)));
  }

  // Three markings over a zeroed bitmap leave the pages from first on clear.
  lemma BootMarks(z: seq<uint32>, a: seq<uint32>, b: seq<uint32>, c: seq<uint32>, words: nat, first: nat, total: nat)
    requires words <= |z| && forall i | 0 <= i < words :: z[i] == 0
    requires Marked(z, a, 0, 256)
    requires Marked(a, b, 512, first) && first >= 512
    requires Marked(b, c, 256, 512)
    requires total <= 32 * words
    ensures FreePages(c, total) == Range(first, total)
  {
    forall j: nat | j < total
      ensures Used(c, j) <==> j < first
    {
      ZeroWord(j % 32);
      assert !Used(z, j);
      assert Used(a, j) <==> j < 256;
      assert Used(b, j) <==> 512 <= j < first || Used(a, j);
    }
  }

  // ---------------------------------------------------------------- runs

  // Pages free, and pages handed out to clients.
  datatype Ledger = Ledger(free: set<nat>, held: set<nat>)

  // A page handed out, the refusal when there is none, and a page given back.
  datatype FrameOp = Take(page: nat) | Refuse | Give(page: nat)

  function Taken(s: Ledger, p: nat): Ledger {
    Ledger(s.free - {p}, s.held + {p})
  }

  function Given(s: Ledger, p: nat): Ledger {
    Ledger(s.free + {p}, s.held - {p})
  }

  // One call of a client that frees only what it holds.
  ghost predicate LedgerStep(s: Ledger, op: FrameOp, t: Ledger) {
    match op
    case Take(p) => IsLeast(p, s.free) && t == Taken(s, p)
    case Refuse => s.free == {} && t == s
    case Give(p) => p in s.held && t == Given(s, p)
  }

  ghost predicate LedgerRun(trace: seq<Ledger>, ops: seq<FrameOp>) {
    && |trace| == |ops| + 1
    && forall i | 0 <= i < |ops| :: LedgerStep(trace[i], ops[i], trace[i + 1])
  }

  // Pages are neither lost nor invented nor handed out twice: over every run
  // free and held pages partition those that were free at its beginning.
  lemma {:induction false} RunConserves(trace: seq<Ledger>, ops: seq<FrameOp>, i: nat)
    requires LedgerRun(trace, ops) && i <= |ops| && trace[0].held == {}
    ensures trace[i].free !! trace[i].held
    ensures trace[i].free + trace[i].held == trace[0].free
  {
    if i > 0 {
      RunConserves(trace, ops, i - 1);
      assert LedgerStep(trace[i - 1], ops[i - 1], trace[i]);
    }
  }

  // The ledger after init_pmm: everything from the first page not reserved on.
  ghost function BootLedger(total: nat): Ledger {
    Ledger(Range(FirstFree(total), total), {})
  }

  lemma WholePages(bytes: nat, k: nat)
    ensures (bytes + PAGE_SIZE - 1) / PAGE_SIZE <= k <==> bytes <= PAGE_SIZE * k
  {
  }

  // A page is free at boot exactly if it lies in memory and begins where the
  // bitmap at 2 MB ends, or beyond.
  lemma FreeAtBoot(total: nat, p: nat)
    ensures p in BootLedger(total).free <==> p < total && 0x20_0000 + 4 * BitmapWords(total) <= 4096 * p
  {
    if p >= LOW_PAGES {
      WholePages(4 * BitmapWords(total), p - LOW_PAGES);
    }
  }

  lemma BootPages(total: nat)
    ensures forall p: nat ::
              p in BootLedger(total).free <==> p < total && 0x20_0000 + 4 * BitmapWords(total) <= 4096 * p
  {
    forall p: nat
      ensures p in BootLedger(total).free <==> p < total && 0x20_0000 + 4 * BitmapWords(total) <= 4096 * p
    {
      FreeAtBoot(total, p);
    }
  }

  // In every run from boot the pages handed out are memory beyond the low 2 MB
  // and the bitmap: pages 0-511 and those of the bitmap never are.
  lemma ReservedStay(trace: seq<Ledger>, ops: seq<FrameOp>, i: nat, total: nat)
    requires LedgerRun(trace, ops) && i <= |ops| && trace[0] == BootLedger(total)
    ensures forall p | p in trace[i].held :: 0x20_0000 + 4 * BitmapWords(total) <= 4096 * p && p < total
    ensures forall p | p in trace[i].held :: LOW_PAGES + BitmapPages(total) <= p < total
    ensures trace[i].free == Range(FirstFree(total), total) - trace[i].held
  {
    RunConserves(trace, ops, i);
    forall p | p in trace[i].held
      ensures FirstFree(total) <= p < total && 0x20_0000 + 4 * BitmapWords(total) <= 4096 * p
    {
      assert p in trace[i].free + trace[i].held;
      FreeAtBoot(total, p);
    }
  }

  // The ledger accounts for all pages that were free at boot.
  ghost predicate Balanced(s: Ledger, total: nat) {
    && (forall p | p in s.held :: FirstFree(total) <= p < total)
    && (forall p | p in s.free :: FirstFree(total) <= p < total)
    && (forall p {:trigger p in s.free, p in s.held} | FirstFree(total) <= p < total :: p in s.free || p in s.held)
  }

  // Every call of such a client keeps it balanced.
  lemma StepBalances(s: Ledger, op: FrameOp, t: Ledger, total: nat)
    requires LedgerStep(s, op, t) && Balanced(s, total)
    ensures Balanced(t, total)
  {
  }

  lemma GiveBalances(s: Ledger, t: Ledger, p: nat, total: nat)
    requires t == Given(s, p)
    ensures p in s.held ==> LedgerStep(s, Give(p), t)
    ensures Balanced(s, total) ==> (Balanced(t, total) <==> p in s.held || p in s.free)
  {
    assert p in t.free || p in t.held;
  }

  class FrameAllocator {
    const bitmap: array<uint32>
    var totalPages: nat
    var freePages: nat
    var initialized: bool
    // The pages handed out and not yet taken back.
    ghost var held: set<nat>

    ghost function Free(): set<nat>
      requires bitmap.Length == BITMAP_WORDS && totalPages < 0x10_0000
      reads this, bitmap
    {
      FreePages(bitmap[..], totalPages)
    }

    // The counter agrees with the bitmap, and no page handed out is free.
    ghost predicate Valid()
      reads this, bitmap
    {
      && bitmap.Length == BITMAP_WORDS && totalPages < 0x10_0000
      && (initialized ==> freePages == |Free()|)
      && held !! Free()
    }

    ghost function Books(): Ledger
      requires bitmap.Length == BITMAP_WORDS && totalPages < 0x10_0000
      reads this, bitmap
    {
      Ledger(Free(), held)
    }

    // Free and held pages are those that were free at boot.
    ghost predicate Conserved()
      requires bitmap.Length == BITMAP_WORDS && totalPages < 0x10_0000
      reads this, bitmap
    {
      Balanced(Books(), totalPages)
    }

    constructor ()
      ensures Valid() && !initialized && fresh(bitmap)
    {
      bitmap := new uint32[BITMAP_WORDS];
      totalPages := 0;
      initialized := false;
      held := {};
    }

    method SetPage(i: nat)
      requires bitmap.Length == BITMAP_WORDS && i < 32 * BITMAP_WORDS
      modifies bitmap
      ensures bitmap[..] == SetBit(old(bitmap[..]), i)
    {
      BitInWord(bitmap[i / 32], i % 32);
      bitmap[i / 32] := Raised(bitmap[i / 32], i % 32);
    }

    // BITMAP_SET(start + i) and free_pages-- for i below count.
    method MarkUsed(start: nat, count: nat)
      requires bitmap.Length == BITMAP_WORDS && start + count <= 32 * BITMAP_WORDS && freePages < WORD
      modifies bitmap, this`freePages
      ensures freePages == Sub32(old(freePages), count)
      ensures Marked(old(bitmap[..]), bitmap[..], start, start + count)
    {
      for i := 0 to count
        invariant freePages == Sub32(old(freePages), i)
        invariant Marked(old(bitmap[..]), bitmap[..], start, start + i)
      {
        MarkedStep(old(bitmap[..]), bitmap[..], start, start + i);
        SetPage(start + i);
        freePages := Dec32(freePages);
      }
    }

    method ClearPage(i: nat)
      requires bitmap.Length == BITMAP_WORDS && i < 32 * BITMAP_WORDS
      modifies bitmap
      ensures bitmap[..] == ClearBit(old(bitmap[..]), i)
    {
      BitInWord(bitmap[i / 32], i % 32);
      bitmap[i / 32] := Lowered(bitmap[i / 32], i % 32);
    }

    // The memset of kernel/pmm.c:30.
    method ClearWords(words: nat)
      requires words <= bitmap.Length
      modifies bitmap
      ensures forall k | 0 <= k < words :: bitmap[k] == 0
    {
      for i := 0 to words
        invariant forall k | 0 <= k < i :: bitmap[k] == 0
      {
        bitmap[i] := 0;
      }
    }

    // kernel/pmm.c:28-55: the bitmap is cleared, then pages are marked three times.
    method Reserve(words: nat, pages: nat) returns (ghost z: seq<uint32>, ghost a: seq<uint32>, ghost b: seq<uint32>)
      requires bitmap.Length == BITMAP_WORDS && freePages < WORD && words <= BITMAP_WORDS && pages <= 32
      modifies bitmap, this`freePages
      ensures |z| == BITMAP_WORDS && forall k | 0 <= k < words :: z[k] == 0
      ensures Marked(z, a, 0, 256) && Marked(a, b, 512, 512 + pages) && Marked(b, bitmap[..], 256, 512)
      ensures freePages == Sub32(old(freePages), LOW_PAGES + pages)
    {
      ClearWords(words);
      z := bitmap[..];
      MarkUsed(0, 256);
      a := bitmap[..];
      MarkUsed(BITMAP_ADDR / PAGE_SIZE, pages);
      b := bitmap[..];
      MarkUsed(0x10_0000 / PAGE_SIZE, 256);
      SubSub(old(freePages), 256, pages);
      SubSub(old(freePages), 256 + pages, 256);
    }

    method Init(kb: nat)
      requires bitmap.Length == BITMAP_WORDS
      modifies this, bitmap
      ensures initialized && totalPages == TotalPages(kb) && totalPages < 0x10_0000
      ensures Books() == BootLedger(totalPages) && Conserved()
      ensures forall p: nat :: p in Free() <==> p < totalPages && 0x20_0000 + 4 * BitmapWords(totalPages) <= 4096 * p
      ensures kb < 0x40_0000 ==> 4 * totalPages <= kb < 4 * totalPages + 4
      ensures freePages == Sub32(totalPages, FirstFree(totalPages))
      ensures Valid() <==> totalPages >= FirstFree(totalPages)
    {
      BootSizes(kb);
      totalPages := TotalPages(kb);
      freePages := totalPages;
      ghost var z, a, b := Reserve(BitmapWords(totalPages), BitmapPages(totalPages));
      initialized := true;
      held := {};
      BootMarks(z, a, b, bitmap[..], BitmapWords(totalPages), FirstFree(totalPages), totalPages);
      BootCount(totalPages);
      BootPages(totalPages);
      if kb < 0x40_0000 {
        PagesOfMemory(kb);
      }
    }

    // The search of kernel/pmm.c:92-93. With pages left on the counter it cannot
    // come to its end, so the return NULL behind it is never reached.
    method FindClear() returns (i: nat)
      requires Valid() && initialized && freePages > 0
      ensures i < totalPages && IsLeast(i, Free())
    {
      i := 0;
      while i < totalPages && Has(bitmap[i / 32], i % 32)
        invariant i <= totalPages && forall j | j in Free() :: i <= j
      {
        i := i + 1;
      }
    }

    // kernel/pmm.c:94-95 on the lowest clear page.
    method TakePage(i: nat)
      requires Valid() && initialized && i < totalPages && IsLeast(i, Free())
      modifies this`freePages, this`held, bitmap
      ensures Valid() && Books() == Taken(old(Books()), i) && freePages == old(freePages) - 1
    {
      SetTakes(bitmap[..], totalPages, i);
      FreeCard(bitmap[..], totalPages);
      SetPage(i);
      freePages := Dec32(freePages);
      held := held + {i};
    }

    // The address of the lowest clear page, marked used on the way; 0 is NULL.
    method AllocFrame() returns (frame: nat)
      requires Valid()
      modifies this`freePages, this`held, bitmap
      ensures Valid()
      ensures !initialized || old(freePages) == 0 ==>
                frame == 0 && Books() == old(Books()) && bitmap[..] == old(bitmap[..])
      ensures initialized && old(freePages) > 0 ==>
                && IsLeast(frame / PAGE_SIZE, old(Free())) && frame % PAGE_SIZE == 0
                && Books() == Taken(old(Books()), frame / PAGE_SIZE) && freePages == old(freePages) - 1
      ensures initialized ==>
                LedgerStep(old(Books()), if old(freePages) == 0 then Refuse else Take(frame / PAGE_SIZE), Books())
    {
      if !initialized {
        return 0;
      }
      if freePages == 0 {
        return 0;
      }
      var i := FindClear();
      TakePage(i);
      frame := i * PAGE_SIZE;
      assert frame / PAGE_SIZE == i;
    }

    // The pages that the call gives back.
    predicate Gives(frame: nat)
      reads this
    {
      initialized && frame != 0 && frame / PAGE_SIZE < totalPages
    }

    // kernel/pmm.c:128-129.
    method GivePage(index: nat)
      requires Valid() && initialized && index < totalPages && Used(bitmap[..], index)
      modifies this`freePages, this`held, bitmap
      ensures Valid() && Books() == Given(old(Books()), index)
    {
      ClearGives(bitmap[..], totalPages, index);
      ClearPage(index);
      freePages := freePages + 1;
      held := held - {index};
    }

    method FreeFrame(frame: nat)
      requires Valid() && frame < WORD
      modifies this`freePages, this`held, bitmap
      ensures Valid()
      ensures !initialized || frame == 0 || frame >= PAGE_SIZE * totalPages ==> Books() == old(Books())
      ensures initialized && 0 < frame < PAGE_SIZE * totalPages ==>
                frame / PAGE_SIZE in Free() && frame / PAGE_SIZE !in held && freePages == |Free()|
      ensures Books() == if Gives(frame) then Given(old(Books()), frame / PAGE_SIZE) else old(Books())
      ensures Gives(frame) && frame / PAGE_SIZE in old(held) ==>
                LedgerStep(old(Books()), Give(frame / PAGE_SIZE), Books())
      ensures old(Conserved()) ==>
                (Conserved() <==>
                   !Gives(frame) || frame / PAGE_SIZE in old(held) || frame / PAGE_SIZE in old(Free()))
    {
      if !initialized || frame == 0 {
        return;
      }
      var index := frame / PAGE_SIZE;
      if index >= totalPages {
        return;
      }
      ghost var s := Books();
      if !Has(bitmap[index / 32], index % 32) {
        assert index in Free();
        assert Given(s, index) == s;
        return;
      }
      GivePage(index);
      GiveBalances(s, Books(), index, totalPages);
    }
  }
}
