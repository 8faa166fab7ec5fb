// The block list of kernel/kheap.c as a value: what kmalloc and kfree do to
// the sequence of (size, free) blocks that tile the heap, and the properties
// of that sequence over single calls and whole runs.

module HeapBlocks {
  import opened Memory

  const HEAP_START: nat := 0xD000_0000
  const HEAP_SIZE: nat := 0x1000_0000
  // sizeof(block_header_t) on a 32-bit target
  const HDR: nat := 16

  // size counts the header.
  datatype Block = Block(size: nat, free: bool)

  // Address of the i-th block; Addr(bs, |bs|) is the end of the heap.
  function Addr(bs: seq<Block>, i: nat): nat
    requires i <= |bs|
  {
    if i == 0 then HEAP_START else Addr(bs, i - 1) + bs[i - 1].size
  }

  predicate Sized(bs: seq<Block>) {
    forall i | 0 <= i < |bs| :: bs[i].size >= HDR
  }

  ghost predicate Aligned(bs: seq<Block>) {
    forall i | 0 <= i < |bs| :: bs[i].size % 8 == 0
  }

  // No two neighbouring blocks are both free.
  ghost predicate Coalesced(bs: seq<Block>) {
    forall i, j | 0 <= i < j < |bs| && j == i + 1 :: !(bs[i].free && bs[j].free)
  }

  ghost predicate Tiles(bs: seq<Block>) {
    Addr(bs, |bs|) == HEAP_START + HEAP_SIZE
  }

  ghost predicate WellFormed(bs: seq<Block>) {
    |bs| > 0 && Sized(bs) && Aligned(bs) && Tiles(bs) && Coalesced(bs)
  }

  // ---------------------------------------------------------------- addresses

  lemma {:induction false} AddrMono(bs: seq<Block>, i: nat, j: nat)
    requires i < j <= |bs|
    ensures Addr(bs, i) + bs[i].size <= Addr(bs, j)
    decreases j
  {
    if i < j - 1 {
      AddrMono(bs, i, j - 1);
    }
  }

  // Equal stretches of two lists have equal extent.
  lemma {:induction false} AddrShift(a: seq<Block>, b: seq<Block>, lo: nat, hi: nat, d: int)
    requires lo <= hi <= |a| && 0 <= lo + d && hi + d <= |b|
    requires forall t | lo <= t < hi :: a[t] == b[t + d]
    ensures Addr(b, hi + d) - Addr(b, lo + d) == Addr(a, hi) - Addr(a, lo)
    decreases hi
  {
    if lo < hi {
      AddrShift(a, b, lo, hi - 1, d);
      assert a[hi - 1] == b[hi - 1 + d];
    }
  }

  // Blocks lo..hi replaced by mid.
  function Splice(bs: seq<Block>, lo: nat, hi: nat, mid: seq<Block>): seq<Block>
    requires lo <= hi <= |bs|
  {
    bs[..lo] + mid + bs[hi..]
  }

  // Bytes in the blocks that are not free, headers included.
  function UsedTotal(bs: seq<Block>): nat {
    if bs == [] then 0
    else UsedTotal(bs[..|bs| - 1]) + if bs[|bs| - 1].free then 0 else bs[|bs| - 1].size
  }

  lemma OneBlock(b: Block)
    ensures Addr([b], 0) == HEAP_START && Addr([b], 1) == HEAP_START + b.size
    ensures UsedTotal([b]) == if b.free then 0 else b.size
  {
    assert [b][..0] == [];
  }

  // Block i of a sits in b, d positions further on but at the same address.
  ghost predicate Moved(a: seq<Block>, b: seq<Block>, i: int, d: int) {
    && 0 <= i < |a| && 0 <= i + d < |b|
    && b[i + d] == a[i] && Addr(b, i + d) == Addr(a, i)
  }

  ghost predicate AllMoved(a: seq<Block>, b: seq<Block>, lo: nat, hi: nat, d: int) {
    forall i | lo <= i < hi :: Moved(a, b, i, d)
  }

  // b is a with blocks lo..hi replaced by k others of the same extent: every
  // other block is still there, and where it was.
  ghost predicate Kept(a: seq<Block>, b: seq<Block>, lo: nat, hi: nat, k: nat) {
    && lo <= hi <= |a| && |b| == |a| - (hi - lo) + k
    && Addr(b, lo) == Addr(a, lo)
    && Addr(b, lo + k) == Addr(a, hi)
    && Addr(b, |b|) == Addr(a, |a|)
    && AllMoved(a, b, 0, lo, 0)
    && AllMoved(a, b, hi, |a|, k - (hi - lo))
  }

  lemma SpliceAddrLeft(bs: seq<Block>, lo: nat, hi: nat, mid: seq<Block>, i: nat)
    requires i <= lo <= hi <= |bs|
    ensures Addr(Splice(bs, lo, hi, mid), i) == Addr(bs, i)
  {
    AddrShift(bs, Splice(bs, lo, hi, mid), 0, i, 0);
  }

  lemma SpliceAddrMid(bs: seq<Block>, lo: nat, hi: nat, mid: seq<Block>, t: nat)
    requires lo <= hi <= |bs| && t <= |mid|
    ensures Addr(Splice(bs, lo, hi, mid), lo + t) == Addr(bs, lo) + (Addr(mid, t) - HEAP_START)
  {
    SpliceAddrLeft(bs, lo, hi, mid, lo);
    AddrShift(mid, Splice(bs, lo, hi, mid), 0, t, lo);
  }

  lemma SpliceAddrRight(bs: seq<Block>, lo: nat, hi: nat, mid: seq<Block>, i: nat)
    requires lo <= hi <= i <= |bs|
    requires Addr(mid, |mid|) - HEAP_START == Addr(bs, hi) - Addr(bs, lo)
    ensures Addr(Splice(bs, lo, hi, mid), i + (|mid| - (hi - lo))) == Addr(bs, i)
  {
    SpliceAddrMid(bs, lo, hi, mid, |mid|);
    AddrShift(bs, Splice(bs, lo, hi, mid), hi, i, |mid| - (hi - lo));
  }

  lemma SpliceMovesRight(bs: seq<Block>, lo: nat, hi: nat, mid: seq<Block>)
    requires lo <= hi <= |bs|
    requires Addr(mid, |mid|) - HEAP_START == Addr(bs, hi) - Addr(bs, lo)
    ensures AllMoved(bs, Splice(bs, lo, hi, mid), hi, |bs|, |mid| - (hi - lo))
  {
    var d := |mid| - (hi - lo);
    forall i | hi <= i < |bs|
      ensures Moved(bs, Splice(bs, lo, hi, mid), i, d)
    {
      SpliceAddrRight(bs, lo, hi, mid, i);
    }
  }

  lemma SpliceMovesLeft(bs: seq<Block>, lo: nat, hi: nat, mid: seq<Block>)
    requires lo <= hi <= |bs|
    ensures AllMoved(bs, Splice(bs, lo, hi, mid), 0, lo, 0)
  {
    forall i | 0 <= i < lo
      ensures Moved(bs, Splice(bs, lo, hi, mid), i, 0)
    {
      SpliceAddrLeft(bs, lo, hi, mid, i);
    }
  }

  lemma SpliceKept(bs: seq<Block>, lo: nat, hi: nat, mid: seq<Block>)
    requires lo <= hi <= |bs|
    requires Addr(mid, |mid|) - HEAP_START == Addr(bs, hi) - Addr(bs, lo)
    ensures Kept(bs, Splice(bs, lo, hi, mid), lo, hi, |mid|)
  {
    SpliceMovesLeft(bs, lo, hi, mid);
    SpliceMovesRight(bs, lo, hi, mid);
    SpliceAddrLeft(bs, lo, hi, mid, lo);
    SpliceAddrRight(bs, lo, hi, mid, hi);
    SpliceAddrRight(bs, lo, hi, mid, |bs|);
  }

  // ---------------------------------------------------------------- operations

  // kernel/kheap.c:69-70 in 32-bit arithmetic: what kmalloc(n) looks for.
  function Need(n: nat): nat {
    ((n + 7) % WORD / 8 * 8 + HDR) % WORD
  }

  // Index of the first free block that is large enough, or |bs|.
  function FirstFit(bs: seq<Block>, need: nat, from: nat): (i: nat)
    requires from <= |bs|
    ensures from <= i <= |bs|
    ensures forall j | from <= j < i :: !(bs[j].free && bs[j].size >= need)
    ensures i < |bs| ==> bs[i].free && bs[i].size >= need
    decreases |bs| - from
  {
    if from == |bs| || (bs[from].free && bs[from].size >= need) then from
    else FirstFit(bs, need, from + 1)
  }

  // What becomes of a free block handed out: it is split when the rest can
  // hold a header and 8 bytes.
  function Carve(size: nat, need: nat): seq<Block>
    requires need <= size
  {
    if size >= need + HDR + 8 then [Block(need, false), Block(size - need, true)]
    else [Block(size, false)]
  }

  // The bytes behind the header of the block handed out.
  function NewCap(size: nat, need: nat): int {
    (if size >= need + HDR + 8 then need else size) - HDR
  }

  function Take(bs: seq<Block>, i: nat, need: nat): seq<Block>
    requires i < |bs| && need <= bs[i].size
  {
    Splice(bs, i, i + 1, Carve(bs[i].size, need))
  }

  function Malloc(bs: seq<Block>, need: nat): seq<Block> {
    var i := FirstFit(bs, need, 0);
    if i == |bs| then bs else Take(bs, i, need)
  }

  // The pointer kmalloc returns; 0 is NULL.
  function MallocPtr(bs: seq<Block>, need: nat): nat {
    var i := FirstFit(bs, need, 0);
    if i == |bs| then 0 else Addr(bs, i) + HDR
  }

  function Release(bs: seq<Block>, i: nat): (r: seq<Block>)
    requires i < |bs|
  {
    Splice(bs, i, i + 1, [Block(bs[i].size, true)])
  }

  // Blocks i and i + 1 as one.
  function MergeMid(bs: seq<Block>, i: nat): seq<Block>
    requires i + 1 < |bs|
  {
    [Block(bs[i].size + bs[i + 1].size, bs[i].free)]
  }

  // Block i swallows its successor when that is free.
  function MergeNext(bs: seq<Block>, i: nat): seq<Block>
    requires i < |bs|
  {
    if i + 1 < |bs| && bs[i + 1].free then Splice(bs, i, i + 2, MergeMid(bs, i)) else bs
  }

  // Block i is swallowed by its predecessor when that is free.
  function MergePrev(bs: seq<Block>, i: nat): seq<Block>
    requires i < |bs|
  {
    if i > 0 && bs[i - 1].free then Splice(bs, i - 1, i + 1, MergeMid(bs, i - 1)) else bs
  }

  function Free(bs: seq<Block>, i: nat): seq<Block>
    requires i < |bs|
  {
    MergePrev(MergeNext(Release(bs, i), i), i)
  }

  // ---------------------------------------------------------------- live allocations

  // A pointer handed out and not yet freed, and the bytes it may use.
  datatype Alloc = Alloc(ptr: nat, cap: nat)

  function AllocOf(bs: seq<Block>, i: nat): Alloc
    requires i < |bs| && bs[i].size >= HDR
  {
    Alloc(Addr(bs, i) + HDR, bs[i].size - HDR)
  }

  // The allocations in blocks lo..hi.
  function LiveIn(bs: seq<Block>, lo: nat, hi: nat): set<Alloc>
    requires lo <= hi <= |bs| && Sized(bs)
    decreases hi - lo
  {
    if lo == hi then {}
    else LiveIn(bs, lo, hi - 1) + if bs[hi - 1].free then {} else {AllocOf(bs, hi - 1)}
  }

  function Live(bs: seq<Block>): set<Alloc>
    requires Sized(bs)
  {
    LiveIn(bs, 0, |bs|)
  }

  lemma {:induction false} UsedConcat(a: seq<Block>, b: seq<Block>)
    ensures UsedTotal(a + b) == UsedTotal(a) + UsedTotal(b)
  {
    if b == [] {
      assert a + b == a;
    } else {
      UsedConcat(a, b[..|b| - 1]);
      assert (a + b)[..|a + b| - 1] == a + b[..|b| - 1];
    }
  }

  lemma UsedSplice(bs: seq<Block>, lo: nat, hi: nat, mid: seq<Block>)
    requires lo <= hi <= |bs|
    ensures UsedTotal(Splice(bs, lo, hi, mid)) == UsedTotal(bs) - UsedTotal(bs[lo..hi]) + UsedTotal(mid)
  {
    UsedConcat(bs[..lo] + mid, bs[hi..]);
    UsedConcat(bs[..lo], mid);
    UsedConcat(bs[..lo] + bs[lo..hi], bs[hi..]);
    UsedConcat(bs[..lo], bs[lo..hi]);
    assert bs == bs[..lo] + bs[lo..hi] + bs[hi..];
  }

  lemma {:induction false} LiveAt(bs: seq<Block>, lo: nat, hi: nat, i: nat)
    requires lo <= i < hi <= |bs| && Sized(bs) && !bs[i].free
    ensures AllocOf(bs, i) in LiveIn(bs, lo, hi)
    decreases hi
  {
    if i < hi - 1 {
      LiveAt(bs, lo, hi - 1, i);
    }
  }

  lemma {:induction false} LiveIndex(bs: seq<Block>, lo: nat, hi: nat, x: Alloc) returns (i: nat)
    requires lo <= hi <= |bs| && Sized(bs) && x in LiveIn(bs, lo, hi)
    ensures lo <= i < hi && !bs[i].free && x == AllocOf(bs, i)
    decreases hi
  {
    if x in LiveIn(bs, lo, hi - 1) {
      i := LiveIndex(bs, lo, hi - 1, x);
    } else {
      i := hi - 1;
    }
  }

  lemma {:induction false} LiveInConcat(bs: seq<Block>, lo: nat, mid: nat, hi: nat)
    requires lo <= mid <= hi <= |bs| && Sized(bs)
    ensures LiveIn(bs, lo, hi) == LiveIn(bs, lo, mid) + LiveIn(bs, mid, hi)
    decreases hi - mid
  {
    if mid < hi {
      LiveInConcat(bs, lo, mid, hi - 1);
    }
  }

  // Blocks that moved by d positions but not in memory are the same allocations.
  lemma {:induction false} LiveShift(a: seq<Block>, b: seq<Block>, lo: nat, hi: nat, d: int)
    requires Sized(a) && Sized(b)
    requires lo <= hi <= |a| && 0 <= lo + d && hi + d <= |b|
    requires AllMoved(a, b, lo, hi, d)
    ensures LiveIn(a, lo, hi) == LiveIn(b, lo + d, hi + d)
    decreases hi - lo
  {
    if lo < hi {
      LiveShift(a, b, lo, hi - 1, d);
      assert Moved(a, b, hi - 1, d);
    }
  }

  lemma LiveKeptOutside(a: seq<Block>, b: seq<Block>, lo: nat, hi: nat, k: nat)
    requires Kept(a, b, lo, hi, k) && Sized(a) && Sized(b)
    ensures LiveIn(b, 0, lo) == LiveIn(a, 0, lo)
    ensures LiveIn(b, lo + k, |b|) == LiveIn(a, hi, |a|)
  {
    LiveShift(a, b, 0, lo, 0);
    LiveShift(a, b, hi, |a|, k - (hi - lo));
  }

  lemma LiveKept(a: seq<Block>, b: seq<Block>, lo: nat, hi: nat, k: nat)
    requires Kept(a, b, lo, hi, k) && Sized(a) && Sized(b)
    ensures Live(a) == LiveIn(a, 0, lo) + LiveIn(a, lo, hi) + LiveIn(a, hi, |a|)
    ensures Live(b) == LiveIn(a, 0, lo) + LiveIn(b, lo, lo + k) + LiveIn(a, hi, |a|)
  {
    LiveKeptOutside(a, b, lo, hi, k);
    LiveInConcat(a, 0, lo, |a|);
    LiveInConcat(a, lo, hi, |a|);
    LiveInConcat(b, 0, lo, |b|);
    LiveInConcat(b, lo, lo + k, |b|);
  }

  // Two live allocations never share a byte, nor run into each other's header.
  lemma LiveApart(bs: seq<Block>, x: Alloc, y: Alloc)
    requires Sized(bs) && x in Live(bs) && y in Live(bs) && x != y
    ensures x.ptr + x.cap + HDR <= y.ptr || y.ptr + y.cap + HDR <= x.ptr
  {
    var i := LiveIndex(bs, 0, |bs|, x);
    var j := LiveIndex(bs, 0, |bs|, y);
    if i < j {
      AddrMono(bs, i, j);
    } else {
      AddrMono(bs, j, i);
    }
  }

  // ---------------------------------------------------------------- well-formedness

  lemma SizedSplice(bs: seq<Block>, lo: nat, hi: nat, mid: seq<Block>)
    requires lo <= hi <= |bs| && Sized(bs) && Sized(mid)
    ensures Sized(Splice(bs, lo, hi, mid))
  {
  }

  lemma AlignedSplice(bs: seq<Block>, lo: nat, hi: nat, mid: seq<Block>)
    requires lo <= hi <= |bs| && Aligned(bs) && Aligned(mid)
    ensures Aligned(Splice(bs, lo, hi, mid))
  {
  }

  lemma CoalescedSplice(bs: seq<Block>, lo: nat, hi: nat, mid: seq<Block>)
    requires lo <= hi <= |bs| && Coalesced(bs) && Coalesced(mid) && |mid| > 0
    requires lo > 0 ==> !(bs[lo - 1].free && mid[0].free)
    requires hi < |bs| ==> !(mid[|mid| - 1].free && bs[hi].free)
    ensures Coalesced(Splice(bs, lo, hi, mid))
  {
  }

  lemma SpliceWellFormed(bs: seq<Block>, lo: nat, hi: nat, mid: seq<Block>)
    requires WellFormed(bs) && lo <= hi <= |bs| && |mid| > 0
    requires Addr(mid, |mid|) - HEAP_START == Addr(bs, hi) - Addr(bs, lo)
    requires Sized(mid) && Aligned(mid) && Coalesced(mid)
    requires lo > 0 ==> !(bs[lo - 1].free && mid[0].free)
    requires hi < |bs| ==> !(mid[|mid| - 1].free && bs[hi].free)
    ensures WellFormed(Splice(bs, lo, hi, mid))
  {
    SizedSplice(bs, lo, hi, mid);
    AlignedSplice(bs, lo, hi, mid);
    CoalescedSplice(bs, lo, hi, mid);
    SpliceKept(bs, lo, hi, mid);
  }

  // Fresh from init_kheap: one free block.
  function Fresh(): seq<Block> {
    [Block(HEAP_SIZE, true)]
  }

  lemma FreshWellFormed()
    ensures WellFormed(Fresh()) && Live(Fresh()) == {} && UsedTotal(Fresh()) == 0
    ensures Addr(Fresh(), 0) == 0xD000_0000 && Addr(Fresh(), 1) == 0xE000_0000
  {
    OneBlock(Block(HEAP_SIZE, true));
    assert LiveIn(Fresh(), 0, 0) == {};
  }

  // Cutting need bytes off a block leaves two blocks with headers, or it is
  // handed out whole.
  predicate Cuts(size: nat, need: nat) {
    need <= size && (HDR <= need || size < need + HDR + 8)
  }

  predicate Takes(bs: seq<Block>, i: nat, need: nat) {
    i < |bs| && bs[i].free && Cuts(bs[i].size, need) && need % 8 == 0
  }

  lemma CarveShape(size: nat, need: nat)
    requires HDR <= size && Cuts(size, need) && need % 8 == 0 && size % 8 == 0
    ensures var mid := Carve(size, need);
            && Sized(mid) && Aligned(mid) && Coalesced(mid) && !mid[0].free
            && Addr(mid, |mid|) - HEAP_START == size
            && UsedTotal(mid) == mid[0].size
  {
    var mid := Carve(size, need);
    if |mid| == 2 {
      OneBlock(mid[0]);
      assert mid[..1] == [mid[0]];
      assert Addr(mid, 0) == HEAP_START && Addr(mid, 1) == HEAP_START + need;
    } else {
      OneBlock(mid[0]);
    }
  }

  lemma TakeWellFormed(bs: seq<Block>, i: nat, need: nat)
    requires WellFormed(bs) && Takes(bs, i, need)
    ensures WellFormed(Take(bs, i, need))
  {
    CarveShape(bs[i].size, need);
    SpliceWellFormed(bs, i, i + 1, Carve(bs[i].size, need));
  }

  // Handing out a block that is large enough keeps the list well-formed exactly
  // if the cut does.
  lemma TakeKeeps(bs: seq<Block>, i: nat, need: nat)
    requires WellFormed(bs) && i < |bs| && bs[i].free && need <= bs[i].size && need % 8 == 0
    ensures WellFormed(Take(bs, i, need)) <==> Cuts(bs[i].size, need)
  {
    if Cuts(bs[i].size, need) {
      TakeWellFormed(bs, i, need);
    } else {
      assert Take(bs, i, need)[i] == Block(need, false);
    }
  }

  // Replacing dead blocks adds what the new ones hold.
  lemma LiveGrows(a: seq<Block>, b: seq<Block>, lo: nat, hi: nat, k: nat)
    requires Kept(a, b, lo, hi, k) && Sized(a) && Sized(b) && LiveIn(a, lo, hi) == {}
    ensures Live(b) == Live(a) + LiveIn(b, lo, lo + k)
  {
    LiveKept(a, b, lo, hi, k);
  }

  lemma AddrInjective(bs: seq<Block>, i: nat, j: nat)
    requires Sized(bs) && i < |bs| && j < |bs| && Addr(bs, i) == Addr(bs, j)
    ensures i == j
  {
    if i < j {
      AddrMono(bs, i, j);
    } else if j < i {
      AddrMono(bs, j, i);
    }
  }

  lemma LiveInDisjoint(bs: seq<Block>, lo: nat, mid: nat, hi: nat)
    requires lo <= mid <= hi <= |bs| && Sized(bs)
    ensures LiveIn(bs, lo, mid) !! LiveIn(bs, mid, hi)
  {
    forall x | x in LiveIn(bs, lo, mid) && x in LiveIn(bs, mid, hi)
      ensures false
    {
      var i := LiveIndex(bs, lo, mid, x);
      var j := LiveIndex(bs, mid, hi, x);
      AddrInjective(bs, i, j);
    }
  }

  // Replacing blocks by dead ones removes what the old ones held.
  lemma LiveShrinks(a: seq<Block>, b: seq<Block>, lo: nat, hi: nat, k: nat)
    requires Kept(a, b, lo, hi, k) && Sized(a) && Sized(b) && LiveIn(b, lo, lo + k) == {}
    ensures Live(b) == Live(a) - LiveIn(a, lo, hi)
  {
    LiveKept(a, b, lo, hi, k);
    LiveInDisjoint(a, 0, lo, hi);
    LiveInDisjoint(a, lo, hi, |a|);
  }

  // The allocation at a block's address is that block's.
  lemma LiveAtAddr(bs: seq<Block>, i: nat, x: Alloc)
    requires Sized(bs) && i < |bs| && x in Live(bs) && x.ptr == Addr(bs, i) + HDR
    ensures !bs[i].free && x == AllocOf(bs, i)
  {
    var j := LiveIndex(bs, 0, |bs|, x);
    AddrInjective(bs, i, j);
  }

  lemma CarvedLive(bs: seq<Block>, bs': seq<Block>, i: nat, mid: seq<Block>)
    requires i < |bs| && Sized(bs) && bs[i].free && Sized(bs')
    requires 1 <= |mid| <= 2 && Sized(mid) && !mid[0].free && (|mid| == 2 ==> mid[1].free)
    requires bs' == Splice(bs, i, i + 1, mid)
    ensures LiveIn(bs, i, i + 1) == {}
    ensures LiveIn(bs', i, i + |mid|) == {AllocOf(bs', i)}
  {
    assert bs'[i] == mid[0];
    assert LiveIn(bs', i, i) == {};
    assert LiveIn(bs', i, i + 1) == {AllocOf(bs', i)};
    if |mid| == 2 {
      assert bs'[i + 1] == mid[1];
    }
  }

  lemma TakeGrows(bs: seq<Block>, i: nat, need: nat)
    requires WellFormed(bs) && Takes(bs, i, need)
    ensures Sized(Take(bs, i, need)) && i < |Take(bs, i, need)|
    ensures Live(Take(bs, i, need)) == Live(bs) + {AllocOf(Take(bs, i, need), i)}
  {
    var mid := Carve(bs[i].size, need);
    var bs' := Take(bs, i, need);
    CarveShape(bs[i].size, need);
    SizedSplice(bs, i, i + 1, mid);
    SpliceKept(bs, i, i + 1, mid);
    CarvedLive(bs, bs', i, mid);
    LiveGrows(bs, bs', i, i + 1, |mid|);
  }

  // The block handed out by Take sits where block i was.
  lemma TakeHead(bs: seq<Block>, i: nat, need: nat)
    requires i < |bs| && need <= bs[i].size
    ensures var bs' := Take(bs, i, need);
            && i < |bs'| && bs'[i] == Carve(bs[i].size, need)[0] && Addr(bs', i) == Addr(bs, i)
  {
    SpliceAddrLeft(bs, i, i + 1, Carve(bs[i].size, need), i);
  }

  // Handing block i out adds one allocation and touches no other.
  lemma TakeLive(bs: seq<Block>, i: nat, need: nat)
    requires WellFormed(bs) && Takes(bs, i, need)
    ensures Sized(Take(bs, i, need))
    ensures var x := Alloc(Addr(bs, i) + HDR, Carve(bs[i].size, need)[0].size - HDR);
            && x !in Live(bs)
            && Live(Take(bs, i, need)) == Live(bs) + {x}
            && x.cap == NewCap(bs[i].size, need) && x.cap >= need - HDR
  {
    TakeGrows(bs, i, need);
    TakeHead(bs, i, need);
    var x := AllocOf(Take(bs, i, need), i);
    if x in Live(bs) {
      LiveAtAddr(bs, i, x);
    }
  }

  // ---------------------------------------------------------------- freeing

  // The stretch of blocks that kfree of block i turns into one free block.
  function FreeLo(bs: seq<Block>, i: nat): nat
    requires i < |bs|
  {
    if i > 0 && bs[i - 1].free then i - 1 else i
  }

  function FreeHi(bs: seq<Block>, i: nat): nat
    requires i < |bs|
  {
    if i + 1 < |bs| && bs[i + 1].free then i + 2 else i + 1
  }

  // Block i together with its free successor, if it has one.
  function TailSize(bs: seq<Block>, i: nat): nat
    requires i < |bs|
  {
    bs[i].size + if i + 1 < |bs| && bs[i + 1].free then bs[i + 1].size else 0
  }

  function PrevSize(bs: seq<Block>, i: nat): nat
    requires i < |bs|
  {
    if i > 0 && bs[i - 1].free then bs[i - 1].size else 0
  }

  function FreeSize(bs: seq<Block>, i: nat): nat
    requires i < |bs|
  {
    TailSize(bs, i) + PrevSize(bs, i)
  }

  lemma ReleaseMergeNext(bs: seq<Block>, i: nat)
    requires i < |bs|
    ensures MergeNext(Release(bs, i), i) == Splice(bs, i, FreeHi(bs, i), [Block(TailSize(bs, i), true)])
  {
    var b1 := Release(bs, i);
    assert b1[i] == Block(bs[i].size, true);
    if i + 1 < |bs| && bs[i + 1].free {
      assert b1[i + 1] == bs[i + 1];
      assert b1[..i] == bs[..i];
      assert b1[i + 2..] == bs[i + 2..];
    }
  }

  lemma SpliceMergePrev(bs: seq<Block>, i: nat, hi: nat, size: nat)
    requires i < hi <= |bs|
    ensures MergePrev(Splice(bs, i, hi, [Block(size, true)]), i)
         == Splice(bs, FreeLo(bs, i), hi, [Block(size + PrevSize(bs, i), true)])
  {
    var b2 := Splice(bs, i, hi, [Block(size, true)]);
    assert b2[i] == Block(size, true);
    if i > 0 {
      assert b2[i - 1] == bs[i - 1];
      assert b2[..i - 1] == bs[..i - 1];
      assert b2[i + 1..] == bs[hi..];
    }
  }

  lemma FreeExtent(bs: seq<Block>, i: nat)
    requires i < |bs|
    ensures Addr(bs, FreeHi(bs, i)) - Addr(bs, FreeLo(bs, i)) == FreeSize(bs, i)
  {
    assert Addr(bs, i + 1) == Addr(bs, i) + bs[i].size;
  }

  // The two merges of kfree amount to one replacement.
  lemma FreeIsSplice(bs: seq<Block>, i: nat)
    requires i < |bs|
    ensures Free(bs, i) == Splice(bs, FreeLo(bs, i), FreeHi(bs, i), [Block(FreeSize(bs, i), true)])
  {
    ReleaseMergeNext(bs, i);
    SpliceMergePrev(bs, i, FreeHi(bs, i), TailSize(bs, i));
  }

  lemma FreeShape(bs: seq<Block>, i: nat)
    requires WellFormed(bs) && i < |bs|
    ensures FreeSize(bs, i) >= HDR && FreeSize(bs, i) % 8 == 0
    ensures FreeLo(bs, i) > 0 ==> !bs[FreeLo(bs, i) - 1].free
    ensures FreeHi(bs, i) < |bs| ==> !bs[FreeHi(bs, i)].free
  {
    var lo, hi := FreeLo(bs, i), FreeHi(bs, i);
    if lo > 0 && lo < i {
      assert bs[lo].free;
    }
    if hi < |bs| && hi > i + 1 {
      assert bs[hi - 1].free;
    }
  }

  lemma FreeWellFormed(bs: seq<Block>, i: nat)
    requires WellFormed(bs) && i < |bs|
    ensures WellFormed(Free(bs, i))
  {
    FreeIsSplice(bs, i);
    FreeExtent(bs, i);
    FreeShape(bs, i);
    OneBlock(Block(FreeSize(bs, i), true));
    SpliceWellFormed(bs, FreeLo(bs, i), FreeHi(bs, i), [Block(FreeSize(bs, i), true)]);
  }

  lemma FreedLive(bs: seq<Block>, i: nat)
    requires Sized(bs) && i < |bs| && !bs[i].free
    ensures LiveIn(bs, FreeLo(bs, i), FreeHi(bs, i)) == {AllocOf(bs, i)}
  {
    var lo, hi := FreeLo(bs, i), FreeHi(bs, i);
    LiveInConcat(bs, lo, i, hi);
    LiveInConcat(bs, i, i + 1, hi);
    assert LiveIn(bs, i, i) == {} == LiveIn(bs, lo, lo) == LiveIn(bs, i + 1, i + 1);
    assert LiveIn(bs, lo, i) == {};
    assert LiveIn(bs, i + 1, hi) == {};
  }

  // Freeing block i removes its allocation and touches no other.
  lemma FreeLive(bs: seq<Block>, i: nat)
    requires WellFormed(bs) && i < |bs| && !bs[i].free
    ensures Sized(Free(bs, i))
    ensures AllocOf(bs, i) in Live(bs)
    ensures Live(Free(bs, i)) == Live(bs) - {AllocOf(bs, i)}
  {
    var lo, hi, mid := FreeLo(bs, i), FreeHi(bs, i), [Block(FreeSize(bs, i), true)];
    var bs' := Free(bs, i);
    FreeWellFormed(bs, i);
    FreeIsSplice(bs, i);
    FreeExtent(bs, i);
    OneBlock(mid[0]);
    SpliceKept(bs, lo, hi, mid);
    assert bs'[lo] == mid[0];
    assert LiveIn(bs', lo, lo) == {};
    LiveShrinks(bs, bs', lo, hi, 1);
    FreedLive(bs, i);
    LiveAt(bs, 0, |bs|, i);
  }

  lemma UsedStep(bs: seq<Block>, lo: nat, hi: nat)
    requires lo < hi <= |bs|
    ensures UsedTotal(bs[lo..hi]) == UsedTotal(bs[lo..hi - 1]) + if bs[hi - 1].free then 0 else bs[hi - 1].size
  {
    assert bs[lo..hi][..hi - lo - 1] == bs[lo..hi - 1];
  }

  lemma FreedUsed(bs: seq<Block>, i: nat)
    requires i < |bs| && !bs[i].free
    ensures UsedTotal(bs[FreeLo(bs, i)..FreeHi(bs, i)]) == bs[i].size
  {
    var lo, hi := FreeLo(bs, i), FreeHi(bs, i);
    if lo < i {
      UsedStep(bs, lo, i);
    }
    UsedStep(bs, lo, i + 1);
    if i + 1 < hi {
      UsedStep(bs, lo, hi);
    }
  }

  lemma FreeUsed(bs: seq<Block>, i: nat)
    requires i < |bs| && !bs[i].free
    ensures UsedTotal(Free(bs, i)) == UsedTotal(bs) - bs[i].size
  {
    FreeIsSplice(bs, i);
    FreeExtent(bs, i);
    OneBlock(Block(FreeSize(bs, i), true));
    UsedSplice(bs, FreeLo(bs, i), FreeHi(bs, i), [Block(FreeSize(bs, i), true)]);
    FreedUsed(bs, i);
  }

  lemma TakeUsed(bs: seq<Block>, i: nat, need: nat)
    requires Takes(bs, i, need) && HDR <= bs[i].size && bs[i].size % 8 == 0
    ensures UsedTotal(Take(bs, i, need)) == UsedTotal(bs) + Carve(bs[i].size, need)[0].size
  {
    CarveShape(bs[i].size, need);
    UsedSplice(bs, i, i + 1, Carve(bs[i].size, need));
    OneBlock(bs[i]);
    assert bs[i..i + 1] == [bs[i]];
  }
}
