// What the block list promises its clients: the list is a function of the
// live allocations, kmalloc fails only when it must, and every run can be
// undone.

module HeapRuns {
  import opened Memory
  import opened HeapBlocks

  // ---------------------------------------------------------------- canonical form

  // At equal addresses, a used block of a is a used block of b of equal size.
  lemma SameKind(a: seq<Block>, b: seq<Block>, k: nat)
    requires WellFormed(a) && WellFormed(b) && Live(a) == Live(b)
    requires k < |a| && k < |b| && Addr(a, k) == Addr(b, k)
    ensures !a[k].free ==> a[k] == b[k]
  {
    if !a[k].free {
      LiveAt(a, 0, |a|, k);
      LiveAtAddr(b, k, AllocOf(a, k));
    }
  }

  lemma NotInside(bs: seq<Block>, k: nat, j: nat)
    requires Sized(bs) && k < |bs| && j < |bs|
    ensures Addr(bs, j) <= Addr(bs, k) || Addr(bs, k) + bs[k].size <= Addr(bs, j)
  {
    if j < k {
      AddrMono(bs, j, k);
      assert bs[j].size >= HDR;
    } else if k < j {
      AddrMono(bs, k, j);
    }
  }

  // No allocation starts strictly inside a block.
  lemma NothingInside(bs: seq<Block>, k: nat, x: Alloc)
    requires Sized(bs) && k < |bs| && x in Live(bs)
    ensures x.ptr - HDR <= Addr(bs, k) || Addr(bs, k) + bs[k].size <= x.ptr - HDR
  {
    var j := LiveIndex(bs, 0, |bs|, x);
    NotInside(bs, k, j);
  }

  // Two free blocks at equal addresses: neither ends inside the other.
  lemma FreeNotShorter(a: seq<Block>, b: seq<Block>, k: nat)
    requires WellFormed(a) && WellFormed(b) && Live(a) == Live(b)
    requires k < |a| && k < |b| && Addr(a, k) == Addr(b, k)
    requires a[k].free && b[k].free
    ensures a[k].size >= b[k].size
  {
    if a[k].size < b[k].size {
      if k + 1 == |a| {
        AddrMono(b, k, |b|);
        assert false;
      } else {
        assert !(a[k].free && a[k + 1].free);
        LiveAt(a, 0, |a|, k + 1);
        NothingInside(b, k, AllocOf(a, k + 1));
      }
    }
  }

  // The first k blocks of the two lists coincide.
  lemma {:induction false} CanonicalPrefix(a: seq<Block>, b: seq<Block>, k: nat)
    requires WellFormed(a) && WellFormed(b) && Live(a) == Live(b)
    requires k <= |a| && k <= |b|
    ensures a[..k] == b[..k] && Addr(a, k) == Addr(b, k)
  {
    if k > 0 {
      CanonicalPrefix(a, b, k - 1);
      SameKind(a, b, k - 1);
      SameKind(b, a, k - 1);
      if a[k - 1].free {
        FreeNotShorter(a, b, k - 1);
        FreeNotShorter(b, a, k - 1);
      }
      assert a[..k] == a[..k - 1] + [a[k - 1]];
      assert b[..k] == b[..k - 1] + [b[k - 1]];
    }
  }

  // The heap does not remember its history: two well-formed block lists with
  // the same live allocations are equal, whatever calls led to them.
  lemma Canonical(a: seq<Block>, b: seq<Block>)
    requires WellFormed(a) && WellFormed(b) && Live(a) == Live(b)
    ensures a == b
  {
    if |a| <= |b| {
      CanonicalPrefix(a, b, |a|);
      if |a| < |b| {
        AddrMono(b, |a|, |b|);
      }
    } else {
      CanonicalPrefix(a, b, |b|);
      AddrMono(a, |b|, |a|);
    }
  }

  // ---------------------------------------------------------------- when kmalloc fails

  ghost predicate InBlock(bs: seq<Block>, i: nat, x: nat) {
    i < |bs| && Addr(bs, i) <= x < Addr(bs, i) + bs[i].size
  }

  // Address x lies in a free block.
  ghost predicate FreeByte(bs: seq<Block>, x: nat) {
    exists i: nat :: InBlock(bs, i, x) && bs[i].free
  }

  ghost predicate FreeRun(bs: seq<Block>, p: nat, n: nat) {
    forall x | p <= x < p + n :: FreeByte(bs, x)
  }

  lemma InOneBlock(bs: seq<Block>, i: nat, j: nat, x: nat)
    requires InBlock(bs, i, x) && InBlock(bs, j, x)
    ensures i == j
  {
    if i < j {
      AddrMono(bs, i, j);
    } else if j < i {
      AddrMono(bs, j, i);
    }
  }

  // A run of free bytes lies within one block.
  lemma RunInOneBlock(bs: seq<Block>, p: nat, n: nat) returns (i: nat)
    requires WellFormed(bs) && n > 0 && FreeRun(bs, p, n)
    ensures i < |bs| && bs[i].free && bs[i].size >= n
  {
    assert FreeByte(bs, p);
    i :| InBlock(bs, i, p) && bs[i].free;
    var end := Addr(bs, i) + bs[i].size;
    if end < p + n {
      assert FreeByte(bs, end);
      var j: nat :| InBlock(bs, j, end) && bs[j].free;
      if i + 1 < |bs| {
        assert InBlock(bs, i + 1, end);
        InOneBlock(bs, i + 1, j, end);
        assert false;
      } else {
        AddrMono(bs, j, |bs|);
      }
    }
  }

  // The length of a run that will do; the search never settles for no bytes.
  function RunLength(need: nat): nat {
    if need == 0 then 1 else need
  }

  // kmalloc returns NULL exactly when no run of free bytes of the length it
  // needs exists anywhere in the heap.
  lemma MallocFailsIff(bs: seq<Block>, need: nat)
    requires WellFormed(bs)
    ensures MallocPtr(bs, need) == 0 <==> !exists p :: FreeRun(bs, p, RunLength(need))
  {
    var i, n := FirstFit(bs, need, 0), RunLength(need);
    if i < |bs| {
      var p := Addr(bs, i);
      forall x | p <= x < p + n
        ensures FreeByte(bs, x)
      {
        assert InBlock(bs, i, x);
      }
      assert FreeRun(bs, p, n);
    } else if exists p :: FreeRun(bs, p, n) {
      var p :| FreeRun(bs, p, n);
      var j := RunInOneBlock(bs, p, n);
      assert false;
    }
  }

  // ---------------------------------------------------------------- request sizes

  // The largest request whose block size does not wrap.
  const MAX_REQUEST: nat := 0xFFFF_FFE8

  // The 32-bit rounding gives room for n bytes and a header exactly up to
  // 0xFFFFFFE8.
  lemma NeedCovers(n: nat)
    requires n < WORD
    ensures Need(n) >= n + HDR <==> n <= MAX_REQUEST
    ensures n <= MAX_REQUEST ==> Need(n) < n + HDR + 8
    ensures Need(n) % 8 == 0
  {
  }

  // Requests for which the block to cut would not even hold its own header.
  lemma NeedHoldsHeader(n: nat)
    requires n < WORD
    ensures Need(n) >= HDR <==> n <= MAX_REQUEST || n >= 0xFFFF_FFF9
  {
  }

  // 4 GB less 7 bytes are asked for; a block without payload is cut.
  lemma NeedWraps()
    ensures Need(0xFFFF_FFF9) == HDR && Need(0xFFFF_FFE9) == 0 && Need(0xFFFF_FFF1) == 8
  {
  }

  // kmalloc(n) does not cut a block shorter than its header: the size has not
  // wrapped that far, or nothing fits, or what fits is too small to be cut.
  predicate Intact(bs: seq<Block>, n: nat) {
    && n < WORD
    && (var i := FirstFit(bs, Need(n), 0);
        Need(n) >= HDR || i == |bs| || bs[i].size < Need(n) + HDR + 8)
  }

  // For every request that C can make, kmalloc leaves a well-formed heap
  // exactly under that condition.
  lemma MallocKeeps(bs: seq<Block>, n: nat)
    requires WellFormed(bs) && n < WORD
    ensures WellFormed(Malloc(bs, Need(n))) <==> Intact(bs, n)
  {
    NeedCovers(n);
    var i := FirstFit(bs, Need(n), 0);
    if i < |bs| {
      TakeKeeps(bs, i, Need(n));
    }
  }

  // Asked for 4 GB less 23 bytes, a fresh heap is cut into an impossible block.
  lemma WrapBreaks()
    ensures !WellFormed(Malloc(Fresh(), Need(0xFFFF_FFE9)))
  {
    assert Need(0xFFFF_FFE9) == 0;
    assert FirstFit(Fresh(), 0, 0) == 0;
    assert Malloc(Fresh(), 0)[0] == Block(0, false);
  }

  // ---------------------------------------------------------------- runs

  ghost predicate PayloadAt(bs: seq<Block>, i: nat, p: nat) {
    i < |bs| && !bs[i].free && Addr(bs, i) + HDR == p
  }

  // Index of the used block whose payload starts at p, or |bs|.
  function BlockAt(bs: seq<Block>, p: nat, from: nat): (i: nat)
    requires from <= |bs|
    ensures from <= i <= |bs|
    ensures i < |bs| ==> PayloadAt(bs, i, p)
    ensures i == |bs| ==> forall j: nat | from <= j :: !PayloadAt(bs, j, p)
    decreases |bs| - from
  {
    if from == |bs| || (!bs[from].free && Addr(bs, from) + HDR == p) then from
    else BlockAt(bs, p, from + 1)
  }

  // A pointer handed out and not yet freed.
  predicate IsLive(bs: seq<Block>, p: nat) {
    BlockAt(bs, p, 0) < |bs|
  }

  // kfree(p); for a pointer that is not live this is what the check for double
  // frees is meant to achieve, and Kheap says when it does.
  function FreePtr(bs: seq<Block>, p: nat): seq<Block> {
    var i := BlockAt(bs, p, 0);
    if i == |bs| then bs else Free(bs, i)
  }

  // The bytes that may be used at live pointer p.
  function Capacity(bs: seq<Block>, p: nat): nat {
    var i := BlockAt(bs, p, 0);
    if i < |bs| && bs[i].size >= HDR then bs[i].size - HDR else 0
  }

  function Realloc(bs: seq<Block>, p: nat, n: nat): seq<Block> {
    if p == 0 then Malloc(bs, Need(n))
    else if n == 0 then FreePtr(bs, p)
    else if n <= Capacity(bs, p) || MallocPtr(bs, Need(n)) == 0 then bs
    else FreePtr(Malloc(bs, Need(n)), p)
  }

  function ReallocPtr(bs: seq<Block>, p: nat, n: nat): nat {
    if p == 0 then MallocPtr(bs, Need(n))
    else if n == 0 then 0
    else if n <= Capacity(bs, p) then p
    else MallocPtr(bs, Need(n))
  }

  // The product of kcalloc.
  function Mul32(a: nat, b: nat): nat {
    a * b % WORD
  }

  // The capacity of the payload kmalloc(n) hands out.
  function MallocCap(bs: seq<Block>, n: nat): int
    requires MallocPtr(bs, Need(n)) != 0
  {
    NewCap(bs[FirstFit(bs, Need(n), 0)].size, Need(n))
  }

  // kmalloc(total) keeps the heap, and the memset that follows stays inside.
  predicate CallocFits(bs: seq<Block>, total: nat) {
    Intact(bs, total) && (MallocPtr(bs, Need(total)) == 0 || total <= MAX_REQUEST)
  }

  // kmalloc(n) keeps the heap, and c bytes can be copied into what it returns.
  predicate Receives(bs: seq<Block>, n: nat, c: nat) {
    Intact(bs, n) && (MallocPtr(bs, Need(n)) == 0 || MallocCap(bs, n) >= c)
  }

  // krealloc keeps the heap, and its copy stays inside the new payload.
  predicate ReallocFits(bs: seq<Block>, p: nat, n: nat) {
    && n < WORD
    && (p == 0 ==> Intact(bs, n))
    && (p != 0 && n > Capacity(bs, p) ==> Receives(bs, n, Capacity(bs, p)))
  }

  datatype Call = CallMalloc(n: nat) | CallCalloc(num: nat, size: nat) | CallFree(p: nat) | CallRealloc(p: nat, n: nat)

  // Pointers given back are NULL or live.
  predicate Allowed(bs: seq<Block>, c: Call) {
    match c
    case CallMalloc(n) => Intact(bs, n)
    case CallCalloc(num, size) => CallocFits(bs, Mul32(num, size))
    case CallFree(p) => p == 0 || IsLive(bs, p)
    case CallRealloc(p, n) => (p == 0 || IsLive(bs, p)) && ReallocFits(bs, p, n)
  }

  function Step(bs: seq<Block>, c: Call): seq<Block> {
    match c
    case CallMalloc(n) => Malloc(bs, Need(n))
    case CallCalloc(num, size) => Malloc(bs, Need(Mul32(num, size)))
    case CallFree(p) => FreePtr(bs, p)
    case CallRealloc(p, n) => Realloc(bs, p, n)
  }

  function Run(bs: seq<Block>, cs: seq<Call>): seq<Block>
    decreases |cs|
  {
    if cs == [] then bs else Run(Step(bs, cs[0]), cs[1..])
  }

  // Each call of the run is allowed when its turn comes.
  predicate AllAllowed(bs: seq<Block>, cs: seq<Call>)
    decreases |cs|
  {
    cs != [] ==> Allowed(bs, cs[0]) && AllAllowed(Step(bs, cs[0]), cs[1..])
  }

  lemma MallocWellFormed(bs: seq<Block>, n: nat)
    requires WellFormed(bs) && Intact(bs, n)
    ensures WellFormed(Malloc(bs, Need(n)))
  {
    MallocKeeps(bs, n);
  }

  lemma FreePtrWellFormed(bs: seq<Block>, p: nat)
    requires WellFormed(bs)
    ensures WellFormed(FreePtr(bs, p))
  {
    var i := BlockAt(bs, p, 0);
    if i < |bs| {
      FreeWellFormed(bs, i);
    }
  }

  lemma ReallocWellFormed(bs: seq<Block>, p: nat, n: nat)
    requires WellFormed(bs) && ReallocFits(bs, p, n)
    ensures WellFormed(Realloc(bs, p, n))
  {
    if p == 0 {
      MallocWellFormed(bs, n);
    } else if n == 0 {
      FreePtrWellFormed(bs, p);
    } else if n > Capacity(bs, p) {
      MallocWellFormed(bs, n);
      FreePtrWellFormed(Malloc(bs, Need(n)), p);
    }
  }

  lemma StepWellFormed(bs: seq<Block>, c: Call)
    requires WellFormed(bs) && Allowed(bs, c)
    ensures WellFormed(Step(bs, c))
  {
    match c {
      case CallMalloc(n) => MallocWellFormed(bs, n);
      case CallCalloc(num, size) => MallocWellFormed(bs, Mul32(num, size));
      case CallFree(p) => FreePtrWellFormed(bs, p);
      case CallRealloc(p, n) => ReallocWellFormed(bs, p, n);
    }
  }

  // Every run of the allocator keeps the blocks tiling the heap, aligned,
  // with no two free neighbours.
  lemma {:induction false} RunWellFormed(bs: seq<Block>, cs: seq<Call>)
    requires WellFormed(bs) && AllAllowed(bs, cs)
    ensures WellFormed(Run(bs, cs))
    decreases |cs|
  {
    if cs != [] {
      StepWellFormed(bs, cs[0]);
      RunWellFormed(Step(bs, cs[0]), cs[1..]);
    }
  }

  // Freeing p takes exactly the allocation at p out of the live set.
  lemma FreePtrLive(bs: seq<Block>, p: nat)
    requires WellFormed(bs)
    ensures WellFormed(FreePtr(bs, p))
    ensures Live(FreePtr(bs, p)) == set x | x in Live(bs) && x.ptr != p
  {
    FreePtrWellFormed(bs, p);
    var i := BlockAt(bs, p, 0);
    if i < |bs| {
      FreeLive(bs, i);
      forall x | x in Live(bs) && x.ptr == p
        ensures x == AllocOf(bs, i)
      {
        LiveAtAddr(bs, i, x);
      }
    } else {
      forall x | x in Live(bs)
        ensures x.ptr != p
      {
        var j := LiveIndex(bs, 0, |bs|, x);
        assert !PayloadAt(bs, j, p);
      }
    }
  }

  // Frees commute: the order in which two pointers are freed leaves no trace.
  lemma FreesCommute(bs: seq<Block>, p: nat, q: nat)
    requires WellFormed(bs)
    ensures FreePtr(FreePtr(bs, p), q) == FreePtr(FreePtr(bs, q), p)
  {
    FreePtrLive(bs, p);
    FreePtrLive(bs, q);
    FreePtrLive(FreePtr(bs, p), q);
    FreePtrLive(FreePtr(bs, q), p);
    Canonical(FreePtr(FreePtr(bs, p), q), FreePtr(FreePtr(bs, q), p));
  }

  lemma {:induction false} AddrAligned(bs: seq<Block>, i: nat)
    requires Aligned(bs) && i <= |bs|
    ensures Addr(bs, i) % 8 == 0 && Addr(bs, i) >= HEAP_START
  {
    if i > 0 {
      AddrAligned(bs, i - 1);
    }
  }

  // A successful kmalloc adds one allocation and touches no other. The request
  // fits into it exactly if the size did not wrap.
  lemma MallocLive(bs: seq<Block>, n: nat) returns (x: Alloc)
    requires WellFormed(bs) && Intact(bs, n) && MallocPtr(bs, Need(n)) != 0
    ensures WellFormed(Malloc(bs, Need(n)))
    ensures x.ptr == MallocPtr(bs, Need(n)) && x !in Live(bs)
    ensures Live(Malloc(bs, Need(n))) == Live(bs) + {x}
    ensures x.cap == MallocCap(bs, n) && x.ptr % 8 == 0
    ensures x.cap >= n <==> n <= MAX_REQUEST
    ensures HEAP_START + HDR <= x.ptr && x.ptr + x.cap <= HEAP_START + HEAP_SIZE
  {
    var need := Need(n);
    var i := FirstFit(bs, need, 0);
    NeedCovers(n);
    TakeWellFormed(bs, i, need);
    TakeLive(bs, i, need);
    x := Alloc(Addr(bs, i) + HDR, Carve(bs[i].size, need)[0].size - HDR);
    AddrAligned(bs, i);
    AddrMono(bs, i, |bs|);
  }

  // No more than 31 bytes are handed out beyond a request that did not wrap.
  lemma MallocWaste(bs: seq<Block>, n: nat)
    requires n <= MAX_REQUEST && MallocPtr(bs, Need(n)) != 0
    ensures n <= MallocCap(bs, n) < n + 32
  {
    NeedCovers(n);
  }

  lemma StillLive(bs: seq<Block>, p: nat, a: Alloc)
    requires Sized(bs) && a in Live(bs) && a.ptr == p
    ensures IsLive(bs, p)
  {
    var j := LiveIndex(bs, 0, |bs|, a);
    assert PayloadAt(bs, j, p);
  }

  // A live pointer determines its allocation.
  lemma SamePointer(bs: seq<Block>, a: Alloc)
    requires Sized(bs) && a in Live(bs)
    ensures forall b | b in Live(bs) && b.ptr == a.ptr :: b == a
  {
    var i := LiveIndex(bs, 0, |bs|, a);
    forall b | b in Live(bs) && b.ptr == a.ptr
      ensures b == a
    {
      LiveAtAddr(bs, i, b);
    }
  }

  // What an allocation of n bytes at r does to the live allocations.
  ghost predicate Allocated(before: set<Alloc>, n: nat, r: nat, after: set<Alloc>) {
    if r == 0 then after == before
    else exists x :: x !in before && x.ptr == r && after == before + {x} && (x.cap >= n <==> n <= MAX_REQUEST)
  }

  // What it does to them if allocation a is asked to become n bytes long, with
  // result r.
  ghost predicate Resized(before: set<Alloc>, a: Alloc, n: nat, r: nat, after: set<Alloc>) {
    if n == 0 then r == 0 && after == before - {a}
    else if n <= a.cap then r == a.ptr && after == before
    else if r == 0 then after == before
    else exists x :: x !in before && x.ptr == r && after == before - {a} + {x} && x.cap >= a.cap
                     && (x.cap >= n <==> n <= MAX_REQUEST)
  }

  lemma MallocOutcome(bs: seq<Block>, n: nat)
    requires WellFormed(bs) && Intact(bs, n)
    ensures WellFormed(Malloc(bs, Need(n)))
    ensures Allocated(Live(bs), n, MallocPtr(bs, Need(n)), Live(Malloc(bs, Need(n))))
  {
    MallocWellFormed(bs, n);
    if MallocPtr(bs, Need(n)) != 0 {
      var x := MallocLive(bs, n);
    }
  }

  lemma FreedAway(bs: seq<Block>, a: Alloc)
    requires WellFormed(bs) && a in Live(bs)
    ensures WellFormed(FreePtr(bs, a.ptr)) && Live(FreePtr(bs, a.ptr)) == Live(bs) - {a}
  {
    FreePtrLive(bs, a.ptr);
    SamePointer(bs, a);
  }

  lemma MovedAway(bs: seq<Block>, a: Alloc, n: nat)
    requires WellFormed(bs) && a in Live(bs) && Intact(bs, n) && MallocPtr(bs, Need(n)) != 0
    requires MallocCap(bs, n) >= a.cap && n > a.cap
    ensures var bs' := FreePtr(Malloc(bs, Need(n)), a.ptr);
            WellFormed(bs') && Resized(Live(bs), a, n, MallocPtr(bs, Need(n)), Live(bs'))
  {
    var x := MallocLive(bs, n);
    var m := Malloc(bs, Need(n));
    FreedAway(m, a);
    assert Live(m) - {a} == Live(bs) - {a} + {x};
  }

  lemma LiveCapacity(bs: seq<Block>, a: Alloc)
    requires Sized(bs) && a in Live(bs)
    ensures a.ptr != 0 && Capacity(bs, a.ptr) == a.cap
  {
    StillLive(bs, a.ptr, a);
    LiveAtAddr(bs, BlockAt(bs, a.ptr, 0), a);
  }

  lemma ResizedLive(bs: seq<Block>, a: Alloc, n: nat)
    requires WellFormed(bs) && a in Live(bs) && ReallocFits(bs, a.ptr, n)
    ensures WellFormed(Realloc(bs, a.ptr, n))
    ensures Resized(Live(bs), a, n, ReallocPtr(bs, a.ptr, n), Live(Realloc(bs, a.ptr, n)))
  {
    LiveCapacity(bs, a);
    if n == 0 {
      FreedAway(bs, a);
    } else if n > a.cap && MallocPtr(bs, Need(n)) != 0 {
      MovedAway(bs, a, n);
    }
  }

  // krealloc of NULL allocates; of size 0 it takes the allocation away and
  // nothing else; a size that fits changes nothing; a move replaces exactly that
  // allocation by a new one with room for all of it; a failure, which needs a
  // larger size and no sufficient run of free bytes, changes nothing.
  lemma ReallocLive(bs: seq<Block>, p: nat, n: nat)
    requires WellFormed(bs) && ReallocFits(bs, p, n)
    ensures WellFormed(Realloc(bs, p, n))
    ensures p == 0 ==> Allocated(Live(bs), n, ReallocPtr(bs, p, n), Live(Realloc(bs, p, n)))
    ensures forall a | a in Live(bs) && a.ptr == p ::
              && Resized(Live(bs), a, n, ReallocPtr(bs, p, n), Live(Realloc(bs, p, n)))
              && (n > a.cap ==> (ReallocPtr(bs, p, n) == 0 <==> !exists q :: FreeRun(bs, q, RunLength(Need(n)))))
  {
    ReallocWellFormed(bs, p, n);
    if p == 0 {
      MallocOutcome(bs, n);
    }
    forall a | a in Live(bs) && a.ptr == p
      ensures Resized(Live(bs), a, n, ReallocPtr(bs, p, n), Live(Realloc(bs, p, n)))
      ensures n > a.cap ==> (ReallocPtr(bs, p, n) == 0 <==> !exists q :: FreeRun(bs, q, RunLength(Need(n))))
    {
      ResizedLive(bs, a, n);
      LiveCapacity(bs, a);
      MallocFailsIff(bs, Need(n));
    }
  }

  // When krealloc has to move, its copy of the whole old payload stays inside
  // the new one exactly if the request did not wrap, or there is nothing to
  // copy, or the block found was too small to be cut and still large enough.
  lemma MoveFits(bs: seq<Block>, p: nat, n: nat)
    requires WellFormed(bs) && Intact(bs, n) && MallocPtr(bs, Need(n)) != 0
    requires p != 0 && n > Capacity(bs, p)
    ensures var size := bs[FirstFit(bs, Need(n), 0)].size;
            ReallocFits(bs, p, n) <==>
              || n <= MAX_REQUEST
              || Capacity(bs, p) == 0
              || (size < Need(n) + HDR + 8 && HDR + Capacity(bs, p) <= size)
  {
    NeedCovers(n);
    NeedHoldsHeader(n);
    var x := MallocLive(bs, n);
  }

  // If not, the copy runs into the header of the next block, or out of the heap.
  lemma MoveOverruns(bs: seq<Block>, p: nat, n: nat) returns (x: Alloc, j: nat)
    requires WellFormed(bs) && Intact(bs, n) && MallocPtr(bs, Need(n)) != 0
    requires p != 0 && n > Capacity(bs, p) && !ReallocFits(bs, p, n)
    ensures var bs' := Malloc(bs, Need(n));
            && x in Live(bs') && x.ptr == MallocPtr(bs, Need(n)) && j <= |bs'|
            && x.ptr + x.cap == Addr(bs', j) < x.ptr + Capacity(bs, p)
  {
    x := MallocLive(bs, n);
    var i := FirstFit(bs, Need(n), 0);
    TakeHead(bs, i, Need(n));
    j := i + 1;
  }

  // Eight bytes are to grow to 4 GB less 7: a block without payload is cut for
  // them, and the copy runs into the header behind it.
  lemma GrowOverruns()
    ensures var bs, p, n := [Block(24, false), Block(HEAP_SIZE - 24, true)], HEAP_START + HDR, 0xFFFF_FFF9;
            && bs == Malloc(Fresh(), Need(8)) && p == MallocPtr(Fresh(), Need(8))
            && Intact(bs, n) && MallocPtr(bs, Need(n)) != 0 && n > Capacity(bs, p) && !ReallocFits(bs, p, n)
            && MallocCap(bs, n) == 0 < 8 == Capacity(bs, p)
  {
    var bs, n := [Block(24, false), Block(HEAP_SIZE - 24, true)], 0xFFFF_FFF9;
    assert Need(8) == 24 && Need(n) == 16;
    assert Take(Fresh(), 0, 24) == bs;
    assert BlockAt(bs, HEAP_START + HDR, 0) == 0;
    assert FirstFit(bs, 16, 1) == 1;
  }

  // kfree of the pointer kmalloc just returned restores the list exactly.
  lemma FreeUndoesMalloc(bs: seq<Block>, n: nat)
    requires WellFormed(bs) && Intact(bs, n)
    ensures FreePtr(Malloc(bs, Need(n)), MallocPtr(bs, Need(n))) == bs
  {
    var need := Need(n);
    var i := FirstFit(bs, need, 0);
    NeedCovers(n);
    MallocWellFormed(bs, n);
    FreePtrLive(Malloc(bs, need), MallocPtr(bs, need));
    if i < |bs| {
      TakeLive(bs, i, need);
      forall x | x in Live(bs)
        ensures x.ptr != Addr(bs, i) + HDR
      {
        if x.ptr == Addr(bs, i) + HDR {
          LiveAtAddr(bs, i, x);
        }
      }
    } else {
      forall x | x in Live(bs)
        ensures x.ptr != 0
      {
        var j := LiveIndex(bs, 0, |bs|, x);
      }
    }
    Canonical(FreePtr(Malloc(bs, need), MallocPtr(bs, need)), bs);
  }

  function FreeAll(bs: seq<Block>, ps: seq<nat>): seq<Block>
    decreases |ps|
  {
    if ps == [] then bs else FreeAll(FreePtr(bs, ps[0]), ps[1..])
  }

  lemma {:induction false} FreeAllLive(bs: seq<Block>, ps: seq<nat>)
    requires WellFormed(bs)
    ensures WellFormed(FreeAll(bs, ps))
    ensures Live(FreeAll(bs, ps)) == set x | x in Live(bs) && x.ptr !in ps
    decreases |ps|
  {
    if ps != [] {
      FreePtrLive(bs, ps[0]);
      FreeAllLive(FreePtr(bs, ps[0]), ps[1..]);
    }
  }

  lemma {:induction false} FreeAllSnoc(bs: seq<Block>, ps: seq<nat>, p: nat)
    ensures FreeAll(bs, ps + [p]) == FreePtr(FreeAll(bs, ps), p)
    decreases |ps|
  {
    if ps == [] {
      assert ps + [p] == [p];
    } else {
      assert (ps + [p])[1..] == ps[1..] + [p];
      FreeAllSnoc(FreePtr(bs, ps[0]), ps[1..], p);
    }
  }

  lemma FreeAllStep(bs: seq<Block>, ps: seq<nat>, k: nat)
    requires k < |ps|
    ensures FreeAll(bs, ps[..k + 1]) == FreePtr(FreeAll(bs, ps[..k]), ps[k])
  {
    assert ps[..k + 1] == ps[..k] + [ps[k]];
    FreeAllSnoc(bs, ps[..k], ps[k]);
  }

  // What may be given back at step k of freeing ps one after the other: NULL, a
  // pointer that is live then, or one given back at an earlier step.
  ghost predicate MayFree(bs: seq<Block>, ps: seq<nat>, k: nat)
    requires k < |ps|
  {
    ps[k] == 0 || IsLive(FreeAll(bs, ps[..k]), ps[k]) || exists j :: 0 <= j < k && ps[j] == ps[k]
  }

  ghost predicate AllMayFree(bs: seq<Block>, ps: seq<nat>) {
    forall k | 0 <= k < |ps| :: MayFree(bs, ps, k)
  }

  // Every live pointer of bs occurs in ps.
  ghost predicate CoversLive(bs: seq<Block>, ps: seq<nat>) {
    forall i: nat, p: nat | PayloadAt(bs, i, p) :: p in ps
  }

  lemma LiveCovered(bs: seq<Block>, ps: seq<nat>, x: Alloc)
    requires Sized(bs) && CoversLive(bs, ps) && x in Live(bs)
    ensures x.ptr in ps
  {
    var i := LiveIndex(bs, 0, |bs|, x);
    assert PayloadAt(bs, i, x.ptr);
  }

  lemma AllFreed(bs: seq<Block>, ps: seq<nat>)
    requires WellFormed(bs) && CoversLive(bs, ps) && AllMayFree(bs, ps)
    ensures FreeAll(bs, ps) == Fresh()
  {
    FreeAllLive(bs, ps);
    assert Live(FreeAll(bs, ps)) == {} by {
      forall x | x in Live(bs)
        ensures x.ptr in ps
      {
        LiveCovered(bs, ps, x);
      }
    }
    FreshWellFormed();
    Canonical(FreeAll(bs, ps), Fresh());
  }

  // After any run, freeing the live pointers in any order gives back the
  // heap init_kheap set up: one free block covering everything.
  lemma FullReclamation(cs: seq<Call>, ps: seq<nat>)
    requires AllAllowed(Fresh(), cs)
    requires CoversLive(Run(Fresh(), cs), ps) && AllMayFree(Run(Fresh(), cs), ps)
    ensures FreeAll(Run(Fresh(), cs), ps) == Fresh()
  {
    FreshWellFormed();
    RunWellFormed(Fresh(), cs);
    AllFreed(Run(Fresh(), cs), ps);
  }

  // ---------------------------------------------------------------- a freed pointer that becomes stale

  // Two allocations, given back, and then an empty one at the same place.
  const FIRST: nat := HEAP_START + HDR
  const SECOND: nat := HEAP_START + 24 + HDR

  const TWO_CALLS: seq<Call> := [CallMalloc(8), CallMalloc(8)]
  const FIVE_CALLS: seq<Call> := TWO_CALLS + [CallFree(FIRST), CallFree(SECOND), CallMalloc(0)]

  const AFTER_TWO: seq<Block> := [Block(24, false), Block(24, false), Block(HEAP_SIZE - 48, true)]
  const AFTER_FIVE: seq<Block> := [Block(16, false), Block(HEAP_SIZE - 16, true)]

  lemma RunOn(bs: seq<Block>, c: Call, cs: seq<Call>)
    ensures Run(bs, [c] + cs) == Run(Step(bs, c), cs)
    ensures AllAllowed(bs, [c] + cs) <==> Allowed(bs, c) && AllAllowed(Step(bs, c), cs)
  {
    assert ([c] + cs)[1..] == cs;
  }

  lemma FirstTwoCalls()
    ensures Step(Fresh(), CallMalloc(8)) == [Block(24, false), Block(HEAP_SIZE - 24, true)]
    ensures Step([Block(24, false), Block(HEAP_SIZE - 24, true)], CallMalloc(8)) == AFTER_TWO
    ensures MallocPtr(Fresh(), Need(8)) == FIRST
    ensures MallocPtr([Block(24, false), Block(HEAP_SIZE - 24, true)], Need(8)) == SECOND
  {
    var one := [Block(24, false), Block(HEAP_SIZE - 24, true)];
    assert Need(8) == 24;
    assert Take(Fresh(), 0, 24) == one;
    assert FirstFit(one, 24, 1) == 1;
    assert Addr(one, 1) == HEAP_START + 24;
    assert Take(one, 1, 24) == AFTER_TWO;
  }

  lemma TwoFrees()
    ensures IsLive(AFTER_TWO, FIRST) && IsLive(FreePtr(AFTER_TWO, FIRST), SECOND)
    ensures FreePtr(FreePtr(AFTER_TWO, FIRST), SECOND) == Fresh()
  {
    var bs := [Block(24, true), Block(24, false), Block(HEAP_SIZE - 48, true)];
    assert BlockAt(AFTER_TWO, FIRST, 0) == 0;
    FreeIsSplice(AFTER_TWO, 0);
    assert FreePtr(AFTER_TWO, FIRST) == bs;
    assert Addr(bs, 1) == HEAP_START + 24;
    assert BlockAt(bs, SECOND, 1) == 1;
    FreeIsSplice(bs, 1);
    assert Free(bs, 1) == Fresh();
  }

  lemma ThirdMalloc()
    ensures Intact(Fresh(), 0) && Malloc(Fresh(), Need(0)) == AFTER_FIVE
    ensures !IsLive(AFTER_FIVE, SECOND)
  {
    assert Need(0) == 16;
    assert Take(Fresh(), 0, 16) == AFTER_FIVE;
    assert Addr(AFTER_FIVE, 1) == HEAP_START + 16;
  }

  // Five calls that may all be made leave the second pointer freed, and the
  // heap as if it had never been handed out.
  lemma FiveCalls()
    ensures AllAllowed(Fresh(), FIVE_CALLS) && Run(Fresh(), FIVE_CALLS) == AFTER_FIVE
    ensures MallocPtr(Run(Fresh(), [CallMalloc(8)]), Need(8)) == SECOND && !IsLive(AFTER_FIVE, SECOND)
  {
    FirstTwoCalls();
    TwoFrees();
    ThirdMalloc();
    var five, four, three := [CallMalloc(0)], [CallFree(SECOND), CallMalloc(0)],
                             [CallFree(FIRST), CallFree(SECOND), CallMalloc(0)];
    RunOn(Fresh(), CallMalloc(0), []);
    assert five == [CallMalloc(0)] + [];
    RunOn(FreePtr(AFTER_TWO, FIRST), CallFree(SECOND), five);
    assert four == [CallFree(SECOND)] + five;
    RunOn(AFTER_TWO, CallFree(FIRST), four);
    assert three == [CallFree(FIRST)] + four;
    RunOn([Block(24, false), Block(HEAP_SIZE - 24, true)], CallMalloc(8), three);
    RunOn(Fresh(), CallMalloc(8), [CallMalloc(8)] + three);
    assert FIVE_CALLS == [CallMalloc(8)] + ([CallMalloc(8)] + three);
    RunOn(Fresh(), CallMalloc(8), []);
    assert [CallMalloc(8)] == [CallMalloc(8)] + [];
  }
}
