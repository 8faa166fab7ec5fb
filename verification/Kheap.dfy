// kernel/kheap.c over real memory: every block carries its header in band, and
// the allocator finds its way by the pointers it reads there.

module Kheap {
  import opened Memory
  import opened HeapBlocks
  import opened HeapRuns

  // ---------------------------------------------------------------- headers in memory

  // block_header_t: size at offset 0, is_free at 4, next at 8, prev at 12.
  datatype Header = Header(size: nat, isFree: byte, next: nat, prev: nat)

  predicate InHeap(m: seq<byte>, p: nat) {
    HEAP_START <= p && p + HDR <= HEAP_START + |m|
  }

  function HeaderAt(m: seq<byte>, p: nat): Header
    requires InHeap(m, p)
  {
    var o := p - HEAP_START;
    Header(Le(m, o, o + 4), m[o + 4], Le(m, o + 8, o + 12), Le(m, o + 12, o + 16))
  }

  // The is_free byte of whatever header is, or was, at p.
  predicate IsFreeAt(m: seq<byte>, p: nat) {
    InHeap(m, p) && HeaderAt(m, p).isFree != 0
  }

  // From m to n only the header at p has changed, and now reads h.
  ghost predicate Wrote(m: seq<byte>, n: seq<byte>, p: nat, h: Header) {
    && |m| == |n| && InHeap(m, p) && HeaderAt(n, p) == h
    && (forall x | 0 <= x < |m| && !(p <= x + HEAP_START < p + HDR) :: n[x] == m[x])
    && (forall q: nat | InHeap(m, q) && (q + HDR <= p || p + HDR <= q) :: HeaderAt(n, q) == HeaderAt(m, q))
  }

  lemma SameHeader(m: seq<byte>, n: seq<byte>, q: nat)
    requires |m| == |n| && InHeap(m, q)
    requires Agree(m, n, q - HEAP_START, q - HEAP_START + HDR)
    ensures HeaderAt(n, q) == HeaderAt(m, q)
  {
    var o := q - HEAP_START;
    LeFrame(m, n, o, o + 4);
    LeFrame(m, n, o + 8, o + 12);
    LeFrame(m, n, o + 12, o + 16);
  }

  lemma WroteIntro(m: seq<byte>, n: seq<byte>, p: nat, h: Header)
    requires |m| == |n| && InHeap(m, p) && HeaderAt(n, p) == h
    requires forall x | 0 <= x < |m| && !(p <= x + HEAP_START < p + HDR) :: n[x] == m[x]
    ensures Wrote(m, n, p, h)
  {
    forall q: nat | InHeap(m, q) && (q + HDR <= p || p + HDR <= q)
      ensures HeaderAt(n, q) == HeaderAt(m, q)
    {
      SameHeader(m, n, q);
    }
  }

  lemma SizeStored(m: seq<byte>, p: nat, v: nat)
    requires InHeap(m, p) && v < WORD
    ensures var o := p - HEAP_START;
            Wrote(m, PutLe(m, o, o + 4, v), p, HeaderAt(m, p).(size := v))
  {
    var o := p - HEAP_START;
    var n := PutLe(m, o, o + 4, v);
    PutWord(m, o, v);
    LeFrame(m, n, o + 8, o + 12);
    LeFrame(m, n, o + 12, o + 16);
    WroteIntro(m, n, p, HeaderAt(m, p).(size := v));
  }

  lemma NextStored(m: seq<byte>, p: nat, v: nat)
    requires InHeap(m, p) && v < WORD
    ensures var o := p - HEAP_START;
            Wrote(m, PutLe(m, o + 8, o + 12, v), p, HeaderAt(m, p).(next := v))
  {
    var o := p - HEAP_START;
    var n := PutLe(m, o + 8, o + 12, v);
    PutWord(m, o + 8, v);
    LeFrame(m, n, o, o + 4);
    LeFrame(m, n, o + 12, o + 16);
    WroteIntro(m, n, p, HeaderAt(m, p).(next := v));
  }

  lemma PrevStored(m: seq<byte>, p: nat, v: nat)
    requires InHeap(m, p) && v < WORD
    ensures var o := p - HEAP_START;
            Wrote(m, PutLe(m, o + 12, o + 16, v), p, HeaderAt(m, p).(prev := v))
  {
    var o := p - HEAP_START;
    var n := PutLe(m, o + 12, o + 16, v);
    PutWord(m, o + 12, v);
    LeFrame(m, n, o, o + 4);
    LeFrame(m, n, o + 8, o + 12);
    WroteIntro(m, n, p, HeaderAt(m, p).(prev := v));
  }

  lemma FreeStored(m: seq<byte>, p: nat, v: byte)
    requires InHeap(m, p)
    ensures var o := p - HEAP_START;
            Wrote(m, m[o + 4 := v], p, HeaderAt(m, p).(isFree := v))
  {
    var o := p - HEAP_START;
    var n := m[o + 4 := v];
    LeFrame(m, n, o, o + 4);
    LeFrame(m, n, o + 8, o + 12);
    LeFrame(m, n, o + 12, o + 16);
    WroteIntro(m, n, p, HeaderAt(m, p).(isFree := v));
  }

  // ---------------------------------------------------------------- the linked list

  // The header block i must carry.
  function Expected(bs: seq<Block>, i: nat): Header
    requires i < |bs|
  {
    Header(bs[i].size,
           if bs[i].free then 1 else 0,
           if i + 1 < |bs| then Addr(bs, i + 1) else 0,
           if i > 0 then Addr(bs, i - 1) else 0)
  }

  ghost predicate HeaderOk(m: seq<byte>, bs: seq<Block>, i: nat) {
    i < |bs| && InHeap(m, Addr(bs, i)) && HeaderAt(m, Addr(bs, i)) == Expected(bs, i)
  }

  // The headers in m form the doubly linked list bs, tiling the memory.
  ghost predicate Linked(m: seq<byte>, bs: seq<Block>) {
    && |bs| > 0 && Sized(bs) && Addr(bs, |bs|) == HEAP_START + |m|
    && forall i | 0 <= i < |bs| :: HeaderOk(m, bs, i)
  }

  // Some list of blocks describes the memory.
  ghost predicate Listed(m: seq<byte>) {
    exists bs :: Linked(m, bs)
  }

  lemma BlockInHeap(m: seq<byte>, bs: seq<Block>, i: nat)
    requires Sized(bs) && Addr(bs, |bs|) == HEAP_START + |m| && i < |bs|
    ensures HEAP_START <= Addr(bs, i) && Addr(bs, i) + bs[i].size <= HEAP_START + |m|
    ensures InHeap(m, Addr(bs, i))
  {
    AddrMono(bs, i, |bs|);
    if i > 0 {
      AddrMono(bs, 0, i);
    }
  }

  ghost predicate Untouched(m: seq<byte>, n: seq<byte>, bs: seq<Block>, t: nat) {
    && t < |bs| && |m| == |n| && InHeap(m, Addr(bs, t))
    && HeaderAt(n, Addr(bs, t)) == HeaderAt(m, Addr(bs, t))
  }

  lemma RelinkLeft(m: seq<byte>, n: seq<byte>, bs: seq<Block>, bs': seq<Block>, lo: nat, hi: nat, k: nat, j: nat)
    requires Linked(m, bs) && Kept(bs, bs', lo, hi, k) && lo < hi && k > 0
    requires j < lo && Untouched(m, n, bs, j)
    ensures HeaderOk(n, bs', j)
  {
    assert HeaderOk(m, bs, j);
    assert Moved(bs, bs', j, 0);
    if j + 1 < lo {
      assert Moved(bs, bs', j + 1, 0);
    }
    if j > 0 {
      assert Moved(bs, bs', j - 1, 0);
    }
  }

  lemma RelinkRight(m: seq<byte>, n: seq<byte>, bs: seq<Block>, bs': seq<Block>, lo: nat, hi: nat, k: nat, i: nat)
    requires Linked(m, bs) && Kept(bs, bs', lo, hi, k) && lo < hi && k > 0
    requires hi <= i < |bs| && |n| == |m|
    requires i == hi ==> InHeap(n, Addr(bs, hi))
                         && HeaderAt(n, Addr(bs, hi)) == Expected(bs, hi).(prev := Addr(bs', lo + k - 1))
    requires i > hi ==> Untouched(m, n, bs, i)
    ensures HeaderOk(n, bs', i + k - (hi - lo))
  {
    var d := k - (hi - lo);
    assert HeaderOk(m, bs, i);
    assert Moved(bs, bs', i, d);
    if i + 1 < |bs| {
      assert Moved(bs, bs', i + 1, d);
    }
    if i > hi {
      assert Moved(bs, bs', i - 1, d);
    }
  }

  // The one surgery on the list: blocks lo..hi of bs become blocks lo..lo+k of
  // bs', whose headers are written, and the block that follows them is told
  // its new predecessor.
  lemma Relink(m: seq<byte>, n: seq<byte>, bs: seq<Block>, bs': seq<Block>, lo: nat, hi: nat, k: nat)
    requires Linked(m, bs) && Kept(bs, bs', lo, hi, k) && lo < hi && k > 0
    requires Sized(bs') && |n| == |m|
    requires forall t | lo <= t < lo + k :: HeaderOk(n, bs', t)
    requires hi < |bs| ==> InHeap(n, Addr(bs, hi))
                           && HeaderAt(n, Addr(bs, hi)) == Expected(bs, hi).(prev := Addr(bs', lo + k - 1))
    requires forall t | 0 <= t < |bs| && (t < lo || t > hi) :: Untouched(m, n, bs, t)
    ensures Linked(n, bs')
  {
    forall j | 0 <= j < |bs'|
      ensures HeaderOk(n, bs', j)
    {
      if j < lo {
        RelinkLeft(m, n, bs, bs', lo, hi, k, j);
      } else if j >= lo + k {
        RelinkRight(m, n, bs, bs', lo, hi, k, j - k + (hi - lo));
      }
    }
  }

  // ---------------------------------------------------------------- payloads

  // The payload of block j holds the same bytes in m and n.
  ghost predicate PayloadSame(m: seq<byte>, n: seq<byte>, bs: seq<Block>, j: nat)
    requires j < |bs| && bs[j].size >= HDR
  {
    && |m| == |n|
    && forall x | 0 <= x < |m| && Addr(bs, j) + HDR <= x + HEAP_START < Addr(bs, j) + bs[j].size :: n[x] == m[x]
  }

  // The bytes of allocation a are the same in m and n.
  ghost predicate AllocSame(m: seq<byte>, n: seq<byte>, a: Alloc) {
    |m| == |n| && forall x | 0 <= x < |m| && a.ptr <= x + HEAP_START < a.ptr + a.cap :: n[x] == m[x]
  }

  // Writing a header inside block t leaves the payload of every other block
  // alone, and that of t too when it is t's own header.
  lemma WroteOutside(m: seq<byte>, n: seq<byte>, p: nat, h: Header, bs: seq<Block>, t: nat, j: nat)
    requires Wrote(m, n, p, h) && Sized(bs) && t < |bs| && j < |bs|
    requires Addr(bs, t) <= p && p + HDR <= Addr(bs, t) + bs[t].size
    requires j != t || p == Addr(bs, t)
    ensures PayloadSame(m, n, bs, j)
  {
    if j < t {
      AddrMono(bs, j, t);
    } else if t < j {
      AddrMono(bs, t, j);
    }
  }

  lemma WroteTrans(m: seq<byte>, n: seq<byte>, o: seq<byte>, p: nat, h: Header, h': Header)
    requires Wrote(m, n, p, h) && Wrote(n, o, p, h')
    ensures Wrote(m, o, p, h')
  {
    forall q: nat | InHeap(m, q) && (q + HDR <= p || p + HDR <= q)
      ensures HeaderAt(o, q) == HeaderAt(m, q)
    {
      assert HeaderAt(o, q) == HeaderAt(n, q);
    }
  }

  // The three headers a split writes: the new block inside block i, the
  // successor's, and block i's own.
  ghost predicate SplitWrites(m: seq<byte>, m1: seq<byte>, m2: seq<byte>, n: seq<byte>, bs: seq<Block>, i: nat,
                              need: nat)
  {
    && Linked(m, bs) && i < |bs| && bs[i].free
    && HDR <= need && need + HDR + 8 <= bs[i].size
    && Wrote(m, m1, Addr(bs, i) + need, Header(bs[i].size - need, 1, Expected(bs, i).next, Addr(bs, i)))
    && (if i + 1 < |bs| then Wrote(m1, m2, Addr(bs, i + 1), Expected(bs, i + 1).(prev := Addr(bs, i) + need))
        else m2 == m1)
    && Wrote(m2, n, Addr(bs, i), Expected(bs, i).(size := need, next := Addr(bs, i) + need))
  }

  lemma SplitPayload(m: seq<byte>, m1: seq<byte>, m2: seq<byte>, n: seq<byte>, bs: seq<Block>, i: nat, need: nat,
                     j: nat)
    requires SplitWrites(m, m1, m2, n, bs, i, need) && j < |bs| && j != i
    ensures PayloadSame(m, n, bs, j)
  {
    WroteOutside(m, m1, Addr(bs, i) + need, HeaderAt(m1, Addr(bs, i) + need), bs, i, j);
    if i + 1 < |bs| {
      WroteOutside(m1, m2, Addr(bs, i + 1), HeaderAt(m2, Addr(bs, i + 1)), bs, i + 1, j);
    }
    WroteOutside(m2, n, Addr(bs, i), HeaderAt(n, Addr(bs, i)), bs, i, j);
  }

  // A header apart from the one written is untouched.
  lemma HeadersApart(bs: seq<Block>, t: nat, j: nat)
    requires Sized(bs) && t < |bs| && j < |bs| && j != t
    ensures Addr(bs, j) + HDR <= Addr(bs, t) || Addr(bs, t) + bs[t].size <= Addr(bs, j)
  {
    if j < t {
      AddrMono(bs, j, t);
    } else {
      AddrMono(bs, t, j);
    }
  }

  lemma SplitUntouched(m: seq<byte>, m1: seq<byte>, m2: seq<byte>, n: seq<byte>, bs: seq<Block>, i: nat, need: nat,
                       j: nat)
    requires SplitWrites(m, m1, m2, n, bs, i, need) && j < |bs| && j != i && j != i + 1
    ensures Untouched(m, n, bs, j)
  {
    HeadersApart(bs, i, j);
    if i + 1 < |bs| {
      HeadersApart(bs, i + 1, j);
    }
    assert HeaderOk(m, bs, j);
  }

  lemma SplitHeaders(m: seq<byte>, m1: seq<byte>, m2: seq<byte>, n: seq<byte>, bs: seq<Block>, i: nat, need: nat)
    requires SplitWrites(m, m1, m2, n, bs, i, need)
    ensures HeaderAt(n, Addr(bs, i) + need) == Header(bs[i].size - need, 1, Expected(bs, i).next, Addr(bs, i))
    ensures i + 1 < |bs| ==> InHeap(n, Addr(bs, i + 1))
                             && HeaderAt(n, Addr(bs, i + 1)) == Expected(bs, i + 1).(prev := Addr(bs, i) + need)
  {
    if i + 1 < |bs| {
      assert Addr(bs, i + 1) == Addr(bs, i) + bs[i].size;
    }
  }

  function SplitMid(bs: seq<Block>, i: nat, need: nat): seq<Block>
    requires i < |bs| && need <= bs[i].size
  {
    [Block(need, true), Block(bs[i].size - need, true)]
  }

  // bs' is bs with block i cut in two free blocks.
  ghost predicate CutInTwo(bs: seq<Block>, bs': seq<Block>, i: nat, need: nat) {
    && i < |bs| && need <= bs[i].size
    && Sized(bs') && Kept(bs, bs', i, i + 1, 2)
    && bs'[i] == Block(need, true) && bs'[i + 1] == Block(bs[i].size - need, true)
    && Addr(bs', i + 1) == Addr(bs, i) + need
  }

  lemma SplitShape(bs: seq<Block>, i: nat, need: nat)
    requires Sized(bs) && i < |bs| && HDR <= need && need + HDR + 8 <= bs[i].size
    ensures CutInTwo(bs, Splice(bs, i, i + 1, SplitMid(bs, i, need)), i, need)
  {
    var mid := SplitMid(bs, i, need);
    assert Addr(mid, 1) == HEAP_START + need;
    SpliceKept(bs, i, i + 1, mid);
    SpliceAddrMid(bs, i, i + 1, mid, 1);
    SizedSplice(bs, i, i + 1, mid);
  }

  lemma SplitNewHeaders(m: seq<byte>, n: seq<byte>, bs: seq<Block>, bs': seq<Block>, i: nat, need: nat)
    requires Linked(m, bs) && CutInTwo(bs, bs', i, need) && |n| == |m|
    requires InHeap(n, Addr(bs, i)) && InHeap(n, Addr(bs, i) + need)
    requires HeaderAt(n, Addr(bs, i)) == Expected(bs, i).(isFree := 1, size := need, next := Addr(bs, i) + need)
    requires HeaderAt(n, Addr(bs, i) + need) == Header(bs[i].size - need, 1, Expected(bs, i).next, Addr(bs, i))
    ensures HeaderOk(n, bs', i) && HeaderOk(n, bs', i + 1)
  {
    if i > 0 {
      assert Moved(bs, bs', i - 1, 0);
    }
    if i + 1 < |bs| {
      assert Moved(bs, bs', i + 1, 1);
    }
  }

  ghost predicate SameBelow(m: seq<byte>, n: seq<byte>, p: nat) {
    |n| == |m| && forall x | 0 <= x < |m| && x + HEAP_START < p :: n[x] == m[x]
  }

  // Below p nothing has changed from m to n, but the header at p has a size
  // that no block can have.
  ghost predicate Broken(m: seq<byte>, n: seq<byte>, p: nat, need: nat) {
    SameBelow(m, n, p) && InHeap(n, p) && need < HDR && HeaderAt(n, p).size == need
  }

  lemma BrokenStill(m: seq<byte>, n: seq<byte>, o: seq<byte>, p: nat, need: nat)
    requires Broken(m, n, p, need) && Wrote(n, o, p, HeaderAt(n, p).(isFree := 0))
    ensures Broken(m, o, p, need)
  {
  }

  // A list that describes a memory broken at the place of block i would have
  // to begin with the blocks of bs before i.
  lemma {:induction false} SameStart(m: seq<byte>, n: seq<byte>, bs: seq<Block>, bs': seq<Block>, i: nat, j: nat)
    requires Linked(m, bs) && Linked(n, bs') && j <= i < |bs| && SameBelow(m, n, Addr(bs, i))
    ensures j < |bs'| && Addr(bs', j) == Addr(bs, j) && InHeap(n, Addr(bs, j))
    ensures HeaderAt(n, Addr(bs, j)).size == bs'[j].size
  {
    if j > 0 {
      SameStart(m, n, bs, bs', i, j - 1);
      assert HeaderOk(m, bs, j - 1);
      AddrMono(bs, j - 1, i);
      SameHeader(m, n, Addr(bs, j - 1));
      BlockInHeap(m, bs, j);
    }
    assert HeaderOk(n, bs', j);
  }

  // There is none.
  lemma NothingLinked(m: seq<byte>, n: seq<byte>, bs: seq<Block>, i: nat, need: nat)
    requires Linked(m, bs) && i < |bs| && Broken(m, n, Addr(bs, i), need)
    ensures !Listed(n)
  {
    if Listed(n) {
      var bs' :| Linked(n, bs');
      SameStart(m, n, bs, bs', i, i);
    }
  }

  // The first fit found is all that kmalloc needs to know.
  lemma FoundFit(bs: seq<Block>, n: nat, i: nat)
    requires n < WORD && i == FirstFit(bs, Need(n), 0) < |bs|
    ensures Malloc(bs, Need(n)) == Take(bs, i, Need(n)) && MallocPtr(bs, Need(n)) == Addr(bs, i) + HDR
    ensures Intact(bs, n) <==> Takes(bs, i, Need(n))
  {
    NeedCovers(n);
  }

  // The next link of the block at p once a new block has been filled in above
  // it, half over it, or on top of it.
  lemma NextAbove(m: seq<byte>, m1: seq<byte>, p: nat, q: nat, h: Header)
    requires InHeap(m, p) && p + HDR <= q && Wrote(m, m1, q, h)
    ensures InHeap(m1, p) && HeaderAt(m1, p).next == HeaderAt(m, p).next
  {
  }

  lemma NextHalfOver(m: seq<byte>, m1: seq<byte>, p: nat, h: Header)
    requires InHeap(m, p) && Wrote(m, m1, p + 8, h)
    ensures InHeap(m1, p) && HeaderAt(m1, p).next == h.size
  {
    var o := p - HEAP_START;
    assert HeaderAt(m1, p + 8).size == Le(m1, o + 8, o + 12);
  }

  ghost predicate Redirected(m: seq<byte>, n: seq<byte>, x: nat, q: nat) {
    if InHeap(m, x) then Wrote(m, n, x, HeaderAt(m, x).(prev := q)) else n == m
  }

  // What the writes of a split do: the new block at p + need is filled in, the
  // block the next link leads to is redirected, and the block at p shortened.
  ghost predicate SplitSteps(m: seq<byte>, m1: seq<byte>, m2: seq<byte>, n: seq<byte>, p: nat, need: nat, next: nat) {
    && InHeap(m, p) && InHeap(m1, p) && InHeap(m2, p) && need <= HeaderAt(m, p).size
    && Wrote(m, m1, p + need, Header(HeaderAt(m, p).size - need, 1, next, p))
    && (need == 0 || HDR <= need ==> next == HeaderAt(m, p).next)
    && Redirected(m1, m2, HeaderAt(m1, p).next, p + need)
    && Wrote(m2, n, p, HeaderAt(m2, p).(size := need, next := p + need))
  }

  // The next link as kernel/kheap.c:88 finds it: the successor, or a size.
  lemma SplitNext(m: seq<byte>, m1: seq<byte>, p: nat, q: nat, h: Header)
    requires InHeap(m, p) && Wrote(m, m1, q, h) && (q == p || q == p + 8 || p + HDR <= q)
    requires q != p + 8 ==> h.next == HeaderAt(m, p).next
    ensures InHeap(m1, p) && HeaderAt(m1, p).next == if q == p + 8 then h.size else HeaderAt(m, p).next
  {
    if q == p + 8 {
      NextHalfOver(m, m1, p, h);
    } else if p + HDR <= q {
      NextAbove(m, m1, p, q, h);
    }
  }

  // A non-zero next leads to the header of the next block.
  lemma NextApart(m: seq<byte>, bs: seq<Block>, i: nat)
    requires Linked(m, bs) && i < |bs|
    ensures Expected(bs, i).next != 0 <==> i + 1 < |bs|
    ensures i + 1 < |bs| ==> HeaderOk(m, bs, i + 1) && Addr(bs, i) + bs[i].size == Addr(bs, i + 1)
  {
    if i + 1 < |bs| {
      assert HeaderOk(m, bs, i + 1);
    }
  }

  // Where a split of block i writes.
  lemma SplitReady(m: seq<byte>, bs: seq<Block>, i: nat, need: nat)
    requires Linked(m, bs) && |m| == HEAP_SIZE && i < |bs|
    requires need + HDR + 8 <= bs[i].size
    ensures HeaderOk(m, bs, i) && InHeap(m, Addr(bs, i) + need)
    ensures bs[i].size < WORD && Addr(bs, i) + need < WORD && Expected(bs, i).next < WORD
    ensures Expected(bs, i).next != 0 <==> i + 1 < |bs|
    ensures i + 1 < |bs| ==> HeaderOk(m, bs, i + 1) && Addr(bs, i) + bs[i].size == Addr(bs, i + 1)
  {
    NextApart(m, bs, i);
    BlockInHeap(m, bs, i);
    if i + 1 < |bs| {
      BlockInHeap(m, bs, i + 1);
    }
  }

  // A split whose two headers are apart.
  lemma SplitApart(m: seq<byte>, m1: seq<byte>, m2: seq<byte>, n: seq<byte>, bs: seq<Block>, i: nat, need: nat,
                   next: nat)
    requires Linked(m, bs) && |m| == HEAP_SIZE && i < |bs| && bs[i].free && HDR <= need && need + HDR + 8 <= bs[i].size
    requires SplitSteps(m, m1, m2, n, Addr(bs, i), need, next)
    ensures SplitWrites(m, m1, m2, n, bs, i, need)
  {
    SplitReady(m, bs, i, need);
    if i + 1 < |bs| {
      BlockInHeap(m, bs, i + 1);
    }
  }

  // A split with an overlapping header breaks the heap there.
  lemma SplitBreaks(m: seq<byte>, m1: seq<byte>, m2: seq<byte>, n: seq<byte>, bs: seq<Block>, i: nat, need: nat,
                    next: nat)
    requires Linked(m, bs) && |m| == HEAP_SIZE && i < |bs| && need % 8 == 0 && need < HDR
    requires SplitSteps(m, m1, m2, n, Addr(bs, i), need, next)
    requires need == 0 ==> HeaderAt(m1, Addr(bs, i)).next == Expected(bs, i).next
    requires need == 8 ==> HeaderAt(m1, Addr(bs, i)).next <= HEAP_SIZE
    ensures Broken(m, n, Addr(bs, i), need)
  {
    if i + 1 < |bs| {
      AddrMono(bs, i, i + 1);
    }
    assert SameBelow(m, m1, Addr(bs, i));
    assert SameBelow(m1, m2, Addr(bs, i));
  }

  lemma SplitOutcome(m: seq<byte>, m1: seq<byte>, m2: seq<byte>, n: seq<byte>, bs: seq<Block>, i: nat, need: nat,
                     next: nat)
    requires Linked(m, bs) && |m| == HEAP_SIZE && i < |bs| && bs[i].free && need % 8 == 0
             && need + HDR + 8 <= bs[i].size
    requires SplitSteps(m, m1, m2, n, Addr(bs, i), need, next)
    ensures HDR <= need ==> SplitWrites(m, m1, m2, n, bs, i, need)
    ensures need < HDR ==> Broken(m, n, Addr(bs, i), need)
  {
    assert HeaderOk(m, bs, i);
    BlockInHeap(m, bs, i);
    var p, h := Addr(bs, i), Header(bs[i].size - need, 1, next, Addr(bs, i));
    SplitNext(m, m1, p, p + need, h);
    if HDR <= need {
      SplitApart(m, m1, m2, n, bs, i, need, next);
    } else {
      SplitBreaks(m, m1, m2, n, bs, i, need, next);
    }
  }

  // After a split block i of bs is two free blocks.
  lemma SplitLinked(m: seq<byte>, m1: seq<byte>, m2: seq<byte>, n: seq<byte>, bs: seq<Block>, bs': seq<Block>, i: nat,
                    need: nat)
    requires SplitWrites(m, m1, m2, n, bs, i, need) && CutInTwo(bs, bs', i, need)
    ensures Linked(n, bs')
  {
    SplitHeaders(m, m1, m2, n, bs, i, need);
    SplitNewHeaders(m, n, bs, bs', i, need);
    forall j | 0 <= j < |bs| && (j < i || j > i + 1)
      ensures Untouched(m, n, bs, j)
    {
      SplitUntouched(m, m1, m2, n, bs, i, need, j);
    }
    Relink(m, n, bs, bs', i, i + 1, 2);
  }

  lemma SplitDone(m: seq<byte>, m1: seq<byte>, m2: seq<byte>, n: seq<byte>, bs: seq<Block>, i: nat, need: nat)
    requires SplitWrites(m, m1, m2, n, bs, i, need)
    ensures Linked(n, Splice(bs, i, i + 1, SplitMid(bs, i, need)))
    ensures forall j | 0 <= j < |bs| && j != i :: PayloadSame(m, n, bs, j)
  {
    SplitShape(bs, i, need);
    SplitLinked(m, m1, m2, n, bs, Splice(bs, i, i + 1, SplitMid(bs, i, need)), i, need);
    forall j | 0 <= j < |bs| && j != i
      ensures PayloadSame(m, n, bs, j)
    {
      SplitPayload(m, m1, m2, n, bs, i, need, j);
    }
  }

  // ---------------------------------------------------------------- marking and merging

  lemma FlagUntouched(m: seq<byte>, n: seq<byte>, bs: seq<Block>, i: nat, h: Header, j: nat)
    requires Linked(m, bs) && i < |bs| && j < |bs| && j != i
    requires Wrote(m, n, Addr(bs, i), h)
    ensures Untouched(m, n, bs, j) && HeaderOk(m, bs, j)
  {
    HeadersApart(bs, i, j);
    assert HeaderOk(m, bs, j);
  }

  // bs' is bs with block i marked free or not.
  ghost predicate Flagged(bs: seq<Block>, bs': seq<Block>, i: nat, free: bool) {
    i < |bs| && Sized(bs') && Kept(bs, bs', i, i + 1, 1) && bs'[i] == Block(bs[i].size, free)
  }

  lemma FlagShape(bs: seq<Block>, i: nat, free: bool)
    requires Sized(bs) && i < |bs|
    ensures Flagged(bs, Splice(bs, i, i + 1, [Block(bs[i].size, free)]), i, free)
  {
    var mid := [Block(bs[i].size, free)];
    OneBlock(mid[0]);
    SizedSplice(bs, i, i + 1, mid);
    SpliceKept(bs, i, i + 1, mid);
  }

  // Writing is_free of block i.
  lemma FlagLinked(m: seq<byte>, n: seq<byte>, bs: seq<Block>, bs': seq<Block>, i: nat, free: bool)
    requires Linked(m, bs) && Flagged(bs, bs', i, free)
    requires Wrote(m, n, Addr(bs, i), Expected(bs, i).(isFree := if free then 1 else 0))
    ensures Linked(n, bs')
  {
    assert HeaderOk(n, bs', i) by {
      if i > 0 {
        assert Moved(bs, bs', i - 1, 0);
      }
      if i + 1 < |bs| {
        assert Moved(bs, bs', i + 1, 0);
      }
    }
    forall j | 0 <= j < |bs| && j != i
      ensures Untouched(m, n, bs, j) && HeaderOk(m, bs, j)
    {
      FlagUntouched(m, n, bs, i, HeaderAt(n, Addr(bs, i)), j);
    }
    if i + 1 < |bs| {
      assert Untouched(m, n, bs, i + 1);
    }
    Relink(m, n, bs, bs', i, i + 1, 1);
  }

  // The two headers written when block i swallows block i + 1.
  ghost predicate MergeWrites(m: seq<byte>, m1: seq<byte>, n: seq<byte>, bs: seq<Block>, i: nat)
  {
    && Linked(m, bs) && i + 1 < |bs|
    && Wrote(m, m1, Addr(bs, i),
             Expected(bs, i).(size := bs[i].size + bs[i + 1].size, next := Expected(bs, i + 1).next))
    && (if i + 2 < |bs| then Wrote(m1, n, Addr(bs, i + 2), Expected(bs, i + 2).(prev := Addr(bs, i)))
        else n == m1)
  }

  // bs' is bs with blocks i and i + 1 made one.
  ghost predicate Merged(bs: seq<Block>, bs': seq<Block>, i: nat) {
    i + 1 < |bs| && Sized(bs') && Kept(bs, bs', i, i + 2, 1) && bs'[i] == MergeMid(bs, i)[0]
  }

  lemma MergeShape(bs: seq<Block>, i: nat)
    requires Sized(bs) && i + 1 < |bs|
    ensures Merged(bs, Splice(bs, i, i + 2, MergeMid(bs, i)), i)
  {
    var mid := MergeMid(bs, i);
    OneBlock(mid[0]);
    assert Addr(bs, i + 1) == Addr(bs, i) + bs[i].size;
    SpliceKept(bs, i, i + 2, mid);
    SizedSplice(bs, i, i + 2, mid);
  }

  lemma MergeUntouched(m: seq<byte>, m1: seq<byte>, n: seq<byte>, bs: seq<Block>, i: nat, j: nat)
    requires MergeWrites(m, m1, n, bs, i) && j < |bs| && j != i && j != i + 2
    ensures Untouched(m, n, bs, j)
  {
    FlagUntouched(m, m1, bs, i, HeaderAt(m1, Addr(bs, i)), j);
    if i + 2 < |bs| {
      HeadersApart(bs, i + 2, j);
    }
  }

  lemma MergePayload(m: seq<byte>, m1: seq<byte>, n: seq<byte>, bs: seq<Block>, i: nat, j: nat)
    requires MergeWrites(m, m1, n, bs, i) && j < |bs|
    ensures PayloadSame(m, n, bs, j)
  {
    WroteOutside(m, m1, Addr(bs, i), HeaderAt(m1, Addr(bs, i)), bs, i, j);
    if i + 2 < |bs| {
      WroteOutside(m1, n, Addr(bs, i + 2), HeaderAt(n, Addr(bs, i + 2)), bs, i + 2, j);
    }
  }

  lemma MergeHeaders(m: seq<byte>, m1: seq<byte>, n: seq<byte>, bs: seq<Block>, i: nat)
    requires MergeWrites(m, m1, n, bs, i)
    ensures HeaderAt(n, Addr(bs, i))
         == Expected(bs, i).(size := bs[i].size + bs[i + 1].size, next := Expected(bs, i + 1).next)
    ensures i + 2 < |bs| ==> InHeap(n, Addr(bs, i + 2))
                             && HeaderAt(n, Addr(bs, i + 2)) == Expected(bs, i + 2).(prev := Addr(bs, i))
  {
    if i + 2 < |bs| {
      HeadersApart(bs, i, i + 2);
    }
  }

  lemma MergeNewHeader(m: seq<byte>, n: seq<byte>, bs: seq<Block>, bs': seq<Block>, i: nat)
    requires Linked(m, bs) && Merged(bs, bs', i) && |n| == |m| && InHeap(n, Addr(bs, i))
    requires HeaderAt(n, Addr(bs, i))
          == Expected(bs, i).(size := bs[i].size + bs[i + 1].size, next := Expected(bs, i + 1).next)
    ensures HeaderOk(n, bs', i)
  {
    if i > 0 {
      assert Moved(bs, bs', i - 1, 0);
    }
    if i + 2 < |bs| {
      assert Moved(bs, bs', i + 2, -1);
    }
  }

  // After a merge blocks i and i + 1 of bs are one.
  lemma MergeLinked(m: seq<byte>, m1: seq<byte>, n: seq<byte>, bs: seq<Block>, bs': seq<Block>, i: nat)
    requires MergeWrites(m, m1, n, bs, i) && Merged(bs, bs', i)
    ensures Linked(n, bs')
  {
    MergeHeaders(m, m1, n, bs, i);
    MergeNewHeader(m, n, bs, bs', i);
    forall j | 0 <= j < |bs| && (j < i || j > i + 2)
      ensures Untouched(m, n, bs, j)
    {
      MergeUntouched(m, m1, n, bs, i, j);
    }
    Relink(m, n, bs, bs', i, i + 2, 1);
  }

  lemma FlagDone(m: seq<byte>, n: seq<byte>, bs: seq<Block>, i: nat, free: bool)
    requires Linked(m, bs) && i < |bs|
    requires Wrote(m, n, Addr(bs, i), Expected(bs, i).(isFree := if free then 1 else 0))
    ensures Linked(n, Splice(bs, i, i + 1, [Block(bs[i].size, free)]))
    ensures forall j | 0 <= j < |bs| :: PayloadSame(m, n, bs, j)
  {
    FlagShape(bs, i, free);
    FlagLinked(m, n, bs, Splice(bs, i, i + 1, [Block(bs[i].size, free)]), i, free);
    forall j | 0 <= j < |bs|
      ensures PayloadSame(m, n, bs, j)
    {
      WroteOutside(m, n, Addr(bs, i), HeaderAt(n, Addr(bs, i)), bs, i, j);
    }
  }

  lemma MergeDone(m: seq<byte>, m1: seq<byte>, n: seq<byte>, bs: seq<Block>, i: nat)
    requires MergeWrites(m, m1, n, bs, i)
    ensures Linked(n, Splice(bs, i, i + 2, MergeMid(bs, i)))
    ensures forall j | 0 <= j < |bs| :: PayloadSame(m, n, bs, j)
  {
    MergeShape(bs, i);
    MergeLinked(m, m1, n, bs, Splice(bs, i, i + 2, MergeMid(bs, i)), i);
    forall j | 0 <= j < |bs|
      ensures PayloadSame(m, n, bs, j)
    {
      MergePayload(m, m1, n, bs, i, j);
    }
  }

  // A split followed by marking the front used is what Take does.
  lemma TakeAfterSplit(bs: seq<Block>, i: nat, need: nat)
    requires i < |bs| && need + HDR + 8 <= bs[i].size
    ensures var bs1 := Splice(bs, i, i + 1, SplitMid(bs, i, need));
            && |bs1| == |bs| + 1 && bs1[i].size == need
            && Splice(bs1, i, i + 1, [Block(need, false)]) == Take(bs, i, need)
  {
    var bs1 := Splice(bs, i, i + 1, SplitMid(bs, i, need));
    assert bs1[..i] == bs[..i];
    assert bs1[i + 1..] == [Block(bs[i].size - need, true)] + bs[i + 1..];
  }

  // Payloads of all blocks but the free block i are unchanged, so every live
  // allocation is.
  lemma LiveSame(m: seq<byte>, n: seq<byte>, bs: seq<Block>, i: nat)
    requires Sized(bs) && |m| == |n| && i < |bs| && bs[i].free
    requires forall j | 0 <= j < |bs| && j != i :: PayloadSame(m, n, bs, j)
    ensures forall a | a in Live(bs) :: AllocSame(m, n, a)
  {
    forall a | a in Live(bs)
      ensures AllocSame(m, n, a)
    {
      var j := LiveIndex(bs, 0, |bs|, a);
      assert PayloadSame(m, n, bs, j);
    }
  }

  // The blocks other than i keep their extents through a split, so what holds
  // of their payloads after it holds of the blocks before it.
  lemma SplitPayloads(m: seq<byte>, m1: seq<byte>, n: seq<byte>, bs: seq<Block>, i: nat, need: nat, j: nat)
    requires Sized(bs) && i < |bs| && j < |bs| && j != i && HDR <= need && need + HDR + 8 <= bs[i].size
    requires PayloadSame(m, m1, bs, j)
    requires var bs1 := Splice(bs, i, i + 1, SplitMid(bs, i, need));
             Sized(bs1) && forall t | 0 <= t < |bs1| :: PayloadSame(m1, n, bs1, t)
    ensures PayloadSame(m, n, bs, j)
  {
    var bs1 := Splice(bs, i, i + 1, SplitMid(bs, i, need));
    SplitShape(bs, i, need);
    var d := if j < i then 0 else 1;
    assert Moved(bs, bs1, j, d);
    assert PayloadSame(m1, n, bs1, j + d);
  }

  // What block i needs to know before it swallows its successor.
  lemma AbsorbReady(m: seq<byte>, bs: seq<Block>, i: nat)
    requires Linked(m, bs) && |m| == HEAP_SIZE && i + 1 < |bs|
    ensures HeaderOk(m, bs, i) && HeaderOk(m, bs, i + 1)
    ensures Addr(bs, i) + HDR <= Addr(bs, i + 1)
    ensures bs[i].size + bs[i + 1].size < WORD && Expected(bs, i + 1).next < WORD
    ensures Expected(bs, i + 1).next != 0 <==> i + 2 < |bs|
    ensures i + 2 < |bs| ==> HeaderOk(m, bs, i + 2) && Addr(bs, i) + HDR <= Addr(bs, i + 2)
  {
    NextApart(m, bs, i);
    NextApart(m, bs, i + 1);
    BlockInHeap(m, bs, i + 1);
    if i + 2 < |bs| {
      BlockInHeap(m, bs, i + 2);
    }
  }

  // Blocks that are free before and after change no allocation.
  lemma DeadSplice(bs: seq<Block>, lo: nat, hi: nat, mid: seq<Block>)
    requires Sized(bs) && Sized(mid) && lo <= hi <= |bs|
    requires Addr(mid, |mid|) - HEAP_START == Addr(bs, hi) - Addr(bs, lo)
    requires LiveIn(bs, lo, hi) == {}
    requires var bs' := Splice(bs, lo, hi, mid);
             Sized(bs') && LiveIn(bs', lo, lo + |mid|) == {}
    ensures Live(Splice(bs, lo, hi, mid)) == Live(bs)
  {
    SpliceKept(bs, lo, hi, mid);
    LiveGrows(bs, Splice(bs, lo, hi, mid), lo, hi, |mid|);
  }

  lemma MergeLive(bs: seq<Block>, i: nat)
    requires Sized(bs) && i + 1 < |bs| && bs[i].free && bs[i + 1].free
    ensures var bs' := Splice(bs, i, i + 2, MergeMid(bs, i)); Sized(bs') && Live(bs') == Live(bs)
  {
    var bs' := Splice(bs, i, i + 2, MergeMid(bs, i));
    MergeShape(bs, i);
    OneBlock(MergeMid(bs, i)[0]);
    assert Addr(bs, i + 1) == Addr(bs, i) + bs[i].size;
    assert LiveIn(bs, i, i) == {} && LiveIn(bs', i, i) == {};
    assert LiveIn(bs, i, i + 1) == {};
    DeadSplice(bs, i, i + 2, MergeMid(bs, i));
  }

  lemma ReleaseLive(bs: seq<Block>, i: nat)
    requires Sized(bs) && i < |bs|
    ensures Sized(Release(bs, i)) && Live(Release(bs, i)) <= Live(bs)
  {
    var bs' := Release(bs, i);
    FlagShape(bs, i, true);
    assert LiveIn(bs', i, i) == {};
    LiveShrinks(bs, bs', i, i + 1, 1);
  }

  lemma AllSame(m: seq<byte>, n: seq<byte>, bs: seq<Block>)
    requires Sized(bs) && |m| == |n|
    requires forall j | 0 <= j < |bs| :: PayloadSame(m, n, bs, j)
    ensures forall a | a in Live(bs) :: AllocSame(m, n, a)
  {
    forall a | a in Live(bs)
      ensures AllocSame(m, n, a)
    {
      var j := LiveIndex(bs, 0, |bs|, a);
      assert PayloadSame(m, n, bs, j);
    }
  }

  // What block i reads about its predecessor.
  lemma PrevReady(m: seq<byte>, bs: seq<Block>, i: nat)
    requires Linked(m, bs) && i < |bs|
    ensures InHeap(m, Addr(bs, i))
    ensures HeaderAt(m, Addr(bs, i)).prev == if i > 0 then Addr(bs, i - 1) else 0
    ensures i > 0 ==> HEAP_START <= Addr(bs, i - 1) && InHeap(m, Addr(bs, i - 1))
    ensures i > 0 ==> (HeaderAt(m, Addr(bs, i - 1)).isFree != 0 <==> bs[i - 1].free)
  {
    assert HeaderOk(m, bs, i);
    if i > 0 {
      assert HeaderOk(m, bs, i - 1);
    }
  }

  // What block i reads about its successor.
  lemma NextReady(m: seq<byte>, bs: seq<Block>, i: nat)
    requires Linked(m, bs) && i < |bs|
    ensures InHeap(m, Addr(bs, i))
    ensures HeaderAt(m, Addr(bs, i)).next == if i + 1 < |bs| then Addr(bs, i + 1) else 0
    ensures i + 1 < |bs| ==> HEAP_START <= Addr(bs, i + 1) && InHeap(m, Addr(bs, i + 1))
    ensures i + 1 < |bs| ==> (HeaderAt(m, Addr(bs, i + 1)).isFree != 0 <==> bs[i + 1].free)
  {
    assert HeaderOk(m, bs, i);
    if i + 1 < |bs| {
      assert HeaderOk(m, bs, i + 1);
    }
  }

  // [p, p + n) lies in the heap.
  predicate Within(p: nat, n: nat) {
    HEAP_START <= p && p + n <= HEAP_START + HEAP_SIZE
  }

  // A live pointer leads to a header in the list, which says it is not free.
  lemma LiveHeader(m: seq<byte>, bs: seq<Block>, p: nat)
    requires Linked(m, bs)
    requires IsLive(bs, p)
    ensures p >= HEAP_START + HDR && InHeap(m, p - HDR)
    ensures HeaderAt(m, p - HDR) == Expected(bs, BlockAt(bs, p, 0)) && !IsFreeAt(m, p - HDR)
    ensures AllocOf(bs, BlockAt(bs, p, 0)) in Live(bs)
    ensures |m| == HEAP_SIZE ==> Within(p, bs[BlockAt(bs, p, 0)].size - HDR)
  {
    var i := BlockAt(bs, p, 0);
    BlockInHeap(m, bs, i);
    assert HeaderOk(m, bs, i);
    LiveAt(bs, 0, |bs|, i);
  }

  // A pointer on which kfree does what it should: NULL, a live pointer, or one
  // whose header byte still says that it was freed.
  ghost predicate Freeable(m: seq<byte>, bs: seq<Block>, ptr: nat) {
    ptr == 0 || IsLive(bs, ptr) || (ptr >= HDR && IsFreeAt(m, ptr - HDR))
  }

  lemma FreeableAt(m: seq<byte>, bs: seq<Block>, ptr: nat)
    requires Linked(m, bs) && Freeable(m, bs, ptr)
    ensures ptr == 0 ==> !IsLive(bs, ptr)
    ensures ptr != 0 ==> ptr >= HDR && InHeap(m, ptr - HDR)
    ensures ptr != 0 ==> (IsFreeAt(m, ptr - HDR) <==> !IsLive(bs, ptr))
    ensures IsLive(bs, ptr) ==> var i := BlockAt(bs, ptr, 0);
                                ptr - HDR == Addr(bs, i) && HeaderAt(m, ptr - HDR) == Expected(bs, i)
  {
    if IsLive(bs, ptr) {
      LiveHeader(m, bs, ptr);
    }
  }

  // Memory with a 1 stored at address x.
  function WithOne(m: seq<byte>, x: nat): seq<byte>
    requires HEAP_START <= x < HEAP_START + |m|
  {
    m[x - HEAP_START := 1]
  }

  // Memory once kernel/kheap.c:163-177 has run, for any pointer into the heap.
  function MarkedFree(m: seq<byte>, ptr: nat): seq<byte>
    requires ptr == 0 || (ptr >= HDR && InHeap(m, ptr - HDR))
  {
    if ptr == 0 || IsFreeAt(m, ptr - HDR) then m else WithOne(m, ptr - HDR + 4)
  }

  // kfree leaves a pointer alone exactly if the byte in front of it reads free.
  // So it tells live pointers from the others exactly for the acceptable ones.
  lemma FreeByteTells(m: seq<byte>, bs: seq<Block>, ptr: nat)
    requires Linked(m, bs) && ptr >= HDR && InHeap(m, ptr - HDR)
    ensures MarkedFree(m, ptr) == m <==> IsFreeAt(m, ptr - HDR)
    ensures IsLive(bs, ptr) ==> MarkedFree(m, ptr) != m
    ensures (MarkedFree(m, ptr) == m <==> !IsLive(bs, ptr)) <==> Freeable(m, bs, ptr)
  {
    var o := ptr - HDR - HEAP_START + 4;
    assert IsFreeAt(m, ptr - HDR) <==> m[o] != 0;
    assert m[o] == 0 ==> m[o := 1][o] != m[o];
    if IsLive(bs, ptr) {
      LiveHeader(m, bs, ptr);
    }
  }

  // ---------------------------------------------------------------- kfree of a pointer that is not live

  // Address x holds a byte of the size or of a link of the header at p.
  predicate LinkByte(p: nat, x: nat) {
    p <= x < p + 4 || p + 8 <= x < p + 16
  }

  // Address x holds such a byte of some block.
  ghost predicate MeetsLink(bs: seq<Block>, x: nat) {
    exists i | 0 <= i < |bs| :: LinkByte(Addr(bs, i), x)
  }

  lemma {:induction false} WordDiffers(m: seq<byte>, x: nat, lo: nat, hi: nat)
    requires lo <= x < hi <= |m| && m[x] == 0
    ensures Le(m[x := 1], lo, hi) > Le(m, lo, hi)
    decreases hi - lo
  {
    if lo < x {
      WordDiffers(m, x, lo + 1, hi);
    } else {
      LeFrame(m, m[x := 1], lo + 1, hi);
    }
  }

  // From g to h exactly one of the three words has grown.
  predicate Grown(g: Header, h: Header) {
    || (h == g.(size := h.size) && h.size > g.size)
    || (h == g.(next := h.next) && h.next > g.next)
    || (h == g.(prev := h.prev) && h.prev > g.prev)
  }

  lemma WordGrows(m: seq<byte>, p: nat, x: nat)
    requires InHeap(m, p) && LinkByte(p, x) && m[x - HEAP_START] == 0
    ensures Grown(HeaderAt(m, p), HeaderAt(m[x - HEAP_START := 1], p))
  {
    var o, y := p - HEAP_START, x - HEAP_START;
    var n := m[y := 1];
    if y < o + 4 {
      WordDiffers(m, y, o, o + 4);
      LeFrame(m, n, o + 8, o + 12);
      LeFrame(m, n, o + 12, o + 16);
    } else if y < o + 12 {
      WordDiffers(m, y, o + 8, o + 12);
      LeFrame(m, n, o, o + 4);
      LeFrame(m, n, o + 12, o + 16);
    } else {
      WordDiffers(m, y, o + 12, o + 16);
      LeFrame(m, n, o, o + 4);
      LeFrame(m, n, o + 8, o + 12);
    }
  }

  // A list that begins like bs up to block i does not have a header there that
  // differs in one word.
  lemma NotGrown(bs: seq<Block>, bs': seq<Block>, i: nat)
    requires Sized(bs) && Sized(bs') && i < |bs| && i < |bs'|
    requires Addr(bs, |bs|) == Addr(bs', |bs'|) && Addr(bs', i) == Addr(bs, i)
    requires i > 0 ==> Addr(bs', i - 1) == Addr(bs, i - 1)
    ensures !Grown(Expected(bs, i), Expected(bs', i))
  {
    AddrMono(bs, i, |bs|);
    AddrMono(bs', i, |bs'|);
    if i + 1 < |bs| {
      AddrMono(bs, i + 1, |bs|);
    }
    if i + 1 < |bs'| {
      AddrMono(bs', i + 1, |bs'|);
    }
  }

  lemma LinkBroken(m: seq<byte>, bs: seq<Block>, i: nat, x: nat)
    requires Linked(m, bs) && i < |bs| && LinkByte(Addr(bs, i), x)
    requires HEAP_START <= x < HEAP_START + |m| && m[x - HEAP_START] == 0
    ensures !Listed(WithOne(m, x))
  {
    var n := WithOne(m, x);
    if Listed(n) {
      var bs' :| Linked(n, bs');
      assert HeaderOk(m, bs, i);
      WordGrows(m, Addr(bs, i), x);
      SameStart(m, n, bs, bs', i, i);
      if i > 0 {
        SameStart(m, n, bs, bs', i, i - 1);
      }
      assert HeaderOk(n, bs', i);
      NotGrown(bs, bs', i);
    }
  }

  lemma HeaderSpared(m: seq<byte>, p: nat, x: nat)
    requires InHeap(m, p) && HEAP_START <= x < HEAP_START + |m| && !LinkByte(p, x) && x != p + 4
    ensures HeaderAt(m[x - HEAP_START := 1], p) == HeaderAt(m, p)
  {
    var n, o := m[x - HEAP_START := 1], p - HEAP_START;
    LeFrame(m, n, o, o + 4);
    LeFrame(m, n, o + 8, o + 12);
    LeFrame(m, n, o + 12, o + 16);
  }

  // Address x is that of the flag of some block.
  ghost predicate MeetsFlag(bs: seq<Block>, x: nat) {
    exists i | 0 <= i < |bs| :: Addr(bs, i) + 4 == x
  }

  lemma LinksSpared(m: seq<byte>, bs: seq<Block>, x: nat)
    requires Linked(m, bs) && HEAP_START <= x < HEAP_START + |m| && !MeetsLink(bs, x) && !MeetsFlag(bs, x)
    ensures Linked(WithOne(m, x), bs)
  {
    var n := WithOne(m, x);
    forall i | 0 <= i < |bs|
      ensures HeaderOk(n, bs, i)
    {
      assert HeaderOk(m, bs, i) && !LinkByte(Addr(bs, i), x);
      HeaderSpared(m, Addr(bs, i), x);
    }
  }

  // Once 1 has been stored over a 0 that is no flag, the headers are still
  // linked exactly if it was no byte of a size or link; otherwise no list of
  // blocks describes the heap any more.
  lemma ByteSet(m: seq<byte>, bs: seq<Block>, x: nat)
    requires Linked(m, bs) && HEAP_START <= x < HEAP_START + |m| && m[x - HEAP_START] == 0 && !MeetsFlag(bs, x)
    ensures Linked(WithOne(m, x), bs) <==> !MeetsLink(bs, x)
    ensures Listed(WithOne(m, x)) <==> !MeetsLink(bs, x)
  {
    if MeetsLink(bs, x) {
      var i :| 0 <= i < |bs| && LinkByte(Addr(bs, i), x);
      LinkBroken(m, bs, i, x);
    } else {
      LinksSpared(m, bs, x);
    }
  }

  // The flag that kfree misreads is not that of a block in the list.
  lemma NoFlagMet(m: seq<byte>, bs: seq<Block>, ptr: nat)
    requires Linked(m, bs) && ptr >= HDR && !Freeable(m, bs, ptr)
    ensures !MeetsFlag(bs, ptr - HDR + 4)
  {
    forall i | 0 <= i < |bs|
      ensures Addr(bs, i) != ptr - HDR
    {
      assert HeaderOk(m, bs, i) && !PayloadAt(bs, i, ptr);
    }
  }

  // kfree of a pointer whose freed header has been overwritten is not
  // recognised: it stores a 1 there. The headers survive that store exactly if
  // it meets no size and no link.
  lemma StaleFree(m: seq<byte>, bs: seq<Block>, ptr: nat)
    requires Linked(m, bs) && ptr >= HDR && InHeap(m, ptr - HDR) && !Freeable(m, bs, ptr)
    ensures Linked(MarkedFree(m, ptr), bs) <==> !MeetsLink(bs, ptr - HDR + 4)
    ensures Listed(MarkedFree(m, ptr)) <==> !MeetsLink(bs, ptr - HDR + 4)
  {
    NoFlagMet(m, bs, ptr);
    ByteSet(m, bs, ptr - HDR + 4);
  }

  // After the five calls every further kfree of the second pointer goes wrong:
  // the low byte of a link, 0, lies where its flag was, and is overwritten.
  lemma DoubleFreeMissed(m: seq<byte>)
    requires Linked(m, Run(Fresh(), FIVE_CALLS))
    ensures AllAllowed(Fresh(), FIVE_CALLS) && CallFree(SECOND) in FIVE_CALLS
    ensures InHeap(m, SECOND - HDR) && !IsFreeAt(m, SECOND - HDR)
    ensures !Listed(MarkedFree(m, SECOND))
  {
    FiveCalls();
    assert FIVE_CALLS[3] == CallFree(SECOND);
    var bs := AFTER_FIVE;
    assert Addr(bs, 1) == HEAP_START + 16;
    assert Addr(bs, 2) == HEAP_START + HEAP_SIZE;
    assert HeaderOk(m, bs, 1);
    assert Le(m, 28, 32) == m[28] + 256 * Le(m, 29, 32);
    assert m[28] == 0;
    assert LinkByte(Addr(bs, 1), SECOND - HDR + 4);
    StaleFree(m, bs, SECOND);
  }

  // ---------------------------------------------------------------- freed headers

  ghost predicate FreeAround(bs: seq<Block>, i: nat, p: nat) {
    && i < |bs| && bs[i].free && p + HDR <= Addr(bs, i) + bs[i].size
    && (p == Addr(bs, i) || Addr(bs, i) + HDR <= p)
  }

  // The header at p is, or was, that of a free block or of a part of one; it
  // still reads free.
  ghost predicate StillFree(m: seq<byte>, bs: seq<Block>, p: nat) {
    IsFreeAt(m, p) && exists i: nat :: FreeAround(bs, i, p)
  }

  // What kfree leaves of such headers: all of them.
  ghost predicate FreedKept(m: seq<byte>, bs: seq<Block>, n: seq<byte>, bs': seq<Block>) {
    forall p: nat | StillFree(m, bs, p) :: StillFree(n, bs', p)
  }

  // Blocks made one free block are still around what one of them was around.
  lemma FreeAroundKept(bs: seq<Block>, bs': seq<Block>, lo: nat, hi: nat, i: nat, p: nat)
    requires Sized(bs) && Kept(bs, bs', lo, hi, 1) && lo < hi && bs'[lo].free && FreeAround(bs, i, p)
    ensures exists j: nat :: FreeAround(bs', j, p)
  {
    var d := 1 - (hi - lo);
    if i < lo {
      assert Moved(bs, bs', i, 0);
      assert FreeAround(bs', i, p);
    } else if i >= hi {
      assert Moved(bs, bs', i, d);
      assert FreeAround(bs', i + d, p);
    } else {
      AddrMono(bs, i, hi);
      if lo < i {
        AddrMono(bs, lo, i);
      }
      assert Addr(bs', lo + 1) == Addr(bs', lo) + bs'[lo].size;
      assert FreeAround(bs', lo, p);
    }
  }

  // Such a header is that of block t, or does not overlap it.
  lemma FreedApart(bs: seq<Block>, t: nat, i: nat, p: nat)
    requires Sized(bs) && t < |bs| && FreeAround(bs, i, p)
    ensures p == Addr(bs, t) ==> i == t
    ensures p == Addr(bs, t) || p + HDR <= Addr(bs, t) || Addr(bs, t) + HDR <= p
  {
    if i < t {
      AddrMono(bs, i, t);
    } else if t < i {
      AddrMono(bs, t, i);
    }
  }

  // Writing the header of block t leaves freed headers alone; it may not mark
  // a free block used.
  lemma WroteFreed(m: seq<byte>, n: seq<byte>, bs: seq<Block>, t: nat, h: Header, i: nat, p: nat)
    requires Sized(bs) && t < |bs| && Wrote(m, n, Addr(bs, t), h) && (bs[t].free ==> h.isFree != 0)
    requires FreeAround(bs, i, p) && IsFreeAt(m, p)
    ensures IsFreeAt(n, p)
  {
    FreedApart(bs, t, i, p);
  }

  lemma FlagKeepsFreed(m: seq<byte>, n: seq<byte>, bs: seq<Block>, bs': seq<Block>, i: nat, h: Header)
    requires Sized(bs) && Flagged(bs, bs', i, true) && !bs[i].free
    requires Wrote(m, n, Addr(bs, i), h) && h.isFree == 1
    ensures FreedKept(m, bs, n, bs') && StillFree(n, bs', Addr(bs, i))
  {
    assert FreeAround(bs', i, Addr(bs, i));
    forall p: nat | StillFree(m, bs, p)
      ensures StillFree(n, bs', p)
    {
      var j: nat :| FreeAround(bs, j, p);
      WroteFreed(m, n, bs, i, h, j, p);
      FreeAroundKept(bs, bs', i, i + 1, j, p);
    }
  }

  lemma Released(m: seq<byte>, n: seq<byte>, bs: seq<Block>, i: nat)
    requires Linked(m, bs) && i < |bs| && !bs[i].free
    requires Wrote(m, n, Addr(bs, i), Expected(bs, i).(isFree := 1))
    ensures var bs' := Release(bs, i);
            && Linked(n, bs') && HeaderAt(n, Addr(bs, i)).size == bs[i].size
            && i < |bs'| && bs'[i].free && Addr(bs', i) == Addr(bs, i)
            && FreedKept(m, bs, n, bs') && StillFree(n, bs', Addr(bs, i))
            && forall a | a in Live(bs') :: AllocSame(m, n, a)
  {
    var bs' := Release(bs, i);
    SpliceAddrLeft(bs, i, i + 1, [Block(bs[i].size, true)], i);
    FlagDone(m, n, bs, i, true);
    AllSame(m, n, bs);
    ReleaseLive(bs, i);
    FlagShape(bs, i, true);
    FlagKeepsFreed(m, n, bs, bs', i, Expected(bs, i).(isFree := 1));
  }

  lemma MergeKeepsFreed(m: seq<byte>, m1: seq<byte>, n: seq<byte>, bs: seq<Block>, bs': seq<Block>, i: nat)
    requires MergeWrites(m, m1, n, bs, i) && Merged(bs, bs', i) && bs[i].free && bs[i + 1].free
    ensures FreedKept(m, bs, n, bs')
  {
    forall p: nat | StillFree(m, bs, p)
      ensures StillFree(n, bs', p)
    {
      var j: nat :| FreeAround(bs, j, p);
      WroteFreed(m, m1, bs, i, HeaderAt(m1, Addr(bs, i)), j, p);
      if i + 2 < |bs| {
        WroteFreed(m1, n, bs, i + 2, HeaderAt(n, Addr(bs, i + 2)), j, p);
      }
      FreeAroundKept(bs, bs', i, i + 2, j, p);
    }
  }

  // ---------------------------------------------------------------- runs of kfree

  datatype HeapState = HeapState(mem: seq<byte>, blocks: seq<Block>)

  // What kfree(p) does to the heap, as far as later calls can tell.
  ghost predicate Freed(s: HeapState, p: nat, t: HeapState) {
    && Linked(t.mem, t.blocks) && t.blocks == FreePtr(s.blocks, p)
    && FreedKept(s.mem, s.blocks, t.mem, t.blocks)
    && (p != 0 ==> p >= HDR && IsFreeAt(t.mem, p - HDR))
    && (IsLive(s.blocks, p) ==> p >= HDR && StillFree(t.mem, t.blocks, p - HDR))
  }

  lemma NothingFreed(s: HeapState, p: nat)
    requires Linked(s.mem, s.blocks) && !IsLive(s.blocks, p) && Freeable(s.mem, s.blocks, p)
    ensures Freed(s, p, s)
  {
  }

  // Byte x of the heap is one of the payload of the used block i.
  ghost predicate InPayload(bs: seq<Block>, i: nat, x: nat) {
    i < |bs| && !bs[i].free && Addr(bs, i) + HDR <= x + HEAP_START < Addr(bs, i) + bs[i].size
  }

  // Clients have written into live payloads, and nowhere else.
  ghost predicate Scribbled(m: seq<byte>, n: seq<byte>, bs: seq<Block>) {
    && |n| == |m|
    && forall x | 0 <= x < |m| && n[x] != m[x] :: exists i: nat :: InPayload(bs, i, x)
  }

  lemma ScribbledAround(m: seq<byte>, n: seq<byte>, bs: seq<Block>, i: nat, p: nat)
    requires Linked(m, bs) && Scribbled(m, n, bs) && i < |bs| && InHeap(m, p)
    requires p == Addr(bs, i) || FreeAround(bs, i, p)
    ensures HeaderAt(n, p) == HeaderAt(m, p)
  {
    forall x | p <= x + HEAP_START < p + HDR
      ensures n[x] == m[x]
    {
      if n[x] != m[x] {
        var j: nat :| InPayload(bs, j, x);
        if i < j {
          AddrMono(bs, i, j);
        } else if j < i {
          AddrMono(bs, j, i);
        }
      }
    }
    SameHeader(m, n, p);
  }

  // Neither the list nor the freed headers notice.
  lemma ScribbledKeeps(m: seq<byte>, n: seq<byte>, bs: seq<Block>)
    requires Linked(m, bs) && Scribbled(m, n, bs)
    ensures Linked(n, bs) && FreedKept(m, bs, n, bs)
  {
    forall i | 0 <= i < |bs|
      ensures HeaderOk(n, bs, i)
    {
      assert HeaderOk(m, bs, i);
      ScribbledAround(m, n, bs, i, Addr(bs, i));
    }
    forall p: nat | StillFree(m, bs, p)
      ensures StillFree(n, bs, p)
    {
      var i: nat :| FreeAround(bs, i, p);
      ScribbledAround(m, n, bs, i, p);
    }
  }

  // Clients write into what they hold, then kfree(p) is called; nothing is
  // assumed of a call that does not recognise its pointer.
  ghost predicate KfreeStep(s: HeapState, p: nat, t: HeapState) {
    exists n :: Scribbled(s.mem, n, s.blocks)
                && (Freeable(n, s.blocks, p) ==> Freed(HeapState(n, s.blocks), p, t))
  }

  ghost predicate KfreeRun(trace: seq<HeapState>, ps: seq<nat>) {
    && |trace| == |ps| + 1
    && forall k | 0 <= k < |ps| :: KfreeStep(trace[k], ps[k], trace[k + 1])
  }

  // p has been freed and can be told from a live pointer.
  ghost predicate Known(s: HeapState, p: nat) {
    p == 0 || (p >= HDR && StillFree(s.mem, s.blocks, p - HDR))
  }

  lemma KfreeStepFreed(s: HeapState, p: nat, t: HeapState)
    requires Linked(s.mem, s.blocks) && KfreeStep(s, p, t) && (IsLive(s.blocks, p) || Known(s, p))
    ensures Linked(t.mem, t.blocks) && t.blocks == FreePtr(s.blocks, p)
    ensures Known(t, p) && forall q: nat | Known(s, q) :: Known(t, q)
  {
    var n :| Scribbled(s.mem, n, s.blocks) && (Freeable(n, s.blocks, p) ==> Freed(HeapState(n, s.blocks), p, t));
    ScribbledKeeps(s.mem, n, s.blocks);
    assert Freeable(n, s.blocks, p);
  }

  // The state s after freeing the first pointers of ps one after the other.
  ghost predicate AllKnown(s: HeapState, bs: seq<Block>, ps: seq<nat>, k: nat) {
    && k <= |ps| && Linked(s.mem, s.blocks) && s.blocks == FreeAll(bs, ps[..k])
    && forall j | 0 <= j < k :: Known(s, ps[j])
  }

  lemma AllKnownStep(s: HeapState, t: HeapState, bs: seq<Block>, ps: seq<nat>, k: nat)
    requires AllKnown(s, bs, ps, k) && k < |ps| && MayFree(bs, ps, k) && KfreeStep(s, ps[k], t)
    ensures AllKnown(t, bs, ps, k + 1)
  {
    KfreeStepFreed(s, ps[k], t);
    FreeAllStep(bs, ps, k);
  }

  // While nothing is allocated the header of every pointer freed keeps reading
  // free, whatever clients write into what they still hold. So kfree does what
  // it should to NULL, live pointers and those freed earlier in the run.
  lemma {:induction false} KfreesKnown(trace: seq<HeapState>, ps: seq<nat>, k: nat)
    requires KfreeRun(trace, ps) && Linked(trace[0].mem, trace[0].blocks)
    requires AllMayFree(trace[0].blocks, ps) && k <= |ps|
    ensures AllKnown(trace[k], trace[0].blocks, ps, k)
  {
    if k > 0 {
      KfreesKnown(trace, ps, k - 1);
      AllKnownStep(trace[k - 1], trace[k], trace[0].blocks, ps, k - 1);
    }
  }

  // Giving back every live pointer, in any order and some of them twice, leaves
  // the one free block of init_kheap.
  lemma KfreesReclaim(trace: seq<HeapState>, ps: seq<nat>)
    requires KfreeRun(trace, ps) && WellFormed(trace[0].blocks) && Linked(trace[0].mem, trace[0].blocks)
    requires AllMayFree(trace[0].blocks, ps) && CoversLive(trace[0].blocks, ps)
    ensures Linked(trace[|ps|].mem, Fresh()) && trace[|ps|].blocks == Fresh()
  {
    KfreesKnown(trace, ps, |ps|);
    assert ps[..|ps|] == ps;
    AllFreed(trace[0].blocks, ps);
  }

  // Writing within one allocation leaves the list and all other allocations
  // as they were.
  lemma PayloadWritten(m: seq<byte>, n: seq<byte>, bs: seq<Block>, a: Alloc)
    requires Linked(m, bs) && a in Live(bs) && |n| == |m|
    requires forall x | 0 <= x < |m| && !(a.ptr <= x + HEAP_START < a.ptr + a.cap) :: n[x] == m[x]
    ensures Linked(n, bs)
    ensures forall b | b in Live(bs) && b != a :: AllocSame(m, n, b)
  {
    var i := LiveIndex(bs, 0, |bs|, a);
    forall j | 0 <= j < |bs|
      ensures HeaderOk(n, bs, j)
    {
      assert HeaderOk(m, bs, j);
      if j != i {
        HeadersApart(bs, i, j);
      }
      SameHeader(m, n, Addr(bs, j));
    }
    forall b | b in Live(bs) && b != a
      ensures AllocSame(m, n, b)
    {
      LiveApart(bs, a, b);
    }
  }

  // The bytes at [p, p + n).
  function Bytes(m: seq<byte>, p: nat, n: nat): seq<byte>
    requires |m| == HEAP_SIZE && Within(p, n)
  {
    m[p - HEAP_START..p - HEAP_START + n]
  }

  // The c bytes at p in m are the c bytes at r in n.
  ghost predicate Carried(m: seq<byte>, p: nat, n: seq<byte>, r: nat, c: nat) {
    && |m| == HEAP_SIZE && |n| == HEAP_SIZE && Within(p, c) && Within(r, c)
    && Bytes(n, r, c) == Bytes(m, p, c)
  }

  ghost predicate Zeroed(m: seq<byte>, p: nat, n: nat) {
    && |m| == HEAP_SIZE && Within(p, n)
    && forall x | p - HEAP_START <= x < p - HEAP_START + n :: m[x] == 0
  }

  // kfree of one allocation keeps the others live.
  lemma FreeKeeps(bs: seq<Block>, a: Alloc, b: Alloc)
    requires WellFormed(bs) && a in Live(bs) && b in Live(bs) && a != b
    ensures WellFormed(FreePtr(bs, a.ptr)) && b in Live(FreePtr(bs, a.ptr))
  {
    FreePtrLive(bs, a.ptr);
    SamePointer(bs, a);
  }

  lemma SameBytes(m: seq<byte>, n: seq<byte>, x: Alloc, c: nat)
    requires |m| == |n| == HEAP_SIZE && AllocSame(m, n, x) && c <= x.cap && Within(x.ptr, c)
    ensures Bytes(n, x.ptr, c) == Bytes(m, x.ptr, c)
  {
  }

  lemma MoveSame(m: seq<byte>, m2: seq<byte>, n: seq<byte>, bs: seq<Block>, a: Alloc, x: Alloc)
    requires |m| == |m2| == |n| == HEAP_SIZE && WellFormed(bs)
    requires a in Live(bs) && x in Live(bs) && a != x
    requires Within(a.ptr, a.cap) && Within(x.ptr, a.cap) && a.cap <= x.cap
    requires forall b | b in Live(bs) && b != x :: AllocSame(m, m2, b)
    requires WellFormed(FreePtr(bs, a.ptr))
    requires forall b | b in Live(FreePtr(bs, a.ptr)) :: AllocSame(m2, n, b)
    ensures forall b | b in Live(bs) && b != a && b != x :: AllocSame(m, n, b)
    ensures Bytes(n, x.ptr, a.cap) == Bytes(m2, x.ptr, a.cap)
  {
    forall b | b in Live(bs) && b != a
      ensures AllocSame(m2, n, b)
    {
      FreeKeeps(bs, a, b);
    }
    SameBytes(m2, n, x, a.cap);
  }

  // kmalloc kept the old block, the copy and the kfree kept the others.
  lemma GrowSame(m: seq<byte>, m1: seq<byte>, n: seq<byte>, bs: seq<Block>, a: Alloc, x: Alloc)
    requires |m| == |m1| == |n| == HEAP_SIZE && Sized(bs) && a in Live(bs) && x !in Live(bs)
    requires Within(a.ptr, a.cap) && Within(x.ptr, a.cap)
    requires forall b | b in Live(bs) :: AllocSame(m, m1, b)
    requires forall b | b in Live(bs) + {x} && b != a && b != x :: AllocSame(m1, n, b)
    requires Bytes(n, x.ptr, a.cap) == Bytes(m1, a.ptr, a.cap)
    ensures forall b | b in Live(bs) && b.ptr != a.ptr :: AllocSame(m, n, b)
    ensures Bytes(n, x.ptr, a.cap) == Bytes(m, a.ptr, a.cap)
  {
    forall b | b in Live(bs) && b.ptr != a.ptr
      ensures AllocSame(m, n, b)
    {
      assert b in Live(bs) + {x};
      assert AllocSame(m, m1, b) && AllocSame(m1, n, b);
    }
    SameBytes(m, m1, a, a.cap);
  }

  lemma Residue(v: nat)
    ensures v % WORD <= v
    ensures v < WORD <==> v % WORD == v
  {
  }

  // The block kcalloc gets holds num * size bytes exactly when the product
  // fits in 32 bits and that size does not wrap in kmalloc.
  lemma CallocRoom(bs: seq<Block>, num: nat, size: nat) returns (x: Alloc)
    requires WellFormed(bs) && Intact(bs, Mul32(num, size))
    requires MallocPtr(bs, Need(Mul32(num, size))) != 0
    ensures x in Live(Malloc(bs, Need(Mul32(num, size)))) && x.ptr == MallocPtr(bs, Need(Mul32(num, size)))
    ensures x.cap >= num * size <==> num * size <= MAX_REQUEST
    ensures x.cap >= Mul32(num, size) <==> CallocFits(bs, Mul32(num, size))
  {
    x := MallocLive(bs, Mul32(num, size));
    Residue(num * size);
  }

  class KernelHeap {
    const mem: array<byte>
    var used: nat
    ghost var blocks: seq<Block>

    ghost predicate Valid()
      reads this, mem
    {
      && mem.Length == HEAP_SIZE
      && WellFormed(blocks)
      && Linked(mem[..], blocks)
      && used == HDR + UsedTotal(blocks)
    }

    ghost function State(): HeapState
      reads this, mem
    {
      HeapState(mem[..], blocks)
    }

    // ---- accesses to header fields

    method LoadSize(p: nat) returns (v: nat)
      requires InHeap(mem[..], p)
      ensures v == HeaderAt(mem[..], p).size
    {
      v := PeekWord(mem, p - HEAP_START);
    }

    method LoadFree(p: nat) returns (v: byte)
      requires InHeap(mem[..], p)
      ensures v == HeaderAt(mem[..], p).isFree
    {
      v := mem[p - HEAP_START + 4];
    }

    method LoadNext(p: nat) returns (v: nat)
      requires InHeap(mem[..], p)
      ensures v == HeaderAt(mem[..], p).next < WORD
    {
      LeBound(mem[..], p - HEAP_START + 8, p - HEAP_START + 12);
      v := PeekWord(mem, p - HEAP_START + 8);
    }

    method LoadPrev(p: nat) returns (v: nat)
      requires InHeap(mem[..], p)
      ensures v == HeaderAt(mem[..], p).prev
    {
      v := PeekWord(mem, p - HEAP_START + 12);
    }

    method StoreSize(p: nat, v: nat)
      requires InHeap(mem[..], p) && v < WORD
      modifies mem
      ensures Wrote(old(mem[..]), mem[..], p, HeaderAt(old(mem[..]), p).(size := v))
    {
      PokeWord(mem, p - HEAP_START, v);
      SizeStored(old(mem[..]), p, v);
    }

    method StoreFree(p: nat, v: byte)
      requires InHeap(mem[..], p)
      modifies mem
      ensures Wrote(old(mem[..]), mem[..], p, HeaderAt(old(mem[..]), p).(isFree := v))
    {
      mem[p - HEAP_START + 4] := v;
      FreeStored(old(mem[..]), p, v);
      assert mem[..] == old(mem[..])[p - HEAP_START + 4 := v];
    }

    method StoreNext(p: nat, v: nat)
      requires InHeap(mem[..], p) && v < WORD
      modifies mem
      ensures Wrote(old(mem[..]), mem[..], p, HeaderAt(old(mem[..]), p).(next := v))
    {
      PokeWord(mem, p - HEAP_START + 8, v);
      NextStored(old(mem[..]), p, v);
    }

    method StorePrev(p: nat, v: nat)
      requires InHeap(mem[..], p) && v < WORD
      modifies mem
      ensures Wrote(old(mem[..]), mem[..], p, HeaderAt(old(mem[..]), p).(prev := v))
    {
      PokeWord(mem, p - HEAP_START + 12, v);
      PrevStored(old(mem[..]), p, v);
    }

    // All four fields, as init_kheap and a split fill them in.
    method StoreHeader(p: nat, h: Header)
      requires InHeap(mem[..], p) && h.size < WORD && h.next < WORD && h.prev < WORD
      modifies mem
      ensures Wrote(old(mem[..]), mem[..], p, h)
    {
      ghost var m := mem[..];
      StoreSize(p, h.size);
      ghost var a := mem[..];
      StoreFree(p, h.isFree);
      ghost var b := mem[..];
      WroteTrans(m, a, b, p, HeaderAt(a, p), HeaderAt(b, p));
      StoreNext(p, h.next);
      ghost var c := mem[..];
      WroteTrans(m, b, c, p, HeaderAt(b, p), HeaderAt(c, p));
      StorePrev(p, h.prev);
      WroteTrans(m, c, mem[..], p, HeaderAt(c, p), HeaderAt(mem[..], p));
    }

    // size and next, as a split or a merge changes them.
    method StoreExtent(p: nat, size: nat, next: nat)
      requires InHeap(mem[..], p) && size < WORD && next < WORD
      modifies mem
      ensures Wrote(old(mem[..]), mem[..], p, HeaderAt(old(mem[..]), p).(size := size, next := next))
    {
      ghost var m := mem[..];
      StoreSize(p, size);
      ghost var a := mem[..];
      StoreNext(p, next);
      WroteTrans(m, a, mem[..], p, HeaderAt(a, p), HeaderAt(mem[..], p));
    }

    // ---- init_kheap, from kernel/kheap.c:47-52

    constructor ()
      ensures Valid() && fresh(mem) && blocks == Fresh() == [Block(0x1000_0000, true)] && used == 16
    {
      mem := new byte[HEAP_SIZE];
      used := HDR;
      blocks := Fresh();
      new;
      StoreHeader(HEAP_START, Header(HEAP_SIZE, 1, 0, 0));
      FreshWellFormed();
      OneBlock(Block(HEAP_SIZE, true));
    }

    // ---- kmalloc

    // kernel/kheap.c:85-86.
    method FillLinks(current: nat, newBlock: nat) returns (ghost next': nat)
      requires InHeap(mem[..], current) && InHeap(mem[..], newBlock) && current < WORD
      modifies mem
      ensures next' == HeaderAt(old(mem[..]), current).next
      ensures Wrote(old(mem[..]), mem[..], newBlock, HeaderAt(old(mem[..]), newBlock).(next := next', prev := current))
    {
      ghost var m := mem[..];
      var next := LoadNext(current);
      StoreNext(newBlock, next);
      ghost var a := mem[..];
      StorePrev(newBlock, current);
      WroteTrans(m, a, mem[..], newBlock, HeaderAt(a, newBlock), HeaderAt(mem[..], newBlock));
      next' := next;
    }

    // The writes of kernel/kheap.c:82-86. A new block less than a header away
    // overlaps the old one, so that next may be read from what was just written.
    method FillNew(current: nat, newBlock: nat) returns (ghost next: nat)
      requires current <= newBlock && InHeap(mem[..], current) && InHeap(mem[..], newBlock)
      requires newBlock < WORD && newBlock - current <= HeaderAt(mem[..], current).size < WORD
      modifies mem
      ensures Wrote(old(mem[..]), mem[..], newBlock,
                    Header(HeaderAt(old(mem[..]), current).size - (newBlock - current), 1, next, current))
      ensures newBlock == current || current + HDR <= newBlock ==> next == HeaderAt(old(mem[..]), current).next
    {
      ghost var m := mem[..];
      var size := LoadSize(current);
      StoreSize(newBlock, size - (newBlock - current));
      ghost var a := mem[..];
      StoreFree(newBlock, 1);
      ghost var b := mem[..];
      WroteTrans(m, a, b, newBlock, HeaderAt(a, newBlock), HeaderAt(b, newBlock));
      next := FillLinks(current, newBlock);
      WroteTrans(m, b, mem[..], newBlock, HeaderAt(b, newBlock), HeaderAt(mem[..], newBlock));
    }

    // kernel/kheap.c:88-90. A link that leads out of the heap, as only a broken
    // header holds, makes C write outside the memory modelled here.
    method Redirect(current: nat, newBlock: nat)
      requires mem.Length == HEAP_SIZE && InHeap(mem[..], current) && newBlock < WORD
      modifies mem
      ensures var next := HeaderAt(old(mem[..]), current).next;
              if InHeap(old(mem[..]), next)
              then Wrote(old(mem[..]), mem[..], next, HeaderAt(old(mem[..]), next).(prev := newBlock))
              else mem[..] == old(mem[..])
    {
      var next := LoadNext(current);
      if next != 0 {
        if HEAP_START <= next && next + HDR <= HEAP_START + HEAP_SIZE {
          StorePrev(next, newBlock);
        }
      }
    }

    // The writes of kernel/kheap.c:82-93.
    method WriteSplit(current: nat, need: nat)
      returns (ghost m1: seq<byte>, ghost m2: seq<byte>, ghost next: nat)
      requires mem.Length == HEAP_SIZE && InHeap(mem[..], current) && InHeap(mem[..], current + need)
      requires need <= HeaderAt(mem[..], current).size < WORD && current + need < WORD
      modifies mem
      ensures SplitSteps(old(mem[..]), m1, m2, mem[..], current, need, next)
    {
      next := FillNew(current, current + need);
      m1 := mem[..];
      Redirect(current, current + need);
      m2 := mem[..];
      StoreExtent(current, need, current + need);
    }

    // kernel/kheap.c:80-94.
    method Split(current: nat, need: nat, ghost i: nat)
      requires mem.Length == HEAP_SIZE && Linked(mem[..], blocks)
      requires i < |blocks| && current == Addr(blocks, i) && blocks[i].free
      requires need % 8 == 0 && need + HDR + 8 <= blocks[i].size
      modifies mem, this`blocks
      ensures HDR <= need ==>
                && blocks == Splice(old(blocks), i, i + 1, SplitMid(old(blocks), i, need)) && Linked(mem[..], blocks)
                && forall j | 0 <= j < |old(blocks)| && j != i :: PayloadSame(old(mem[..]), mem[..], old(blocks), j)
      ensures need < HDR ==> Broken(old(mem[..]), mem[..], current, need)
    {
      ghost var bs, m := blocks, mem[..];
      SplitReady(m, bs, i, need);
      ghost var m1, m2, next := WriteSplit(current, need);
      SplitOutcome(m, m1, m2, mem[..], bs, i, need, next);
      if HDR <= need {
        blocks := Splice(bs, i, i + 1, SplitMid(bs, i, need));
        SplitDone(m, m1, m2, mem[..], bs, i, need);
      }
    }

    // kernel/kheap.c:96.
    method Claim(current: nat, ghost i: nat)
      requires mem.Length == HEAP_SIZE && Linked(mem[..], blocks)
      requires i < |blocks| && current == Addr(blocks, i) && blocks[i].free
      modifies mem, this`blocks
      ensures blocks == Splice(old(blocks), i, i + 1, [Block(old(blocks)[i].size, false)])
      ensures Linked(mem[..], blocks)
      ensures forall j | 0 <= j < |old(blocks)| :: PayloadSame(old(mem[..]), mem[..], old(blocks), j)
    {
      ghost var bs, m := blocks, mem[..];
      assert HeaderOk(m, bs, i);
      StoreFree(current, 0);
      blocks := Splice(bs, i, i + 1, [Block(bs[i].size, false)]);
      FlagDone(m, mem[..], bs, i, false);
    }

    // kernel/kheap.c:81-96 for a block that is split.
    method SplitAndClaim(current: nat, need: nat, ghost i: nat)
      requires mem.Length == HEAP_SIZE && Linked(mem[..], blocks)
      requires i < |blocks| && current == Addr(blocks, i) && blocks[i].free
      requires need % 8 == 0 && need + HDR + 8 <= blocks[i].size
      modifies mem, this`blocks
      ensures HDR <= need ==>
                && blocks == Take(old(blocks), i, need) && Linked(mem[..], blocks)
                && forall j | 0 <= j < |old(blocks)| && j != i :: PayloadSame(old(mem[..]), mem[..], old(blocks), j)
      ensures need < HDR ==> Broken(old(mem[..]), mem[..], current, need)
    {
      ghost var bs, m := blocks, mem[..];
      Split(current, need, i);
      if need < HDR {
        ghost var m1 := mem[..];
        StoreFree(current, 0);
        BrokenStill(m, m1, mem[..], current, need);
      } else {
        ghost var m1 := mem[..];
        TakeAfterSplit(bs, i, need);
        SpliceAddrLeft(bs, i, i + 1, SplitMid(bs, i, need), i);
        Claim(current, i);
        forall j | 0 <= j < |bs| && j != i
          ensures PayloadSame(m, mem[..], bs, j)
        {
          SplitPayloads(m, m1, mem[..], bs, i, need, j);
        }
      }
    }

    // kernel/kheap.c:80-96 on the free block found.
    method TakeBlock(current: nat, need: nat, ghost i: nat)
      requires mem.Length == HEAP_SIZE && WellFormed(blocks) && Linked(mem[..], blocks)
      requires i < |blocks| && blocks[i].free && need <= blocks[i].size && need % 8 == 0 && current == Addr(blocks, i)
      modifies mem, this`blocks
      ensures Takes(old(blocks), i, need) ==>
                && blocks == Take(old(blocks), i, need) && Linked(mem[..], blocks)
                && forall a | a in Live(old(blocks)) :: AllocSame(old(mem[..]), mem[..], a)
      ensures !Takes(old(blocks), i, need) ==> Broken(old(mem[..]), mem[..], current, need)
    {
      ghost var bs, m := blocks, mem[..];
      assert HeaderOk(m, bs, i);
      BlockInHeap(m, bs, i);
      var size := LoadSize(current);
      if size >= (need + HDR + 8) % WORD {
        SplitAndClaim(current, need, i);
      } else {
        Claim(current, i);
      }
      if Takes(bs, i, need) {
        LiveSame(m, mem[..], bs, i);
      }
    }

    // kernel/kheap.c:80-97 on the free block found.
    method Grant(current: nat, need: nat, ghost i: nat)
      requires Valid() && i < |blocks| && blocks[i].free && need <= blocks[i].size && need % 8 == 0
      requires current == Addr(blocks, i)
      modifies this, mem
      ensures Takes(old(blocks), i, need) ==>
                && Valid() && blocks == Take(old(blocks), i, need)
                && forall a | a in Live(old(blocks)) :: AllocSame(old(mem[..]), mem[..], a)
      ensures !Takes(old(blocks), i, need) ==> !Listed(mem[..])
    {
      ghost var bs, m := blocks, mem[..];
      BlockInHeap(m, bs, i);
      if Takes(bs, i, need) {
        TakeWellFormed(bs, i, need);
        TakeUsed(bs, i, need);
        TakeHead(bs, i, need);
      }
      TakeBlock(current, need, i);
      assert Takes(bs, i, need) ==> HeaderOk(mem[..], blocks, i);
      var size := LoadSize(current);
      used := used + size;
      if !Takes(bs, i, need) {
        NothingLinked(m, mem[..], bs, i, need);
      }
    }

    // The search of kernel/kheap.c:73-104: the first fit, or 0.
    method FindBlock(need: nat) returns (current: nat)
      requires Valid()
      ensures var i := FirstFit(blocks, need, 0);
              current == if i < |blocks| then Addr(blocks, i) else 0
    {
      current := HEAP_START;
      ghost var i := 0;
      while current != 0
        invariant 0 <= i <= |blocks| && current == if i < |blocks| then Addr(blocks, i) else 0
        invariant FirstFit(blocks, need, i) == FirstFit(blocks, need, 0)
        decreases |blocks| - i
      {
        assert HeaderOk(mem[..], blocks, i);
        var isFree := LoadFree(current);
        var size := LoadSize(current);
        if isFree != 0 && size >= need {
          return;
        }
        current := LoadNext(current);
        i := i + 1;
      }
    }

    // For every request C can make: if the rounding wraps so far that a block
    // shorter than its header is cut, no list of blocks describes the heap any
    // more; in all other cases everything is kept.
    method Kmalloc(n: nat) returns (ptr: nat)
      requires Valid() && n < WORD
      modifies this, mem
      ensures ptr == MallocPtr(old(blocks), Need(n))
      ensures Intact(old(blocks), n) ==>
                && Valid() && blocks == Malloc(old(blocks), Need(n))
                && forall a | a in Live(old(blocks)) :: AllocSame(old(mem[..]), mem[..], a)
      ensures !Intact(old(blocks), n) ==> !Listed(mem[..])
      ensures ptr == 0 ==> mem[..] == old(mem[..])
    {
      var need := Need(n);
      NeedCovers(n);
      var current := FindBlock(need);
      if current == 0 {
        return 0;
      }
      ghost var i := FirstFit(blocks, need, 0);
      FoundFit(blocks, n, i);
      Grant(current, need, i);
      ptr := current + HDR;
    }

    // ---- kfree

    // Block i swallows its successor: the writes of kernel/kheap.c:183-188 and
    // of kernel/kheap.c:193-198 alike.
    method Absorb(block: nat, next: nat, ghost i: nat)
      requires mem.Length == HEAP_SIZE && Linked(mem[..], blocks)
      requires i + 1 < |blocks| && block == Addr(blocks, i) && next == Addr(blocks, i + 1)
      requires blocks[i].free && blocks[i + 1].free
      modifies mem, this`blocks
      ensures blocks == Splice(old(blocks), i, i + 2, MergeMid(old(blocks), i))
      ensures Linked(mem[..], blocks)
      ensures FreedKept(old(mem[..]), old(blocks), mem[..], blocks)
      ensures Live(blocks) == Live(old(blocks))
      ensures forall a | a in Live(blocks) :: AllocSame(old(mem[..]), mem[..], a)
    {
      ghost var bs, m := blocks, mem[..];
      AbsorbReady(m, bs, i);
      var size := LoadSize(block);
      var size' := LoadSize(next);
      var after := LoadNext(next);
      StoreExtent(block, size + size', after);
      ghost var m1 := mem[..];
      if after != 0 {
        StorePrev(after, block);
      }
      blocks := Splice(bs, i, i + 2, MergeMid(bs, i));
      MergeDone(m, m1, mem[..], bs, i);
      MergeShape(bs, i);
      MergeKeepsFreed(m, m1, mem[..], bs, blocks, i);
      MergeLive(bs, i);
      AllSame(m, mem[..], bs);
    }

    // kernel/kheap.c:181-189.
    method MergeForward(block: nat, ghost i: nat)
      requires mem.Length == HEAP_SIZE && Linked(mem[..], blocks)
      requires i < |blocks| && block == Addr(blocks, i) && blocks[i].free
      modifies mem, this`blocks
      ensures blocks == MergeNext(old(blocks), i) && Linked(mem[..], blocks)
      ensures FreedKept(old(mem[..]), old(blocks), mem[..], blocks)
      ensures Live(blocks) == Live(old(blocks))
      ensures forall a | a in Live(blocks) :: AllocSame(old(mem[..]), mem[..], a)
      ensures i < |blocks| && blocks[i].free && block == Addr(blocks, i)
    {
      ghost var bs := blocks;
      NextReady(mem[..], bs, i);
      var next := LoadNext(block);
      if next != 0 {
        var nextFree := LoadFree(next);
        if nextFree != 0 {
          Absorb(block, next, i);
          SpliceAddrLeft(bs, i, i + 2, MergeMid(bs, i), i);
        }
      }
    }

    // kernel/kheap.c:192-199.
    method MergeBackward(block: nat, ghost i: nat)
      requires mem.Length == HEAP_SIZE && Linked(mem[..], blocks)
      requires i < |blocks| && block == Addr(blocks, i) && blocks[i].free
      modifies mem, this`blocks
      ensures blocks == MergePrev(old(blocks), i) && Linked(mem[..], blocks)
      ensures FreedKept(old(mem[..]), old(blocks), mem[..], blocks)
      ensures Live(blocks) == Live(old(blocks))
      ensures forall a | a in Live(blocks) :: AllocSame(old(mem[..]), mem[..], a)
    {
      PrevReady(mem[..], blocks, i);
      var prev := LoadPrev(block);
      if prev != 0 {
        var prevFree := LoadFree(prev);
        if prevFree != 0 {
          Absorb(prev, block, i - 1);
        }
      }
    }

    // kernel/kheap.c:163-177, for any pointer into the heap.
    method MarkFree(ptr: nat) returns (marked: bool)
      requires mem.Length == HEAP_SIZE && (ptr == 0 || (ptr >= HDR && InHeap(mem[..], ptr - HDR)))
      modifies mem
      ensures marked <==> ptr != 0 && !IsFreeAt(old(mem[..]), ptr - HDR)
      ensures mem[..] == MarkedFree(old(mem[..]), ptr)
    {
      if ptr == 0 {
        return false;
      }
      var isFree := LoadFree(ptr - HDR);
      if isFree != 0 {
        return false;
      }
      mem[ptr - HDR - HEAP_START + 4] := 1;
      marked := true;
    }

    // kernel/kheap.c:178-199: the used block i, just marked free in m, goes
    // back and is merged.
    method FreeBlock(block: nat, ghost i: nat, ghost m: seq<byte>)
      requires mem.Length == HEAP_SIZE && WellFormed(blocks) && Linked(m, blocks) && used == HDR + UsedTotal(blocks)
      requires i == BlockAt(blocks, block + HDR, 0) < |blocks|
      requires Wrote(m, mem[..], block, Expected(blocks, i).(isFree := 1))
      modifies this, mem
      ensures Valid() && blocks == FreePtr(old(blocks), block + HDR)
      ensures Freed(HeapState(m, old(blocks)), block + HDR, State())
      ensures forall a | a in Live(blocks) :: AllocSame(m, mem[..], a)
    {
      ghost var bs := blocks;
      FreeUsed(bs, i);
      FreeWellFormed(bs, i);
      Released(m, mem[..], bs, i);
      blocks := Release(bs, i);
      var size := LoadSize(block);
      used := used - size;
      MergeForward(block, i);
      MergeBackward(block, i);
    }

    method Kfree(ptr: nat)
      requires Valid() && Freeable(mem[..], blocks, ptr)
      modifies this, mem
      ensures Valid() && blocks == FreePtr(old(blocks), ptr)
      ensures forall a | a in Live(blocks) :: AllocSame(old(mem[..]), mem[..], a)
      ensures !IsLive(old(blocks), ptr) ==> mem[..] == old(mem[..])
      // The header just freed reads free, merged or not, and so do those freed
      // before.
      ensures Freed(old(State()), ptr, State())
    {
      ghost var m, bs := mem[..], blocks;
      FreeableAt(m, bs, ptr);
      var marked := MarkFree(ptr);
      if marked {
        FreeStored(m, ptr - HDR, 1);
        FreeBlock(ptr - HDR, BlockAt(bs, ptr, 0), m);
      } else {
        NothingFreed(State(), ptr);
      }
    }

    // The memcpy of kernel/kheap.c:141 into allocation a.
    method CopyInto(dst: nat, src: nat, len: nat, ghost a: Alloc)
      requires Valid() && a in Live(blocks) && a.ptr == dst && len <= a.cap
      requires HEAP_START <= src && src + len <= HEAP_START + HEAP_SIZE
      requires src + len <= dst || dst + len <= src
      requires HEAP_START <= dst && dst + a.cap <= HEAP_START + HEAP_SIZE
      modifies mem
      ensures Valid()
      ensures forall b | b in Live(blocks) && b != a :: AllocSame(old(mem[..]), mem[..], b)
      ensures Bytes(mem[..], dst, len) == old(Bytes(mem[..], src, len))
    {
      ghost var m := mem[..];
      CopyWithin(mem, dst - HEAP_START, src - HEAP_START, len);
      PayloadWritten(m, mem[..], blocks, a);
      assert mem[..][dst - HEAP_START..dst - HEAP_START + len] == mem[dst - HEAP_START..dst - HEAP_START + len];
      assert m[src - HEAP_START..src - HEAP_START + len] == old(mem[src - HEAP_START..src - HEAP_START + len]);
    }

    // The memset of kernel/kheap.c:155 into allocation a.
    method ZeroInto(dst: nat, len: nat, ghost a: Alloc)
      requires Valid() && a in Live(blocks) && a.ptr == dst && len <= a.cap
      requires HEAP_START <= dst && dst + a.cap <= HEAP_START + HEAP_SIZE
      modifies mem
      ensures Valid()
      ensures forall b | b in Live(blocks) && b != a :: AllocSame(old(mem[..]), mem[..], b)
      ensures Zeroed(mem[..], dst, len)
    {
      ghost var m := mem[..];
      ZeroBytes(mem, dst - HEAP_START, len);
      PayloadWritten(m, mem[..], blocks, a);
    }

    // kernel/kheap.c:152-158.
    method ZeroedAlloc(total: nat) returns (ptr: nat)
      requires Valid() && CallocFits(blocks, total)
      modifies this, mem
      ensures Valid()
      ensures ptr == MallocPtr(old(blocks), Need(total))
      ensures blocks == Malloc(old(blocks), Need(total))
      ensures forall a | a in Live(old(blocks)) :: AllocSame(old(mem[..]), mem[..], a)
      ensures ptr == 0 ==> mem[..] == old(mem[..])
      ensures ptr != 0 ==> Zeroed(mem[..], ptr, total)
    {
      NeedCovers(total);
      ghost var bs, m := blocks, mem[..];
      ptr := Kmalloc(total);
      if ptr != 0 {
        ghost var x := MallocLive(bs, total);
        ghost var m1 := mem[..];
        ZeroInto(ptr, total, x);
        forall a | a in Live(bs)
          ensures AllocSame(m, mem[..], a)
        {
          assert AllocSame(m, m1, a) && AllocSame(m1, mem[..], a);
        }
      }
    }

    method Kcalloc(num: nat, size: nat) returns (ptr: nat)
      requires Valid() && CallocFits(blocks, Mul32(num, size))
      modifies this, mem
      ensures Valid()
      ensures ptr == MallocPtr(old(blocks), Need(Mul32(num, size)))
      ensures blocks == Malloc(old(blocks), Need(Mul32(num, size)))
      ensures forall a | a in Live(old(blocks)) :: AllocSame(old(mem[..]), mem[..], a)
      ensures ptr == 0 ==> mem[..] == old(mem[..])
      ensures ptr != 0 ==> Zeroed(mem[..], ptr, Mul32(num, size))
    {
      var total := Mul32(num, size);
      ptr := ZeroedAlloc(total);
    }

    // kernel/kheap.c:141-144.
    method MoveAndFree(dst: nat, src: nat, len: nat, ghost x: Alloc, ghost a: Alloc)
      requires Valid() && x in Live(blocks) && a in Live(blocks) && x != a
      requires x.ptr == dst && a.ptr == src && a.cap == len && len <= x.cap
      requires Within(src, len) && Within(dst, x.cap)
      modifies this, mem
      ensures Valid() && blocks == FreePtr(old(blocks), src)
      ensures forall b | b in Live(old(blocks)) && b != a && b != x :: AllocSame(old(mem[..]), mem[..], b)
      ensures Bytes(mem[..], dst, len) == old(Bytes(mem[..], src, len))
    {
      ghost var bs, m := blocks, mem[..];
      LiveApart(bs, x, a);
      CopyInto(dst, src, len, x);
      ghost var m2 := mem[..];
      StillLive(bs, src, a);
      Kfree(src);
      MoveSame(m, m2, mem[..], bs, a, x);
    }

    // kernel/kheap.c:135-146: the old block is too small.
    method Grow(ptr: nat, size: nat, oldSize: nat, ghost i: nat) returns (r: nat)
      requires Valid() && i == BlockAt(blocks, ptr, 0) && i < |blocks|
      requires oldSize == blocks[i].size - HDR && oldSize < size && Receives(blocks, size, oldSize)
      modifies this, mem
      ensures Valid()
      ensures r == MallocPtr(old(blocks), Need(size))
      ensures r == 0 ==> blocks == old(blocks) && mem[..] == old(mem[..])
      ensures r != 0 ==> blocks == FreePtr(Malloc(old(blocks), Need(size)), ptr)
      ensures forall a | a in Live(old(blocks)) && a.ptr != ptr :: AllocSame(old(mem[..]), mem[..], a)
      ensures r != 0 ==> Carried(old(mem[..]), ptr, mem[..], r, oldSize)
    {
      ghost var bs, m := blocks, mem[..];
      LiveHeader(m, bs, ptr);
      NeedCovers(size);
      r := Kmalloc(size);
      if r != 0 {
        ghost var x := MallocLive(bs, size);
        ghost var m1 := mem[..];
        MoveAndFree(r, ptr, oldSize, x, AllocOf(bs, i));
        GrowSame(m, m1, mem[..], bs, AllocOf(bs, i), x);
      }
    }

    // kernel/kheap.c:126-127.
    method PayloadSize(ptr: nat, ghost i: nat) returns (c: nat)
      requires Valid() && i == BlockAt(blocks, ptr, 0) && i < |blocks|
      ensures c == blocks[i].size - HDR == Capacity(blocks, ptr) && Within(ptr, c)
    {
      LiveHeader(mem[..], blocks, ptr);
      c := LoadSize(ptr - HDR);
      c := c - HDR;
    }

    // kernel/kheap.c:125-146.
    method Resize(ptr: nat, size: nat, ghost i: nat, ghost c: nat) returns (r: nat)
      requires Valid() && i == BlockAt(blocks, ptr, 0) && i < |blocks| && c == blocks[i].size - HDR
      requires size < WORD && (size > c ==> Receives(blocks, size, c))
      modifies this, mem
      ensures Valid()
      ensures size <= c ==> r == ptr && blocks == old(blocks) && mem[..] == old(mem[..])
      ensures size > c ==>
                && r == MallocPtr(old(blocks), Need(size))
                && blocks == (if r == 0 then old(blocks) else FreePtr(Malloc(old(blocks), Need(size)), ptr))
      ensures r == 0 ==> mem[..] == old(mem[..])
      ensures forall a | a in Live(old(blocks)) && a.ptr != ptr :: AllocSame(old(mem[..]), mem[..], a)
      ensures r != 0 ==> Carried(old(mem[..]), ptr, mem[..], r, c)
    {
      var oldSize := PayloadSize(ptr, i);
      if size <= oldSize {
        return ptr;
      }
      r := Grow(ptr, size, oldSize, i);
    }

    method Krealloc(ptr: nat, size: nat) returns (r: nat)
      requires Valid() && ReallocFits(blocks, ptr, size)
      requires ptr == 0 || IsLive(blocks, ptr)
      modifies this, mem
      ensures Valid()
      ensures r == ReallocPtr(old(blocks), ptr, size)
      ensures blocks == Realloc(old(blocks), ptr, size)
      // What becomes of the live allocations.
      ensures ptr == 0 ==> Allocated(Live(old(blocks)), size, r, Live(blocks))
      ensures forall a | a in Live(old(blocks)) && a.ptr == ptr ::
                Resized(Live(old(blocks)), a, size, r, Live(blocks))
      ensures forall a | a in Live(old(blocks)) && a.ptr != ptr :: AllocSame(old(mem[..]), mem[..], a)
      // The whole old payload is a prefix of the new one.
      ensures ptr != 0 && r != 0 ==> Carried(old(mem[..]), ptr, mem[..], r, Capacity(old(blocks), ptr))
      // A failed call changes nothing.
      ensures r == 0 && (ptr == 0 || size != 0) ==> blocks == old(blocks) && mem[..] == old(mem[..])
    {
      ReallocLive(blocks, ptr, size);
      if ptr == 0 {
        NeedCovers(size);
        r := Kmalloc(size);
        return;
      }
      LiveHeader(mem[..], blocks, ptr);
      if size == 0 {
        FreePtrLive(blocks, ptr);
        Kfree(ptr);
        return 0;
      }
      r := Resize(ptr, size, BlockAt(blocks, ptr, 0), Capacity(blocks, ptr));
    }
  }
}
