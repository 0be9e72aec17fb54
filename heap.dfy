/**
 * The allocator of myHeap.c as an object: the mapped region, the globals
 * heapStart, allocsize and recentAlloc, and myInit's static allocated_once.
 * Init, Alloc, Free and DispMem change and read the region word by word as
 * the C functions do; `blocks` is the chain those words hold, and Valid()
 * ties the two together.
 *
 * Alloc and Free carry the corrections listed under Findings in README.md
 * (the size check, the p-bit at the wrap and after an exact fit, the cursor
 * after coalescing); module AsWritten keeps the code as written.
 */
module MyHeap {
  import opened Encoding
  import opened BlockChain
  import opened Placement
  import opened Coalescing

  /** A C pointer into the region, as a byte offset from its page-aligned start, or NULL. */
  datatype Pointer = Null | Ptr(offset: int)

  /** One line of dispMem's block list: No., Status, Prev, t_Begin, t_End, t_Size. */
  datatype Row = Row(no: int, isUsed: bool, prevUsed: bool, begin: int, end: int, size: int)

  /** The line dispMem prints for block i. */
  ghost function RowOf(bs: seq<Block>, i: int): Row
    requires 0 <= i < |bs|
  {
    Row(i + 1, bs[i].isAlloc, PrevAlloc(bs, i), bs[i].addr, End(bs[i]) - 1, bs[i].size)
  }

  /** Blocks next-fit has already looked at: from s up to j, around the wrap when `wrapped`. */
  predicate Visited(s: int, j: int, wrapped: bool, i: int)
  {
    if wrapped then s <= i || i < j else s <= i < j
  }

  /** One step of the scan, from block j0 to block j, adds block j0 to the
      blocks visited. */
  lemma VisitedGrows(s: int, j0: int, w0: bool, j: int, wrapped: bool, n: int)
    requires 0 <= s < n && 0 <= j0 < n && (w0 ==> j0 < s) && (!w0 ==> s <= j0)
    requires (j == j0 + 1 && wrapped == w0) || (j0 + 1 == n && j == 0 && wrapped)
    ensures forall i :: 0 <= i < n && Visited(s, j, wrapped, i) ==> Visited(s, j0, w0, i) || i == j0
  {
  }

  /** A block of bs starting at a is allocated. */
  ghost predicate AllocatedAt(bs: seq<Block>, a: int)
  {
    exists i :: 0 <= i < |bs| && bs[i].addr == a && bs[i].isAlloc
  }

  /** Where the next-fit cursor goes once the merged block M has been freed:
      a cursor strictly inside M moves to M's header. */
  function Retarget(cursor: Pointer, M: Block): (r: Pointer)
    ensures r.Ptr? <==> cursor.Ptr?
    ensures r.Ptr? && !(M.addr < cursor.offset < End(M)) ==> r == cursor
    ensures r.Ptr? && M.addr < cursor.offset < End(M) ==> r.offset == M.addr
  {
    if cursor.Ptr? && M.addr < cursor.offset < End(M) then Ptr(M.addr) else cursor
  }

  /** The words of a fresh region of allocsize + 8 zero bytes after myInit
      (myHeap.c:317-334): the end mark, one free block of allocsize bytes with
      p-bit 1, and its footer. */
  function InitImage(allocsize: int): (m: seq<int>)
    requires allocsize >= 8 && allocsize % 8 == 0
    ensures |m| == allocsize / 4 + 2
  {
    var z := seq(allocsize / 4 + 2, _ => 0);
    z[(HeapStart + allocsize) / 4 := EndMark][HeapStart / 4 := allocsize + 2]
     [(HeapStart + allocsize - WordSize) / 4 := allocsize]
  }

  /** myInit's words: at word 1 (heapStart) the header allocsize + 2 of a free
      block of allocsize bytes with p-bit 1, its footer at word allocsize / 4,
      the end mark right after it, and zero everywhere else. */
  lemma InitImageWords(allocsize: int)
    requires allocsize >= 8 && allocsize % 8 == 0
    ensures var m, w := InitImage(allocsize), allocsize / 4;
      m[HeapStart / 4] == allocsize + 2 && m[w] == allocsize && m[w + 1] == EndMark &&
      forall i :: 0 <= i < |m| && i != HeapStart / 4 && i != w && i != w + 1 ==> m[i] == 0
  {
    var m, w := InitImage(allocsize), allocsize / 4;
    assert (HeapStart + allocsize - WordSize) / 4 == w && (HeapStart + allocsize) / 4 == w + 1;
    assert m == seq(w + 2, _ => 0)[w + 1 := EndMark][1 := allocsize + 2][w := allocsize];
  }

  /** myInit leaves a well-formed heap of one free block, and dispMem's walk finds just that block. */
  lemma InitImageHeap(allocsize: int)
    requires allocsize >= 8 && allocsize % 8 == 0
    ensures HeapImage(InitImage(allocsize), [Block(HeapStart, allocsize, false)], allocsize)
    ensures Walk(InitImage(allocsize), HeapStart) == Some([Block(HeapStart, allocsize, false)])
  {
    var bs := [Block(HeapStart, allocsize, false)];
    var m := InitImage(allocsize);
    Mod8(allocsize);
    assert (HeapStart + allocsize - WordSize) / 4 == allocsize / 4;
    assert (HeapStart + allocsize) / 4 == allocsize / 4 + 1;
    assert Encode(Header(allocsize, false, true)) == allocsize + 2;
    assert TaggedAt(m, bs, 0);
    WalkRecoversChain(m, bs, allocsize);
  }

  /** A region rounded up to a whole number of pages of a multiple of 8 bytes,
      at least 16, leaves a heap of at least one 8-byte block. */
  lemma PageSizedHeap(sizeOfRegion: int, pagesize: int)
    requires sizeOfRegion > 0 && pagesize >= 16 && pagesize % 8 == 0
    ensures var total := RoundToPage(sizeOfRegion, pagesize);
      total % 8 == 0 && total >= 16
  {
    var total := RoundToPage(sizeOfRegion, pagesize);
    var q := total / pagesize;
    assert total == pagesize * q;
    assert q >= 1;
    assert total == 8 * ((pagesize / 8) * q);
    MulAtLeast(pagesize, q);
  }

  /** The words myAlloc and dispMem read at the header of block j, and what
      stripping its status bits the way the code does leaves. */
  lemma HeaderAt(m: seq<int>, bs: seq<Block>, allocsize: int, j: int)
    requires HeapImage(m, bs, allocsize) && 0 <= j < |bs|
    ensures InRange(m, bs[j].addr)
    ensures var v := m[bs[j].addr / 4];
      v != EndMark && (ABit(v) == 1 <==> bs[j].isAlloc) &&
      (bs[j].isAlloc ==>
        (PBit(v - 1) == 2 <==> PrevAlloc(bs, j)) && (if PBit(v - 1) == 2 then v - 3 else v - 1) == bs[j].size) &&
      (!bs[j].isAlloc ==>
        (PBit(v) == 2 <==> PrevAlloc(bs, j)) && (if PBit(v) == 2 then v - 2 else v) == bs[j].size)
  {
    BlockFacts(bs, allocsize, j);
    assert TaggedAt(m, bs, j);
    var b := bs[j];
    var pa := PrevAlloc(bs, j);
    var f := Encode(Header(b.size, false, pa));
    assert Encode(Header(b.size, b.isAlloc, pa)) == f + (if b.isAlloc then 1 else 0);
    assert f == b.size + (if pa then 2 else 0);
  }

  /** Stepping over block j lands on block j + 1, or on the end mark after the last block. */
  lemma NextAt(m: seq<int>, bs: seq<Block>, allocsize: int, j: int)
    requires HeapImage(m, bs, allocsize) && 0 <= j < |bs|
    ensures InRange(m, End(bs[j]))
    ensures j + 1 < |bs| ==> End(bs[j]) == bs[j + 1].addr && m[End(bs[j]) / 4] != EndMark
    ensures j + 1 == |bs| ==> End(bs[j]) == HeapStart + allocsize && m[End(bs[j]) / 4] == EndMark
  {
    if j + 1 < |bs| {
      assert Linked(bs, j);
      HeaderAt(m, bs, allocsize, j + 1);
    } else {
      Mod8(allocsize);
    }
  }

  /** Different blocks start at different addresses. */
  lemma StartsDistinct(bs: seq<Block>, allocsize: int, i: int, j: int)
    requires Chain(bs, allocsize) && 0 <= i < |bs| && 0 <= j < |bs| && i != j
    ensures bs[i].addr != bs[j].addr
  {
    if i < j {
      BlockOrder(bs, allocsize, i, j);
      BlockFacts(bs, allocsize, i);
    } else {
      BlockOrder(bs, allocsize, j, i);
      BlockFacts(bs, allocsize, j);
    }
  }

  /** A pointer to the payload of a block passes myFree's three pointer checks. */
  lemma PayloadInBounds(bs: seq<Block>, allocsize: int, i: int)
    requires Chain(bs, allocsize) && 0 <= i < |bs|
    ensures var p := bs[i].addr + WordSize;
      p % 8 == 0 && HeapStart <= p <= HeapStart + allocsize
  {
    BlockFacts(bs, allocsize, i);
    Mod8(bs[i].addr - 4);
  }

  /** Every block start survives a split, so a cursor stays on a header. */
  lemma PlaceKeepsStarts(bs: seq<Block>, k: int, need: int, a: int)
    requires 0 <= k < |bs| && IsBlockStart(bs, a)
    ensures IsBlockStart(Place(bs, k, need), a)
  {
    var i :| 0 <= i < |bs| && bs[i].addr == a;
    if i > k && bs[k].size > need {
      PlaceIndex(bs, k, need, i + 1);
      assert Place(bs, k, need)[i + 1].addr == a;
    } else {
      PlaceIndex(bs, k, need, i);
      assert Place(bs, k, need)[i].addr == a;
    }
  }

  /** After a free, the merged block starts a block, and so does every old block
      start that does not lie strictly inside it. */
  lemma ReleaseKeepsStarts(bs: seq<Block>, allocsize: int, k: int, a: int)
    requires Chain(bs, allocsize) && 0 <= k < |bs|
    requires IsBlockStart(bs, a) && !(Merged(bs, k).addr < a < End(Merged(bs, k)))
    ensures IsBlockStart(Release(bs, k), a)
  {
    var nb := Release(bs, k);
    var lo, hi := Lo(bs, k), Hi(bs, k);
    var i :| 0 <= i < |bs| && bs[i].addr == a;
    if i < lo {
      ReleaseIndex(bs, k, i);
      assert nb[i].addr == a;
    } else if i == lo {
      ReleaseIndex(bs, k, lo);
      assert nb[lo].addr == a;
    } else if i < hi {
      BlockOrder(bs, allocsize, lo, i);
      BlockFacts(bs, allocsize, lo);
      BlockFacts(bs, allocsize, i);
      if i < hi - 1 {
        BlockOrder(bs, allocsize, i, hi - 1);
      }
      assert false;
    } else {
      var t := i - hi + lo + 1;
      ReleaseIndex(bs, k, t);
      assert nb[t].addr == a;
    }
  }

  /** The merged block starts a block of the new chain. */
  lemma MergedStarts(bs: seq<Block>, k: int)
    requires 0 <= k < |bs|
    ensures IsBlockStart(Release(bs, k), Merged(bs, k).addr)
  {
    ReleaseIndex(bs, k, Lo(bs, k));
  }

  /** myAlloc keeps the heap well formed: once the request takes block k,
      which fits it and whose predecessor is allocated, the words hold the
      chain Place computes, and the cursor, set to the block's header, points
      at a block of it. */
  lemma AllocKeepsHeap(m: seq<int>, bs: seq<Block>, allocsize: int, k: int, need: int, m': seq<int>)
    requires HeapImage(m, bs, allocsize)
    requires 0 <= k < |bs| && Fits(bs[k], need) && need >= 8 && need % 8 == 0 && PrevAlloc(bs, k)
    requires PlaceWritesChecked(m, bs[k].addr, bs[k].size, need, 2) == Some(m')
    ensures HeapImage(m', Place(bs, k, need), allocsize)
    ensures IsBlockStart(Place(bs, k, need), bs[k].addr)
  {
    PlaceStored(m, bs, allocsize, k, need);
    PlaceKeepsChain(bs, allocsize, k, need);
    PlaceIndex(bs, k, need, k);
  }

  /** myFree keeps the heap well formed: after freeing allocated block k with
      the corrected writes, the words hold the chain Release computes, and
      the cursor, moved as Retarget says, still points at a block header (or
      is still NULL). */
  lemma FreeKeepsHeap(m: seq<int>, bs: seq<Block>, allocsize: int, k: int, m': seq<int>, cursor: Pointer)
    requires HeapImage(m, bs, allocsize) && 0 <= k < |bs| && bs[k].isAlloc
    requires FreeWrites(m, bs[k].addr) == Some(m')
    requires cursor.Null? || IsBlockStart(bs, cursor.offset)
    ensures HeapImage(m', Release(bs, k), allocsize)
    ensures var r := Retarget(cursor, Merged(bs, k)); r.Null? || IsBlockStart(Release(bs, k), r.offset)
  {
    ReleaseShape(m, bs, allocsize, k);
    ReleaseStored(m, bs, allocsize, k);
    ReleaseKeepsChain(bs, allocsize, k);
    var M := Merged(bs, k);
    var m1 := ReleasedImage(m, bs, k);
    var cur, v := bs[k].addr, m1[bs[k].addr / 4];
    if ABit(v) == 1 {
      MergedInterior(m1, bs, allocsize, k);
      InteriorWrite(m1, Release(bs, k), allocsize, Lo(bs, k), cur, v - 1);
      assert m' == m1[cur / 4 := v - 1];
    } else {
      assert m' == m1;
    }
    if cursor.Ptr? {
      if M.addr < cursor.offset < End(M) {
        MergedStarts(bs, k);
      } else {
        ReleaseKeepsStarts(bs, allocsize, k, cursor.offset);
      }
    }
  }

  /** When the freed header still reads as allocated after myFree's writes,
      the block was merged into its free predecessor: its header lies
      strictly inside the merged block, which is block Lo of the new chain. */
  lemma MergedInterior(m1: seq<int>, bs: seq<Block>, allocsize: int, k: int)
    requires Chain(bs, allocsize) && 0 <= k < |bs| && bs[k].isAlloc
    requires HeapImage(m1, Release(bs, k), allocsize)
    requires Addressable(m1, bs[k].addr) && ABit(m1[bs[k].addr / 4]) == 1
    ensures 0 <= Lo(bs, k) < |Release(bs, k)| && Release(bs, k)[Lo(bs, k)] == Merged(bs, k)
    ensures Merged(bs, k).addr < bs[k].addr < End(Merged(bs, k)) - WordSize && bs[k].addr % 4 == 0
  {
    var nb, lo, hi, M := Release(bs, k), Lo(bs, k), Hi(bs, k), Merged(bs, k);
    ReleaseIndex(bs, k, lo);
    assert TaggedAt(m1, nb, lo);
    assert ABit(m1[M.addr / 4]) == 0;
    BlockFacts(bs, allocsize, k);
    if lo < k {
      BlockOrder(bs, allocsize, lo, k);
      BlockFacts(bs, allocsize, lo);
    }
    if hi - 1 > k {
      BlockOrder(bs, allocsize, k, hi - 1);
      BlockFacts(bs, allocsize, hi - 1);
    }
  }

  /** A word strictly inside a free block, past its header and before its
      footer, is no tag of the heap: writing it keeps the heap. */
  lemma InteriorWrite(m: seq<int>, bs: seq<Block>, allocsize: int, j: int, a: int, v: int)
    requires HeapImage(m, bs, allocsize) && 0 <= j < |bs| && !bs[j].isAlloc
    requires bs[j].addr < a < End(bs[j]) - WordSize && a % 4 == 0 && Addressable(m, a)
    ensures HeapImage(m[a / 4 := v], bs, allocsize)
  {
    var m' := m[a / 4 := v];
    BlockFacts(bs, allocsize, j);
    Mod8(allocsize);
    WordOrder(a, HeapStart + allocsize);
    forall i | 0 <= i < |bs|
      ensures TaggedAt(m', bs, i)
    {
      BlockFacts(bs, allocsize, i);
      BlockWords(bs[i]);
      assert TaggedAt(m, bs, i);
      if i < j {
        BlockOrder(bs, allocsize, i, j);
        WordOrder(End(bs[i]) - WordSize, a);
        WordOrder(bs[i].addr, a);
      } else if i > j {
        BlockOrder(bs, allocsize, j, i);
        WordOrder(a, bs[i].addr);
        WordOrder(a, End(bs[i]) - WordSize);
      } else {
        WordOrder(bs[i].addr, a);
        WordOrder(a, End(bs[i]) - WordSize);
      }
      TaggedFrame(m, m', bs[i], PrevAlloc(bs, i));
    }
  }

  /** What myFree finds in the words m when it frees the `size`-byte block at
      `cur` whose header has p-bit prevAlloc (myHeap.c:212-252): the header,
      the successor word, and, when the predecessor is free, its footer and
      header; the block it builds starts at maddr and has msize bytes. */
  ghost predicate ReleasePre(m: seq<int>, cur: int, size: int, prevAlloc: int, maddr: int, msize: int)
  {
    InRange(m, cur) && size % 8 == 0 && InRange(m, cur + size) &&
    (prevAlloc == 0 || prevAlloc == 2) && m[cur / 4] == size + 1 + prevAlloc &&
    InRange(m, maddr + msize - WordSize) &&
    var ts := Absorbed(size, m[(cur + size) / 4]);
    if prevAlloc == 2 then maddr == cur && msize == ts
    else
      InRange(m, cur - WordSize) && (cur - WordSize) / 4 < (cur + size) / 4 &&
      cur - m[(cur - WordSize) / 4] == maddr &&
      InRange(m, maddr) && maddr / 4 < (cur + size) / 4 &&
      m[maddr / 4] + ts == msize + 2 && PBit(msize + 2) == 2
  }

  /** Freeing allocated block k of a well-formed heap finds what ReleasePre
      describes, and builds the merged block. */
  lemma FreeReads(m: seq<int>, bs: seq<Block>, allocsize: int, k: int)
    requires HeapImage(m, bs, allocsize)
    requires 0 <= k < |bs| && bs[k].isAlloc
    ensures ReleasePre(m, bs[k].addr, bs[k].size, if PrevAlloc(bs, k) then 2 else 0,
                       Merged(bs, k).addr, Merged(bs, k).size)
  {
    if PrevAlloc(bs, k) {
      FreeReadsAfterUsed(m, bs, allocsize, k);
    } else {
      FreeReadsAfterFree(m, bs, allocsize, k);
    }
  }

  /** FreeReads when the freed block's predecessor is allocated or absent. */
  lemma FreeReadsAfterUsed(m: seq<int>, bs: seq<Block>, allocsize: int, k: int)
    requires HeapImage(m, bs, allocsize)
    requires 0 <= k < |bs| && bs[k].isAlloc && PrevAlloc(bs, k)
    ensures ReleasePre(m, bs[k].addr, bs[k].size, 2, Merged(bs, k).addr, Merged(bs, k).size)
  {
    var b, M := bs[k], Merged(bs, k);
    ReleaseReads(m, bs, allocsize, k);
    assert m[b.addr / 4] == b.size + 3;
    FreeReadsNext(m, bs, allocsize, k);
    BlockFacts(bs, allocsize, k);
    assert Lo(bs, k) == k && M.addr == b.addr;
    assert InRange(m, End(M) - WordSize) by {
      HeaderAligned(M.addr);
      Mod8(M.size);
      AlignedSum(M.addr, M.size);
    }
  }

  /** FreeReads when the freed block's predecessor is free. */
  lemma FreeReadsAfterFree(m: seq<int>, bs: seq<Block>, allocsize: int, k: int)
    requires HeapImage(m, bs, allocsize)
    requires 0 <= k < |bs| && bs[k].isAlloc && !PrevAlloc(bs, k)
    ensures ReleasePre(m, bs[k].addr, bs[k].size, 0, Merged(bs, k).addr, Merged(bs, k).size)
  {
    var b, M := bs[k], Merged(bs, k);
    ReleaseReads(m, bs, allocsize, k);
    assert m[b.addr / 4] == b.size + 1;
    FreeReadsNext(m, bs, allocsize, k);
    BlockFacts(bs, allocsize, k);
    FreeReadsPrev(m, bs, allocsize, k);
    assert InRange(m, End(M) - WordSize) by {
      HeaderAligned(M.addr);
      Mod8(M.size);
      AlignedSum(M.addr, M.size);
    }
    assert PBit(M.size + 2) == 2 by {
      Mod8(M.size);
      assert Encode(Header(M.size, false, true)) == M.size + 2;
    }
    assert M.addr / 4 < End(b) / 4 by {
      DivMono(M.addr, b.addr);
    }
  }

  lemma FreeReadsNext(m: seq<int>, bs: seq<Block>, allocsize: int, k: int)
    requires HeapImage(m, bs, allocsize)
    requires 0 <= k < |bs| && bs[k].isAlloc
    ensures InRange(m, End(bs[k]))
    ensures var nv := m[End(bs[k]) / 4];
      (nv != EndMark <==> k + 1 < |bs|) &&
      Absorbed(bs[k].size, nv) + (if PrevAlloc(bs, k) then 0 else bs[k - 1].size) == Merged(bs, k).size
  {
    NextAt(m, bs, allocsize, k);
    MergedSize(bs, allocsize, k);
    var nv := m[End(bs[k]) / 4];
    if k + 1 < |bs| {
      BlockFacts(bs, allocsize, k + 1);
      assert TaggedAt(m, bs, k + 1);
      assert nv == bs[k + 1].size + (if bs[k + 1].isAlloc then 1 else 0) + 2;
    }
    AbsorbedNext(bs, k, nv);
  }

  lemma FreeReadsPrev(m: seq<int>, bs: seq<Block>, allocsize: int, k: int)
    requires HeapImage(m, bs, allocsize)
    requires 0 <= k < |bs| && bs[k].isAlloc && !PrevAlloc(bs, k)
    ensures 0 < k && InRange(m, bs[k].addr - WordSize) && (bs[k].addr - WordSize) / 4 < End(bs[k]) / 4
    ensures m[(bs[k].addr - WordSize) / 4] == bs[k - 1].size
    ensures bs[k].addr - bs[k - 1].size == Merged(bs, k).addr
    ensures InRange(m, Merged(bs, k).addr) && m[Merged(bs, k).addr / 4] == bs[k - 1].size + 2
  {
    PrevReads(m, bs, allocsize, k);
    assert Merged(bs, k).addr == bs[k - 1].addr by { assert Lo(bs, k) == k - 1; }
    assert (bs[k].addr - WordSize) % 4 == 0 && (bs[k].addr - WordSize) / 4 < End(bs[k]) / 4 by {
      BlockFacts(bs, allocsize, k);
      BlockWords(bs[k]);
    }
  }

  class Heap {
    /** The mapped region, one entry per 4-byte word; byte offset a is word a / 4. */
    var mem: array<int>
    var heapStart: Pointer
    var allocsize: int
    /** Header of the most recently allocated block: where next-fit starts. */
    var recentAlloc: Pointer
    /** myInit's static allocated_once. */
    var allocatedOnce: bool
    /** The chain of blocks the words of mem hold. */
    ghost var blocks: seq<Block>

    ghost predicate Valid()
      reads this, mem
    {
      if allocatedOnce then
        heapStart == Ptr(HeapStart) && HeapImage(mem[..], blocks, allocsize) &&
        (recentAlloc.Null? || IsBlockStart(blocks, recentAlloc.offset))
      else
        heapStart == Null && recentAlloc == Null && blocks == []
    }

    /** Where the next search starts: recentAlloc, or heapStart before the first allocation. */
    ghost function Cursor(): int
      reads this
    {
      if recentAlloc.Null? then HeapStart else recentAlloc.offset
    }

    /** The state before myInit: no region, NULL pointers, allocsize 0. */
    constructor()
      ensures Valid() && !allocatedOnce && allocsize == 0
    {
      mem := new int[0];
      heapStart := Null;
      allocsize := 0;
      recentAlloc := Null;
      allocatedOnce := false;
      blocks := [];
    }

    /** myInit (myHeap.c:269-339). `pagesize` is getpagesize()'s answer and
        `mapped` whether opening /dev/zero and mmap succeed. */
    method Init(sizeOfRegion: int, pagesize: int, mapped: bool) returns (r: int)
      requires Valid()
      requires pagesize >= 16 && pagesize % 8 == 0
      modifies this
      ensures Valid()
      ensures r == 0 <==> !old(allocatedOnce) && sizeOfRegion > 0 && mapped
      ensures r == 0 || r == -1
      ensures r == 0 ==>
        allocatedOnce && fresh(mem) && recentAlloc == Null &&
        allocsize == RoundToPage(sizeOfRegion, pagesize) - 8 &&
        mem.Length == RoundToPage(sizeOfRegion, pagesize) / 4 &&
        mem[..] == InitImage(allocsize) && blocks == [Block(HeapStart, allocsize, false)]
      ensures r == -1 ==>
        allocatedOnce == old(allocatedOnce) && mem == old(mem) && blocks == old(blocks) &&
        heapStart == old(heapStart) && recentAlloc == old(recentAlloc)
      ensures r == -1 && !old(allocatedOnce) && sizeOfRegion > 0 ==>
        allocsize == RoundToPage(sizeOfRegion, pagesize)
      ensures r == -1 && (old(allocatedOnce) || sizeOfRegion <= 0) ==> allocsize == old(allocsize)
    {
      if allocatedOnce {
        return -1;
      }
      if sizeOfRegion <= 0 {
        return -1;
      }
      allocsize := RoundToPage(sizeOfRegion, pagesize);
      if !mapped {
        return -1;
      }
      PageSizedHeap(sizeOfRegion, pagesize);
      Format();
      return 0;
    }

    /** The successful end of myInit (myHeap.c:305-334): the mapped zero
        region of allocsize bytes becomes the heap, one free block of
        allocsize - 8 bytes between the header word before it and the end
        mark after it. */
    method Format()
      requires !allocatedOnce && allocsize >= 16 && allocsize % 8 == 0
      modifies this
      ensures Valid() && allocatedOnce && fresh(mem) && recentAlloc == Null
      ensures allocsize == old(allocsize) - 8 && mem.Length == old(allocsize) / 4
      ensures mem[..] == InitImage(allocsize) && blocks == [Block(HeapStart, allocsize, false)]
    {
      var region := new int[allocsize / 4](_ => 0);
      var size := allocsize - 8;
      region := InitRegion(region, size);
      InitImageHeap(size);
      allocatedOnce, allocsize, mem, heapStart := true, size, region, Ptr(HeapStart);
      blocks, recentAlloc := [Block(HeapStart, size, false)], Null;
    }

    /** The four writes of myInit into the zeroed region (myHeap.c:321-334). */
    static method InitRegion(region: array<int>, allocsize: int) returns (same: array<int>)
      requires allocsize >= 8 && allocsize % 8 == 0
      requires region.Length == allocsize / 4 + 2 && forall i :: 0 <= i < region.Length ==> region[i] == 0
      modifies region
      ensures same == region && region[..] == InitImage(allocsize)
    {
      Mod8(allocsize);
      var w := allocsize / 4;
      assert (HeapStart + allocsize) / 4 == w + 1 && (HeapStart + allocsize - WordSize) / 4 == w;
      region[(HeapStart + allocsize) / 4] := EndMark;
      region[HeapStart / 4] := allocsize;
      region[HeapStart / 4] := region[HeapStart / 4] + 2;
      region[(HeapStart + allocsize - WordSize) / 4] := allocsize;
      assert region[..] == InitImage(allocsize);
      return region;
    }

    /** The next-fit search of myAlloc (myHeap.c:108-149), starting at the
        header `start` of block s. It finds the first block, in address order
        from s round the wrap, that is free and holds `need` bytes, and the
        p-bit its header keeps; it reports failure only when no block fits. */
    method Search(start: int, ghost s: int, need: int)
      returns (found: bool, current: int, tSize: int, prevAlloc: int, ghost k: int)
      requires Valid() && allocatedOnce
      requires 0 <= s < |blocks| && blocks[s].addr == start
      ensures found ==>
        FirstFit(blocks, s, need, k) && current == blocks[k].addr && tSize == blocks[k].size &&
        PrevAlloc(blocks, k) && prevAlloc == 2
      ensures !found ==> forall i :: 0 <= i < |blocks| ==> !Fits(blocks[i], need)
    {
      ghost var m, bs := mem[..], blocks;
      current, prevAlloc, found, tSize := start, 2, false, 0;
      ghost var j, wrapped := s, false;
      while true
        invariant 0 <= j < |bs| && current == bs[j].addr && !found
        invariant wrapped ==> j < s
        invariant !wrapped ==> s <= j
        invariant !bs[j].isAlloc ==> prevAlloc == 2
        invariant forall i :: 0 <= i < |bs| && Visited(s, j, wrapped, i) ==> !Fits(bs[i], need)
        decreases if wrapped then s - j else |bs| - j + s
      {
        ghost var j0, w0 := j, wrapped;
        NextAt(m, bs, allocsize, j);
        found, tSize, current, prevAlloc := Probe(current, prevAlloc, need, j);
        if !found {
          j := j + 1;
        }
        if mem[current / 4] == EndMark {
          current := HeapStart;
          prevAlloc := 2;
          j, wrapped := 0, true;
        }
        if j != s {
          StartsDistinct(bs, allocsize, j, s);
        }
        if !found {
          assert !Fits(bs[j0], need);
          VisitedGrows(s, j0, w0, j, wrapped, |bs|);
        }
        if found || current == start {
          if !found {
            assert j == s && wrapped;
          }
          break;
        }
      }
      k := j;
      if found && k > 0 {
        assert Apart(bs, k - 1);
      }
    }

    /** One turn of myAlloc's search loop (myHeap.c:112-137) on block j: an
        allocated block, or a free one too small, is stepped over and its
        allocation bit becomes prevAlloc; a free block that holds `need`
        bytes is found, and the scan stays on it. */
    method Probe(current: int, prevAlloc: int, need: int, ghost j: int)
      returns (found: bool, tSize: int, next: int, nextPrev: int)
      requires Valid() && allocatedOnce
      requires 0 <= j < |blocks| && current == blocks[j].addr
      requires !blocks[j].isAlloc ==> prevAlloc == 2
      ensures tSize == blocks[j].size
      ensures found <==> Fits(blocks[j], need)
      ensures found ==> next == current && nextPrev == prevAlloc && InRange(mem[..], current) && mem[current / 4] != EndMark
      ensures !found ==> next == End(blocks[j]) && nextPrev == (if blocks[j].isAlloc then 2 else 0)
      ensures !found && j + 1 < |blocks| && !blocks[j + 1].isAlloc ==> nextPrev == 2
    {
      HeaderAt(mem[..], blocks, allocsize, j);
      if j + 1 < |blocks| && !blocks[j].isAlloc {
        assert Apart(blocks, j);
      }
      tSize := mem[current / 4];
      next, nextPrev, found := current, prevAlloc, false;
      if ABit(tSize) == 1 {
        tSize := tSize - 1;
        if PBit(tSize) == 2 {
          tSize := tSize - 2;
        }
        next := current + tSize;
        nextPrev := 2;
      } else {
        if PBit(tSize) == 2 {
          tSize := tSize - 2;
        }
        if tSize >= need {
          found := true;
        } else {
          nextPrev := 0;
          next := current + tSize;
        }
      }
    }

    /** myAlloc (myHeap.c:88-173) with the corrections of README.md's Findings:
        a request of no bytes fails, and the block chosen keeps a correct p-bit
        and passes it on. On success the chosen block is next-fit's choice from
        the cursor, the chain is split as Place says and the words are
        PlaceWrites' image; on failure nothing but the cursor changes. */
    method Alloc(size: int) returns (p: Pointer)
      requires Valid() && allocatedOnce
      modifies this, mem
      ensures Valid() && allocatedOnce
      ensures mem == old(mem) && allocsize == old(allocsize) && heapStart == old(heapStart)
      ensures p.Null? <==>
        size <= 0 || forall i :: 0 <= i < |old(blocks)| ==> !Fits(old(blocks)[i], BlockSize(size))
      ensures p.Null? ==>
        mem[..] == old(mem[..]) && blocks == old(blocks) && recentAlloc == Ptr(old(Cursor()))
      ensures p.Ptr? ==> exists s, k ::
        0 <= s < |old(blocks)| && old(blocks)[s].addr == old(Cursor()) &&
        FirstFit(old(blocks), s, BlockSize(size), k) &&
        p.offset == old(blocks)[k].addr + WordSize && recentAlloc == Ptr(old(blocks)[k].addr) &&
        blocks == Place(old(blocks), k, BlockSize(size)) &&
        PlaceWritesChecked(old(mem[..]), old(blocks)[k].addr, old(blocks)[k].size, BlockSize(size), 2) == Some(mem[..])
    {
      if recentAlloc == Null {
        recentAlloc := heapStart;
      }
      if size <= 0 {
        return Null;
      }
      var need := BlockSize(size);
      ghost var s :| 0 <= s < |blocks| && blocks[s].addr == recentAlloc.offset;
      var found, current, tSize, prevAlloc, k := Search(recentAlloc.offset, s, need);
      if !found {
        return Null;
      }
      ghost var bs := blocks;
      PlaceAt(current, tSize, need, prevAlloc, k);
      assert 0 <= s < |old(blocks)| && old(blocks)[s].addr == old(Cursor()) &&
        FirstFit(old(blocks), s, need, k) && current == old(blocks)[k].addr &&
        blocks == Place(old(blocks), k, need);
      return Ptr(current + WordSize);
    }

    /** The placement half of myAlloc (myHeap.c:151-169): block k, at
        `current`, of tSize bytes, takes the request; the words become
        PlaceWrites' image, the chain Place's, and the cursor points at it. */
    method PlaceAt(current: int, tSize: int, need: int, prevAlloc: int, ghost k: int)
      requires Valid() && allocatedOnce
      requires 0 <= k < |blocks| && current == blocks[k].addr && tSize == blocks[k].size
      requires Fits(blocks[k], need) && need >= 8 && need % 8 == 0
      requires PrevAlloc(blocks, k) && prevAlloc == 2
      modifies this, mem
      ensures Valid() && allocatedOnce
      ensures mem == old(mem) && allocsize == old(allocsize) && heapStart == old(heapStart)
      ensures blocks == Place(old(blocks), k, need) && recentAlloc == Ptr(current)
      ensures PlaceWritesChecked(old(mem[..]), current, tSize, need, prevAlloc) == Some(mem[..])
    {
      ghost var m0, bs := mem[..], blocks;
      BlockFacts(bs, allocsize, k);
      PlaceStored(m0, bs, allocsize, k, need);
      PlaceBlock(current, tSize, need, prevAlloc);
      ghost var m1 := mem[..];
      AllocKeepsHeap(m0, bs, allocsize, k, need, m1);
      blocks := Place(bs, k, need);
      recentAlloc := Ptr(current);
      assert mem[..] == m1;
    }

    /** The header, and the remainder's header and footer or the successor's
        p-bit, that myAlloc writes for the chosen block (myHeap.c:151-164). */
    method PlaceBlock(current: int, tSize: int, need: int, prevAlloc: int)
      requires 0 < need <= tSize && need % 8 == 0 && tSize % 8 == 0 && current % 8 == 4
      requires Addressable(mem[..], current) && Addressable(mem[..], current + tSize)
      modifies mem
      ensures PlaceWritesChecked(old(mem[..]), current, tSize, need, prevAlloc) == Some(mem[..])
    {
      ghost var m0 := mem[..];
      HeaderAligned(current);
      assert current + tSize >= WordSize;
      mem[current / 4] := need + 1 + prevAlloc;
      ghost var m1 := mem[..];
      assert m1 == m0[current / 4 := need + 1 + prevAlloc];
      if tSize > need {
        var next := current + need;
        DivMono(next, current + tSize);
        mem[next / 4] := (tSize - need) + 2;
        var footer := next + (tSize - need) - WordSize;
        DivMono(footer, current + tSize);
        mem[footer / 4] := tSize - need;
        assert mem[..] == m1[next / 4 := (tSize - need) + 2][footer / 4 := tSize - need];
      } else {
        var next := current + tSize;
        if mem[next / 4] != EndMark {
          mem[next / 4] := mem[next / 4] + 2;
          assert mem[..] == m1[next / 4 := m1[next / 4] + 2];
        }
      }
    }

    /** myFree (myHeap.c:188-260), with the two corrections listed under
        Findings in README.md: the freed header loses its a-bit after a
        backward merge, and the cursor moves off a block that coalescing
        swallowed. It fails exactly on NULL, before myInit, on a misaligned or
        out-of-heap pointer, or when the word before ptr has a-bit 0, which
        covers a block already freed; otherwise its words are FreeWrites',
        the chain is Release's, and that word now has a-bit 0, so freeing
        ptr again fails. */
    method Free(ptr: Pointer) returns (r: int)
      requires Valid()
      requires (allocatedOnce && ptr.Ptr? && ptr.offset % 8 == 0 && HeapStart <= ptr.offset <= HeapStart + allocsize &&
                ABit(mem[(ptr.offset - WordSize) / 4]) == 1) ==> IsBlockStart(blocks, ptr.offset - WordSize)
      modifies this, mem
      ensures Valid() && allocatedOnce == old(allocatedOnce)
      ensures mem == old(mem) && allocsize == old(allocsize) && heapStart == old(heapStart)
      ensures r == 0 || r == -1
      ensures r == 0 <==> ptr.Ptr? && AllocatedAt(old(blocks), ptr.offset - WordSize)
      ensures !old(allocatedOnce) ==> r == -1
      ensures r == -1 ==> mem[..] == old(mem[..]) && blocks == old(blocks) && recentAlloc == old(recentAlloc)
      ensures r == 0 ==> FreeWrites(old(mem[..]), ptr.offset - WordSize) == Some(mem[..])
      ensures r == 0 ==> ABit(mem[(ptr.offset - WordSize) / 4]) == 0
      ensures r == 0 ==> exists k ::
        0 <= k < |old(blocks)| && old(blocks)[k].addr == ptr.offset - WordSize &&
        blocks == Release(old(blocks), k) && recentAlloc == Retarget(old(recentAlloc), Merged(old(blocks), k))
    {
      if ptr.Null? {
        return -1;
      }
      if ptr.offset % 8 != 0 {
        assert !AllocatedAt(blocks, ptr.offset - WordSize) by {
          if i :| 0 <= i < |blocks| && blocks[i].addr == ptr.offset - WordSize && blocks[i].isAlloc {
            PayloadInBounds(blocks, allocsize, i);
          }
        }
        return -1;
      }
      // Before myInit heapStart is NULL and allocsize 0, so the range check
      // of line 200 refuses every pointer.
      if !allocatedOnce || ptr.offset < HeapStart || ptr.offset > HeapStart + allocsize {
        assert !AllocatedAt(blocks, ptr.offset - WordSize) by {
          if i :| 0 <= i < |blocks| && blocks[i].addr == ptr.offset - WordSize && blocks[i].isAlloc {
            PayloadInBounds(blocks, allocsize, i);
          }
        }
        return -1;
      }
      var current := ptr.offset - WordSize;
      ghost var m0, bs, r0 := mem[..], blocks, recentAlloc;
      if ABit(mem[current / 4]) == 0 {
        assert !AllocatedAt(bs, current) by {
          if i :| 0 <= i < |bs| && bs[i].addr == current && bs[i].isAlloc {
            HeaderAt(m0, bs, allocsize, i);
          }
        }
        return -1;
      }
      ghost var k :| 0 <= k < |bs| && bs[k].addr == current;
      HeaderAt(m0, bs, allocsize, k);
      assert AllocatedAt(bs, current);
      FreeBlock(ptr, k);
      assert bs[k].addr == ptr.offset - WordSize && blocks == Release(bs, k) && recentAlloc == Retarget(r0, Merged(bs, k));
      return 0;
    }

    /** The rest of myFree once the block whose payload ptr points at,
        block k, is known to be allocated (myHeap.c:212-257): the words become
        FreeWrites' image, the chain Release's, and the cursor moves as
        Retarget says. */
    method FreeBlock(ptr: Pointer, ghost k: int)
      requires Valid() && allocatedOnce && ptr.Ptr?
      requires 0 <= k < |blocks| && blocks[k].addr == ptr.offset - WordSize && blocks[k].isAlloc
      modifies this, mem
      ensures Valid() && allocatedOnce
      ensures mem == old(mem) && allocsize == old(allocsize) && heapStart == old(heapStart)
      ensures FreeWrites(old(mem[..]), ptr.offset - WordSize) == Some(mem[..])
      ensures blocks == Release(old(blocks), k)
      ensures recentAlloc == Retarget(old(recentAlloc), Merged(old(blocks), k))
    {
      var current := ptr.offset - WordSize;
      ghost var m0, bs := mem[..], blocks;
      FreeReads(m0, bs, allocsize, k);
      ghost var M, cursor := Merged(bs, k), recentAlloc;
      var start, tSize := ReleaseBlock(current, bs[k].size, if PrevAlloc(bs, k) then 2 else 0, M.addr, M.size);
      ghost var m1 := mem[..];
      FreeKeepsHeap(m0, bs, allocsize, k, m1, cursor);
      var cursor' := recentAlloc;
      if recentAlloc.Ptr? && start < recentAlloc.offset < start + tSize {
        cursor' := Ptr(start);
      }
      assert cursor' == Retarget(cursor, M);
      recentAlloc, blocks := cursor', Release(bs, k);
      assert mem[..] == m1;
      assert HeapImage(mem[..], blocks, allocsize);
    }

    /** The word writes of myFree on an allocated block of `size` bytes at
        `current` (myHeap.c:212-257), in the situation ReleasePre describes,
        followed by the correction of UnmarkFreed: they are FreeWrites' image,
        and it returns the merged block's header address and size. */
    method ReleaseBlock(current: int, ghost size: int, ghost prevAlloc: int, ghost maddr: int, ghost msize: int)
      returns (start: int, tSize: int)
      requires ReleasePre(mem[..], current, size, prevAlloc, maddr, msize)
      modifies mem
      ensures start == maddr && tSize == msize
      ensures FreeWrites(old(mem[..]), current) == Some(mem[..])
    {
      ghost var m0 := mem[..];
      start, tSize := CoalesceBlock(current, size, prevAlloc, maddr, msize);
      ghost var m1 := mem[..];
      UnmarkFreed(current);
      assert FreeWrites(m0, current) == Some(mem[..]) by {
        FreeWritesFrom(m0, current, m1);
      }
    }

    /** myFree's word writes as written (myHeap.c:212-257), in the situation
        ReleasePre describes: they are ReleaseWrites' image, and it returns the
        merged block's header address and size. */
    method CoalesceBlock(current: int, ghost size: int, ghost prevAlloc: int, ghost maddr: int, ghost msize: int)
      returns (start: int, tSize: int)
      requires ReleasePre(mem[..], current, size, prevAlloc, maddr, msize)
      modifies mem
      ensures start == maddr && tSize == msize
      ensures ReleaseWrites(old(mem[..]), current) == Some(mem[..])
    {
      ghost var m0 := mem[..];
      ghost var ts := Absorbed(size, m0[(current + size) / 4]);
      Mod8(size);
      ReleaseSteps(m0, current, size, prevAlloc);
      var pa;
      tSize, pa := ReadAllocated(current, size, prevAlloc);
      var next := current + tSize;
      tSize := ClearSuccessor(next, tSize);
      ghost var m1 := mem[..];
      assert m1 == ClearNext(m0, current + size) && tSize == ts;
      if pa == 0 {
        assert mem[(current - WordSize) / 4] == m0[(current - WordSize) / 4] && mem[maddr / 4] == m0[maddr / 4];
        start, tSize := MergeIntoPrev(current, tSize, maddr, msize);
        assert MergeBack(m1, current, ts) == Some(mem[..]);
      } else {
        MarkBlockFree(current, tSize);
        start := current;
        assert MarkFree(m1, current, ts) == Some(mem[..]);
      }
    }

    /** The correction to the backward merge of myHeap.c:241-252 (README.md,
        Findings): a freed header that still reads as allocated once myFree's
        writes are done loses its a-bit, so that line 215 refuses a second
        free of the same pointer. */
    method UnmarkFreed(current: int)
      requires InRange(mem[..], current)
      modifies mem
      ensures ABit(mem[current / 4]) == 0
      ensures mem[..] ==
        if ABit(old(mem[current / 4])) == 1 then old(mem[..])[current / 4 := old(mem[current / 4]) - 1]
        else old(mem[..])
    {
      if ABit(mem[current / 4]) == 1 {
        mem[current / 4] := mem[current / 4] - 1;
      }
    }

    /** myHeap.c:212-225: the header of an allocated block of `size` bytes
        whose p-bit is prevAlloc gives back its size and its p-bit. */
    method ReadAllocated(current: int, ghost size: int, ghost prevAlloc: int) returns (tSize: int, pa: int)
      requires InRange(mem[..], current) && size % 8 == 0 && (prevAlloc == 0 || prevAlloc == 2)
      requires mem[current / 4] == size + 1 + prevAlloc
      ensures tSize == size && pa == prevAlloc
    {
      Mod8(size);
      assert PBit(size + prevAlloc) == prevAlloc by {
        assert Encode(Header(size, false, prevAlloc == 2)) == size + prevAlloc;
      }
      tSize := mem[current / 4];
      pa := 0;
      tSize := tSize - 1;
      if PBit(tSize) == 2 {
        tSize := tSize - 2;
        pa := 2;
      }
    }

    /** myHeap.c:229-236: the successor loses its p-bit, unless it is the end
        mark, and a free successor's size is added to tSize. */
    method ClearSuccessor(next: int, tSize: int) returns (grown: int)
      requires InRange(mem[..], next)
      modifies mem
      ensures grown == Absorbed(tSize, old(mem[next / 4]))
      ensures mem[..] == ClearNext(old(mem[..]), next)
    {
      if ABit(mem[next / 4]) == 0 && mem[next / 4] != EndMark {
        mem[next / 4] := mem[next / 4] - 2;
        grown := tSize + mem[next / 4];
      } else {
        if mem[next / 4] != EndMark {
          mem[next / 4] := mem[next / 4] - 2;
        }
        grown := tSize;
      }
    }

    /** myHeap.c:241-252: the free predecessor, found through the footer just
        before `current`, takes in tSize bytes; returns its header address and
        new size, and the words are MergeBack's. */
    method MergeIntoPrev(current: int, tSize: int, ghost maddr: int, ghost msize: int)
      returns (prev: int, merged: int)
      requires InRange(mem[..], current - WordSize) && current - mem[(current - WordSize) / 4] == maddr
      requires InRange(mem[..], maddr) && mem[maddr / 4] + tSize == msize + 2 && PBit(msize + 2) == 2
      requires InRange(mem[..], maddr + msize - WordSize)
      modifies mem
      ensures prev == maddr && merged == msize
      ensures MergeBack(old(mem[..]), current, tSize) == Some(mem[..])
    {
      var footer := current - WordSize;
      prev := current - mem[footer / 4];
      mem[prev / 4] := mem[prev / 4] + tSize;
      merged := mem[prev / 4];
      if PBit(merged) == 2 {
        merged := merged - 2;
      }
      footer := prev + merged - WordSize;
      mem[footer / 4] := merged;
    }

    /** myHeap.c:253-257: the block itself becomes free with p-bit 1 and gets
        a footer; the words are MarkFree's. */
    method MarkBlockFree(current: int, tSize: int)
      requires InRange(mem[..], current) && InRange(mem[..], current + tSize - WordSize)
      modifies mem
      ensures MarkFree(old(mem[..]), current, tSize) == Some(mem[..])
    {
      mem[current / 4] := tSize + 2;
      var footer := current + tSize - WordSize;
      mem[footer / 4] := tSize;
    }

    /** The status, p-bit and size dispMem reads from the header of block i
        (myHeap.c:374-391). */
    method ReadTag(current: int, ghost i: int) returns (isUsed: bool, prevUsed: bool, tSize: int)
      requires Valid() && allocatedOnce && 0 <= i < |blocks| && current == blocks[i].addr
      ensures isUsed == blocks[i].isAlloc && prevUsed == PrevAlloc(blocks, i) && tSize == blocks[i].size
    {
      HeaderAt(mem[..], blocks, allocsize, i);
      tSize := mem[current / 4];
      isUsed := false;
      prevUsed := false;
      if ABit(tSize) == 1 {
        isUsed := true;
        tSize := tSize - 1;
      }
      if PBit(tSize) == 2 {
        prevUsed := true;
        tSize := tSize - 2;
      }
    }

    /** dispMem (myHeap.c:351-420) without the printing: the lines it would
        print, one per block of the chain in address order, and its two totals,
        which add up to the whole heap. */
    method DispMem() returns (rows: seq<Row>, usedSize: int, freeSize: int)
      requires Valid() && allocatedOnce
      ensures |rows| == |blocks| && forall i :: 0 <= i < |rows| ==> rows[i] == RowOf(blocks, i)
      ensures usedSize == UsedTotal(blocks) && freeSize == FreeTotal(blocks)
      ensures usedSize + freeSize == allocsize
    {
      ghost var m, bs := mem[..], blocks;
      var current := heapStart.offset;
      var counter := 1;
      usedSize, freeSize := 0, 0;
      rows := [];
      ghost var i := 0;
      HeaderAt(m, bs, allocsize, 0);
      while mem[current / 4] != EndMark
        invariant 0 <= i <= |bs| && counter == i + 1 && |rows| == i
        invariant i < |bs| ==> current == bs[i].addr && InRange(m, current) && m[current / 4] != EndMark
        invariant i == |bs| ==> InRange(m, current) && m[current / 4] == EndMark
        invariant forall j :: 0 <= j < i ==> rows[j] == RowOf(bs, j)
        invariant usedSize == UsedTotal(bs[..i]) && freeSize == FreeTotal(bs[..i])
        decreases |bs| - i
      {
        NextAt(m, bs, allocsize, i);
        var tBegin := current;
        var isUsed, prevUsed, tSize := ReadTag(current, i);
        if isUsed {
          usedSize := usedSize + tSize;
        } else {
          freeSize := freeSize + tSize;
        }
        var tEnd := tBegin + tSize - 1;
        assert Row(counter, isUsed, prevUsed, tBegin, tEnd, tSize) == RowOf(bs, i);
        rows := rows + [Row(counter, isUsed, prevUsed, tBegin, tEnd, tSize)];
        current := current + tSize;
        counter := counter + 1;
        TotalsPrefix(bs, i);
        i := i + 1;
      }
      assert bs[..i] == bs;
      TotalsCoverHeap(bs, allocsize);
    }
  }

  /** The running totals of dispMem after one more block. */
  lemma TotalsPrefix(bs: seq<Block>, i: int)
    requires 0 <= i < |bs|
    ensures UsedTotal(bs[..i + 1]) == UsedTotal(bs[..i]) + (if bs[i].isAlloc then bs[i].size else 0)
    ensures FreeTotal(bs[..i + 1]) == FreeTotal(bs[..i]) + (if bs[i].isAlloc then 0 else bs[i].size)
  {
    assert bs[..i + 1] == bs[..i] + [bs[i]];
    TotalsAppend(bs[..i], [bs[i]]);
    TotalsSingle(bs[i]);
  }
}
