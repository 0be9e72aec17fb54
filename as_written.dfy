/**
 * myAlloc of myHeap.c exactly as written, on the words of the region, next
 * to the corrected model in MyHeap (myFree's writes as written are
 * Coalescing.ReleaseWrites). Each of the five discrepancies listed under
 * Findings in README.md is exhibited on a small concrete heap:
 *
 *  - an exact fit leaves the successor's p-bit at 0 (myHeap.c:154-164);
 *  - the search carries prevAlloc across the wrap to heapStart
 *    (myHeap.c:139, 146-148);
 *  - myFree never moves recentAlloc, which coalescing can leave inside a
 *    free block (myHeap.c:188-260);
 *  - a backward merge leaves the freed header's a-bit set, so a second
 *    myFree of the same pointer is let through (myHeap.c:215, 241-252);
 *  - a size of zero or less is not refused (myHeap.c:103-106).
 *
 * The search loop may not end as written, so it runs on fuel: a number of
 * turns after which it gives up with None.
 */
module AsWritten {
  import opened Encoding
  import opened BlockChain
  import opened Placement
  import opened Coalescing
  import opened MyHeap

  /** The state of myAlloc's search after a turn: whether a block was found,
      the header it stands on, the size read there and the p-bit it carries. */
  datatype Scan = Scan(found: bool, current: int, tSize: int, prevAlloc: int)

  /** The result of a call of myAlloc: the words, the returned pointer and the
      new recentAlloc. */
  datatype Outcome = Outcome(m: seq<int>, p: Pointer, recent: Pointer)

  /** One turn of the do-while loop of myAlloc on the header word v at
      `current` (myHeap.c:115-143), before the end-mark check: an allocated
      block is stepped over and sets prevAlloc to 2, a free block that holds
      `need` bytes is found, a smaller free one is stepped over and sets
      prevAlloc to 0. */
  function Turn(v: int, current: int, need: int, prevAlloc: int): (r: Scan)
    ensures r.found <==> ABit(v) == 0 && Bare(v) >= need
    ensures r.tSize == Bare(v)
    ensures r.found ==> r.current == current && r.prevAlloc == prevAlloc
    ensures !r.found ==> r.current == current + Bare(v) && r.prevAlloc == (if ABit(v) == 1 then 2 else 0)
  {
    StripBits(v);
    if ABit(v) == 1 then
      var t := v - 1;
      var t := if PBit(t) == 2 then t - 2 else t;
      Scan(false, current + t, t, 2)
    else
      var t := if PBit(v) == 2 then v - 2 else v;
      if t >= need then Scan(true, current, t, prevAlloc)
      else Scan(false, current + t, t, 0)
  }

  /** The search loop of myAlloc as written (myHeap.c:111-149), from the
      header `current` with p-bit prevAlloc, for `need` bytes; it stops when a
      block is found or the scan is back at `cursor`. After the end mark it
      goes on at heapStart with prevAlloc unchanged. None when a word it
      reads lies outside m or fuel turns are not enough. */
  function ScanFrom(m: seq<int>, cursor: int, need: int, current: int, prevAlloc: int, fuel: nat): (r: Option<Scan>)
    ensures r.Some? && r.value.found ==>
      InRange(m, r.value.current) && ABit(m[r.value.current / 4]) == 0 &&
      r.value.tSize == Bare(m[r.value.current / 4]) >= need
    ensures r.Some? && !r.value.found ==> r.value.current == cursor
    decreases fuel
  {
    if fuel == 0 || !InRange(m, current) then None
    else
      var t := Turn(m[current / 4], current, need, prevAlloc);
      if !InRange(m, t.current) then None
      else
        var next := if m[t.current / 4] == EndMark then HeapStart else t.current;
        if t.found then Some(t)
        else if next == cursor then Some(t.(current := next))
        else ScanFrom(m, cursor, need, next, t.prevAlloc, fuel - 1)
  }

  /** The writes of myAlloc on the block found (myHeap.c:151-164) as written:
      the header gets `need`, the a-bit and prevAlloc; a larger block is split
      with a free remainder of p-bit 1 and its footer; an exact fit writes
      nothing else. None when a word written lies outside m. A split writes
      what the corrected PlaceWrites does. */
  function PlaceAsWritten(m: seq<int>, current: int, tSize: int, need: int, prevAlloc: int): (r: Option<seq<int>>)
    ensures r.Some? ==> |r.value| == |m|
    ensures 0 < need < tSize && Addressable(m, current) && Addressable(m, current + tSize) && current + tSize >= WordSize ==>
      r == Some(PlaceWrites(m, current, tSize, need, prevAlloc))
  {
    if !Addressable(m, current) then None
    else
      var m1 := m[current / 4 := need + 1 + prevAlloc];
      if tSize > need then
        var next := current + need;
        var footer := next + (tSize - need) - WordSize;
        if !Addressable(m1, next) || !Addressable(m1, footer) then None
        else Some(m1[next / 4 := (tSize - need) + 2][footer / 4 := tSize - need])
      else Some(m1)
  }

  /** myAlloc as written (myHeap.c:88-173): no check of `size`, the search
      from recentAlloc (heapStart before the first call), the writes of
      PlaceAsWritten, and recentAlloc set to the block found. On a split
      those writes are the corrected ones; on an exact fit they are not. */
  function AllocAsWritten(m: seq<int>, recentAlloc: Pointer, size: int, fuel: nat): (r: Option<Outcome>)
    ensures r.Some? && r.value.p.Ptr? ==> r.value.recent.Ptr? && r.value.p.offset == r.value.recent.offset + WordSize
    ensures r.Some? && r.value.p.Null? ==> r.value.m == m
  {
    var cursor := if recentAlloc.Null? then HeapStart else recentAlloc.offset;
    var need := BlockSize(size);
    match ScanFrom(m, cursor, need, cursor, 2, fuel)
    case None => None
    case Some(s) =>
      if !s.found then Some(Outcome(m, Null, Ptr(cursor)))
      else
        match PlaceAsWritten(m, s.current, s.tSize, need, s.prevAlloc)
        case None => None
        case Some(m') => Some(Outcome(m', Ptr(s.current + WordSize), Ptr(s.current)))
  }

  /** A heap of two 16-byte blocks, the first free and the second allocated:
      the words of the chain Heap2(). */
  function Words2(): (m: seq<int>)
    ensures |m| == 32 / 4 + 2
  {
    [0, 18, 0, 0, 16, 17, 0, 0, 0, EndMark]
  }

  function Heap2(): (bs: seq<Block>)
    ensures |bs| == 2
  {
    [Block(4, 16, false), Block(20, 16, true)]
  }

  /** Words2 holds the chain Heap2 in a heap of 32 bytes. */
  lemma Words2Heap()
    ensures HeapImage(Words2(), Heap2(), 32)
  {
    var m, bs := Words2(), Heap2();
    assert Encode(Header(16, false, true)) == 18;
    assert Encode(Header(16, true, false)) == 17;
    assert TaggedAt(m, bs, 0) && TaggedAt(m, bs, 1);
  }

  /** An exact fit as written (myHeap.c:154-164): a request of 12 bytes takes
      the free 16-byte block at 4 whole, and the header of the block after it
      keeps p-bit 0 although its predecessor is now allocated; the words are
      no longer the image of the chain. The corrected writes also set that
      p-bit, and give the image (AllocKeepsHeap). */
  lemma ExactFitKeepsStalePBit()
    ensures AllocAsWritten(Words2(), Null, 12, 1) == Some(Outcome(Words2()[1 := 19], Ptr(8), Ptr(4)))
    ensures !HeapImage(Words2()[1 := 19], Place(Heap2(), 0, 16), 32)
    ensures PlaceWritesChecked(Words2(), 4, 16, 16, 2) == Some(Words2()[1 := 19][5 := 19])
    ensures HeapImage(Words2()[1 := 19][5 := 19], Place(Heap2(), 0, 16), 32)
  {
    var m, bs := Words2(), Heap2();
    assert BlockSize(12) == 16;
    assert Turn(m[1], 4, 16, 2) == Scan(true, 4, 16, 2);
    assert ScanFrom(m, 4, 16, 4, 2, 1) == Some(Scan(true, 4, 16, 2));
    assert PlaceAsWritten(m, 4, 16, 16, 2) == Some(m[1 := 19]);
    var nb := Place(bs, 0, 16);
    assert nb == [Block(4, 16, true), Block(20, 16, true)];
    assert !TaggedAt(m[1 := 19], nb, 1) by {
      assert Encode(Header(16, true, true)) == 19;
    }
    Words2Heap();
    PlaceWrites2();
  }

  /** The corrected writes of the exact fit, and the heap they leave. */
  lemma PlaceWrites2()
    ensures PlaceWritesChecked(Words2(), 4, 16, 16, 2) == Some(Words2()[1 := 19][5 := 19])
    ensures HeapImage(Words2()[1 := 19][5 := 19], Place(Heap2(), 0, 16), 32)
  {
    var m, bs := Words2(), Heap2();
    assert PlaceWrites(m, 4, 16, 16, 2) == m[1 := 19][5 := 19];
    Words2Heap();
    AllocKeepsHeap(m, bs, 32, 0, 16, m[1 := 19][5 := 19]);
  }

  /** A heap of a free 16-byte block, an allocated 16-byte block and a free
      8-byte block: the words of Heap3(). */
  function Words3(): (m: seq<int>)
    ensures |m| == 40 / 4 + 2
  {
    [0, 18, 0, 0, 16, 17, 0, 0, 0, 10, 8, EndMark]
  }

  function Heap3(): (bs: seq<Block>)
    ensures |bs| == 3
  {
    [Block(4, 16, false), Block(20, 16, true), Block(36, 8, false)]
  }

  /** Words3 holds the chain Heap3 in a heap of 40 bytes. */
  lemma Words3Heap()
    ensures HeapImage(Words3(), Heap3(), 40)
  {
    var m, bs := Words3(), Heap3();
    assert Encode(Header(16, false, true)) == 18;
    assert Encode(Header(16, true, false)) == 17;
    assert Encode(Header(8, false, true)) == 10;
    assert TaggedAt(m, bs, 0) && TaggedAt(m, bs, 1) && TaggedAt(m, bs, 2);
  }

  /** The search as written from the block at 20 for 16 bytes steps over it
      and over the free 8-byte block, whose prevAlloc of 0 it carries past the
      end mark to the first block (myHeap.c:139, 146-148): it finds the block
      at 4 with p-bit 0, and myAlloc writes the header 17, saying that the
      first block of the heap has a free predecessor. The corrected search
      restarts with prevAlloc 2 (Search), and the first block has an
      allocated predecessor. */
  lemma WrapKeepsStalePrevAlloc()
    ensures ScanFrom(Words3(), 20, 16, 20, 2, 3) == Some(Scan(true, 4, 16, 0))
    ensures AllocAsWritten(Words3(), Ptr(20), 12, 3) == Some(Outcome(Words3()[1 := 17], Ptr(8), Ptr(4)))
    ensures PBit(17 - 1) == 0 && PrevAlloc(Heap3(), 0)
  {
    var m := Words3();
    assert BlockSize(12) == 16;
    assert Turn(m[5], 20, 16, 2) == Scan(false, 36, 16, 2);
    assert Turn(m[9], 36, 16, 2) == Scan(false, 44, 8, 0);
    assert Turn(m[1], 4, 16, 0) == Scan(true, 4, 16, 0);
    assert ScanFrom(m, 20, 16, 4, 0, 1) == Some(Scan(true, 4, 16, 0));
    assert ScanFrom(m, 20, 16, 36, 2, 2) == Some(Scan(true, 4, 16, 0));
    assert PlaceAsWritten(m, 4, 16, 16, 0) == Some(m[1 := 17]);
  }

  /** A free 8-byte block, an allocated 16-byte block (the last one
      allocated, so recentAlloc points at it) and a free 16-byte block. */
  function Words4(): (m: seq<int>)
    ensures |m| == 40 / 4 + 2
  {
    [0, 10, 8, 17, 0, 0, 0, 18, 0, 0, 16, EndMark]
  }

  function Heap4(): (bs: seq<Block>)
    ensures |bs| == 3
  {
    [Block(4, 8, false), Block(12, 16, true), Block(28, 16, false)]
  }

  /** Words4 holds the chain Heap4 in a heap of 40 bytes. */
  lemma Words4Heap()
    ensures HeapImage(Words4(), Heap4(), 40)
  {
    var m, bs := Words4(), Heap4();
    assert Encode(Header(8, false, true)) == 10;
    assert Encode(Header(16, true, false)) == 17;
    assert Encode(Header(16, false, true)) == 18;
    assert TaggedAt(m, bs, 0) && TaggedAt(m, bs, 1) && TaggedAt(m, bs, 2);
  }

  /** The words after freeing the block at 12 of Words4: one free block of 40
      bytes at 4. The old headers at 12 and 28 are left inside it. */
  function Freed4(): (m: seq<int>)
    ensures |m| == 40 / 4 + 2
  {
    Words4()[7 := 16][1 := 42][10 := 40]
  }

  /** myFree of the block at 12 merges all three blocks into one free block at
      4 and leaves recentAlloc at 12, inside it. The next myAlloc as written
      of 12 bytes reads the stale header at 12 and then the stale header at
      28, and returns 32: a block inside the free block at 4. With the
      corrected cursor, Retarget's 4, the same request splits the free
      block at its header. */
  lemma StaleCursorAllocatesInsideFreeBlock()
    ensures ReleaseWrites(Words4(), 12) == Some(Freed4())
    ensures Release(Heap4(), 1) == [Block(4, 40, false)]
    ensures AllocAsWritten(Freed4(), Ptr(12), 12, 2) == Some(Outcome(Freed4()[7 := 19], Ptr(32), Ptr(28)))
    ensures Retarget(Ptr(12), Merged(Heap4(), 1)) == Ptr(4)
    ensures AllocAsWritten(Freed4(), Ptr(4), 12, 1) == Some(Outcome(Freed4()[1 := 19][5 := 26][10 := 24], Ptr(8), Ptr(4)))
  {
    FreeWords4();
    FreeChain4();
    StaleAlloc4();
    RetargetedAlloc4();
  }

  /** The words myFree leaves on freeing the block at 12 of Words4. */
  lemma FreeWords4()
    ensures ReleaseWrites(Words4(), 12) == Some(Freed4())
  {
    var m, f := Words4(), Freed4();
    assert ClearNext(m, 28) == m[7 := 16];
    assert MergeBack(m[7 := 16], 12, 32) == Some(f);
    assert Coalesce(m, 12, 16, 0) == Some(f);
  }

  /** The chain after that free, and the cursor the correction gives. */
  lemma FreeChain4()
    ensures Release(Heap4(), 1) == [Block(4, 40, false)]
    ensures Retarget(Ptr(12), Merged(Heap4(), 1)) == Ptr(4)
  {
    var bs := Heap4();
    assert Lo(bs, 1) == 0 && Hi(bs, 1) == 3;
    assert Merged(bs, 1) == Block(4, 40, false);
  }

  /** myAlloc as written from the stale cursor 12 of Freed4. */
  lemma StaleAlloc4()
    ensures AllocAsWritten(Freed4(), Ptr(12), 12, 2) == Some(Outcome(Freed4()[7 := 19], Ptr(32), Ptr(28)))
  {
    var f := Freed4();
    assert BlockSize(12) == 16;
    StaleScan4();
    assert PlaceAsWritten(f, 28, 16, 16, 2) == Some(f[7 := 19]);
  }

  /** Its search: the stale header at 12 is stepped over, and the stale
      16-byte block at 28 is found. */
  lemma StaleScan4()
    ensures ScanFrom(Freed4(), 12, 16, 12, 2, 2) == Some(Scan(true, 28, 16, 2))
  {
    var f := Freed4();
    assert Turn(f[3], 12, 16, 2) == Scan(false, 28, 16, 2);
    assert Turn(f[7], 28, 16, 2) == Scan(true, 28, 16, 2);
    assert ScanFrom(f, 12, 16, 28, 2, 1) == Some(Scan(true, 28, 16, 2));
  }

  /** myAlloc from the retargeted cursor 4 of Freed4. */
  lemma RetargetedAlloc4()
    ensures AllocAsWritten(Freed4(), Ptr(4), 12, 1) == Some(Outcome(Freed4()[1 := 19][5 := 26][10 := 24], Ptr(8), Ptr(4)))
  {
    var f := Freed4();
    assert BlockSize(12) == 16;
    assert Turn(f[1], 4, 16, 2) == Scan(true, 4, 40, 2);
    assert PlaceAsWritten(f, 4, 40, 16, 2) == Some(f[1 := 19][5 := 26][10 := 24]);
  }

  /** Freeing the block at 12 of Words4 a second time. The backward merge of
      myHeap.c:241-252 leaves the old header at 12 with its a-bit set, inside
      the free block at 4, so the check of line 215 lets the second myFree
      through: it takes the stale footer at 8 for its predecessor's, grows
      the header at 4 to 72 bytes and has to write a footer at byte 72,
      beyond the region of 40 bytes and its end mark. With the correction
      the freed header reads as free, the heap is one free block of 40
      bytes, and the second free fails at line 215. */
  lemma DoubleFreeAfterMerge()
    ensures ReleaseWrites(Words4(), 12) == Some(Freed4())
    ensures ABit(Freed4()[12 / 4]) == 1 && !IsBlockStart(Release(Heap4(), 1), 12)
    ensures ReleaseWrites(Freed4(), 12).None?
    ensures FreeWrites(Words4(), 12) == Some(Freed4()[12 / 4 := 16])
    ensures ABit(Freed4()[12 / 4 := 16][12 / 4]) == 0
    ensures HeapImage(Freed4()[12 / 4 := 16], Release(Heap4(), 1), 40)
  {
    FreeWords4();
    FreeChain4();
    SecondFree4();
    CorrectedFree4();
  }

  /** The second myFree as written of the block at 12, on Freed4. */
  lemma SecondFree4()
    ensures ReleaseWrites(Freed4(), 12).None?
  {
    var f := Freed4();
    assert ClearNext(f, 28) == f[7 := 14];
    assert Absorbed(16, f[7]) == 30;
    assert MergeBack(f[7 := 14], 12, 30) == None by {
      assert !InRange(f, 4 + 72 - WordSize);
    }
    assert Coalesce(f, 12, 16, 0) == None;
    assert f[12 / 4] - 1 == 16 && PBit(16) == 0;
  }

  /** The corrected free of the block at 12 of Words4: the writes, and the
      heap they leave. */
  lemma CorrectedFree4()
    ensures FreeWrites(Words4(), 12) == Some(Freed4()[12 / 4 := 16])
    ensures HeapImage(Freed4()[12 / 4 := 16], Release(Heap4(), 1), 40)
  {
    CorrectedWrites4();
    Words4Heap();
    FreeKeepsHeap(Words4(), Heap4(), 40, 1, Freed4()[12 / 4 := 16], Null);
  }

  /** The corrected writes: myFree's, with the header at 12 unmarked. */
  lemma CorrectedWrites4()
    ensures FreeWrites(Words4(), 12) == Some(Freed4()[12 / 4 := 16])
  {
    var f := Freed4();
    FreeWords4();
    FreeWritesFrom(Words4(), 12, f);
    assert f[3] == 17 && ABit(17) == 1;
    assert f[3 := f[3] - 1] == f[3 := 16];
  }

  /** With recentAlloc stale inside the free block at 4 of Freed4, a request
      of 44 bytes, which no block holds, never ends as written: the scan
      steps from 12 over the stale headers at 12 and 28 to the end mark,
      then from heapStart over the whole free block to the end mark and back,
      and never meets recentAlloc again, however many turns it is given. */
  lemma StaleCursorLoops(fuel: nat)
    ensures AllocAsWritten(Freed4(), Ptr(12), 44, fuel) == None
  {
    var f := Freed4();
    assert BlockSize(44) == 48;
    if fuel >= 1 {
      assert Turn(f[3], 12, 48, 2) == Scan(false, 28, 16, 2);
    }
    if fuel >= 2 {
      assert Turn(f[7], 28, 48, 2) == Scan(false, 44, 16, 0);
      StaleCursorLoopsFrom(fuel - 2);
      assert ScanFrom(f, 12, 48, 28, 2, fuel - 1) == None;
    }
  }

  /** The turns from heapStart on, with prevAlloc 0: each one steps over the
      free block at 4 to the end mark and comes back to heapStart. */
  lemma {:induction false} StaleCursorLoopsFrom(fuel: nat)
    ensures ScanFrom(Freed4(), 12, 48, HeapStart, 0, fuel) == None
    decreases fuel
  {
    var f := Freed4();
    if fuel > 0 {
      assert Turn(f[1], 4, 48, 0) == Scan(false, 44, 40, 0);
      StaleCursorLoopsFrom(fuel - 1);
    }
  }

  /** myAlloc as written does not refuse a size of 0 or less
      (myHeap.c:103-106): on the fresh heap of 16 bytes, a request of 0 bytes
      gets an 8-byte block, and one of -4 bytes gets a pointer although its
      writes leave every word as it was. The corrected Alloc returns NULL
      for both. */
  lemma NonPositiveSizeAllocates()
    ensures AllocAsWritten(InitImage(16), Null, 0, 1) ==
      Some(Outcome(InitImage(16)[1 := 11][3 := 10][4 := 8], Ptr(8), Ptr(4)))
    ensures AllocAsWritten(InitImage(16), Null, -4, 1) == Some(Outcome(InitImage(16), Ptr(8), Ptr(4)))
  {
    var m := InitImage(16);
    assert m == [0, 18, 0, 0, 16, EndMark];
    assert BlockSize(0) == 8;
    assert BlockSize(-4) == 0;
    assert Turn(m[1], 4, 8, 2) == Scan(true, 4, 16, 2);
    assert Turn(m[1], 4, 0, 2) == Scan(true, 4, 16, 2);
    assert PlaceAsWritten(m, 4, 16, 8, 2) == Some(m[1 := 11][3 := 10][4 := 8]);
    assert PlaceAsWritten(m, 4, 16, 0, 2) == Some(m[1 := 3][1 := 18][4 := 16]);
    assert m[1 := 3][1 := 18][4 := 16] == m;
  }
}
