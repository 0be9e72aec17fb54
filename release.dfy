/**
 * What myFree does once its pointer checks have passed: immediate coalescing
 * of the freed block with a free predecessor and a free successor, both on the
 * block list (Release) and as the header and footer words it writes
 * (ReleaseWrites, myHeap.c:218-257).
 */
module Coalescing {
  import opened Encoding
  import opened BlockChain
  import opened Placement

  /** Index of the first block the freed block k merges with: its predecessor when that is free. */
  function Lo(bs: seq<Block>, k: int): (lo: int)
    requires 0 <= k < |bs|
    ensures lo == k || lo == k - 1
  {
    if k > 0 && !bs[k - 1].isAlloc then k - 1 else k
  }

  /** One past the last block of the merge: past the successor when that is free. */
  function Hi(bs: seq<Block>, k: int): (hi: int)
    requires 0 <= k < |bs|
    ensures hi == k + 1 || hi == k + 2
    ensures hi <= |bs|
  {
    if k + 1 < |bs| && !bs[k + 1].isAlloc then k + 2 else k + 1
  }

  /** The free block that results from freeing block k: from the start of Lo to the end of Hi - 1. */
  function Merged(bs: seq<Block>, k: int): (r: Block)
    requires 0 <= k < |bs|
    ensures !r.isAlloc
    ensures (forall i :: 0 <= i < |bs| - 1 ==> Linked(bs, i)) && (forall i :: 0 <= i < |bs| ==> bs[i].size >= 0) ==>
      r.addr <= bs[k].addr && End(bs[k]) <= End(r)
  {
    assert (forall i :: 0 <= i < |bs| - 1 ==> Linked(bs, i)) ==>
      (Lo(bs, k) < k ==> Linked(bs, k - 1)) && (Hi(bs, k) > k + 1 ==> Linked(bs, k));
    var lo, hi := Lo(bs, k), Hi(bs, k);
    Block(bs[lo].addr, End(bs[hi - 1]) - bs[lo].addr, false)
  }

  /** The block list after myFree frees block k. */
  function Release(bs: seq<Block>, k: int): (r: seq<Block>)
    requires 0 <= k < |bs|
    ensures |r| == |bs| - (Hi(bs, k) - Lo(bs, k)) + 1
    ensures forall i :: 0 <= i < Lo(bs, k) ==> r[i] == bs[i]
    ensures r[Lo(bs, k)] == Merged(bs, k)
    ensures r[0].addr == bs[0].addr && End(r[|r| - 1]) == End(bs[|bs| - 1])
  {
    bs[..Lo(bs, k)] + [Merged(bs, k)] + bs[Hi(bs, k)..]
  }

  /** Word a / 4 exists and a is word-aligned: a header may be read or written at a. */
  predicate InRange(m: seq<int>, a: int)
  {
    Addressable(m, a) && a % 4 == 0
  }

  /** The word writes of myFree on the allocated block whose header is at `cur`
      (myHeap.c:218-257), step by step as the code does them. None when a step
      would read or write outside the region, which the C code does not check. */
  function ReleaseWrites(m: seq<int>, cur: int): (r: Option<seq<int>>)
    ensures r.Some? ==> |r.value| == |m| && InRange(m, cur)
  {
    if !InRange(m, cur) then None
    else
      var tSize := m[cur / 4] - 1;
      var prevAlloc := if PBit(tSize) == 2 then 2 else 0;
      Coalesce(m, cur, tSize - prevAlloc, prevAlloc)
  }

  /** From myHeap.c:227 on: clear the successor's p-bit, absorb it when it is
      free, then merge backwards or mark the block free. */
  function Coalesce(m: seq<int>, cur: int, tSize: int, prevAlloc: int): (r: Option<seq<int>>)
    ensures r.Some? ==> |r.value| == |m| && InRange(m, cur + tSize)
  {
    var next := cur + tSize;
    if !InRange(m, next) then None
    else
      var nv := m[next / 4];
      var m1 := ClearNext(m, next);
      if prevAlloc == 0 then MergeBack(m1, cur, Absorbed(tSize, nv))
      else MarkFree(m1, cur, Absorbed(tSize, nv))
  }

  /** myHeap.c:230-236: the successor's p-bit is cleared, unless it is the end mark. */
  function ClearNext(m: seq<int>, next: int): (r: seq<int>)
    requires InRange(m, next)
    ensures |r| == |m|
    ensures forall i :: 0 <= i < |m| && i != next / 4 ==> r[i] == m[i]
  {
    var nv := m[next / 4];
    if nv != EndMark then m[next / 4 := nv - 2] else m
  }

  /** myHeap.c:241-252: the free predecessor, found through the footer just
      before `cur`, grows by tSize; its header keeps its p-bit, and a footer
      is written at its new end. */
  function MergeBack(m: seq<int>, cur: int, tSize: int): (r: Option<seq<int>>)
    ensures r.Some? ==> |r.value| == |m|
  {
    if !InRange(m, cur - WordSize) then None
    else
      var prev := cur - m[(cur - WordSize) / 4];
      if !InRange(m, prev) then None
      else
        var m2 := m[prev / 4 := m[prev / 4] + tSize];
        var t := m2[prev / 4];
        var t := if PBit(t) == 2 then t - 2 else t;
        var footer := prev + t - WordSize;
        if !InRange(m2, footer) then None else Some(m2[footer / 4 := t])
  }

  /** myHeap.c:253-257: the block at `cur` becomes a free block of tSize bytes
      with p-bit 1, and gets a footer. */
  function MarkFree(m: seq<int>, cur: int, tSize: int): (r: Option<seq<int>>)
    ensures r.Some? ==> |r.value| == |m|
  {
    var footer := cur + tSize - WordSize;
    if !InRange(m, cur) || !InRange(m, footer) then None
    else Some(m[cur / 4 := tSize + 2][footer / 4 := tSize])
  }

  /** What the backward merge writes, on any words: it fails unless the word
      before `cur` and the header it points back to are in range; the
      predecessor's header grows by tSize with its bits kept, a footer
      holding the grown size without the p-bit goes at the new end, and no
      other word changes. */
  lemma MergeBackWords(m: seq<int>, cur: int, tSize: int)
    requires MergeBack(m, cur, tSize).Some?
    ensures InRange(m, cur - WordSize) && InRange(m, cur - m[(cur - WordSize) / 4])
    ensures var r := MergeBack(m, cur, tSize).value;
      var prev := cur - m[(cur - WordSize) / 4];
      var t := m[prev / 4] + tSize;
      var footer := prev + (t - PBit(t)) - WordSize;
      InRange(m, footer) && r[footer / 4] == t - PBit(t) &&
      (footer != prev ==> r[prev / 4] == t) &&
      forall i :: 0 <= i < |m| && i != prev / 4 && i != footer / 4 ==> r[i] == m[i]
  {
  }

  /** What marking a block free writes, on any words: it succeeds exactly when
      the header and the footer are in range; the header becomes that of a
      free block of tSize bytes with p-bit 1, the footer holds tSize, and no
      other word changes. */
  lemma MarkFreeWords(m: seq<int>, cur: int, tSize: int)
    ensures MarkFree(m, cur, tSize).Some? <==> InRange(m, cur) && InRange(m, cur + tSize - WordSize)
    ensures MarkFree(m, cur, tSize).Some? ==>
      var r := MarkFree(m, cur, tSize).value;
      r[(cur + tSize - WordSize) / 4] == tSize &&
      (tSize != WordSize ==> r[cur / 4] == Encode(Header(tSize, false, true))) &&
      forall i :: 0 <= i < |m| && i != cur / 4 && i != (cur + tSize - WordSize) / 4 ==> r[i] == m[i]
  {
  }

  /** myFree's writes with the backward merge corrected. The branch at
      myHeap.c:241-252 leaves the freed header's a-bit set, so the block
      still reads as allocated at line 215; here that header loses its a-bit
      too, and a second myFree of the same pointer fails there. The other
      branch rewrites the header as free already, and no other word changes. */
  function FreeWrites(m: seq<int>, cur: int): (r: Option<seq<int>>)
    ensures r.Some? <==> ReleaseWrites(m, cur).Some?
    ensures r.Some? ==> InRange(m, cur) && |r.value| == |m| && ABit(r.value[cur / 4]) == 0
    ensures r.Some? ==> forall i :: 0 <= i < |m| && i != cur / 4 ==> r.value[i] == ReleaseWrites(m, cur).value[i]
  {
    match ReleaseWrites(m, cur)
    case None => None
    case Some(m1) =>
      var v := m1[cur / 4];
      Some(if ABit(v) == 1 then m1[cur / 4 := v - 1] else m1)
  }

  /** The corrected writes, from myFree's writes as written. */
  lemma FreeWritesFrom(m: seq<int>, cur: int, m1: seq<int>)
    requires ReleaseWrites(m, cur) == Some(m1)
    ensures InRange(m1, cur)
    ensures FreeWrites(m, cur) == Some(if ABit(m1[cur / 4]) == 1 then m1[cur / 4 := m1[cur / 4] - 1] else m1)
  {
  }

  /** Where each block of Release(bs, k) comes from. */
  lemma ReleaseIndex(bs: seq<Block>, k: int, i: int)
    requires 0 <= k < |bs|
    ensures |Release(bs, k)| == |bs| - (Hi(bs, k) - Lo(bs, k)) + 1
    ensures 0 <= i < Lo(bs, k) ==> Release(bs, k)[i] == bs[i]
    ensures i == Lo(bs, k) ==> Release(bs, k)[i] == Merged(bs, k)
    ensures Lo(bs, k) < i < |Release(bs, k)| ==>
      Release(bs, k)[i] == bs[i - Lo(bs, k) - 1 + Hi(bs, k)]
  {
  }

  /** Freeing block k keeps the chain a tiling with no two free neighbours. */
  lemma ReleaseKeepsChain(bs: seq<Block>, allocsize: int, k: int)
    requires Chain(bs, allocsize) && NoAdjacentFree(bs)
    requires 0 <= k < |bs| && bs[k].isAlloc
    ensures Chain(Release(bs, k), allocsize) && NoAdjacentFree(Release(bs, k))
  {
    var nb := Release(bs, k);
    var lo, hi := Lo(bs, k), Hi(bs, k);
    var d := hi - lo - 1;
    ReleaseIndex(bs, k, 0);
    assert |nb| == |bs| - d;
    MergedSize(bs, allocsize, k);
    forall i | 0 <= i < |nb| ensures nb[i].size >= 8 && nb[i].size % 8 == 0 {
      ReleaseIndex(bs, k, i);
    }
    forall i | 0 <= i < |nb| - 1 ensures Linked(nb, i) && Apart(nb, i) {
      ReleaseLinkedAt(bs, allocsize, k, i);
    }
    ReleaseIndex(bs, k, |nb| - 1);
    if |nb| - 1 == lo {
      assert hi == |bs|;
    }
  }

  /** ReleaseKeepsChain, one pair of neighbours at a time. */
  lemma ReleaseLinkedAt(bs: seq<Block>, allocsize: int, k: int, i: int)
    requires Chain(bs, allocsize) && NoAdjacentFree(bs)
    requires 0 <= k < |bs| && bs[k].isAlloc
    requires 0 <= i < |Release(bs, k)| - 1
    ensures Linked(Release(bs, k), i) && Apart(Release(bs, k), i)
  {
    var lo, hi := Lo(bs, k), Hi(bs, k);
    var d := hi - lo - 1;
    ReleaseIndex(bs, k, i);
    ReleaseIndex(bs, k, i + 1);
    if i < lo - 1 {
      assert Linked(bs, i) && Apart(bs, i);
    } else if i == lo - 1 {
      assert Linked(bs, i);
      assert lo == k - 1 ==> Apart(bs, k - 2);
    } else if i == lo {
      assert Linked(bs, hi - 1);
      assert hi == k + 2 ==> Apart(bs, k + 1);
    } else {
      assert Linked(bs, i + d) && Apart(bs, i + d);
    }
  }

  /** The merged block starts at a header, ends at the next header or the end
      mark, and is a multiple of 8 of at least 8 bytes. */
  lemma MergedSize(bs: seq<Block>, allocsize: int, k: int)
    requires Chain(bs, allocsize)
    requires 0 <= k < |bs|
    ensures var M := Merged(bs, k); var lo, hi := Lo(bs, k), Hi(bs, k);
      M.size >= 8 && M.size % 8 == 0 &&
      M.size == bs[lo].size + (if lo < k then bs[k].size else 0) + (if hi > k + 1 then bs[k + 1].size else 0)
  {
    var lo, hi := Lo(bs, k), Hi(bs, k);
    if lo < k { assert Linked(bs, k - 1); }
    if hi > k + 1 { assert Linked(bs, k); }
    var a, b, c := bs[lo].size, (if lo < k then bs[k].size else 0), (if hi > k + 1 then bs[k + 1].size else 0);
    assert a % 8 == 0 && b % 8 == 0 && c % 8 == 0;
    SumMod8(a, b, c);
  }

  lemma SumMod8(a: int, b: int, c: int)
    requires a % 8 == 0 && b % 8 == 0 && c % 8 == 0
    ensures (a + b + c) % 8 == 0
  {
    assert a + b + c == 8 * (a / 8 + b / 8 + c / 8);
  }

  /** Freeing moves exactly the freed block's size from the used total to the free total. */
  lemma ReleaseTotals(bs: seq<Block>, k: int)
    requires 0 <= k < |bs| && bs[k].isAlloc
    requires forall i :: 0 <= i < |bs| - 1 ==> Linked(bs, i)
    ensures UsedTotal(Release(bs, k)) == UsedTotal(bs) - bs[k].size
    ensures FreeTotal(Release(bs, k)) == FreeTotal(bs) + bs[k].size
  {
    var lo, hi := Lo(bs, k), Hi(bs, k);
    TotalsCut(bs, lo, hi);
    TotalsSplice(bs[..lo], [Merged(bs, k)], bs[hi..]);
    TotalsSingle(Merged(bs, k));
    MidTotals(bs, k);
  }

  /** The blocks that merge: the freed one and its free neighbours. */
  lemma MidTotals(bs: seq<Block>, k: int)
    requires 0 <= k < |bs| && bs[k].isAlloc
    requires forall i :: 0 <= i < |bs| - 1 ==> Linked(bs, i)
    ensures var lo, hi := Lo(bs, k), Hi(bs, k);
      UsedTotal(bs[lo..hi]) == bs[k].size &&
      FreeTotal(bs[lo..hi]) == Merged(bs, k).size - bs[k].size
  {
    var lo, hi := Lo(bs, k), Hi(bs, k);
    var mid := bs[lo..hi];
    var left := if lo < k then [bs[k - 1]] else [];
    var right := if hi > k + 1 then [bs[k + 1]] else [];
    assert mid == left + [bs[k]] + right;
    TotalsSplice(left, [bs[k]], right);
    TotalsSingle(bs[k]);
    if lo < k {
      TotalsSingle(bs[k - 1]);
      assert Linked(bs, k - 1);
    } else {
      assert UsedTotal(left) == 0 && FreeTotal(left) == 0;
    }
    if hi > k + 1 {
      TotalsSingle(bs[k + 1]);
      assert Linked(bs, k);
    } else {
      assert UsedTotal(right) == 0 && FreeTotal(right) == 0;
    }
  }

  /** Allocating from a free block and freeing it again restores the block
      list: the split remainder, or the allocated successor of an exact fit,
      is exactly what coalescing merges back. */
  lemma AllocFreeRoundTrip(bs: seq<Block>, k: int, need: int)
    requires NoAdjacentFree(bs)
    requires 0 <= k < |bs| && Fits(bs[k], need)
    ensures Release(Place(bs, k, need), k) == bs
  {
    var nb := Place(bs, k, need);
    var b := bs[k];
    PlaceIndex(bs, k, need, k);
    if k > 0 {
      PlaceIndex(bs, k, need, k - 1);
      assert Apart(bs, k - 1);
    }
    assert Lo(nb, k) == k;
    if b.size > need {
      PlaceIndex(bs, k, need, k + 1);
      assert Hi(nb, k) == k + 2;
      assert nb[k + 2..] == bs[k + 1..];
    } else {
      if k + 1 < |bs| {
        PlaceIndex(bs, k, need, k + 1);
        assert Apart(bs, k);
      }
      assert Hi(nb, k) == k + 1;
      assert nb[k + 1..] == bs[k + 1..];
    }
    assert Merged(nb, k) == b;
    assert nb[..k] == bs[..k];
    assert bs == bs[..k] + [b] + bs[k + 1..];
  }

  /** The words after freeing block k, stated on the block list: the allocated
      successor loses its p-bit, and the merged block gets a free header with
      p-bit 1 and a footer. */
  function ReleasedImage(m: seq<int>, bs: seq<Block>, k: int): (m': seq<int>)
    requires 0 <= k < |bs|
    requires Addressable(m, End(bs[k]))
    requires Addressable(m, Merged(bs, k).addr) && Addressable(m, End(Merged(bs, k)) - WordSize)
    ensures |m'| == |m|
  {
    Retag(m, End(bs[k]) / 4, k + 1 < |bs|, Merged(bs, k).addr, Merged(bs, k).size)
  }

  /** Clears the p-bit of word `nextWord` when `clearNext`, then tags a free
      block of `size` bytes at `addr` with p-bit 1. */
  function Retag(m: seq<int>, nextWord: int, clearNext: bool, addr: int, size: int): (m': seq<int>)
    requires 0 <= nextWord < |m|
    requires Addressable(m, addr) && Addressable(m, addr + size - WordSize)
    ensures |m'| == |m|
  {
    var m1 := if clearNext then m[nextWord := m[nextWord] - 2] else m;
    m1[addr / 4 := size + 2][(addr + size - WordSize) / 4 := size]
  }

  /** The facts about the freed block and the word after it that myFree reads. */
  lemma ReleaseReads(m: seq<int>, bs: seq<Block>, allocsize: int, k: int)
    requires HeapImage(m, bs, allocsize)
    requires 0 <= k < |bs| && bs[k].isAlloc
    ensures InRange(m, bs[k].addr) && InRange(m, End(bs[k]))
    ensures m[bs[k].addr / 4] - 1 == Encode(Header(bs[k].size, false, PrevAlloc(bs, k)))
    ensures var nv := m[End(bs[k]) / 4];
      (nv != EndMark <==> k + 1 < |bs|) &&
      (k + 1 < |bs| ==> nv == Encode(Header(bs[k + 1].size, bs[k + 1].isAlloc, true)))
    ensures Addressable(m, Merged(bs, k).addr) && Addressable(m, End(Merged(bs, k)) - WordSize)
    ensures Merged(bs, k).addr % 8 == 4 && End(Merged(bs, k)) <= HeapStart + allocsize
    ensures Merged(bs, k).size >= 8 && Merged(bs, k).size % 8 == 0
  {
    ChainFacts(bs, allocsize);
    ReadsFreed(m, bs, allocsize, k);
    ReadsNext(m, bs, allocsize, k);
    MergedBounds(m, bs, allocsize, k);
  }

  lemma ReadsFreed(m: seq<int>, bs: seq<Block>, allocsize: int, k: int)
    requires Stored(m, bs, allocsize)
    requires 0 <= k < |bs| && bs[k].isAlloc && bs[k].addr % 8 == 4 && bs[k].size % 8 == 0
    ensures InRange(m, bs[k].addr)
    ensures m[bs[k].addr / 4] - 1 == Encode(Header(bs[k].size, false, PrevAlloc(bs, k)))
  {
    assert TaggedAt(m, bs, k);
    HeaderAligned(bs[k].addr);
  }

  lemma ReadsNext(m: seq<int>, bs: seq<Block>, allocsize: int, k: int)
    requires Chain(bs, allocsize) && Stored(m, bs, allocsize)
    requires 0 <= k < |bs| && bs[k].isAlloc
    requires forall i :: 0 <= i < |bs| ==>
      bs[i].addr % 8 == 4 && HeapStart <= bs[i].addr && End(bs[i]) <= HeapStart + allocsize
    ensures InRange(m, End(bs[k]))
    ensures var nv := m[End(bs[k]) / 4];
      (nv != EndMark <==> k + 1 < |bs|) &&
      (k + 1 < |bs| ==> nv == Encode(Header(bs[k + 1].size, bs[k + 1].isAlloc, true)))
  {
    if k + 1 < |bs| {
      assert Linked(bs, k);
      assert TaggedAt(m, bs, k + 1);
      HeaderAligned(bs[k + 1].addr);
    } else {
      Mod8(allocsize);
    }
  }

  lemma MergedBounds(m: seq<int>, bs: seq<Block>, allocsize: int, k: int)
    requires Chain(bs, allocsize) && |m| == allocsize / 4 + 2
    requires 0 <= k < |bs|
    requires forall i :: 0 <= i < |bs| ==>
      bs[i].addr % 8 == 4 && HeapStart <= bs[i].addr && End(bs[i]) <= HeapStart + allocsize
    ensures Addressable(m, Merged(bs, k).addr) && Addressable(m, End(Merged(bs, k)) - WordSize)
    ensures Merged(bs, k).addr % 8 == 4 && End(Merged(bs, k)) <= HeapStart + allocsize
    ensures Merged(bs, k).size >= 8 && Merged(bs, k).size % 8 == 0
  {
    MergedSize(bs, allocsize, k);
    var hi := Hi(bs, k);
    assert End(Merged(bs, k)) == End(bs[hi - 1]);
  }

  /** The size myFree has after looking at the word after the freed block:
      the freed size, plus the successor's when that is a free block. */
  function Absorbed(size: int, nv: int): int
  {
    if ABit(nv) == 0 && nv != EndMark then size + (nv - 2) else size
  }

  /** The word writes of myFree, unfolded for a freed block whose p-bit is set. */
  lemma WritesPrevAlloc(m: seq<int>, cur: int, size: int, next: int, ts: int)
    requires InRange(m, cur) && size % 4 == 0
    requires m[cur / 4] - 1 == size + 2
    requires next == cur + size && InRange(m, next)
    requires ts == Absorbed(size, m[next / 4]) && InRange(m, cur + ts - WordSize)
    ensures ReleaseWrites(m, cur) == Some(Retag(m, next / 4, m[next / 4] != EndMark, cur, ts))
  {
    ReleaseEntry(m, cur, size, 2);
  }

  /** myFree's writes, when the freed block's predecessor is allocated (or it
      is the first block), from the words ReleaseReads describes. */
  lemma ReleaseShapePrevAlloc(m: seq<int>, bs: seq<Block>, k: int)
    requires 0 <= k < |bs| && bs[k].isAlloc && PrevAlloc(bs, k) && bs[k].size % 8 == 0
    requires InRange(m, bs[k].addr) && InRange(m, End(bs[k]))
    requires m[bs[k].addr / 4] == bs[k].size + 3
    requires var nv := m[End(bs[k]) / 4];
      (nv != EndMark <==> k + 1 < |bs|) &&
      (k + 1 < |bs| ==> bs[k + 1].size % 8 == 0 && bs[k + 1].size >= 8 &&
                        nv == bs[k + 1].size + (if bs[k + 1].isAlloc then 1 else 0) + 2)
    requires Addressable(m, Merged(bs, k).addr) && Addressable(m, End(Merged(bs, k)) - WordSize)
    requires Merged(bs, k).addr % 8 == 4 && Merged(bs, k).size % 8 == 0
    requires Merged(bs, k).size ==
      bs[k].size + (if Hi(bs, k) > k + 1 then bs[k + 1].size else 0)
    ensures ReleaseWrites(m, bs[k].addr) == Some(ReleasedImage(m, bs, k))
  {
    var b := bs[k];
    var M := Merged(bs, k);
    var nv := m[End(b) / 4];
    AbsorbedNext(bs, k, nv);
    assert Lo(bs, k) == k && M.addr == b.addr;
    var clear := nv != EndMark;
    assert clear == (k + 1 < |bs|);
    var ts := Absorbed(b.size, nv);
    assert ts == M.size;
    assert b.addr % 4 == 0 && ts % 4 == 0 by { Mod8(ts); }
    Mod8(b.size);
    AlignedSum(b.addr, ts);
    assert End(M) - WordSize == b.addr + ts - WordSize;
    WritesPrevAlloc(m, b.addr, b.size, End(b), ts);
    var r := Retag(m, End(b) / 4, clear, b.addr, ts);
    assert ReleaseWrites(m, b.addr) == Some(r);
    assert ReleasedImage(m, bs, k) == r;
  }

  /** The size myFree accumulates before looking back: the freed block's,
      plus its successor's when that is free. */
  lemma AbsorbedNext(bs: seq<Block>, k: int, nv: int)
    requires 0 <= k < |bs|
    requires nv != EndMark <==> k + 1 < |bs|
    requires k + 1 < |bs| ==> bs[k + 1].size % 8 == 0 && bs[k + 1].size >= 8 &&
                              nv == bs[k + 1].size + (if bs[k + 1].isAlloc then 1 else 0) + 2
    ensures Absorbed(bs[k].size, nv) == bs[k].size + (if Hi(bs, k) > k + 1 then bs[k + 1].size else 0)
  {
    if k + 1 < |bs| {
      assert Encode(Header(bs[k + 1].size, bs[k + 1].isAlloc, true)) == nv;
    }
  }

  /** Adding a multiple of 4 to a word-aligned address keeps it word-aligned. */
  lemma AlignedSum(a: int, s: int)
    requires a % 4 == 0 && s % 4 == 0
    ensures (a + s) % 4 == 0 && (a + s - WordSize) % 4 == 0
  {
    assert a + s == 4 * (a / 4 + s / 4);
    assert a + s - WordSize == 4 * (a / 4 + s / 4 - 1);
  }



  /** The word writes of myFree, unfolded for a freed block whose p-bit is
      clear: the predecessor of `psize` bytes is found through its footer and
      absorbs the freed block. */
  lemma WritesPrevFree(m: seq<int>, cur: int, size: int, psize: int, next: int, ts: int,
                       clear: bool, addr: int, msize: int)
    requires InRange(m, cur) && size % 8 == 0 && size >= 8 && psize % 8 == 0 && psize >= 8
    requires m[cur / 4] == size + 1
    requires next == cur + size && InRange(m, next)
    requires InRange(m, cur - psize) && m[(cur - WordSize) / 4] == psize && m[(cur - psize) / 4] == psize + 2
    requires ts == Absorbed(size, m[next / 4]) && ts % 8 == 0 && InRange(m, cur + ts - WordSize)
    requires clear == (m[next / 4] != EndMark) && addr == cur - psize && msize == psize + ts
    ensures ReleaseWrites(m, cur) == Some(Retag(m, next / 4, clear, addr, msize))
  {
    var c := cur / 4;
    Mod8(size);
    Mod8(psize);
    WordSum(cur, size);
    assert (cur - WordSize) / 4 == c - 1;
    assert (cur - psize) / 4 == c - psize / 4 && psize / 4 >= 2 by {
      assert cur - psize == 4 * (c - psize / 4);
    }
    ReleaseEntry(m, cur, size, 0);
    var m1 := ClearNext(m, next);
    assert m1 == if clear then m[next / 4 := m[next / 4] - 2] else m;
    assert m1[(cur - WordSize) / 4] == psize && m1[(cur - psize) / 4] == psize + 2;
    assert Coalesce(m, cur, size, 0) == MergeBack(m1, cur, ts);
    MergeBackWrites(m1, cur, ts, psize, addr, msize);
  }

  /** myHeap.c:218-225: the header read and the p-bit test. */
  lemma ReleaseEntry(m: seq<int>, cur: int, size: int, prevAlloc: int)
    requires InRange(m, cur) && size % 4 == 0 && (prevAlloc == 0 || prevAlloc == 2)
    requires m[cur / 4] == size + 1 + prevAlloc
    ensures ReleaseWrites(m, cur) == Coalesce(m, cur, size, prevAlloc)
  {
    assert PBit(size + prevAlloc) == prevAlloc by {
      assert Encode(Header(size, false, prevAlloc == 2)) == size + prevAlloc;
    }
  }

  /** myFree's writes as the three steps the code takes: strip the header
      (prevAlloc is its p-bit), clear the successor's p-bit while absorbing a
      free successor, then merge backwards or mark the block free. */
  lemma ReleaseSteps(m: seq<int>, cur: int, size: int, prevAlloc: int)
    requires InRange(m, cur) && size % 4 == 0 && (prevAlloc == 0 || prevAlloc == 2)
    requires m[cur / 4] == size + 1 + prevAlloc && InRange(m, cur + size)
    ensures PBit(m[cur / 4] - 1) == prevAlloc
    ensures var ts := Absorbed(size, m[(cur + size) / 4]);
      var m1 := ClearNext(m, cur + size);
      ReleaseWrites(m, cur) == if prevAlloc == 0 then MergeBack(m1, cur, ts) else MarkFree(m1, cur, ts)
  {
    ReleaseEntry(m, cur, size, prevAlloc);
    assert Encode(Header(size, false, prevAlloc == 2)) == size + prevAlloc;
  }

  /** MergeBack on a free predecessor of psize bytes whose header has p-bit 1. */
  lemma MergeBackWrites(m: seq<int>, cur: int, ts: int, psize: int, addr: int, msize: int)
    requires InRange(m, cur - WordSize) && m[(cur - WordSize) / 4] == psize
    requires InRange(m, cur - psize) && m[(cur - psize) / 4] == psize + 2
    requires psize % 8 == 0 && ts % 8 == 0 && InRange(m, cur + ts - WordSize)
    requires addr == cur - psize && msize == psize + ts
    ensures MergeBack(m, cur, ts) ==
      Some(m[addr / 4 := msize + 2][(addr + msize - WordSize) / 4 := msize])
  {
    assert cur - m[(cur - WordSize) / 4] == addr;
    var m2 := m[addr / 4 := m[addr / 4] + ts];
    assert m2[addr / 4] == msize + 2;
    assert PBit(msize + 2) == 2 by {
      SumMod8(psize, ts, 0);
      assert Encode(Header(msize, false, true)) == msize + 2;
    }
    assert addr + msize - WordSize == cur + ts - WordSize;
    assert InRange(m2, addr + msize - WordSize);
  }

  /** myFree's writes, when the freed block's predecessor is free, from the
      words ReleaseReads and PrevReads describe. */
  lemma ReleaseShapePrevFree(m: seq<int>, bs: seq<Block>, k: int)
    requires 0 < k < |bs| && bs[k].isAlloc && !bs[k - 1].isAlloc && bs[k].size % 8 == 0 && bs[k].size >= 8
    requires InRange(m, bs[k].addr) && InRange(m, End(bs[k]))
    requires m[bs[k].addr / 4] == bs[k].size + 1
    requires var nv := m[End(bs[k]) / 4];
      (nv != EndMark <==> k + 1 < |bs|) &&
      (k + 1 < |bs| ==> bs[k + 1].size % 8 == 0 && bs[k + 1].size >= 8 &&
                        nv == bs[k + 1].size + (if bs[k + 1].isAlloc then 1 else 0) + 2)
    requires var p := bs[k - 1];
      p.size % 8 == 0 && p.size >= 8 && End(p) == bs[k].addr && InRange(m, p.addr) &&
      m[(bs[k].addr - WordSize) / 4] == p.size && m[p.addr / 4] == p.size + 2
    requires Addressable(m, Merged(bs, k).addr) && Addressable(m, End(Merged(bs, k)) - WordSize)
    requires Merged(bs, k).size % 8 == 0
    requires Merged(bs, k).size ==
      bs[k - 1].size + bs[k].size + (if Hi(bs, k) > k + 1 then bs[k + 1].size else 0)
    ensures ReleaseWrites(m, bs[k].addr) == Some(ReleasedImage(m, bs, k))
  {
    var b, p := bs[k], bs[k - 1];
    var M := Merged(bs, k);
    var nv := m[End(b) / 4];
    AbsorbedNext(bs, k, nv);
    assert Lo(bs, k) == k - 1 && M.addr == p.addr && p.addr == b.addr - p.size;
    var clear := nv != EndMark;
    assert clear == (k + 1 < |bs|);
    var ts := Absorbed(b.size, nv);
    assert ts == b.size + (if Hi(bs, k) > k + 1 then bs[k + 1].size else 0);
    assert ts % 8 == 0 by { SumMod8(b.size, ts - b.size, 0); }
    assert M.addr + M.size == b.addr + ts;
    assert b.addr % 4 == 0 && ts % 4 == 0 by { Mod8(ts); }
    AlignedSum(b.addr, ts);
    WritesPrevFree(m, b.addr, b.size, p.size, End(b), ts, k + 1 < |bs|, M.addr, M.size);
  }

  /** What myFree reads of a free predecessor: its footer right before the
      freed header, and its header with p-bit 1. */
  lemma PrevReads(m: seq<int>, bs: seq<Block>, allocsize: int, k: int)
    requires HeapImage(m, bs, allocsize)
    requires 0 < k < |bs| && !bs[k - 1].isAlloc
    ensures var p := bs[k - 1];
      p.size % 8 == 0 && p.size >= 8 && End(p) == bs[k].addr && InRange(m, p.addr) &&
      Addressable(m, bs[k].addr - WordSize) &&
      m[(bs[k].addr - WordSize) / 4] == p.size && m[p.addr / 4] == p.size + 2
  {
    var p := bs[k - 1];
    assert p.size % 8 == 0 && p.size >= 8;
    assert p.addr % 8 == 4 by { ChainFacts(bs, allocsize); }
    assert Linked(bs, k - 1);
    assert PrevAlloc(bs, k - 1) by {
      if k - 1 > 0 { assert Apart(bs, k - 2); }
    }
    assert Tagged(m, p, true) by { assert TaggedAt(m, bs, k - 1); }
    HeaderAligned(p.addr);
  }

  /** myFree's word writes on an allocated block of a well-formed heap are
      exactly ReleasedImage: whichever neighbours are free, the code reads and
      writes inside the region and leaves the words the merged block calls for. */
  lemma ReleaseShape(m: seq<int>, bs: seq<Block>, allocsize: int, k: int)
    requires HeapImage(m, bs, allocsize)
    requires 0 <= k < |bs| && bs[k].isAlloc
    ensures Addressable(m, End(bs[k]))
    ensures Addressable(m, Merged(bs, k).addr) && Addressable(m, End(Merged(bs, k)) - WordSize)
    ensures ReleaseWrites(m, bs[k].addr) == Some(ReleasedImage(m, bs, k))
  {
    ReleaseReads(m, bs, allocsize, k);
    MergedSize(bs, allocsize, k);
    var b := bs[k];
    assert b.size % 8 == 0 && b.size >= 8;
    assert k + 1 < |bs| ==> bs[k + 1].size % 8 == 0 && bs[k + 1].size >= 8;
    if PrevAlloc(bs, k) {
      ReleaseShapePrevAlloc(m, bs, k);
    } else {
      PrevReads(m, bs, allocsize, k);
      ReleaseShapePrevFree(m, bs, k);
    }
  }

  /** Which words Retag changes, and to what. */
  lemma RetagWords(m: seq<int>, nextWord: int, clear: bool, addr: int, size: int, w: int)
    requires 0 <= nextWord < |m|
    requires Addressable(m, addr) && Addressable(m, addr + size - WordSize)
    requires 0 <= w < |m|
    ensures Retag(m, nextWord, clear, addr, size)[w] ==
      if w == (addr + size - WordSize) / 4 then size
      else if w == addr / 4 then size + 2
      else if clear && w == nextWord then m[w] - 2
      else m[w]
  {
  }

  /** A block whose tags lie before the merged block, or after it and after
      the word whose p-bit is cleared, keeps its tags. */
  lemma RetagMiss(m: seq<int>, nextWord: int, clear: bool, addr: int, size: int, c: Block, cPrevAlloc: bool)
    requires 0 <= nextWord < |m|
    requires Addressable(m, addr) && Addressable(m, addr + size - WordSize)
    requires addr % 4 == 0 && size % 4 == 0 && size >= 8
    requires Tagged(m, c, cPrevAlloc) && c.addr % 8 == 4 && c.size % 8 == 0 && c.size >= 8
    requires (End(c) <= addr && nextWord >= addr / 4) || (addr + size <= c.addr && nextWord < c.addr / 4)
    ensures Tagged(Retag(m, nextWord, clear, addr, size), c, cPrevAlloc)
  {
    var m' := Retag(m, nextWord, clear, addr, size);
    BlockWords(c);
    AlignedSum(addr, size);
    DivMono(addr, addr + size - WordSize);
    var h, f := c.addr / 4, (End(c) - 4) / 4;
    RetagWords(m, nextWord, clear, addr, size, h);
    RetagWords(m, nextWord, clear, addr, size, f);
    if End(c) <= addr {
      WordOrder(End(c) - 4, addr);
    } else {
      WordOrder(addr + size - WordSize, c.addr);
    }
    TaggedFrame(m, m', c, cPrevAlloc);
  }

  /** The words myFree leaves behind hold the block list Release computes. */
  lemma ReleaseStored(m: seq<int>, bs: seq<Block>, allocsize: int, k: int)
    requires HeapImage(m, bs, allocsize)
    requires 0 <= k < |bs| && bs[k].isAlloc
    ensures Addressable(m, End(bs[k]))
    ensures Addressable(m, Merged(bs, k).addr) && Addressable(m, End(Merged(bs, k)) - WordSize)
    ensures Stored(ReleasedImage(m, bs, k), Release(bs, k), allocsize)
  {
    ReleaseIndex(bs, k, 0);
    ReleaseTaggedAt(m, bs, allocsize, k, 0);
    ReleaseEndMark(m, bs, allocsize, k);
    var m' := ReleasedImage(m, bs, k);
    var nb := Release(bs, k);
    forall i | 0 <= i < |nb| ensures TaggedAt(m', nb, i) {
      ReleaseTaggedAt(m, bs, allocsize, k, i);
    }
  }

  /** myFree's writes stay clear of the end mark. */
  lemma ReleaseEndMark(m: seq<int>, bs: seq<Block>, allocsize: int, k: int)
    requires HeapImage(m, bs, allocsize)
    requires 0 <= k < |bs| && bs[k].isAlloc
    requires Addressable(m, End(bs[k]))
    requires Addressable(m, Merged(bs, k).addr) && Addressable(m, End(Merged(bs, k)) - WordSize)
    ensures ReleasedImage(m, bs, k)[(HeapStart + allocsize) / 4] == EndMark
  {
    ReleaseReads(m, bs, allocsize, k);
    var M := Merged(bs, k);
    var e := End(bs[k]);
    BlockFacts(bs, allocsize, k);
    BlockWords(bs[k]);
    if k + 1 < |bs| {
      BlockOrder(bs, allocsize, k, k + 1);
      BlockFacts(bs, allocsize, k + 1);
    }
    Mod8(allocsize);
    WordSum(HeapStart, allocsize);
    RetagKeepsEnd(m, e, k + 1 < |bs|, M.addr, M.size, HeapStart + allocsize);
  }

  /** ReleaseStored, one block of the new list at a time. */
  lemma ReleaseTaggedAt(m: seq<int>, bs: seq<Block>, allocsize: int, k: int, i: int)
    requires HeapImage(m, bs, allocsize)
    requires 0 <= k < |bs| && bs[k].isAlloc
    requires 0 <= i < |Release(bs, k)|
    ensures Addressable(m, End(bs[k]))
    ensures Addressable(m, Merged(bs, k).addr) && Addressable(m, End(Merged(bs, k)) - WordSize)
    ensures TaggedAt(ReleasedImage(m, bs, k), Release(bs, k), i)
  {
    ReleaseReads(m, bs, allocsize, k);
    var lo := Lo(bs, k);
    ReleaseIndex(bs, k, i);
    if i < lo {
      ReleaseTaggedBefore(m, bs, allocsize, k, i);
    } else if i == lo {
      ReleaseTaggedMerged(m, bs, allocsize, k);
    } else if i == lo + 1 {
      ReleaseTaggedSuccessor(m, bs, allocsize, k);
    } else {
      ReleaseTaggedAfter(m, bs, allocsize, k, i);
    }
  }

  lemma ReleaseTaggedBefore(m: seq<int>, bs: seq<Block>, allocsize: int, k: int, i: int)
    requires HeapImage(m, bs, allocsize)
    requires 0 <= k < |bs| && bs[k].isAlloc
    requires 0 <= i < Lo(bs, k)
    requires Addressable(m, End(bs[k]))
    requires Addressable(m, Merged(bs, k).addr) && Addressable(m, End(Merged(bs, k)) - WordSize)
    requires Merged(bs, k).addr % 8 == 4 && Merged(bs, k).size % 8 == 0 && Merged(bs, k).size >= 8
    ensures TaggedAt(ReleasedImage(m, bs, k), Release(bs, k), i)
  {
    var M := Merged(bs, k);
    ReleaseIndex(bs, k, i);
    if i > 0 { ReleaseIndex(bs, k, i - 1); }
    assert PrevAlloc(Release(bs, k), i) == PrevAlloc(bs, i);
    assert TaggedAt(m, bs, i);
    BlockFacts(bs, allocsize, i);
    BlockOrder(bs, allocsize, i, Lo(bs, k));
    assert End(bs[i]) <= M.addr;
    assert M.addr <= End(bs[k]) by {
      BlockFacts(bs, allocsize, k);
      if Lo(bs, k) < k { BlockOrder(bs, allocsize, k - 1, k); }
    }
    DivMono(M.addr, End(bs[k]));
    HeaderAligned(M.addr);
    Mod8(M.size);
    RetagMiss(m, End(bs[k]) / 4, k + 1 < |bs|, M.addr, M.size, bs[i], PrevAlloc(bs, i));
  }

  lemma ReleaseTaggedMerged(m: seq<int>, bs: seq<Block>, allocsize: int, k: int)
    requires HeapImage(m, bs, allocsize)
    requires 0 <= k < |bs| && bs[k].isAlloc
    requires Addressable(m, End(bs[k]))
    requires Addressable(m, Merged(bs, k).addr) && Addressable(m, End(Merged(bs, k)) - WordSize)
    requires Merged(bs, k).addr % 8 == 4 && Merged(bs, k).size % 8 == 0 && Merged(bs, k).size >= 8
    ensures TaggedAt(ReleasedImage(m, bs, k), Release(bs, k), Lo(bs, k))
  {
    var M := Merged(bs, k);
    ReleaseIndex(bs, k, Lo(bs, k));
    MergedPrevAlloc(bs, k);
    RetagTagsFree(m, End(bs[k]) / 4, k + 1 < |bs|, M.addr, M.size);
  }

  /** The block before the merged one, if any, is allocated. */
  lemma MergedPrevAlloc(bs: seq<Block>, k: int)
    requires NoAdjacentFree(bs) && 0 <= k < |bs| && bs[k].isAlloc
    ensures PrevAlloc(Release(bs, k), Lo(bs, k))
  {
    var lo := Lo(bs, k);
    if lo > 0 {
      ReleaseIndex(bs, k, lo - 1);
      if lo == k - 1 {
        assert Apart(bs, k - 2);
      }
    }
  }

  /** Retag leaves a free block with p-bit 1 and its footer at addr. */
  lemma RetagTagsFree(m: seq<int>, e: int, clear: bool, addr: int, size: int)
    requires 0 <= e < |m|
    requires Addressable(m, addr) && Addressable(m, addr + size - WordSize)
    requires addr % 8 == 4 && size % 8 == 0 && size >= 8
    ensures Tagged(Retag(m, e, clear, addr, size), Block(addr, size, false), true)
  {
    HeaderAligned(addr);
    AlignedSum(addr, size);
    RetagWords(m, e, clear, addr, size, addr / 4);
    RetagWords(m, e, clear, addr, size, (addr + size - WordSize) / 4);
    assert addr / 4 < (addr + size - WordSize) / 4;
    assert Encode(Header(size, false, true)) == size + 2;
  }

  lemma ReleaseTaggedSuccessor(m: seq<int>, bs: seq<Block>, allocsize: int, k: int)
    requires HeapImage(m, bs, allocsize)
    requires 0 <= k < |bs| && bs[k].isAlloc
    requires Lo(bs, k) + 1 < |Release(bs, k)|
    requires Addressable(m, End(bs[k]))
    requires Addressable(m, Merged(bs, k).addr) && Addressable(m, End(Merged(bs, k)) - WordSize)
    requires Merged(bs, k).addr % 8 == 4 && Merged(bs, k).size % 8 == 0 && Merged(bs, k).size >= 8
    ensures TaggedAt(ReleasedImage(m, bs, k), Release(bs, k), Lo(bs, k) + 1)
  {
    var M := Merged(bs, k);
    var lo, hi := Lo(bs, k), Hi(bs, k);
    var nb := Release(bs, k);
    ReleaseIndex(bs, k, lo);
    ReleaseIndex(bs, k, lo + 1);
    var c := bs[hi];
    assert nb[lo + 1] == c && !PrevAlloc(nb, lo + 1);
    assert End(M) == c.addr by { assert Linked(bs, hi - 1); }
    assert Tagged(m, c, PrevAlloc(bs, hi)) by { assert TaggedAt(m, bs, hi); }
    BlockFacts(bs, allocsize, hi);
    if hi == k + 1 {
      assert c.isAlloc && PrevAlloc(bs, hi);
      RetagClearsSuccessor(m, End(bs[k]), M.addr, M.size, c);
    } else {
      assert !PrevAlloc(bs, hi) by { assert Apart(bs, k + 1); }
      assert End(bs[k]) + 8 <= c.addr by { assert Linked(bs, k); BlockFacts(bs, allocsize, k + 1); }
      RetagMissNext(m, End(bs[k]), k + 1 < |bs|, M.addr, M.size, c);
    }
  }

  /** The block right after the merged one, when it was the freed block's
      allocated successor, has its p-bit cleared. */
  lemma RetagClearsSuccessor(m: seq<int>, e: int, addr: int, size: int, c: Block)
    requires Addressable(m, e) && Addressable(m, addr) && Addressable(m, addr + size - WordSize)
    requires addr % 8 == 4 && size % 8 == 0 && size >= 8
    requires Tagged(m, c, true) && c.isAlloc && c.addr == e == addr + size && c.size >= 8
    ensures Tagged(Retag(m, e / 4, true, addr, size), c, false)
  {
    HeaderAligned(addr);
    Mod8(size);
    AlignedSum(addr, size);
    RetagWords(m, e / 4, true, addr, size, e / 4);
    assert (addr + size - WordSize) / 4 < e / 4 && addr / 4 < e / 4;
  }

  /** The block right after the merged one, when the merge took in a free
      successor, keeps its tags: its p-bit was already clear. */
  lemma RetagMissNext(m: seq<int>, e: int, clear: bool, addr: int, size: int, c: Block)
    requires Addressable(m, e) && Addressable(m, addr) && Addressable(m, addr + size - WordSize)
    requires addr % 8 == 4 && size % 8 == 0 && size >= 8
    requires Tagged(m, c, false) && c.addr % 8 == 4 && c.size % 8 == 0 && c.size >= 8
    requires c.addr == addr + size && e + 8 <= c.addr
    ensures Tagged(Retag(m, e / 4, clear, addr, size), c, false)
  {
    HeaderAligned(addr);
    HeaderAligned(c.addr);
    Mod8(size);
    DivMono(e, c.addr - 4);
    assert (c.addr - 4) / 4 < c.addr / 4;
    RetagMiss(m, e / 4, clear, addr, size, c, false);
  }

  lemma ReleaseTaggedAfter(m: seq<int>, bs: seq<Block>, allocsize: int, k: int, i: int)
    requires HeapImage(m, bs, allocsize)
    requires 0 <= k < |bs| && bs[k].isAlloc
    requires Lo(bs, k) + 1 < i < |Release(bs, k)|
    requires Addressable(m, End(bs[k]))
    requires Addressable(m, Merged(bs, k).addr) && Addressable(m, End(Merged(bs, k)) - WordSize)
    requires Merged(bs, k).addr % 8 == 4 && Merged(bs, k).size % 8 == 0 && Merged(bs, k).size >= 8
    ensures TaggedAt(ReleasedImage(m, bs, k), Release(bs, k), i)
  {
    var M := Merged(bs, k);
    var lo, hi := Lo(bs, k), Hi(bs, k);
    var j := i - lo - 1 + hi;
    ReleaseIndex(bs, k, i);
    ReleaseIndex(bs, k, i - 1);
    assert PrevAlloc(Release(bs, k), i) == PrevAlloc(bs, j);
    var c := bs[j];
    assert Tagged(m, c, PrevAlloc(bs, j)) by { assert TaggedAt(m, bs, j); }
    assert End(M) == bs[hi].addr by { assert Linked(bs, hi - 1); }
    BlockOrder(bs, allocsize, hi, j);
    BlockFacts(bs, allocsize, j);
    BlockFacts(bs, allocsize, hi);
    BlockOrder(bs, allocsize, k, hi);
    RetagMissAfter(m, End(bs[k]), k + 1 < |bs|, M.addr, M.size, c, PrevAlloc(bs, j));
  }

  /** RetagMiss for a block that starts past the merged block and the cleared word. */
  lemma RetagMissAfter(m: seq<int>, e: int, clear: bool, addr: int, size: int, c: Block, cPrevAlloc: bool)
    requires Addressable(m, e) && Addressable(m, addr) && Addressable(m, addr + size - WordSize)
    requires addr % 8 == 4 && size % 8 == 0 && size >= 8
    requires Tagged(m, c, cPrevAlloc) && c.addr % 8 == 4 && c.size % 8 == 0 && c.size >= 8
    requires addr + size + 8 <= c.addr && e <= addr + size
    ensures Tagged(Retag(m, e / 4, clear, addr, size), c, cPrevAlloc)
  {
    HeaderAligned(addr);
    HeaderAligned(c.addr);
    Mod8(size);
    DivMono(e, c.addr - 4);
    assert (c.addr - 4) / 4 < c.addr / 4;
    RetagMiss(m, e / 4, clear, addr, size, c, cPrevAlloc);
  }

  /** Retag leaves the end mark alone: the merged block ends at or before it,
      and the cleared p-bit belongs to a block header before it. */
  lemma RetagKeepsEnd(m: seq<int>, e: int, clear: bool, addr: int, size: int, endAddr: int)
    requires Addressable(m, e) && Addressable(m, addr) && Addressable(m, addr + size - WordSize)
    requires 0 <= endAddr && endAddr / 4 < |m| && endAddr % 4 == 0
    requires addr % 8 == 4 && size % 8 == 0 && size >= 8 && addr + size <= endAddr
    requires e % 4 == 0 && (clear ==> e < endAddr)
    ensures Retag(m, e / 4, clear, addr, size)[endAddr / 4] == m[endAddr / 4]
  {
    HeaderAligned(addr);
    Mod8(size);
    AlignedSum(addr, size);
    RetagWords(m, e / 4, clear, addr, size, endAddr / 4);
    assert (addr + size - WordSize) / 4 < endAddr / 4;
    assert addr / 4 < endAddr / 4;
    if clear { assert e / 4 < endAddr / 4; }
  }
}
