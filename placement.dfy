/**
 * What myAlloc does to the chain once it has found a block: the next-fit
 * choice it must make (FirstFit), the split it performs on the block list
 * (Place), and the header and footer words it writes (PlaceWrites).
 */
module Placement {
  import opened Encoding
  import opened BlockChain

  /** A free block of at least `need` bytes can take the request. */
  predicate Fits(b: Block, need: int)
  {
    !b.isAlloc && b.size >= need
  }

  /** Next-fit order: a scan that starts at block s reaches block j before block k. */
  predicate CyclicBefore(s: int, j: int, k: int)
  {
    if s <= k then s <= j < k else s <= j || j < k
  }

  /** Block k is the block next-fit chooses when the scan starts at block s:
      it fits, and no block the scan passes before it fits. */
  ghost predicate FirstFit(bs: seq<Block>, s: int, need: int, k: int)
  {
    0 <= k < |bs| && Fits(bs[k], need) &&
    forall j :: 0 <= j < |bs| && CyclicBefore(s, j, k) ==> !Fits(bs[j], need)
  }

  /** The next-fit choice is unique. */
  lemma FirstFitUnique(bs: seq<Block>, s: int, need: int, k1: int, k2: int)
    requires 0 <= s < |bs|
    requires FirstFit(bs, s, need, k1) && FirstFit(bs, s, need, k2)
    ensures k1 == k2
  {
  }

  /** The block list after the request takes block k (myHeap.c:151-164): the
      first `need` bytes become an allocated block, and a remainder, if any,
      becomes a free block right after it. */
  function Place(bs: seq<Block>, k: int, need: int): (r: seq<Block>)
    requires 0 <= k < |bs|
    ensures |r| == |bs| + (if bs[k].size > need then 1 else 0)
    ensures forall i :: 0 <= i < k ==> r[i] == bs[i]
    ensures r[k].addr == bs[k].addr && r[k].isAlloc
    ensures End(r[|r| - 1]) == End(bs[|bs| - 1])
  {
    bs[..k] + Carve(bs[k], need) + bs[k + 1..]
  }

  /** What takes the place of the chosen block b: an allocated block of `need`
      bytes and a free remainder, or b itself, allocated, when it fits exactly. */
  function Carve(b: Block, need: int): (r: seq<Block>)
    ensures |r| == (if b.size > need then 2 else 1)
    ensures r[0].addr == b.addr && r[0].isAlloc && End(r[|r| - 1]) == End(b)
    ensures |r| == 2 ==> r[0].size == need && End(r[0]) == r[1].addr && !r[1].isAlloc
  {
    if b.size > need then [Block(b.addr, need, true), Block(b.addr + need, b.size - need, false)]
    else [Block(b.addr, b.size, true)]
  }

  /** The word writes of a successful myAlloc on the block at `current`, of bare
      size tSize, for a block of `need` bytes (myHeap.c:154-164). prevAlloc is
      the p-bit (0 or 2) the new header carries, and an exact fit sets
      the p-bit of the following block unless it is the end mark; the code as
      written does neither (see AsWritten). */
  function PlaceWrites(m: seq<int>, current: int, tSize: int, need: int, prevAlloc: int): (m': seq<int>)
    requires 0 < need <= tSize
    requires Addressable(m, current) && Addressable(m, current + tSize)
    requires current + tSize >= WordSize
    ensures |m'| == |m|
    ensures forall w ::
      (0 <= w < |m| && w != current / 4 && w != (current + need) / 4 &&
       w != (current + tSize - WordSize) / 4 && w != (current + tSize) / 4) ==> m'[w] == m[w]
  {
    var m1 := m[current / 4 := need + 1 + prevAlloc];
    if tSize > need then
      var next := current + need;
      var footer := next + (tSize - need) - WordSize;
      m1[next / 4 := (tSize - need) + 2][footer / 4 := tSize - need]
    else
      var next := current + tSize;
      if m1[next / 4] != EndMark then m1[next / 4 := m1[next / 4] + 2] else m1
  }

  /** PlaceWrites when every word it writes lies in m; None otherwise. */
  function PlaceWritesChecked(m: seq<int>, current: int, tSize: int, need: int, prevAlloc: int): (r: Option<seq<int>>)
    ensures r.Some? ==> |r.value| == |m|
  {
    if 0 < need <= tSize && Addressable(m, current) && Addressable(m, current + tSize) && current + tSize >= WordSize
    then Some(PlaceWrites(m, current, tSize, need, prevAlloc))
    else None
  }

  /** Where each block of Place(bs, k, need) comes from. */
  lemma PlaceIndex(bs: seq<Block>, k: int, need: int, i: int)
    requires 0 <= k < |bs|
    requires 0 <= i < |Place(bs, k, need)|
    ensures var nb := Place(bs, k, need); var b := bs[k];
      |nb| == (if b.size > need then |bs| + 1 else |bs|) &&
      (i < k ==> nb[i] == bs[i]) &&
      (i == k ==> nb[i] == Block(b.addr, if b.size > need then need else b.size, true)) &&
      (b.size > need && i == k + 1 ==> nb[i] == Block(b.addr + need, b.size - need, false)) &&
      (b.size > need && i > k + 1 ==> nb[i] == bs[i - 1]) &&
      (b.size <= need && i > k ==> nb[i] == bs[i])
  {
  }

  /** Splitting keeps the chain a tiling of the heap with no two free neighbours. */
  lemma PlaceKeepsChain(bs: seq<Block>, allocsize: int, k: int, need: int)
    requires Chain(bs, allocsize) && NoAdjacentFree(bs)
    requires 0 <= k < |bs| && Fits(bs[k], need) && need >= 8 && need % 8 == 0
    ensures Chain(Place(bs, k, need), allocsize) && NoAdjacentFree(Place(bs, k, need))
  {
    var nb := Place(bs, k, need);
    var b := bs[k];
    var split := b.size > need;
    var d := if split then 1 else 0;
    assert |nb| == |bs| + d by { PlaceIndex(bs, k, need, 0); }
    forall i | 0 <= i < |nb| ensures nb[i].size >= 8 && nb[i].size % 8 == 0 {
      PlaceIndex(bs, k, need, i);
    }
    forall i | 0 <= i < |nb| - 1 ensures Linked(nb, i) && Apart(nb, i) {
      PlaceLinkedAt(bs, k, need, i);
    }
    PlaceIndex(bs, k, need, |nb| - 1);
    PlaceIndex(bs, k, need, 0);
  }

  /** PlaceKeepsChain, one pair of neighbours at a time. */
  lemma PlaceLinkedAt(bs: seq<Block>, k: int, need: int, i: int)
    requires 0 <= k < |bs| && Fits(bs[k], need)
    requires forall j :: 0 <= j < |bs| - 1 ==> Linked(bs, j) && Apart(bs, j)
    requires 0 <= i < |Place(bs, k, need)| - 1
    ensures Linked(Place(bs, k, need), i) && Apart(Place(bs, k, need), i)
  {
    var split := bs[k].size > need;
    var d := if split then 1 else 0;
    PlaceIndex(bs, k, need, i);
    PlaceIndex(bs, k, need, i + 1);
    if i < k {
      assert Linked(bs, i) && Apart(bs, i);
    } else if i == k {
      if !split {
        assert Linked(bs, k);
      }
    } else if split && i == k + 1 {
      assert Linked(bs, k) && Apart(bs, k);
    } else {
      assert Linked(bs, i - d) && Apart(bs, i - d);
    }
  }

  /** Allocation moves exactly `need` bytes from the free total to the used total. */
  lemma PlaceTotals(bs: seq<Block>, k: int, need: int)
    requires 0 <= k < |bs| && Fits(bs[k], need)
    ensures UsedTotal(Place(bs, k, need)) == UsedTotal(bs) + need
    ensures FreeTotal(Place(bs, k, need)) == FreeTotal(bs) - need
  {
    TotalsAround(bs, k);
    TotalsSplice(bs[..k], Carve(bs[k], need), bs[k + 1..]);
    CarveTotals(bs[k], need);
  }

  /** The totals of a list split around its block k. */
  lemma TotalsAround(bs: seq<Block>, k: int)
    requires 0 <= k < |bs|
    ensures UsedTotal(bs) == UsedTotal(bs[..k]) + (if bs[k].isAlloc then bs[k].size else 0) + UsedTotal(bs[k + 1..])
    ensures FreeTotal(bs) == FreeTotal(bs[..k]) + (if bs[k].isAlloc then 0 else bs[k].size) + FreeTotal(bs[k + 1..])
  {
    TotalsCut(bs, k, k + 1);
    assert bs[k..k + 1] == [bs[k]];
    TotalsSingle(bs[k]);
  }

  /** The totals of a list cut in three at lo and hi. */
  lemma TotalsCut(bs: seq<Block>, lo: int, hi: int)
    requires 0 <= lo <= hi <= |bs|
    ensures UsedTotal(bs) == UsedTotal(bs[..lo]) + UsedTotal(bs[lo..hi]) + UsedTotal(bs[hi..])
    ensures FreeTotal(bs) == FreeTotal(bs[..lo]) + FreeTotal(bs[lo..hi]) + FreeTotal(bs[hi..])
  {
    assert bs == bs[..lo] + bs[lo..hi] + bs[hi..];
    TotalsSplice(bs[..lo], bs[lo..hi], bs[hi..]);
  }

  /** The blocks that replace a fitting block b hold `need` used bytes and the rest free. */
  lemma CarveTotals(b: Block, need: int)
    requires Fits(b, need)
    ensures UsedTotal(Carve(b, need)) == need && FreeTotal(Carve(b, need)) == b.size - need
  {
    var a := Block(b.addr, if b.size > need then need else b.size, true);
    TotalsSingle(a);
    if b.size > need {
      var f := Block(b.addr + need, b.size - need, false);
      TotalsPair(a, f);
      TotalsSingle(f);
    }
  }

  lemma TotalsSplice(pre: seq<Block>, mid: seq<Block>, post: seq<Block>)
    ensures UsedTotal(pre + mid + post) == UsedTotal(pre) + UsedTotal(mid) + UsedTotal(post)
    ensures FreeTotal(pre + mid + post) == FreeTotal(pre) + FreeTotal(mid) + FreeTotal(post)
  {
    TotalsAppend(pre + mid, post);
    TotalsAppend(pre, mid);
  }

  lemma TotalsSingle(b: Block)
    ensures UsedTotal([b]) == (if b.isAlloc then b.size else 0)
    ensures FreeTotal([b]) == (if b.isAlloc then 0 else b.size)
  {
    assert [b][1..] == [];
  }

  lemma TotalsPair(a: Block, b: Block)
    ensures UsedTotal([a, b]) == UsedTotal([a]) + UsedTotal([b])
    ensures FreeTotal([a, b]) == FreeTotal([a]) + FreeTotal([b])
  {
    assert [a, b] == [a] + [b];
    TotalsAppend([a], [b]);
  }

  lemma {:induction false} TotalsAppend(a: seq<Block>, c: seq<Block>)
    ensures UsedTotal(a + c) == UsedTotal(a) + UsedTotal(c)
    ensures FreeTotal(a + c) == FreeTotal(a) + FreeTotal(c)
  {
    if a == [] {
      assert a + c == c;
    } else {
      assert (a + c)[1..] == a[1..] + c;
      TotalsAppend(a[1..], c);
    }
  }

  /** A word write that misses both tags of b leaves b tagged. */
  lemma TaggedFrame(m: seq<int>, m': seq<int>, b: Block, prevAlloc: bool)
    requires Tagged(m, b, prevAlloc) && |m'| == |m|
    requires m'[b.addr / 4] == m[b.addr / 4]
    requires !b.isAlloc ==> m'[(End(b) - 4) / 4] == m[(End(b) - 4) / 4]
    ensures Tagged(m', b, prevAlloc)
  {
  }

  /** Which words PlaceWrites changes, and to what, counted in words from the
      chosen block's header c: every other word keeps its value. */
  lemma PlaceWritesWords(m: seq<int>, current: int, tSize: int, need: int, prevAlloc: int, w: int)
    requires 0 < need <= tSize
    requires Addressable(m, current) && Addressable(m, current + tSize) && current + tSize >= WordSize
    requires current % 4 == 0 && need % 8 == 0 && tSize % 8 == 0 && 0 <= w < |m|
    ensures var c, n, t := current / 4, need / 4, tSize / 4;
      (current + need) / 4 == c + n && (current + need + (tSize - need) - WordSize) / 4 == c + t - 1 &&
      (current + tSize - WordSize) / 4 == c + t - 1 && (current + tSize) / 4 == c + t && (current + tSize) % 4 == 0 &&
      need == 4 * n && tSize == 4 * t && 2 <= n <= t &&
      PlaceWrites(m, current, tSize, need, prevAlloc)[w] ==
        if w == c then need + 1 + prevAlloc
        else if tSize > need && w == c + n then (tSize - need) + 2
        else if tSize > need && w == c + t - 1 then tSize - need
        else if tSize == need && w == c + t && m[w] != EndMark then m[w] + 2
        else m[w]
  {
    Mod8(need);
    Mod8(tSize);
    WordSum(current, need);
    WordSum(current, tSize);
    WordSum(current, tSize - WordSize);
    assert current + need + (tSize - need) - WordSize == current + (tSize - WordSize);
  }

  /** The words PlaceWrites leaves behind hold the block list Place computes:
      myAlloc's writes keep the memory and the chain in step. */
  lemma PlaceStored(m: seq<int>, bs: seq<Block>, allocsize: int, k: int, need: int)
    requires HeapImage(m, bs, allocsize)
    requires 0 <= k < |bs| && Fits(bs[k], need) && need >= 8 && need % 8 == 0
    ensures Addressable(m, bs[k].addr) && Addressable(m, End(bs[k])) && End(bs[k]) >= WordSize
    ensures Stored(PlaceWrites(m, bs[k].addr, bs[k].size, need, if PrevAlloc(bs, k) then 2 else 0),
                   Place(bs, k, need), allocsize)
  {
    PlaceIndex(bs, k, need, 0);
    PlaceTaggedAt(m, bs, allocsize, k, need, 0);
    BlockFacts(bs, allocsize, k);
    PlaceEndMark(m, bs[k], need, if PrevAlloc(bs, k) then 2 else 0, allocsize);
    var m' := PlaceWrites(m, bs[k].addr, bs[k].size, need, if PrevAlloc(bs, k) then 2 else 0);
    var nb := Place(bs, k, need);
    forall i | 0 <= i < |nb| ensures TaggedAt(m', nb, i) {
      PlaceTaggedAt(m, bs, allocsize, k, need, i);
    }
  }

  /** PlaceWrites stays clear of the end mark. */
  lemma PlaceEndMark(m: seq<int>, b: Block, need: int, prevAlloc: int, allocsize: int)
    requires Fits(b, need) && need >= 8 && need % 8 == 0 && b.addr % 8 == 4 && b.size % 8 == 0
    requires allocsize % 8 == 0 && Addressable(m, HeapStart + allocsize)
    requires m[(HeapStart + allocsize) / 4] == EndMark
    requires Addressable(m, b.addr) && Addressable(m, End(b)) && End(b) <= HeapStart + allocsize
    ensures End(b) >= WordSize
    ensures PlaceWrites(m, b.addr, b.size, need, prevAlloc)[(HeapStart + allocsize) / 4] == EndMark
  {
    var e := HeapStart + allocsize;
    BlockWords(b);
    Mod8(allocsize);
    WordSum(HeapStart, allocsize);
    PlaceWritesWords(m, b.addr, b.size, need, prevAlloc, e / 4);
    if End(b) < e {
      WordOrder(End(b), e);
    }
  }

  /** A block that PlaceWrites does not touch stays tagged: one that ends at or
      before the chosen block, or one after it whose header is not the one an
      exact fit updates. */
  lemma PlaceWritesMiss(m: seq<int>, current: int, tSize: int, need: int, prevAlloc: int,
                        c: Block, cPrevAlloc: bool)
    requires 0 < need <= tSize && need % 8 == 0 && tSize % 8 == 0 && current % 8 == 4
    requires Addressable(m, current) && Addressable(m, current + tSize) && current + tSize >= WordSize
    requires Tagged(m, c, cPrevAlloc) && c.addr % 8 == 4 && c.size % 8 == 0 && c.size >= 8
    requires End(c) <= current || (current + tSize <= c.addr && (tSize > need || current + tSize < c.addr))
    ensures Tagged(PlaceWrites(m, current, tSize, need, prevAlloc), c, cPrevAlloc)
  {
    var m' := PlaceWrites(m, current, tSize, need, prevAlloc);
    HeaderAligned(current);
    BlockWords(c);
    var h, f := c.addr / 4, (End(c) - 4) / 4;
    PlaceWritesWords(m, current, tSize, need, prevAlloc, h);
    PlaceWritesWords(m, current, tSize, need, prevAlloc, f);
    if End(c) <= current {
      WordOrder(End(c) - 4, current);
    } else if current + tSize < c.addr {
      WordOrder(current + tSize, c.addr);
    }
    TaggedFrame(m, m', c, cPrevAlloc);
  }

  /** PlaceStored, one block of the new list at a time. */
  lemma PlaceTaggedAt(m: seq<int>, bs: seq<Block>, allocsize: int, k: int, need: int, i: int)
    requires HeapImage(m, bs, allocsize)
    requires 0 <= k < |bs| && Fits(bs[k], need) && need >= 8 && need % 8 == 0
    requires 0 <= i < |Place(bs, k, need)|
    ensures Addressable(m, bs[k].addr) && Addressable(m, End(bs[k])) && End(bs[k]) >= WordSize
    ensures TaggedAt(PlaceWrites(m, bs[k].addr, bs[k].size, need, if PrevAlloc(bs, k) then 2 else 0),
                     Place(bs, k, need), i)
  {
    ChainFacts(bs, allocsize);
    assert TaggedAt(m, bs, k);
    var split := bs[k].size > need;
    if i < k {
      PlaceTaggedBefore(m, bs, allocsize, k, need, i);
    } else if i == k || (split && i == k + 1) {
      PlaceTaggedNew(m, bs, k, need, i);
    } else {
      PlaceTaggedAfter(m, bs, allocsize, k, need, i);
    }
  }

  lemma PlaceTaggedBefore(m: seq<int>, bs: seq<Block>, allocsize: int, k: int, need: int, i: int)
    requires HeapImage(m, bs, allocsize)
    requires 0 <= k < |bs| && Fits(bs[k], need) && need >= 8 && need % 8 == 0
    requires 0 <= i < k
    requires Addressable(m, bs[k].addr) && Addressable(m, End(bs[k])) && End(bs[k]) >= WordSize
    ensures TaggedAt(PlaceWrites(m, bs[k].addr, bs[k].size, need, if PrevAlloc(bs, k) then 2 else 0),
                     Place(bs, k, need), i)
  {
    ChainFacts(bs, allocsize);
    var b := bs[k];
    var pa := if PrevAlloc(bs, k) then 2 else 0;
    var nb := Place(bs, k, need);
    PlaceIndex(bs, k, need, i);
    if i > 0 { PlaceIndex(bs, k, need, i - 1); }
    assert TaggedAt(m, bs, i);
    assert End(bs[i]) <= b.addr;
    PlaceWritesMiss(m, b.addr, b.size, need, pa, bs[i], PrevAlloc(bs, i));
    assert PrevAlloc(nb, i) == PrevAlloc(bs, i);
  }

  lemma PlaceTaggedNew(m: seq<int>, bs: seq<Block>, k: int, need: int, i: int)
    requires 0 <= k < |bs| && Fits(bs[k], need) && need >= 8 && need % 8 == 0
    requires Tagged(m, bs[k], PrevAlloc(bs, k)) && bs[k].addr % 8 == 4 && bs[k].size % 8 == 0
    requires i == k || (bs[k].size > need && i == k + 1)
    requires Addressable(m, End(bs[k])) && End(bs[k]) >= WordSize
    ensures TaggedAt(PlaceWrites(m, bs[k].addr, bs[k].size, need, if PrevAlloc(bs, k) then 2 else 0),
                     Place(bs, k, need), i)
  {
    var b, pa := bs[k], PrevAlloc(bs, k);
    var m' := PlaceWrites(m, b.addr, b.size, need, if pa then 2 else 0);
    var nb := Place(bs, k, need);
    NewBlockTags(m, b, pa, need);
    PlaceIndex(bs, k, need, k);
    if i == k {
      assert PrevAlloc(nb, k) == pa by {
        if k > 0 { PlaceIndex(bs, k, need, k - 1); }
      }
      assert Tagged(m', nb[k], pa);
    } else {
      PlaceIndex(bs, k, need, i);
      assert PrevAlloc(nb, i);
      assert Tagged(m', nb[i], true);
    }
  }

  /** The tags PlaceWrites puts on the chosen block and on the remainder of a split. */
  lemma NewBlockTags(m: seq<int>, b: Block, pa: bool, need: int)
    requires Tagged(m, b, pa) && Fits(b, need) && need >= 8 && need % 8 == 0
    requires b.addr % 8 == 4 && b.size % 8 == 0
    requires Addressable(m, End(b)) && End(b) >= WordSize
    ensures var m' := PlaceWrites(m, b.addr, b.size, need, if pa then 2 else 0);
      Tagged(m', Block(b.addr, if b.size > need then need else b.size, true), pa) &&
      (b.size > need ==> Tagged(m', Block(b.addr + need, b.size - need, false), true))
  {
    AllocatedTag(m, b, pa, need);
    if b.size > need {
      RemainderTag(m, b, pa, need);
    }
  }

  lemma AllocatedTag(m: seq<int>, b: Block, pa: bool, need: int)
    requires Tagged(m, b, pa) && Fits(b, need) && need >= 8 && need % 8 == 0
    requires b.addr % 8 == 4 && b.size % 8 == 0
    requires Addressable(m, End(b)) && End(b) >= WordSize
    ensures Tagged(PlaceWrites(m, b.addr, b.size, need, if pa then 2 else 0),
                   Block(b.addr, if b.size > need then need else b.size, true), pa)
  {
    var pv := if pa then 2 else 0;
    HeaderAligned(b.addr);
    PlaceWritesWords(m, b.addr, b.size, need, pv, b.addr / 4);
    var a := Block(b.addr, if b.size > need then need else b.size, true);
    assert a.size == need;
    assert Addressable(m, End(a) - 4) by {
      DivMono(End(a) - 4, End(b));
    }
  }

  lemma RemainderTag(m: seq<int>, b: Block, pa: bool, need: int)
    requires Tagged(m, b, pa) && Fits(b, need) && b.size > need && need >= 8 && need % 8 == 0
    requires b.addr % 8 == 4 && b.size % 8 == 0
    requires Addressable(m, End(b)) && End(b) >= WordSize
    ensures Tagged(PlaceWrites(m, b.addr, b.size, need, if pa then 2 else 0),
                   Block(b.addr + need, b.size - need, false), true)
  {
    var pv := if pa then 2 else 0;
    var r := Block(b.addr + need, b.size - need, false);
    HeaderAligned(b.addr);
    DivMono(r.addr, End(b));
    DivMono(End(r) - 4, End(b));
    PlaceWritesWords(m, b.addr, b.size, need, pv, r.addr / 4);
    PlaceWritesWords(m, b.addr, b.size, need, pv, (End(r) - 4) / 4);
    Mod8Diff(b.size, need);
  }

  /** After an exact fit, the allocated successor's header gains its p-bit. */
  lemma SuccessorTag(m: seq<int>, b: Block, pa: bool, need: int, c: Block)
    requires Tagged(m, b, pa) && Fits(b, need) && b.size == need && need >= 8 && need % 8 == 0
    requires b.addr % 8 == 4
    requires Addressable(m, End(b)) && End(b) >= WordSize
    requires Tagged(m, c, false) && c.isAlloc && c.addr == End(b) && c.size >= 8
    ensures Tagged(PlaceWrites(m, b.addr, b.size, need, if pa then 2 else 0), c, true)
  {
    HeaderAligned(b.addr);
    PlaceWritesWords(m, b.addr, b.size, need, if pa then 2 else 0, c.addr / 4);
  }

  lemma PlaceTaggedAfter(m: seq<int>, bs: seq<Block>, allocsize: int, k: int, need: int, i: int)
    requires HeapImage(m, bs, allocsize)
    requires 0 <= k < |bs| && Fits(bs[k], need) && need >= 8 && need % 8 == 0
    requires 0 <= i < |Place(bs, k, need)| && i > k && !(bs[k].size > need && i == k + 1)
    requires Addressable(m, bs[k].addr) && Addressable(m, End(bs[k])) && End(bs[k]) >= WordSize
    ensures TaggedAt(PlaceWrites(m, bs[k].addr, bs[k].size, need, if PrevAlloc(bs, k) then 2 else 0),
                     Place(bs, k, need), i)
  {
    ChainFacts(bs, allocsize);
    var b := bs[k];
    var pa := if PrevAlloc(bs, k) then 2 else 0;
    var split := b.size > need;
    var j := if split then i - 1 else i;
    PlaceShift(bs, k, need, i);
    assert TaggedAt(m, bs, k);
    assert TaggedAt(m, bs, j);
    if !split && j == k + 1 {
      assert Linked(bs, k) && Apart(bs, k);
      SuccessorTag(m, b, PrevAlloc(bs, k), need, bs[j]);
    } else {
      assert j > k + 1 ==> End(b) < bs[j].addr by {
        if j > k + 1 { assert End(b) <= bs[k + 1].addr < End(bs[k + 1]) <= bs[j].addr; }
      }
      PlaceWritesMiss(m, b.addr, b.size, need, pa, bs[j], PrevAlloc(bs, j));
    }
  }

  /** Past the chosen block, the new list is the old one shifted by the split. */
  lemma PlaceShift(bs: seq<Block>, k: int, need: int, i: int)
    requires 0 <= k < |bs| && Fits(bs[k], need)
    requires 0 <= i < |Place(bs, k, need)| && i > k && !(bs[k].size > need && i == k + 1)
    ensures var j := if bs[k].size > need then i - 1 else i;
      0 <= j < |bs| && Place(bs, k, need)[i] == bs[j] &&
      PrevAlloc(Place(bs, k, need), i) == ((bs[k].size <= need && j == k + 1) || PrevAlloc(bs, j))
  {
    PlaceIndex(bs, k, need, i);
    PlaceIndex(bs, k, need, i - 1);
  }
}
