/**
 * The chain of boundary-tagged blocks that myHeap.c lays out in its region.
 *
 * Memory is a sequence of 4-byte words indexed by byte offset / 4, byte 0
 * being the page-aligned region start. The first header sits at HeapStart,
 * each block is followed by the next at `addr + size`, and the word right
 * after the last block is the end mark. A `Block` is one element of that chain
 * as dispMem lists it; `Stored` says that the words hold it.
 */
module BlockChain {
  import opened Encoding

  /** One block: where its header is, its size in bytes (header included) and its a-bit. */
  datatype Block = Block(addr: int, size: int, isAlloc: bool)

  datatype Option<T> = None | Some(value: T)

  /** Byte offset just past the block: where the next header (or the end mark) is. */
  function End(b: Block): int { b.addr + b.size }

  /** The p-bit the header of block i must carry. The first block has no
      predecessor; myInit gives it p-bit 1, and the corrected search
      never clears it (the search as written can: see WrapKeepsStalePrevAlloc). */
  ghost predicate PrevAlloc(bs: seq<Block>, i: int)
    requires 0 <= i < |bs|
  {
    i == 0 || bs[i - 1].isAlloc
  }

  /** The blocks tile [HeapStart, HeapStart + allocsize) in address order,
      each a multiple of 8 and big enough for a header and a footer. */
  ghost predicate Chain(bs: seq<Block>, allocsize: int)
  {
    |bs| > 0 &&
    bs[0].addr == HeapStart &&
    (forall i :: 0 <= i < |bs| ==> bs[i].size >= 8 && bs[i].size % 8 == 0) &&
    (forall i :: 0 <= i < |bs| - 1 ==> Linked(bs, i)) &&
    End(bs[|bs| - 1]) == HeapStart + allocsize
  }

  /** Block i + 1 starts where block i ends. */
  ghost predicate Linked(bs: seq<Block>, i: int)
    requires 0 <= i < |bs| - 1
  {
    End(bs[i]) == bs[i + 1].addr
  }

  /** Immediate coalescing keeps free blocks apart. */
  ghost predicate NoAdjacentFree(bs: seq<Block>)
  {
    forall i :: 0 <= i < |bs| - 1 ==> Apart(bs, i)
  }

  /** Block i or block i + 1 is allocated. */
  ghost predicate Apart(bs: seq<Block>, i: int)
    requires 0 <= i < |bs| - 1
  {
    bs[i].isAlloc || bs[i + 1].isAlloc
  }

  /** Word `a / 4` exists in m. */
  predicate Addressable(m: seq<int>, a: int)
  {
    0 <= a && a / 4 < |m|
  }

  /** The boundary tags of b are in m: its header, and its footer when it is free. */
  ghost predicate Tagged(m: seq<int>, b: Block, prevAlloc: bool)
  {
    b.size % 4 == 0 &&
    Addressable(m, b.addr) && Addressable(m, End(b) - 4) &&
    m[b.addr / 4] == Encode(Header(b.size, b.isAlloc, prevAlloc)) &&
    (!b.isAlloc ==> m[(End(b) - 4) / 4] == b.size)
  }

  /** m is a region of allocsize + 8 bytes whose words hold the chain bs and the end mark. */
  ghost predicate Stored(m: seq<int>, bs: seq<Block>, allocsize: int)
  {
    allocsize >= 0 && allocsize % 8 == 0 &&
    |m| == allocsize / 4 + 2 &&
    (forall i :: 0 <= i < |bs| ==> TaggedAt(m, bs, i)) &&
    m[(HeapStart + allocsize) / 4] == EndMark
  }

  /** Block i of bs is tagged in m with the p-bit its predecessor calls for. */
  ghost predicate TaggedAt(m: seq<int>, bs: seq<Block>, i: int)
    requires 0 <= i < |bs|
  {
    Tagged(m, bs[i], PrevAlloc(bs, i))
  }

  /** The whole invariant of an initialised heap: its words, its chain, and no two free neighbours. */
  ghost predicate HeapImage(m: seq<int>, bs: seq<Block>, allocsize: int)
  {
    Chain(bs, allocsize) && NoAdjacentFree(bs) && Stored(m, bs, allocsize)
  }

  /** Some block of bs starts at a. */
  ghost predicate IsBlockStart(bs: seq<Block>, a: int)
  {
    exists i :: 0 <= i < |bs| && bs[i].addr == a
  }

  /** The address facts that follow from the chain: every header is 4 mod 8
      (so every payload is 8-aligned), the blocks lie inside the heap, and a
      block ends at or before the start of every later one. */
  lemma {:induction false} ChainFacts(bs: seq<Block>, allocsize: int)
    requires Chain(bs, allocsize)
    ensures forall i :: 0 <= i < |bs| ==>
      bs[i].addr % 8 == 4 && HeapStart <= bs[i].addr && End(bs[i]) <= HeapStart + allocsize
    ensures forall i, j :: 0 <= i < j < |bs| ==> End(bs[i]) <= bs[j].addr
  {
    PrefixFacts(bs, |bs|);
    forall i, j | 0 <= i < j < |bs| ensures End(bs[i]) <= bs[j].addr {
      PrefixFacts(bs, j + 1);
    }
    forall i | 0 <= i < |bs| ensures End(bs[i]) <= HeapStart + allocsize {
      if i < |bs| - 1 {
        PrefixFacts(bs, |bs|);
      }
    }
  }

  lemma {:induction false} PrefixFacts(bs: seq<Block>, n: int)
    requires 0 < n <= |bs|
    requires bs[0].addr == HeapStart
    requires forall i :: 0 <= i < |bs| ==> bs[i].size >= 8 && bs[i].size % 8 == 0
    requires forall i :: 0 <= i < |bs| - 1 ==> Linked(bs, i)
    ensures forall i :: 0 <= i < n ==> bs[i].addr % 8 == 4 && HeapStart <= bs[i].addr
    ensures forall i :: 0 <= i < n - 1 ==> End(bs[i]) <= bs[n - 1].addr
  {
    if n > 1 {
      PrefixFacts(bs, n - 1);
      assert Linked(bs, n - 2);
    }
  }

  /** A multiple of 8, or a multiple of 8 plus 4, is a multiple of 4. */
  lemma Mod8(a: int)
    requires a % 8 == 0
    ensures a % 4 == 0 && (a + 4) % 4 == 0 && (a + 4) % 8 == 4
  {
  }

  /** ChainFacts about one block. */
  lemma BlockFacts(bs: seq<Block>, allocsize: int, i: int)
    requires Chain(bs, allocsize) && 0 <= i < |bs|
    ensures bs[i].addr % 8 == 4 && bs[i].addr % 4 == 0 && HeapStart <= bs[i].addr
    ensures End(bs[i]) <= HeapStart + allocsize
    ensures bs[i].size >= 8 && bs[i].size % 8 == 0
  {
    ChainFacts(bs, allocsize);
    HeaderAligned(bs[i].addr);
  }

  /** ChainFacts about two blocks in order. */
  lemma BlockOrder(bs: seq<Block>, allocsize: int, i: int, j: int)
    requires Chain(bs, allocsize) && 0 <= i < j < |bs|
    ensures End(bs[i]) <= bs[j].addr
  {
    ChainFacts(bs, allocsize);
  }

  /** A header address (4 mod 8) is word-aligned. */
  lemma HeaderAligned(a: int)
    requires a % 8 == 4
    ensures a % 4 == 0
  {
    assert a == 8 * (a / 8) + 4;
  }

  /** The word index of an aligned sum is the sum of the word indices. */
  lemma WordSum(a: int, s: int)
    requires a % 4 == 0 && s % 4 == 0
    ensures (a + s) / 4 == a / 4 + s / 4 && (a + s) % 4 == 0
  {
    assert a == 4 * (a / 4) && s == 4 * (s / 4);
    assert a + s == 4 * (a / 4 + s / 4);
  }

  /** The word indices of a block's header, footer and successor. */
  lemma BlockWords(b: Block)
    requires b.addr % 8 == 4 && b.size % 8 == 0 && b.size >= 8
    ensures b.addr % 4 == 0 && End(b) % 4 == 0 && (End(b) - 4) % 4 == 0
    ensures b.size == 4 * (b.size / 4) && b.size / 4 >= 2
    ensures End(b) / 4 == b.addr / 4 + b.size / 4 && (End(b) - 4) / 4 == b.addr / 4 + b.size / 4 - 1
  {
    var q, r := b.addr / 8, b.size / 8;
    assert b.addr == 8 * q + 4 && b.size == 8 * r;
    assert b.addr / 4 == 2 * q + 1;
    assert b.size / 4 == 2 * r;
    assert End(b) == 4 * (2 * q + 2 * r + 1);
    assert End(b) - 4 == 4 * (2 * q + 2 * r);
  }

  /** Aligned byte offsets are ordered as their word indices. */
  lemma WordOrder(a: int, b: int)
    requires a % 4 == 0 && b % 4 == 0
    ensures a < b <==> a / 4 < b / 4
  {
    assert a == 4 * (a / 4) && b == 4 * (b / 4);
  }

  /** Division by 4 is monotonic. */
  lemma DivMono(a: int, b: int)
    requires a <= b
    ensures a / 4 <= b / 4
  {
  }

  /** The difference of two multiples of 8 is one. */
  lemma Mod8Diff(a: int, c: int)
    requires a % 8 == 0 && c % 8 == 0
    ensures (a - c) % 8 == 0 && (a - c) % 4 == 0
  {
    var z := a / 8 - c / 8;
    assert a - c == 8 * z;
    MultipleMod(z, 8);
    MultipleMod(2 * z, 4);
  }

  /** Sum of the sizes of the allocated blocks (dispMem's `used_size`). */
  function UsedTotal(bs: seq<Block>): (r: int)
  {
    if bs == [] then 0 else (if bs[0].isAlloc then bs[0].size else 0) + UsedTotal(bs[1..])
  }

  /** Sum of the sizes of the free blocks (dispMem's `free_size`). */
  function FreeTotal(bs: seq<Block>): (r: int)
  {
    if bs == [] then 0 else (if bs[0].isAlloc then 0 else bs[0].size) + FreeTotal(bs[1..])
  }

  /** Neither of dispMem's totals is negative, and each is 0 when no block is
      of its kind. */
  lemma {:induction false} TotalsSigns(bs: seq<Block>)
    requires forall i :: 0 <= i < |bs| ==> bs[i].size >= 0
    ensures UsedTotal(bs) >= 0 && FreeTotal(bs) >= 0
    ensures (forall i :: 0 <= i < |bs| ==> !bs[i].isAlloc) ==> UsedTotal(bs) == 0
    ensures (forall i :: 0 <= i < |bs| ==> bs[i].isAlloc) ==> FreeTotal(bs) == 0
  {
    if bs != [] {
      TotalsSigns(bs[1..]);
    }
  }

  /** dispMem's closing line: used plus free is the whole chain, allocsize bytes. */
  lemma TotalsCoverHeap(bs: seq<Block>, allocsize: int)
    requires Chain(bs, allocsize)
    ensures UsedTotal(bs) + FreeTotal(bs) == allocsize
  {
    TotalsSpan(bs);
  }

  lemma {:induction false} TotalsSpan(bs: seq<Block>)
    requires |bs| > 0
    requires forall i :: 0 <= i < |bs| - 1 ==> Linked(bs, i)
    ensures UsedTotal(bs) + FreeTotal(bs) == End(bs[|bs| - 1]) - bs[0].addr
  {
    if |bs| > 1 {
      assert Linked(bs, 0);
      forall i | 0 <= i < |bs[1..]| - 1 ensures Linked(bs[1..], i) {
        assert Linked(bs, i + 1);
      }
      TotalsSpan(bs[1..]);
    } else {
      assert bs[1..] == [];
    }
  }

  /** dispMem's walk (myHeap.c:373-406): from header address a, decode the size,
      step over it, stop at the end mark. It yields None where the C loop would
      run off the region or never advance. */
  function Walk(m: seq<int>, a: int): (r: Option<seq<Block>>)
    ensures r.Some? && r.value != [] ==> r.value[0].addr == a
    decreases 4 * |m| - a
  {
    if !Addressable(m, a) || a % 4 != 0 then None
    else if m[a / 4] == EndMark then Some([])
    else
      var size := Bare(m[a / 4]);
      if size <= 0 then None
      else
        match Walk(m, a + size)
        case None => None
        case Some(rest) => Some([Block(a, size, ABit(m[a / 4]) == 1)] + rest)
  }

  /** On any words, what the walk yields is what it decodes: contiguous
      blocks from `a`, each with the positive bare size and the a-bit of its
      header word, ending on a word that holds the end mark. */
  lemma {:induction false} WalkShape(m: seq<int>, a: int)
    requires Walk(m, a).Some?
    ensures var bs := Walk(m, a).value;
      (forall i :: 0 <= i < |bs| ==>
        Addressable(m, bs[i].addr) && bs[i].size == Bare(m[bs[i].addr / 4]) > 0 &&
        (bs[i].isAlloc <==> ABit(m[bs[i].addr / 4]) == 1)) &&
      (forall i :: 0 <= i < |bs| - 1 ==> End(bs[i]) == bs[i + 1].addr) &&
      var e := if bs == [] then a else End(bs[|bs| - 1]);
      Addressable(m, e) && e % 4 == 0 && m[e / 4] == EndMark
    decreases 4 * |m| - a
  {
    if m[a / 4] != EndMark {
      var size := Bare(m[a / 4]);
      WalkShape(m, a + size);
      var rest := Walk(m, a + size).value;
      assert Walk(m, a).value == [Block(a, size, ABit(m[a / 4]) == 1)] + rest;
    }
  }

  /** Walking a stored heap from its first header yields exactly its block list,
      and so reaches the end mark exactly at HeapStart + allocsize. */
  lemma WalkRecoversChain(m: seq<int>, bs: seq<Block>, allocsize: int)
    requires Chain(bs, allocsize) && Stored(m, bs, allocsize)
    ensures Walk(m, HeapStart) == Some(bs)
  {
    ChainFacts(bs, allocsize);
    WalkSuffix(m, bs, allocsize, 0);
    assert bs[0..] == bs;
  }

  lemma {:induction false} WalkSuffix(m: seq<int>, bs: seq<Block>, allocsize: int, k: int)
    requires Chain(bs, allocsize) && Stored(m, bs, allocsize)
    requires forall i :: 0 <= i < |bs| ==>
      bs[i].addr % 8 == 4 && HeapStart <= bs[i].addr && End(bs[i]) <= HeapStart + allocsize
    requires 0 <= k <= |bs|
    ensures Walk(m, if k < |bs| then bs[k].addr else HeapStart + allocsize) == Some(bs[k..])
    decreases |bs| - k
  {
    if k == |bs| {
      assert (HeapStart + allocsize) % 4 == 0 by { Mod8(allocsize); }
      assert Addressable(m, HeapStart + allocsize);
      assert bs[k..] == [];
    } else {
      var b := bs[k];
      assert TaggedAt(m, bs, k);
      var h := m[b.addr / 4];
      assert h == Encode(Header(b.size, b.isAlloc, PrevAlloc(bs, k)));
      assert b.addr % 4 == 0 by { HeaderAligned(b.addr); }
      assert h != EndMark && Bare(h) == b.size && (ABit(h) == 1) == b.isAlloc;
      WalkSuffix(m, bs, allocsize, k + 1);
      var next := if k + 1 < |bs| then bs[k + 1].addr else HeapStart + allocsize;
      assert End(b) == next by {
        if k + 1 < |bs| { assert Linked(bs, k); }
      }
      assert Walk(m, b.addr) == Some([Block(b.addr, b.size, b.isAlloc)] + bs[k + 1..]);
      assert bs[k..] == [b] + bs[k + 1..];
    }
  }
}
