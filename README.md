# myHeap: a verified model of a boundary-tag allocator

`myHeap.c` is a small C allocator. It manages one region obtained from `mmap`
as a chain of blocks. Each block starts with a 4-byte header word,
`size_status`. The word holds the block size, a multiple of 8, plus an a-bit
(bit 0: this block is allocated) and a p-bit (bit 1: the previous block is
allocated). A free block repeats its size in a footer word at its last 4
bytes. The word 1 closes the chain as the end mark.

- `myInit` maps a region of a whole number of pages. It lays out one free
  block, 4 bytes in so that payloads are 8-aligned, followed by the end mark.
- `myAlloc` rounds the request plus a 4-byte header up to a multiple of 8. It
  searches next-fit from the block it allocated last (`recentAlloc`),
  wrapping at the end mark. It splits a free block that is larger than needed.
- `myFree` checks the pointer. It then coalesces the freed block at once with
  a free successor, a free predecessor (found through its footer), or both.
- `dispMem` walks the chain, prints one line per block and prints the used
  and free totals.

The model, one module per concern:

- `Encoding` (encoding.dfy): the header word, the block-size rounding of
  `myAlloc` and the page rounding of `myInit`. All of these are functions on
  unbounded ints, with C's truncating `%` written out.
- `BlockChain` (chain.dfy): the block list `seq<Block>` that the words hold.
  - `Chain`: the blocks tile the heap.
  - `NoAdjacentFree`: immediate coalescing keeps free blocks apart.
  - `Stored`: every header, footer and the end mark hold the right word.
  - `HeapImage`: all three together.
  - `Walk`: dispMem's walk over the words. It recovers the list.
- `Placement` (placement.dfy): what `myAlloc` does to the list (`Place`) and
  to the words (`PlaceWrites`). Lemmas show that the two stay in step.
- `Coalescing` (release.dfy): what `myFree` does to the list (`Release`) and
  to the words (`ReleaseWrites`, as written, and `FreeWrites`, which also
  clears the freed header's a-bit). Lemmas show the same for freeing.
- `MyHeap` (heap.dfy): the allocator as a class.
  - Fields: the region `mem: array<int>` (one entry per 4-byte word,
    indexed by byte offset / 4), `allocsize`, `heapStart`, `recentAlloc`
    and myInit's `allocated_once`.
  - `Init`, `Alloc`, `Free` and `DispMem` read and write the array word by
    word, as the C functions do.
  - A ghost field `blocks` holds the chain. `Valid()` says that the words
    hold that chain and that the cursor is on a block header.
  - Each method's postcondition ties its writes to the pure functions above.
  - `Alloc` and `Free` carry the corrections of the Findings below.
- `AsWritten` (as_written.dfy): `myAlloc` exactly as written, on the words,
  with a bound on the number of loop turns. It also holds concrete heaps on
  which each finding shows.

Pointers are byte offsets from the page-aligned start of the region.
`heapStart` is offset 4 (word 1), and `NULL` is a separate constructor of
`Pointer`.

## Model

| member | source | states |
|---|---|---|
| Encoding.Encode | myHeap.c:23-39 | packing a size with the two status bits keeps the size as the bare part, puts the a-bit in bit 0 and the p-bit in bit 1; a block of 8 bytes or more never packs to the end mark |
| Encoding.Decode | myHeap.c:29-36 | the size read from any word is a multiple of 4 |
| Encoding.DecodeEncode | myHeap.c:23-39 | decoding an encoded header gives back its size and both bits |
| Encoding.EncodeDecode | myHeap.c:23-39 | every word is the encoding of what it decodes to |
| Encoding.EncodingExamples | myHeap.c:41-53 | a 24-byte block packs to 27, 25, 26 or 24 as the header comment lists; the end mark decodes as an allocated block of size 0 |
| Encoding.StripBits | myHeap.c:115-128 | subtracting 1 when `& 1` holds and then 2 when `& 2` holds leaves the bare size of any word |
| Encoding.CRem | myHeap.c:104-105 | C's `%` equals the Euclidean remainder on non-negative operands and lies in (-b, 0] on negative ones |
| Encoding.BlockSize | myHeap.c:103-106 | for every int request, the block size is a multiple of 8, at least request + 4 and below request + 12 |
| Encoding.BlockSizeLeast | myHeap.c:103-106 | the block size is the least multiple of 8 that holds the request and the header |
| Encoding.BlockSizeExample | myHeap.c:103-106 | requests of 20, 1, 4 and 5 bytes need blocks of 24, 8, 8 and 16 bytes |
| Encoding.PadToEight | myHeap.c:104-106 | the padding is below 8 and makes the size a multiple of 8 |
| Encoding.RoundToPage | myHeap.c:295-298 | the rounded region is a multiple of the page size, at least the request and less than a page above it |
| Encoding.PageRounding | myHeap.c:295-298 | the padding formula rounds any positive size up to the next multiple of the page size |
| BlockChain.ChainFacts | myHeap.c:315-323 | in a chain every header is at 4 mod 8, inside the heap, and every block ends before each later one starts |
| BlockChain.TotalsCoverHeap | myHeap.c:412-414 | used plus free size is the whole heap, allocsize bytes |
| BlockChain.TotalsSigns | myHeap.c:394-397 | the used and free totals of blocks of non-negative size are non-negative; the used total of free blocks only is 0, and so is the free total of allocated blocks only |
| BlockChain.WalkRecoversChain | myHeap.c:373-406 | walking stored words from heapStart by decoded sizes yields exactly the block list and stops at the end mark |
| BlockChain.Walk | myHeap.c:373-406 | a walk that finishes lists its first block at the address it started from |
| BlockChain.WalkShape | myHeap.c:373-406 | every block a finished walk lists has a header in the region, a positive size equal to the header without its two bits, and is used exactly when bit 0 is set; the blocks follow each other without gaps and the walk stops on a word holding the end mark |
| Placement.FirstFitUnique | myHeap.c:109-149 | the block next-fit chooses from a given start is unique |
| Placement.Place | myHeap.c:151-164 | the blocks before the chosen one are kept, an allocated block starts at the chosen block's address, the list grows by one exactly when the chosen block is larger than the request, and the heap still ends where it did |
| Placement.Carve | myHeap.c:154-164 | the chosen block becomes an allocated block at its address; on a split that block has the requested size and is followed by a free remainder that ends where the chosen block ended |
| Placement.PlaceWrites | myHeap.c:151-164 | the corrected writes of myAlloc keep the region's length and change no word except the chosen header, the remainder's header, the last word of the chosen block and the word after it |
| Placement.PlaceIndex | myHeap.c:151-164 | after placing, the chosen block is allocated with the requested size, a split adds a free remainder right after it, and every other block is unchanged, shifted by one past a split |
| Placement.PlaceKeepsChain | myHeap.c:151-164 | placing a request in a fitting free block keeps the chain a tiling with no two free neighbours |
| Placement.PlaceTotals | myHeap.c:151-164 | an allocation moves exactly the block size from the free total to the used total |
| Placement.CarveTotals | myHeap.c:154-164 | the blocks that replace the chosen one hold the request as used bytes and the rest as free bytes |
| Placement.PlaceWritesWords | myHeap.c:151-164 | the new words: header request + 1 + p-bit, a remainder header (t - request) + 2 and footer t - request on a split, the successor's p-bit set on an exact fit, every other word unchanged |
| Placement.PlaceStored | myHeap.c:151-164 | myAlloc's writes leave words that hold exactly the chain Place computes |
| Placement.SuccessorTag | myHeap.c:154-164 | after an exact fit, the allocated successor's header carries p-bit 1 |
| Coalescing.ClearNext | myHeap.c:229-236 | clearing the successor's p-bit touches no other word |
| Coalescing.ReleaseWrites | myHeap.c:212-257 | myFree's writes as written, undefined when a word they touch lies outside the region; a result keeps the region's length and means the freed header is a word of the region (ReleaseSteps, ReleaseShape and ReleaseStored state what is written) |
| Coalescing.Coalesce | myHeap.c:227-257 | the writes from the successor step on; a result keeps the region's length and means the successor's header is a word of the region |
| Coalescing.MergeBackWords | myHeap.c:241-252 | the backward merge reads the word before the freed header, finds the predecessor's header that many bytes back, adds the freed size to it, writes the bare merged size into the merged block's last word, and changes no other word |
| Coalescing.MarkFreeWords | myHeap.c:253-257 | marking the block free is possible exactly when its header and its last word are in the region; it writes size + 2 to the header and the size to the last word, and changes no other word |
| Coalescing.FreeWrites | myHeap.c:212-257 | the corrected writes are defined exactly when myFree's writes are; they leave the freed header with a-bit 0 and agree with myFree's writes on every other word |
| Coalescing.FreeWritesFrom | myHeap.c:212-257 | the corrected writes are myFree's writes with 1 subtracted from the freed header word when its a-bit is still set |
| Coalescing.ReleaseIndex | myHeap.c:227-257 | after a free, the blocks before the merge are unchanged, the merged block takes the place of the blocks it absorbs, and the blocks after it are unchanged |
| Coalescing.MergedSize | myHeap.c:229-252 | the merged block is the sum of the freed block and its free neighbours, a multiple of 8 of at least 8 bytes |
| Coalescing.Merged | myHeap.c:229-252 | the merged block is free and, on a linked chain, starts at or before the freed block and ends at or after it |
| Coalescing.Release | myHeap.c:227-257 | the blocks before the merge are kept, the merged block takes the place of the blocks it absorbs, so the list shrinks by their number less one, and the heap still starts and ends where it did |
| Coalescing.ReleaseKeepsChain | myHeap.c:227-257 | freeing an allocated block keeps the chain a tiling with no two free neighbours |
| Coalescing.ReleaseTotals | myHeap.c:227-257 | a free moves exactly the freed block's size from the used total to the free total |
| Coalescing.AllocFreeRoundTrip | myHeap.c:151-257 | freeing the block an allocation just placed restores the previous block list |
| Coalescing.ReleaseReads | myHeap.c:212-236 | in a heap, the freed header minus its a-bit encodes its size and p-bit, and the word after it is the end mark exactly when the block is last, and otherwise the successor's header with p-bit 1 |
| Coalescing.PrevReads | myHeap.c:241-245 | a free predecessor's footer, just before the freed header, holds its size, and its header holds size + 2 |
| Coalescing.ReleaseEntry | myHeap.c:218-225 | stripping the a-bit and testing the p-bit recovers the freed size and p-bit |
| Coalescing.ReleaseSteps | myHeap.c:218-257 | myFree's writes are: clear the successor's p-bit, absorb a free successor, then merge back into a free predecessor or mark the block free |
| Coalescing.ReleaseShape | myHeap.c:212-257 | on an allocated block of a heap, myFree's writes stay inside the region and equal the image of the merged block |
| Coalescing.ReleaseStored | myHeap.c:227-257 | myFree's writes leave words that hold exactly the chain Release computes |
| Coalescing.ReleaseEndMark | myHeap.c:229-257 | myFree's writes leave the end mark in place |
| Coalescing.MergedPrevAlloc | myHeap.c:241-257 | the block before the merged block, if any, is allocated, so the merged header's p-bit 1 is right |
| Coalescing.RetagTagsFree | myHeap.c:250-256 | the merged block gets header size + 2 and a footer holding its size |
| Coalescing.RetagClearsSuccessor | myHeap.c:234-235 | an allocated successor of the freed block loses its p-bit and keeps the rest of its header |
| MyHeap.InitImageHeap | myHeap.c:313-336 | myInit's words are a heap of one free block of allocsize bytes, and dispMem's walk finds just that block |
| MyHeap.InitImage | myHeap.c:313-336 | myInit's image has one word for each 4 bytes of the region: the 4 reserved bytes, the heap and the end mark |
| MyHeap.InitImageWords | myHeap.c:322-336 | the image holds allocsize + 2 at heapStart, allocsize in the heap's last word, the end mark after the heap, and 0 in every other word |
| MyHeap.PageSizedHeap | myHeap.c:295-316 | the page-rounded region is a multiple of 8 of at least 16 bytes, so one block fits after the 8 reserved bytes |
| MyHeap.HeaderAt | myHeap.c:113-128 | in a heap, the header of each block shows its a-bit and its p-bit as the chain calls for, and stripping them as the code does gives its size |
| MyHeap.NextAt | myHeap.c:119-125 | stepping over a block lands on the next header, or on the end mark at heapStart + allocsize after the last block |
| MyHeap.StartsDistinct | myHeap.c:149 | different blocks start at different addresses, so the scan is back at its start only on the start block |
| MyHeap.PayloadInBounds | myHeap.c:191-201 | every block's payload pointer is 8-aligned and lies in [heapStart, heapStart + allocsize], so it passes myFree's pointer checks |
| MyHeap.PlaceKeepsStarts | myHeap.c:151-166 | every block start survives a split |
| MyHeap.ReleaseKeepsStarts | myHeap.c:227-257 | after a free, every old block start outside the merged block still starts a block |
| MyHeap.MergedStarts | myHeap.c:241-257 | the merged block starts a block of the new chain |
| MyHeap.AllocKeepsHeap | myHeap.c:151-166 | the corrected writes of an allocation leave a heap holding the chain Place computes, and the cursor on the chosen block's header |
| MyHeap.FreeKeepsHeap | myHeap.c:212-257 | the corrected writes of a free (FreeWrites) leave a heap holding the chain Release computes; a cursor on a block header that lay strictly inside the merged block moves to the merged block's header, and any other cursor stays, so the cursor is again on a block header |
| MyHeap.FreeReads | myHeap.c:212-252 | freeing an allocated block of a heap reads a header, a successor word, and a footer and header of a free predecessor that describe the merged block |
| MyHeap.MergedInterior | myHeap.c:241-257 | if the header of the freed block still reads as allocated after a free, it lies strictly inside the merged block, away from its footer: only the backward merge leaves such a header |
| MyHeap.InteriorWrite | myHeap.c:241-252 | writing a word strictly inside a free block, neither its header nor its footer, keeps the heap, so clearing the stale a-bit is harmless |
| MyHeap.TotalsPrefix | myHeap.c:394-397 | the running totals after one more block add its size to the used or the free total |
| MyHeap.Heap.constructor | myHeap.c:60-73 | before myInit there is no region, heapStart and recentAlloc are NULL |
| MyHeap.Heap.Init | myHeap.c:269-339 | returns 0 exactly on a first call with a positive size whose mapping succeeds; then allocsize is the page-rounded size minus 8 and the words are one free block and the end mark; on -1 nothing but allocsize (set before the mapping, at line 298) changes |
| MyHeap.Heap.Format | myHeap.c:313-336 | the fresh zero region becomes the heap of one free block of allocsize - 8 bytes, with a NULL cursor |
| MyHeap.Heap.InitRegion | myHeap.c:322-336 | the four writes of myInit give the words of the one-block heap |
| MyHeap.Heap.Search | myHeap.c:108-149 | the search finds the next-fit block from the cursor with p-bit 1, and fails only when no block holds the request |
| MyHeap.Heap.Probe | myHeap.c:112-143 | one turn of the loop reads the block's size, finds it exactly when it is free and large enough, and otherwise steps to its end with prevAlloc set from its a-bit |
| MyHeap.Heap.Alloc | myHeap.c:88-173 | returns NULL exactly when the size is not positive or no block holds it, and then only the cursor changes; otherwise it returns the payload of the next-fit block, the chain is Place's, the words are PlaceWrites' and the cursor is on that block |
| MyHeap.Heap.PlaceAt | myHeap.c:151-168 | placing in the chosen block makes the words PlaceWrites', the chain Place's and the cursor point at it |
| MyHeap.Heap.PlaceBlock | myHeap.c:151-164 | the in-place header, remainder and footer writes (or the successor's p-bit) are PlaceWrites' |
| MyHeap.Heap.Free | myHeap.c:188-260 | returns 0 exactly when the pointer is the payload of an allocated block, so -1 on NULL, a misaligned or out-of-heap pointer, a block already free, and any pointer before myInit; -1 changes nothing; on 0 the words are FreeWrites' (myFree's writes with the freed header's a-bit cleared), the freed header reads as free, the chain is Release's and the cursor is moved to the merged block's header if it lay inside it |
| MyHeap.Heap.FreeBlock | myHeap.c:212-259 | freeing an allocated block gives the corrected writes FreeWrites, Release's chain, and a cursor moved to the merged block's header when it lay inside the merged block, and keeps the heap valid |
| MyHeap.Heap.ReleaseBlock | myHeap.c:212-257 | the in-place writes are FreeWrites': myFree's writes followed by clearing the freed header's a-bit; the merged block's address and size are returned |
| MyHeap.Heap.CoalesceBlock | myHeap.c:218-257 | the in-place writes are exactly myFree's writes as written (ReleaseWrites), and the merged block's address and size are returned |
| MyHeap.Heap.UnmarkFreed | myHeap.c:212-216 | the freed header loses its a-bit if it still has one, so the check at line 215 refuses a second free of it; no other word changes |
| MyHeap.Heap.ReadAllocated | myHeap.c:218-225 | the header of an allocated block gives back its size and its p-bit |
| MyHeap.Heap.ClearSuccessor | myHeap.c:227-236 | the successor loses its p-bit unless it is the end mark, and a free successor's size is added |
| MyHeap.Heap.MergeIntoPrev | myHeap.c:241-252 | the predecessor found through the footer takes in the freed bytes; the writes are MergeBack's |
| MyHeap.Heap.MarkBlockFree | myHeap.c:253-257 | the block becomes free with p-bit 1 and a footer; the writes are MarkFree's |
| MyHeap.Heap.ReadTag | myHeap.c:374-392 | the status, p-bit and size read from a header are those of its block in the chain |
| MyHeap.Heap.DispMem | myHeap.c:351-420 | one line per block of the chain in address order, and totals equal to the used and free sizes that add up to allocsize |
| AsWritten.Turn | myHeap.c:115-143 | one turn of the loop as written: found exactly on a free block of at least the request; otherwise it steps by the bare size and sets prevAlloc from the a-bit |
| AsWritten.ScanFrom | myHeap.c:111-149 | the loop as written stops only on a header in the region with a-bit 0 whose bare size is at least the request (and returns that size), or back at the cursor |
| AsWritten.PlaceAsWritten | myHeap.c:151-164 | on a split, the writes as written are the corrected PlaceWrites' |
| AsWritten.AllocAsWritten | myHeap.c:88-173 | myAlloc as written returns the payload of the block it leaves the cursor on, or NULL with the words unchanged |
| AsWritten.Words2Heap | myHeap.c:23-54 | the first example's words hold a heap: a free 16-byte block, then an allocated one |
| AsWritten.Words3Heap | myHeap.c:23-54 | the second example's words hold a heap: free 16, allocated 16, free 8 |
| AsWritten.Words4Heap | myHeap.c:23-54 | the third example's words hold a heap: free 8, allocated 16, free 16 |
| AsWritten.ExactFitKeepsStalePBit | myHeap.c:154-164 | myAlloc(12) as written leaves the successor with p-bit 0 and words that are no longer a heap; the corrected writes are one |
| AsWritten.PlaceWrites2 | myHeap.c:154-164 | on the first example the corrected writes set the successor's p-bit and leave a heap |
| AsWritten.WrapKeepsStalePrevAlloc | myHeap.c:110-148 | the search as written carries prevAlloc 0 across the wrap, and the first block gets header 17 (p-bit 0) |
| AsWritten.StaleCursorAllocatesInsideFreeBlock | myHeap.c:90-260 | after myFree merges the cursor's block into a free block, myAlloc as written returns a block inside that free block; from Retarget's cursor it splits the free block at its header |
| AsWritten.FreeWords4 | myHeap.c:227-257 | freeing the middle block of the third example merges all three blocks and leaves the old headers inside |
| AsWritten.FreeChain4 | myHeap.c:227-257 | that free leaves one free 40-byte block at 4, and moves a cursor at 12 to 4 |
| AsWritten.StaleAlloc4 | myHeap.c:111-166 | from the stale cursor the scan steps over the stale header at 12 and allocates the stale 16-byte block at 28, returning 32, inside the merged free block |
| AsWritten.StaleScan4 | myHeap.c:111-149 | from the stale cursor at 12 the loop as written steps over the stale header there and stops on the stale free 16-byte header at 28 |
| AsWritten.RetargetedAlloc4 | myHeap.c:111-166 | from the retargeted cursor the same request splits the merged block at 4 |
| AsWritten.StaleCursorLoops | myHeap.c:88-149 | after the merge, with the stale cursor at 12 and a 44-byte request (a 48-byte block, which no block holds), myAlloc as written gives no result within any number of loop turns: the loop never ends |
| AsWritten.StaleCursorLoopsFrom | myHeap.c:111-149 | once the scan for 48 bytes is at heapStart, it steps over the 40-byte free block, wraps back to heapStart and never meets the cursor at 12, whatever the bound |
| AsWritten.NonPositiveSizeAllocates | myHeap.c:80-106 | myAlloc(0) as written allocates an 8-byte block and myAlloc(-4) returns a pointer while leaving every word as it was |
| AsWritten.DoubleFreeAfterMerge | myHeap.c:212-257 | freeing 16 in the third example merges backward and leaves the header at 12 with a-bit 1 although 12 no longer starts a block, so a second myFree(16) passes line 215 and its writes leave the region; the corrected writes leave 16 at 12, which reads as free, and the words are a heap of one free block |
| AsWritten.SecondFree4 | myHeap.c:218-252 | after that free, a second free of 16 as written merges back into the block at 4 and puts the footer at byte 72, outside the region |
| AsWritten.CorrectedWrites4 | myHeap.c:212-257 | the corrected writes of that free are myFree's writes with 16 at 12 |
| AsWritten.CorrectedFree4 | myHeap.c:212-257 | those corrected writes leave a heap of one free 40-byte block |

## Left out

- Printing: dispMem's table and totals and the error messages of myInit are not printed. `DispMem` returns the rows and the totals instead.
- `getpagesize`, `open("/dev/zero")` and `mmap`: `Init` takes the page size and whether the mapping succeeds as parameters. The fresh region is a zero-filled array.
- MyHeap.Heap.Init: requires the page size to be at least 16 and a multiple of 8, which every real page size is; with a smaller page size the C code could lay out a heap too small for one block.
- 32-bit `int` arithmetic: `size + 4`, `sizeOfRegion + padsize` and the sums of sizes are unbounded here, so overflow for sizes near 2^31 is not modelled.
- Pointer casts: myFree casts pointers to `int` and `unsigned int` (lines 195 and 199), which truncates 64-bit addresses. The model compares byte offsets in the region instead.
- MyHeap.Heap.Free: requires that a pointer which passes the three pointer checks, and whose header word has a-bit 1, is the payload of a block. User data inside a payload can put any value in that word, and the C code then reads and writes through the words around it with results that depend on the region's contents. A pointer whose header word has a-bit 0 is handled and returns -1.
- MyHeap.Heap.Alloc: requires myInit to have succeeded. Before it, `recentAlloc` becomes the NULL `heapStart` (lines 90-92) and line 114 reads through it.
- MyHeap.Heap.DispMem: requires myInit to have succeeded. Before it, line 373 reads through the NULL `heapStart`.
- MyHeap.Heap.Alloc: has no "larger than the heap" check, and neither does the C code. Such a request fails because no block holds it.
- myInit's `allocated_once = 0` on a failed mapping (line 309) writes the value the variable already has. The model leaves it unchanged.
- AsWritten.ScanFrom: takes a bound on the number of loop turns, because the loop as written need not end (Findings, row 3). It returns None when the bound runs out.
- AsWritten: models the whole of myAlloc as written, but only the word writes of myFree as written: they are `Coalescing.ReleaseWrites`, which `MyHeap.Heap.CoalesceBlock` performs. As written, the cursor is left where it was.
- `myHeap.h` is not part of this model.
- Thread safety: there is none in the C code, and the model is sequential.

## Findings

| source | as written | input that shows it | evidently intended | confidence | as-written member | corrected member |
|---|---|---|---|---|---|---|
| myHeap.c:154-164 | an exact fit writes only the chosen block's header, so the next block keeps p-bit 0 although its predecessor is now allocated | a free 16-byte block at 4 and an allocated one at 20; myAlloc(12) | the next block's p-bit is set unless it is the end mark, as myFree assumes when it subtracts 2 from it (lines 234-235) | not executed | AsWritten.ExactFitKeepsStalePBit | MyHeap.AllocKeepsHeap |
| myHeap.c:146-148 | after the end mark the search restarts at heapStart but keeps the prevAlloc of the last block, so the first block can get p-bit 0 | free 16 at 4, allocated 16 at 20, free 8 at 36, recentAlloc at 20; myAlloc(12) writes 17 at 4 | prevAlloc restarts at 2 with the scan, since the first block has no free predecessor | not executed | AsWritten.WrapKeepsStalePrevAlloc | MyHeap.Heap.Search |
| myHeap.c:188-260 | myFree never moves recentAlloc, so a merge can leave it inside a free block; the next search reads stale headers there, and can allocate inside the free block or never end | free 8 at 4, allocated 16 at 12 (the block recentAlloc points at), free 16 at 28; myFree(16) merges all three, then myAlloc(12) returns 32 | allocation never returns memory inside a free block and a search ends within one pass over the chain; moving recentAlloc to the merged block's header when it lies inside it, as the model does, is one way to get this | not executed | AsWritten.StaleCursorAllocatesInsideFreeBlock | MyHeap.Heap.FreeBlock |
| myHeap.c:81-106 | the size is never checked, so myAlloc(0) allocates an 8-byte block and myAlloc(-4) returns a pointer without allocating anything | the fresh 16-byte heap; myAlloc(0), myAlloc(-4) | NULL for a size that is not positive, as the comment at line 81 says | not executed | AsWritten.NonPositiveSizeAllocates | MyHeap.Heap.Alloc |
| myHeap.c:215, 241-252 | a backward merge never writes the freed header, so it keeps a-bit 1 inside the merged free block and a second myFree of the same pointer passes the check at line 215 | free 8 at 4, allocated 16 at 12, free 16 at 28; myFree(16) twice: the second writes a footer at byte 72, outside the 48-byte region | the freed header reads as free, so line 215 refuses the second free with -1 | not executed | AsWritten.DoubleFreeAfterMerge | MyHeap.Heap.Free |
