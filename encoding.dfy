/**
 * The boundary-tag word of myHeap.c.
 *
 * Every block starts with a 4-byte header word `size_status`: the block size
 * (a multiple of 8, header included) plus the a-bit (bit 0, block allocated)
 * plus the p-bit (bit 1, preceding block allocated). A free block repeats its
 * bare size in a footer word at its last 4 bytes. The word 1 closes the chain.
 *
 * The C code tests and clears the bits with `& 1`, `& 2` and subtraction. On
 * two's-complement ints, `v & (2^k - 1)` is the Euclidean remainder of v by 2^k,
 * which is what Dafny's `%` computes, so the functions below are exact for every
 * int, negative ones included.
 */
module Encoding {

  /** Byte offset of the first block header: the region start plus 4 bytes of
      alignment padding, so that payloads (header + 4) are 8-aligned. */
  const HeapStart: int := 4

  /** Header word of the end mark that closes the chain. */
  const EndMark: int := 1

  /** Bytes per header or footer word. */
  const WordSize: int := 4

  /** The three fields multiplexed into one header word. */
  datatype Header = Header(size: int, isAlloc: bool, prevAlloc: bool)

  /** `v & 1`: 1 when the a-bit is set. */
  function ABit(v: int): int { v % 2 }

  /** `v & 2`: 2 when the p-bit is set. */
  function PBit(v: int): int { v % 4 - v % 2 }

  /** The word with both status bits cleared: what the code obtains by
      subtracting 1 when `& 1` holds and 2 when `& 2` holds. */
  function Bare(v: int): int { v - v % 4 }

  /** Packs a header: `size + a-bit + p-bit`. */
  function Encode(h: Header): (v: int)
    requires h.size % 4 == 0
    ensures Bare(v) == h.size
    ensures ABit(v) == 1 <==> h.isAlloc
    ensures PBit(v) == 2 <==> h.prevAlloc
    ensures h.size >= 8 ==> v != EndMark
  {
    h.size + (if h.isAlloc then 1 else 0) + (if h.prevAlloc then 2 else 0)
  }

  /** Unpacks a header word the way myAlloc, myFree and dispMem read it. */
  function Decode(v: int): (h: Header)
    ensures h.size % 4 == 0
  {
    Header(Bare(v), ABit(v) == 1, PBit(v) == 2)
  }

  /** Decoding an encoded header gives back its three fields. */
  lemma DecodeEncode(h: Header)
    requires h.size % 4 == 0
    ensures Decode(Encode(h)) == h
  {
  }

  /** Every word is the encoding of what it decodes to: the packing loses nothing. */
  lemma EncodeDecode(v: int)
    ensures Encode(Decode(v)) == v
  {
  }

  /** Clearing the status bits the way the loops of myAlloc and dispMem do
      (subtract 1 when `& 1` holds, then 2 when `& 2` holds) leaves the bare
      size, whatever the word. */
  lemma StripBits(v: int)
    ensures ABit(v) == 1 ==> var t := v - 1; (if PBit(t) == 2 then t - 2 else t) == Bare(v)
    ensures ABit(v) == 0 ==> (if PBit(v) == 2 then v - 2 else v) == Bare(v)
  {
    var h := Decode(v);
    EncodeDecode(v);
    var t := Encode(Header(h.size, false, h.prevAlloc));
    if h.isAlloc {
      assert v - 1 == t;
    } else {
      assert v == t;
    }
  }

  /** The worked examples of the header comment: a 24-byte block. */
  lemma EncodingExamples()
    ensures Encode(Header(24, true, true)) == 27
    ensures Encode(Header(24, true, false)) == 25
    ensures Encode(Header(24, false, true)) == 26
    ensures Encode(Header(24, false, false)) == 24
    ensures Decode(EndMark) == Header(0, true, false)
  {
  }

  /** C's `%` truncates toward zero; Dafny's is Euclidean. */
  function CRem(a: int, b: int): (r: int)
    requires b > 0
    ensures a >= 0 ==> r == a % b
    ensures a < 0 ==> -b < r <= 0
  {
    if a >= 0 then a % b else -((-a) % b)
  }

  /** The block size myAlloc computes for a payload request of `size` bytes:
      add the 4-byte header, then pad up to a multiple of 8 with C's `%`.
      This is the code as written, for every int (no check that size > 0). */
  function BlockSize(size: int): (need: int)
    ensures need % 8 == 0
    ensures size + 4 <= need < size + 12
  {
    var s := size + 4;
    var pad := CRem(s, 8);
    var pad' := CRem(8 - pad, 8);
    PadToEight(s);
    s + pad'
  }

  /** The padding BlockSize adds rounds s up to the next multiple of 8. */
  lemma PadToEight(s: int)
    ensures var pad' := CRem(8 - CRem(s, 8), 8); (s + pad') % 8 == 0 && 0 <= pad' < 8
  {
    var pad := CRem(s, 8);
    var k;
    if s >= 0 {
      assert s == 8 * (s / 8) + pad && 0 <= pad < 8;
      if pad == 0 {
        assert CRem(8, 8) == 0;
        k := s / 8;
      } else {
        assert CRem(8 - pad, 8) == 8 - pad;
        k := s / 8 + 1;
      }
    } else {
      var t := -s;
      assert t == 8 * (t / 8) + t % 8 && pad == -(t % 8);
      assert CRem(8 - pad, 8) == (8 + t % 8) % 8;
      if t % 8 == 0 {
        assert CRem(8 - pad, 8) == 0;
      } else {
        assert CRem(8 - pad, 8) == t % 8;
      }
      k := -(t / 8);
    }
    assert s + CRem(8 - pad, 8) == 8 * k;
    MultipleMod(k, 8);
  }

  /** The request of 20 payload bytes needs a 24-byte block. */
  lemma BlockSizeExample()
    ensures BlockSize(20) == 24 && BlockSize(1) == 8 && BlockSize(4) == 8 && BlockSize(5) == 16
  {
  }

  /** BlockSize is the least multiple of 8 that holds the payload and the header. */
  lemma BlockSizeLeast(size: int, n: int)
    requires n % 8 == 0 && n >= size + 4
    ensures BlockSize(size) <= n
  {
  }

  /** myInit's rounding of the region request up to a multiple of the page size. */
  function RoundToPage(sizeOfRegion: int, pagesize: int): (r: int)
    requires sizeOfRegion > 0 && pagesize > 0
    ensures r % pagesize == 0
    ensures sizeOfRegion <= r < sizeOfRegion + pagesize
  {
    var padsize := CRem(sizeOfRegion, pagesize);
    var padsize' := CRem(pagesize - padsize, pagesize);
    PageRounding(sizeOfRegion, pagesize);
    sizeOfRegion + padsize'
  }

  /** The arithmetic behind RoundToPage, with the quotient written out. */
  lemma PageRounding(n: int, p: int)
    requires n > 0 && p > 0
    ensures var r := n + (p - n % p) % p; r % p == 0 && n <= r < n + p
  {
    var q, m := n / p, n % p;
    assert n == p * q + m && 0 <= m < p;
    if m == 0 {
      MultipleMod(1, p);
      assert (p - m) % p == 0;
    } else {
      ModSmall(p - m, p);
      assert n + (p - m) == p * q + p;
      assert p * q + p == p * (q + 1);
      MultipleMod(q + 1, p);
    }
  }

  /** A remainder of a number smaller than the divisor is the number. */
  lemma ModSmall(x: int, p: int)
    requires 0 <= x < p
    ensures x % p == x
  {
    var d, r := x / p, x % p;
    assert x == p * d + r && 0 <= r < p;
    SmallMultiple(p, d, x - r);
  }

  lemma MultipleMod(k: int, p: int)
    requires p > 0
    ensures (p * k) % p == 0
  {
    var d, m := (p * k) / p, (p * k) % p;
    assert p * k == p * d + m && 0 <= m < p;
    assert p * (k - d) == m by { assert p * k - p * d == p * (k - d); }
    SmallMultiple(p, k - d, m);
  }

  /** A multiple of p strictly between -p and p is 0. */
  lemma SmallMultiple(p: int, j: int, m: int)
    requires p > 0 && p * j == m && -p < m < p
    ensures j == 0
  {
    if j > 0 {
      MulAtLeast(p, j);
    } else if j < 0 {
      MulAtLeast(p, -j);
    }
  }

  lemma MulAtLeast(p: int, j: int)
    requires p > 0 && j >= 1
    ensures p * j >= p
  {
    assert p * j == p + p * (j - 1);
  }
}
