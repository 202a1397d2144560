/**
 * The chunk generator: cuts a memory region into chunks that do not cross block boundaries.
 */
module Chunks {
  import opened BitOps

  datatype Chunk = Chunk(addr: nat, size: nat)

  /** Addition and subtraction of w-bit addresses. */
  function Add(a: nat, b: nat, w: nat): nat
    requires a < Pow2(w) && b < Pow2(w)
  {
    if a + b < Pow2(w) then a + b else a + b - Pow2(w)
  }

  function Sub(a: nat, b: nat, w: nat): nat
    requires a < Pow2(w) && b < Pow2(w)
  {
    if a >= b then a - b else a + Pow2(w) - b
  }

  lemma AddIsModulo(a: nat, b: nat, w: nat)
    requires a < Pow2(w) && b < Pow2(w)
    ensures Add(a, b, w) == (a + b) % Pow2(w) && Sub(a, b, w) == (a - b) % Pow2(w)
  {
    DivModIs(a + b, Pow2(w), if a + b < Pow2(w) then 0 else 1, Add(a, b, w));
    DivModIs(a - b, Pow2(w), if a >= b then 0 else -1, Sub(a, b, w));
  }

  /** roundUp on w-bit addresses: (val + mask) & ~mask with mask = align - 1. */
  function RoundUp(val: nat, align: nat, w: nat): nat
    requires val < Pow2(w) && 0 < align <= Pow2(w)
  {
    And(Add(val, align - 1, w), Pow2(w) - align)
  }

  /** a is reached from 0 in steps of c. */
  ghost predicate Multiple(a: nat, c: nat) { a == 0 || (0 < c <= a && Multiple(a - c, c)) }

  lemma {:induction false} TimesIsMultiple(c: nat, q: nat)
    requires c > 0
    ensures Multiple(Times(q, c), c)
    decreases q
  {
    if q > 0 { TimesIsMultiple(c, q - 1); }
  }

  lemma {:induction false} MultipleIsProduct(a: nat, c: nat) returns (q: nat)
    requires Multiple(a, c)
    ensures a == c * q
  {
    if a == 0 {
      q := 0;
    } else {
      q := MultipleIsProduct(a - c, c);
      assert c * (q + 1) == c * q + c;
      q := q + 1;
    }
  }

  /** x & ~mask(k) is a multiple of 2^k, at most that far below x. */
  lemma NotMaskIsMultiple(x: nat, align: nat, k: nat, w: nat) returns (m: nat)
    requires k <= w && align == Pow2(k) && x < Pow2(w)
    ensures align <= Pow2(w) && m == And(x, Pow2(w) - align) && Multiple(m, align) && m <= x < m + align
    ensures m == 0 || m >= align
  {
    var q := AndNotMaskSplits(x, k, w);
    m := Times(q, align);
    TimesIsMultiple(align, q);
  }

  /** For a power of two this is the next multiple at or above val, which may be 2^w, that is 0. */
  lemma RoundUpIsNextMultiple(val: nat, align: nat, k: nat, w: nat) returns (m: nat)
    requires k <= w && align == Pow2(k) && val < Pow2(w)
    ensures Multiple(m, align) && val <= m < val + align && m <= Pow2(w) && align <= Pow2(w)
    ensures RoundUp(val, align, w) == if m < Pow2(w) then m else 0
  {
    Pow2Monotone(k, w);
    m := NotMaskIsMultiple(Add(val, align - 1, w), align, k, w);
    if val + (align - 1) >= Pow2(w) {
      m := Pow2(w);
      Pow2Times(k, w);
      TimesIsMultiple(align, Pow2(w - k));
    }
  }

  /** The chunk lies within the block that starts at base. */
  ghost predicate InBlock(base: nat, c: nat, addr: nat, size: nat)
  {
    Multiple(base, c) && base <= addr && addr + size <= base + c
  }

  /** First and last byte of the chunk have the same block number. */
  predicate Uncrossed(chunk: Chunk, c: nat)
    requires c > 0
  {
    chunk.size > 0 && chunk.addr / c == (chunk.addr + chunk.size - 1) / c
  }

  /** A chunk within a block does not cross a block boundary. */
  lemma NoCrossing(base: nat, c: nat, addr: nat, size: nat)
    requires c > 0 && size > 0 && InBlock(base, c, addr, size)
    ensures Uncrossed(Chunk(addr, size), c)
  {
    var q := MultipleIsProduct(base, c);
    DivModIs(addr, c, q, addr - base);
    DivModIs(addr + size - 1, c, q, addr + size - 1 - base);
  }

  /** The distance to the next chunk, even if start is aligned and even if the next chunk starts at 2^w. */
  method NextBoundary(start: nat, chunk: nat, w: nat, ghost k: nat) returns (next: nat)
    requires k < w && chunk == Pow2(k) && start < Pow2(w)
    ensures next < Pow2(w)
    ensures var left := Sub(next, start, w);
            0 < left <= chunk <= start + left && InBlock(start + left - chunk, chunk, start, left)
    ensures start + Sub(next, start, w) < Pow2(w) ==> next == start + Sub(next, start, w)
  {
    ghost var m := RoundUpIsNextMultiple(start, chunk, k, w);
    Pow2Monotone(k, w - 1);
    assert Multiple(m + chunk, chunk) && (m > 0 ==> m >= chunk && Multiple(m - chunk, chunk));
    next := RoundUp(start, chunk, w);
    if start == next {
      next := Add(next, chunk, w);
    }
  }

  class ChunkGenerator {
    var curAddr: nat
    var nextAddr: nat
    var curSize: nat
    var sizeLeft: nat
    const startAddr: nat
    const chunkSize: nat
    const w: nat             // bits of an address
    ghost const total: nat
    ghost var base: nat      // start of the block that holds the current chunk

    /** Between constructor and done: the rest of the region is the current chunk and sizeLeft more bytes. */
    ghost predicate Valid()
      reads this
    {
      && curAddr < Pow2(w) && startAddr + total <= Pow2(w) && total < Pow2(w)
      && (curSize > 0 ==> curAddr + curSize + sizeLeft == startAddr + total)
      && (curSize == 0 ==> sizeLeft == 0)
      && (chunkSize == 0 ==> sizeLeft == 0)
      && (chunkSize > 0 && curSize > 0 ==> InBlock(base, chunkSize, curAddr, curSize))
      && (sizeLeft > 0 ==> nextAddr == curAddr + curSize == base + chunkSize)
    }

    /** The region lies within the w-bit address space; sizes and chunk sizes are narrower than addresses. */
    constructor (start: nat, size: nat, chunk: nat, w: nat, ghost k: nat)
      requires chunk == 0 || (k < w && chunk == Pow2(k))
      requires start < Pow2(w) && size < Pow2(w) && start + size <= Pow2(w)
      ensures Valid() && startAddr == curAddr == start && chunkSize == chunk && total == size && this.w == w
      ensures (curSize == 0 <==> size == 0) && curSize + sizeLeft == size
    {
      var next := Add(start, size, w);
      if chunk != 0 {
        next := NextBoundary(start, chunk, w, k);
      }
      var leftInChunk := Sub(next, start, w);
      curAddr, nextAddr := start, next;
      curSize := if size < leftInChunk then size else leftInChunk;
      sizeLeft := size - (if size < leftInChunk then size else leftInChunk);
      startAddr, chunkSize, this.w, total := start, chunk, w, size;
      base := if chunk == 0 then 0 else start + leftInChunk - chunk;
    }

    predicate Done()
      reads this
    {
      curSize == 0
    }

    predicate Last()
      reads this
    {
      sizeLeft == 0
    }

    method Next() returns (more: bool)
      requires Valid()
      modifies this
      ensures Valid() && more == !old(Last())
      ensures more ==> curAddr == old(curAddr + curSize) && 0 < curSize <= chunkSize
      ensures more ==> curSize + sizeLeft == old(sizeLeft)
      ensures more && sizeLeft > 0 ==> curSize == chunkSize
      ensures !more ==> Done()
    {
      if sizeLeft == 0 {
        curSize := 0;
        return false;
      }
      assert Multiple(base + chunkSize, chunkSize);
      curAddr := nextAddr;
      curSize := if sizeLeft < chunkSize then sizeLeft else chunkSize;
      sizeLeft := sizeLeft - curSize;
      nextAddr := Add(nextAddr, curSize, w);
      base := base + chunkSize;
      return true;
    }
  }

  /** The chunks follow each other without gap, from `from`. */
  ghost predicate Contiguous(out: seq<Chunk>, from: nat, upto: nat)
  {
    if out == [] then from == upto
    else
      var c := out[|out| - 1];
      c.size > 0 && c.addr + c.size == upto && Contiguous(out[..|out| - 1], from, c.addr)
  }

  /** Every chunk lies within one block; bases are the starts of those blocks. */
  ghost predicate AllInBlocks(out: seq<Chunk>, bases: seq<nat>, c: nat)
  {
    |bases| == |out| && forall i :: 0 <= i < |out| ==> out[i].size > 0 && InBlock(bases[i], c, out[i].addr, out[i].size)
  }

  /** All chunks but the first and the last are full. */
  ghost predicate FullInside(out: seq<Chunk>, c: nat) { forall i :: 0 < i < |out| - 1 ==> out[i].size == c }

  ghost predicate Covers(out: seq<Chunk>, bases: seq<nat>, from: nat, upto: nat, chunk: nat)
  {
    Contiguous(out, from, upto) && (chunk > 0 ==> AllInBlocks(out, bases, chunk)) && FullInside(out, chunk)
  }

  lemma CoversNext(out: seq<Chunk>, bases: seq<nat>, from: nat, chunk: nat, c: Chunk, base: nat)
    requires Covers(out, bases, from, c.addr, chunk) && c.size > 0
    requires chunk > 0 ==> InBlock(base, chunk, c.addr, c.size)
    requires |out| > 1 ==> out[|out| - 1].size == chunk
    ensures Covers(out + [c], bases + [base], from, c.addr + c.size, chunk)
  {
    assert (out + [c])[..|out|] == out;
  }

  /** The loop of the class comment: iterate until done. */
  method Iterate(start: nat, size: nat, chunk: nat, w: nat, ghost k: nat)
    returns (out: seq<Chunk>, ghost bases: seq<nat>)
    requires chunk == 0 || (k < w && chunk == Pow2(k))
    requires start < Pow2(w) && size < Pow2(w) && start + size <= Pow2(w)
    ensures Covers(out, bases, start, start + size, chunk)
    ensures chunk == 0 ==> out == if size == 0 then [] else [Chunk(start, size)]
  {
    var gen := new ChunkGenerator(start, size, chunk, w, k);
    out, bases := [], [];
    while !gen.Done()
      invariant fresh(gen) && gen.Valid() && gen.chunkSize == chunk && gen.total == size && gen.startAddr == start
      invariant Covers(out, bases, start, if gen.Done() then start + size else gen.curAddr, chunk)
      invariant out != [] && gen.sizeLeft > 0 ==> gen.curSize == chunk
      invariant !gen.Done() && |out| > 1 ==> out[|out| - 1].size == chunk
      invariant chunk == 0 ==>
                  if gen.Done() then out == (if size == 0 then [] else [Chunk(start, size)])
                  else out == [] && gen.curAddr == start && gen.curSize == size
      decreases gen.curSize + gen.sizeLeft
    {
      var c := Chunk(gen.curAddr, gen.curSize);
      CoversNext(out, bases, start, chunk, c, gen.base);
      out, bases := out + [c], bases + [gen.base];
      var _ := gen.Next();
    }
  }

  /** Iterating yields contiguous chunks that cover the region, stay within blocks, and are full except at the ends. */
  method Generate(start: nat, size: nat, chunk: nat, w: nat, ghost k: nat) returns (out: seq<Chunk>)
    requires chunk == 0 || (k < w && chunk == Pow2(k))
    requires start < Pow2(w) && size < Pow2(w) && start + size <= Pow2(w)
    ensures Contiguous(out, start, start + size)
    ensures chunk > 0 ==> forall i :: 0 <= i < |out| ==> Uncrossed(out[i], chunk)
    ensures FullInside(out, chunk)
    ensures chunk == 0 ==> out == if size == 0 then [] else [Chunk(start, size)]
  {
    ghost var bases;
    out, bases := Iterate(start, size, chunk, w, k);
    if chunk > 0 {
      forall i | 0 <= i < |out| ensures Uncrossed(out[i], chunk) {
        NoCrossing(bases[i], chunk, out[i].addr, out[i].size);
      }
    }
  }
}
