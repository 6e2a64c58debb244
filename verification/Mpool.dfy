/** The pool allocator: small regions cut from a chain of blocks, large ones from the system. */
module Mpool {

  const POOL_ALIGNMENT := 16
  const ALIGNMENT := 8
  const MAX_ALLOC_FROM_POOL := 4095
  const POOL_HEADER := 64   // the pool structure at the start of the first block
  const BLOCK_HEADER := 32  // the part of it that later blocks have
  const LARGE_NODE := 16    // a node of the list of large allocations
  const ADDRESS_LIMIT := 0x8000_0000_0000_0000

  datatype Region = Region(addr: nat, size: nat)

  predicate Disjoint(a: Region, b: Region) {
    a.addr + a.size <= b.addr || b.addr + b.size <= a.addr
  }

  /** A block of the chain; its end is its start plus the block size of the pool. */
  datatype Block = Block(start: nat, last: nat, failed: nat)

  /** A node of the list of large allocations, itself at an address in a block; alloc 0 stands for none. */
  datatype Large = Large(node: nat, alloc: nat)

  /** A region cut from block number block. */
  datatype Chunk = Chunk(block: nat, at: Region)

  function Align(p: nat): (q: nat)
    ensures p <= q < p + ALIGNMENT && q % ALIGNMENT == 0
  {
    (p + 7) / 8 * 8
  }

  /** The bytes from m to the end of the block, as an unsigned 64-bit difference. */
  function Available(end: nat, m: nat): int {
    if m <= end then end - m else end - m + 0x1_0000_0000_0000_0000
  }

  /** If the difference lets an aligned region pass, then the region ends in the block. */
  ghost predicate Honest(end: nat, last: nat, size: nat) {
    Available(end, Align(last)) >= size ==> Align(last) + size <= end
  }

  /** The check is honest at every fill of a block exactly when the block's end is aligned. */
  lemma HonestIffAligned(end: nat)
    requires end < ADDRESS_LIMIT
    ensures (forall last: nat, size: nat | last <= end && size <= MAX_ALLOC_FROM_POOL :: Honest(end, last, size))
        <==> end % ALIGNMENT == 0
  {
    if end % ALIGNMENT == 0 {
      forall last: nat, size: nat | last <= end ensures Honest(end, last, size) {
        AlignBelow(last, end);
      }
    } else {
      assert !Honest(end, end, 1);
    }
  }

  lemma AlignBelow(last: nat, end: nat)
    requires last <= end && end % ALIGNMENT == 0
    ensures Align(last) <= end
  {
  }

  // ----- what the blocks hold -----

  function Header(i: nat): nat { if i == 0 then POOL_HEADER else BLOCK_HEADER }

  function Whole(b: Block, size: nat): Region { Region(b.start, size) }

  ghost predicate BlocksOk(size: nat, blocks: seq<Block>) {
    && (forall i :: 0 <= i < |blocks| ==>
         && 0 < blocks[i].start && blocks[i].start % POOL_ALIGNMENT == 0
         && blocks[i].start + Header(i) <= blocks[i].last <= blocks[i].start + size < ADDRESS_LIMIT)
    && forall i, j :: 0 <= i < j < |blocks| ==> Disjoint(Whole(blocks[i], size), Whole(blocks[j], size))
  }

  /** Chunks lie in the used part of their block, past its header, and later ones above earlier ones. */
  ghost predicate ChunksOk(blocks: seq<Block>, chunks: seq<Chunk>) {
    && (forall k :: 0 <= k < |chunks| ==>
         var c := chunks[k];
         c.block < |blocks| && blocks[c.block].start + Header(c.block) <= c.at.addr
         && c.at.addr + c.at.size <= blocks[c.block].last)
    && forall k, l :: 0 <= k < l < |chunks| && chunks[k].block == chunks[l].block ==>
         chunks[k].at.addr + chunks[k].at.size <= chunks[l].at.addr
  }

  /** Cutting a region off a block keeps both. */
  lemma CutKeeps(size: nat, blocks: seq<Block>, chunks: seq<Chunk>, i: nat, addr: nat, n: nat)
    requires BlocksOk(size, blocks) && ChunksOk(blocks, chunks)
    requires i < |blocks| && blocks[i].last <= addr && addr + n <= blocks[i].start + size
    ensures BlocksOk(size, blocks[i := blocks[i].(last := addr + n)])
    ensures ChunksOk(blocks[i := blocks[i].(last := addr + n)], chunks + [Chunk(i, Region(addr, n))])
  {
  }

  /** Blocks that differ only in their failure counts. */
  ghost predicate SamePlaces(a: seq<Block>, b: seq<Block>) {
    |a| == |b| && forall i :: 0 <= i < |a| ==> a[i].start == b[i].start && a[i].last == b[i].last
  }

  // ----- the large allocations -----

  /** One of the chunks is this region. */
  ghost predicate IsChunk(chunks: seq<Chunk>, r: Region) {
    exists k :: 0 <= k < |chunks| && chunks[k].at == r
  }

  ghost predicate Owned(large: seq<Large>, a: nat) {
    exists i :: 0 <= i < |large| && large[i].alloc == a
  }

  /** The list owns exactly the live system allocations, each through one node, and its nodes are chunks. */
  ghost predicate LargeOk(large: seq<Large>, sizes: map<nat, nat>, chunks: seq<Chunk>) {
    && 0 !in sizes
    && (forall i :: 0 <= i < |large| && large[i].alloc != 0 ==> large[i].alloc in sizes)
    && (forall a :: a in sizes ==> Owned(large, a))
    && (forall i, j :: 0 <= i < j < |large| && large[i].alloc != 0 ==> large[i].alloc != large[j].alloc)
    && (forall i :: 0 <= i < |large| ==> IsChunk(chunks, Region(large[i].node, LARGE_NODE)))
  }

  /** System allocations overlap neither each other nor a block. */
  ghost predicate SystemOk(size: nat, blocks: seq<Block>, sizes: map<nat, nat>) {
    && (forall a, b :: a in sizes && b in sizes && a != b ==> Disjoint(Region(a, sizes[a]), Region(b, sizes[b])))
    && forall a, i :: a in sizes && 0 <= i < |blocks| ==> Disjoint(Region(a, sizes[a]), Whole(blocks[i], size))
  }

  /** Memory that the system may hand out next to what it has handed out already. */
  ghost predicate Unused(r: Region, size: nat, blocks: seq<Block>, sizes: map<nat, nat>) {
    && 0 < r.addr && r.addr + r.size < ADDRESS_LIMIT
    && (forall i :: 0 <= i < |blocks| ==> Disjoint(Whole(blocks[i], size), r))
    && forall a :: a in sizes ==> a != r.addr && Disjoint(Region(a, sizes[a]), r)
  }

  lemma AppendBlock(size: nat, blocks: seq<Block>, chunks: seq<Chunk>, m: nat)
    requires BlocksOk(size, blocks) && ChunksOk(blocks, chunks) && blocks != []
    requires 0 < m && m % POOL_ALIGNMENT == 0 && m + size < ADDRESS_LIMIT && BLOCK_HEADER <= size
    requires forall i :: 0 <= i < |blocks| ==> Disjoint(Whole(blocks[i], size), Region(m, size))
    ensures BlocksOk(size, blocks + [Block(m, m + BLOCK_HEADER, 0)])
    ensures ChunksOk(blocks + [Block(m, m + BLOCK_HEADER, 0)], chunks)
  {
  }

  /** A new block in unused memory keeps both, with room for n bytes behind its header. */
  lemma NewBlockKeeps(size: nat, blocks: seq<Block>, chunks: seq<Chunk>, sizes: map<nat, nat>, m: nat, n: nat)
    requires BlocksOk(size, blocks) && ChunksOk(blocks, chunks) && blocks != []
    requires m % POOL_ALIGNMENT == 0 && n + BLOCK_HEADER <= size && Unused(Region(m, size), size, blocks, sizes)
    ensures var r := Align(m + BLOCK_HEADER);
            && m > 0 && r > 0
            && BlocksOk(size, blocks + [Block(m, r + n, 0)])
            && ChunksOk(blocks + [Block(m, r + n, 0)], chunks + [Chunk(|blocks|, Region(r, n))])
  {
    var r := Align(m + BLOCK_HEADER);
    assert r == m + BLOCK_HEADER;
    AppendBlock(size, blocks, chunks, m);
    var more := blocks + [Block(m, m + BLOCK_HEADER, 0)];
    hide BlocksOk, ChunksOk, Unused, Align;
    CutKeeps(size, more, chunks, |blocks|, r, n);
    assert more[|blocks| := Block(m, r + n, 0)] == blocks + [Block(m, r + n, 0)];
  }

  lemma ChunkGrows(large: seq<Large>, sizes: map<nat, nat>, chunks: seq<Chunk>, c: Chunk)
    requires LargeOk(large, sizes, chunks)
    ensures LargeOk(large, sizes, chunks + [c]) && IsChunk(chunks + [c], c.at)
  {
    assert (chunks + [c])[|chunks|] == c;
    forall i | 0 <= i < |large| ensures IsChunk(chunks + [c], Region(large[i].node, LARGE_NODE)) {
      var k :| 0 <= k < |chunks| && chunks[k].at == Region(large[i].node, LARGE_NODE);
      assert (chunks + [c])[k] == chunks[k];
    }
  }

  /** The chain is the one before, filled further, with at most one new block at m. */
  ghost predicate Grown(before: seq<Block>, after: seq<Block>, m: nat) {
    && |before| <= |after|
    && (forall i :: 0 <= i < |before| ==> after[i].start == before[i].start)
    && forall i :: |before| <= i < |after| ==> after[i].start == m != 0
  }

  /** Growing the chain by an unused block keeps what the system has handed out apart. */
  lemma GrownKeeps(size: nat, before: seq<Block>, after: seq<Block>, m: nat, sizes: map<nat, nat>, r: Region)
    requires SystemOk(size, before, sizes) && Grown(before, after, m)
    requires m != 0 ==> Unused(Region(m, size), size, before, sizes)
    ensures SystemOk(size, after, sizes)
    ensures Unused(r, size, before, sizes) && (m != 0 ==> Disjoint(Region(m, size), r)) ==> Unused(r, size, after, sizes)
  {
  }

  /** A further node that owns an unused region. */
  lemma NodeKeeps(size: nat, blocks: seq<Block>, large: seq<Large>, sizes: map<nat, nat>, chunks: seq<Chunk>, node: nat, r: Region)
    requires LargeOk(large, sizes, chunks) && SystemOk(size, blocks, sizes) && Unused(r, size, blocks, sizes)
    requires IsChunk(chunks, Region(node, LARGE_NODE))
    ensures LargeOk([Large(node, r.addr)] + large, sizes[r.addr := r.size], chunks)
    ensures SystemOk(size, blocks, sizes[r.addr := r.size])
  {
    var more, all := [Large(node, r.addr)] + large, sizes[r.addr := r.size];
    assert more[0].alloc == r.addr;
    forall a | a in all ensures Owned(more, a) {
      if a != r.addr {
        var i :| 0 <= i < |large| && large[i].alloc == a;
        assert more[i + 1].alloc == a;
      }
    }
    forall i | 0 <= i < |more| ensures IsChunk(chunks, Region(more[i].node, LARGE_NODE)) {
      if i > 0 { assert more[i] == large[i - 1]; }
    }
  }

  /** An empty node takes over an unused region. */
  lemma ReuseKeeps(size: nat, blocks: seq<Block>, large: seq<Large>, sizes: map<nat, nat>, chunks: seq<Chunk>, i: nat, r: Region)
    requires LargeOk(large, sizes, chunks) && SystemOk(size, blocks, sizes) && Unused(r, size, blocks, sizes)
    requires i < |large| && large[i].alloc == 0
    ensures LargeOk(large[i := large[i].(alloc := r.addr)], sizes[r.addr := r.size], chunks)
    ensures SystemOk(size, blocks, sizes[r.addr := r.size])
  {
    var more, all := large[i := large[i].(alloc := r.addr)], sizes[r.addr := r.size];
    assert more[i].alloc == r.addr;
    forall a | a in all ensures Owned(more, a) {
      if a != r.addr {
        var j :| 0 <= j < |large| && large[j].alloc == a;
        assert more[j].alloc == a;
      }
    }
  }

  /** Emptying the node of a region gives the region up. */
  lemma FreeKeeps(size: nat, blocks: seq<Block>, large: seq<Large>, sizes: map<nat, nat>, chunks: seq<Chunk>, i: nat)
    requires LargeOk(large, sizes, chunks) && SystemOk(size, blocks, sizes) && i < |large| && large[i].alloc != 0
    ensures LargeOk(large[i := large[i].(alloc := 0)], sizes - {large[i].alloc}, chunks)
    ensures SystemOk(size, blocks, sizes - {large[i].alloc})
  {
    var fewer, rest := large[i := large[i].(alloc := 0)], sizes - {large[i].alloc};
    forall a | a in rest ensures Owned(fewer, a) {
      var j :| 0 <= j < |large| && large[j].alloc == a;
      assert fewer[j].alloc == a;
    }
  }

  lemma BlockBounds(size: nat, blocks: seq<Block>, i: nat)
    requires BlocksOk(size, blocks) && i < |blocks|
    ensures 0 < blocks[i].last <= blocks[i].start + size < ADDRESS_LIMIT && blocks[i].start % POOL_ALIGNMENT == 0
  {
  }

  lemma SamePlacesKeep(size: nat, a: seq<Block>, b: seq<Block>, chunks: seq<Chunk>)
    requires SamePlaces(a, b) && BlocksOk(size, a) && ChunksOk(a, chunks)
    ensures BlocksOk(size, b) && ChunksOk(b, chunks)
  {
  }

  // ----- live regions never overlap -----

  /** A chunk or a system allocation. */
  ghost predicate IsLive(sizes: map<nat, nat>, chunks: seq<Chunk>, r: Region) {
    IsChunk(chunks, r) || (r.addr in sizes && sizes[r.addr] == r.size)
  }

  /** A live region that is cut from a block lies in the used part of one block, behind its header. */
  lemma InsideOneBlock(size: nat, blocks: seq<Block>, chunks: seq<Chunk>, r: Region)
    requires BlocksOk(size, blocks) && ChunksOk(blocks, chunks) && IsChunk(chunks, r)
    ensures exists i :: 0 <= i < |blocks| && blocks[i].start + Header(i) <= r.addr
                        && r.addr + r.size <= blocks[i].last <= blocks[i].start + size
  {
    var k :| 0 <= k < |chunks| && chunks[k].at == r;
    assert blocks[chunks[k].block].start + Header(chunks[k].block) <= r.addr;
  }

  lemma ChunkInBlock(size: nat, blocks: seq<Block>, chunks: seq<Chunk>, k: nat, r: Region)
    requires BlocksOk(size, blocks) && ChunksOk(blocks, chunks) && k < |chunks|
    requires Disjoint(r, Whole(blocks[chunks[k].block], size))
    ensures Disjoint(r, chunks[k].at)
  {
  }

  lemma ChunksApart(size: nat, blocks: seq<Block>, chunks: seq<Chunk>, k: nat, l: nat)
    requires BlocksOk(size, blocks) && ChunksOk(blocks, chunks) && k < l < |chunks|
    ensures Disjoint(chunks[k].at, chunks[l].at)
  {
    var b, c := chunks[k].block, chunks[l].block;
    if b != c {
      assert Disjoint(Whole(blocks[if b < c then b else c], size), Whole(blocks[if b < c then c else b], size));
    }
  }

  /** A chunk is disjoint from every other chunk and from every system allocation. */
  lemma ChunkApart(size: nat, blocks: seq<Block>, chunks: seq<Chunk>, sizes: map<nat, nat>, l: nat, r: Region)
    requires BlocksOk(size, blocks) && ChunksOk(blocks, chunks) && SystemOk(size, blocks, sizes) && l < |chunks|
    requires IsLive(sizes, chunks[..l] + chunks[l + 1..], r)
    ensures Disjoint(r, chunks[l].at)
  {
    hide BlocksOk, SystemOk;
    var others := chunks[..l] + chunks[l + 1..];
    if k :| 0 <= k < |others| && others[k].at == r {
      if k < l {
        ChunksApart(size, blocks, chunks, k, l);
      } else {
        assert others[k] == chunks[k + 1];
        ChunksApart(size, blocks, chunks, l, k + 1);
      }
    } else {
      SystemApart(size, blocks, sizes, r.addr, chunks[l].block);
      ChunkInBlock(size, blocks, chunks, l, r);
    }
  }

  lemma SystemApart(size: nat, blocks: seq<Block>, sizes: map<nat, nat>, a: nat, i: nat)
    requires SystemOk(size, blocks, sizes) && a in sizes && i < |blocks|
    ensures Disjoint(Region(a, sizes[a]), Whole(blocks[i], size))
  {
  }

  /** An unused region is disjoint from every live one. */
  lemma UnusedApart(size: nat, blocks: seq<Block>, chunks: seq<Chunk>, sizes: map<nat, nat>, p: Region, r: Region)
    requires BlocksOk(size, blocks) && ChunksOk(blocks, chunks)
    requires Unused(p, size, blocks, sizes) && IsLive(sizes, chunks, r)
    ensures Disjoint(p, r)
  {
    hide BlocksOk;
    if k :| 0 <= k < |chunks| && chunks[k].at == r { ChunkInBlock(size, blocks, chunks, k, p); }
  }

  /** Where the search starts next: behind the last of blocks from to to - 1 that has failed more than four times. */
  function LastTired(blocks: seq<Block>, current: nat, from: nat, to: nat): (c: nat)
    requires from <= to <= |blocks|
    ensures c == current || from < c <= to
    ensures forall j :: from <= j < to && blocks[j].failed > 4 ==> j < c && (c == current || blocks[c - 1].failed > 4)
    ensures (forall j :: from <= j < to ==> blocks[j].failed <= 4) ==> c == current
    ensures c != current ==> blocks[c - 1].failed > 4
  {
    if from == to then current
    else if blocks[to - 1].failed > 4 then to
    else LastTired(blocks, current, from, to - 1)
  }

  /** Where a region starts when it is cut from a block. */
  function Next(b: Block, aligned: bool): nat {
    if aligned then Align(b.last) else b.last
  }

  /** The block has no room for n bytes. */
  predicate Full(b: Block, size: nat, n: nat, aligned: bool) {
    Available(b.start + size, Next(b, aligned)) < n
  }

  /** With a fill in the block, it is full iff the region would end behind its end. */
  lemma FullMeans(b: Block, size: nat, n: nat, aligned: bool)
    requires b.last <= b.start + size && (aligned ==> (b.last + 7) / 8 * 8 <= b.start + size)
    ensures Full(b, size, n, aligned) <==> (if aligned then (b.last + 7) / 8 * 8 else b.last) + n > b.start + size
  {
  }

  /** No block from the current one on has room. */
  ghost predicate NoRoom(blocks: seq<Block>, current: nat, size: nat, n: nat, aligned: bool) {
    forall j :: current <= j < |blocks| ==> Full(blocks[j], size, n, aligned)
  }

  /** None of the first five nodes of the list is empty. */
  ghost predicate NoSlot(large: seq<Large>) {
    forall i :: 0 <= i < |large| && i < 5 ==> large[i].alloc != 0
  }

  class Pool {
    const size: nat          // of every block
    const max: nat           // the largest region that is cut from a block
    var blocks: seq<Block>   // the chain
    var current: nat         // where the search for room starts
    var large: seq<Large>    // the list, its first node first
    ghost var sizes: map<nat, nat>  // the live system allocations
    ghost var chunks: seq<Chunk>    // the live regions cut from blocks, list nodes included

    ghost predicate Valid()
      reads this
    {
      && POOL_HEADER <= size < ADDRESS_LIMIT
      && max == (if size - POOL_HEADER < MAX_ALLOC_FROM_POOL then size - POOL_HEADER else MAX_ALLOC_FROM_POOL)
      && current < |blocks|
      && BlocksOk(size, blocks) && ChunksOk(blocks, chunks)
      && LargeOk(large, sizes, chunks) && SystemOk(size, blocks, sizes)
    }

    /** What memalign may answer when a block is needed: nothing, or an aligned unused block. */
    ghost predicate BlockAnswer(m: nat)
      reads this
    {
      m != 0 ==> m % POOL_ALIGNMENT == 0 && Unused(Region(m, size), size, blocks, sizes)
    }

    /** A pool on the block that memalign answered. */
    constructor (size: nat, m: nat)
      requires POOL_HEADER <= size
      requires 0 < m && m % POOL_ALIGNMENT == 0 && m + size < ADDRESS_LIMIT
      ensures Valid() && this.size == size && chunks == [] && sizes == map[] && |blocks| == 1
    {
      this.size := size;
      max := if size - POOL_HEADER < MAX_ALLOC_FROM_POOL then size - POOL_HEADER else MAX_ALLOC_FROM_POOL;
      blocks := [Block(m, m + POOL_HEADER, 0)];
      current := 0;
      large := [];
      sizes := map[];
      chunks := [];
    }

    /** Counts a failure of every block from the current one on but the last, and moves on from those that failed often. */
    method CountFailures()
      requires current < |blocks|
      modifies `blocks, `current
      ensures SamePlaces(old(blocks), blocks) && current < |blocks|
      ensures forall j :: 0 <= j < |blocks| ==>
                blocks[j].failed == old(blocks[j].failed) + (if old(current) <= j < |blocks| - 1 then 1 else 0)
      ensures current == LastTired(old(blocks), old(current), old(current), |blocks| - 1)
    {
      var i := current;
      while i < |blocks| - 1
        invariant old(current) <= i < |blocks| && current < |blocks| && SamePlaces(old(blocks), blocks)
        invariant forall j :: 0 <= j < |blocks| ==>
                    blocks[j].failed == old(blocks[j].failed) + (if old(current) <= j < i then 1 else 0)
        invariant current == LastTired(old(blocks), old(current), old(current), i)
      {
        var failed := blocks[i].failed;
        blocks := blocks[i := blocks[i].(failed := failed + 1)];
        if failed > 4 {
          current := i + 1;
        }
        i := i + 1;
      }
    }

    /**
     * A region from a block, or from a new one, at the address r in block b; 0 iff no block has room
     * and there is no memory for a new one.  The check for room holds for aligned regions only when
     * the blocks end aligned.
     */
    method AllocSmall(n: nat, aligned: bool, m: nat) returns (r: nat, ghost b: nat)
      requires Valid() && n + BLOCK_HEADER <= size && BlockAnswer(m) && (aligned ==> size % ALIGNMENT == 0)
      modifies `blocks, `current, `chunks
      ensures Valid() && Grown(old(blocks), blocks, m)
      ensures r == 0 <==> m == 0 && NoRoom(old(blocks), old(current), size, n, aligned)
      ensures r == 0 ==> chunks == old(chunks)
      ensures r != 0 ==> chunks == old(chunks) + [Chunk(b, Region(r, n))]
      ensures r != 0 && aligned ==> r % ALIGNMENT == 0
      ensures r != 0 ==> old(current) <= b <= |old(blocks)|
                         && forall j :: old(current) <= j < b ==> Full(old(blocks)[j], size, n, aligned)
      ensures r != 0 && b < |old(blocks)| ==> r == Next(old(blocks)[b], aligned) && current == old(current)
    {
      hide BlocksOk, ChunksOk, LargeOk, SystemOk, Unused;
      var i := current;
      while i < |blocks|
        invariant current <= i <= |blocks| && blocks == old(blocks) && chunks == old(chunks) && current == old(current)
        invariant forall j :: current <= j < i ==> Full(blocks[j], size, n, aligned)
      {
        BlockBounds(size, blocks, i);
        var p := blocks[i].last;
        if aligned {
          p := Align(p);
          AlignBelow(blocks[i].last, blocks[i].start + size);
        }
        if Available(blocks[i].start + size, p) >= n {
          CutKeeps(size, blocks, chunks, i, p, n);
          ChunkGrows(large, sizes, chunks, Chunk(i, Region(p, n)));
          blocks := blocks[i := blocks[i].(last := p + n)];
          chunks := chunks + [Chunk(i, Region(p, n))];
          GrownKeeps(size, old(blocks), blocks, 0, sizes, Region(0, 0));
          return p, i;
        }
        i := i + 1;
      }
      r, b := AllocBlock(n, m);
    }

    method AllocBlock(n: nat, m: nat) returns (r: nat, ghost b: nat)
      requires Valid() && n + BLOCK_HEADER <= size && BlockAnswer(m)
      modifies `blocks, `current, `chunks
      ensures Valid() && Grown(old(blocks), blocks, m)
      ensures (r == 0 <==> m == 0) && (r == 0 ==> chunks == old(chunks))
      ensures r != 0 ==> chunks == old(chunks) + [Chunk(b, Region(r, n))] && r % ALIGNMENT == 0 && b == |old(blocks)|
    {
      hide BlocksOk, ChunksOk, LargeOk, SystemOk, Unused;
      if m == 0 {
        return 0, 0;
      }
      r, b := Align(m + BLOCK_HEADER), |blocks|;
      NewBlockKeeps(size, blocks, chunks, sizes, m, n);
      ChunkGrows(large, sizes, chunks, Chunk(b, Region(r, n)));
      ghost var more := blocks + [Block(m, r + n, 0)];
      CountFailures();
      blocks := blocks + [Block(m, r + n, 0)];
      chunks := chunks + [Chunk(b, Region(r, n))];
      SamePlacesKeep(size, more, blocks, chunks);
      GrownKeeps(size, old(blocks), blocks, m, sizes, Region(0, 0));
    }

    /** A region from the system, recorded in an empty node near the head of the list or in a new one. */
    method AllocLarge(n: nat, p: nat, m: nat) returns (r: nat)
      requires Valid() && BlockAnswer(m) && size % ALIGNMENT == 0
      requires p != 0 ==> Unused(Region(p, n), size, blocks, sizes) && (m != 0 ==> Disjoint(Region(m, size), Region(p, n)))
      modifies `blocks, `current, `chunks, `large, `sizes
      ensures Valid() && r in {0, p}
      ensures r == 0 <==> p == 0 || (m == 0 && NoSlot(old(large)) && NoRoom(old(blocks), old(current), size, LARGE_NODE, true))
      ensures r == 0 ==> sizes == old(sizes) && chunks == old(chunks)
      ensures r != 0 ==> sizes == old(sizes)[p := n] && old(chunks) <= chunks
    {
      hide BlocksOk, ChunksOk, LargeOk, SystemOk, Unused;
      if p == 0 {
        return 0;
      }
      var i, seen := 0, 0;
      while i < |large|
        invariant i <= |large| && i == seen <= 4 && unchanged(this)
        invariant forall j :: 0 <= j < i ==> large[j].alloc != 0
      {
        if large[i].alloc == 0 {
          ReuseKeeps(size, blocks, large, sizes, chunks, i, Region(p, n));
          large := large[i := large[i].(alloc := p)];
          sizes := sizes[p := n];
          return p;
        }
        if seen > 3 { break; }
        seen := seen + 1;
        i := i + 1;
      }
      r := AddNode(n, p, m);
    }

    /** Cuts a node from the pool and puts it at the head of the list; without memory for it, p goes back. */
    method AddNode(n: nat, p: nat, m: nat) returns (r: nat)
      requires Valid() && BlockAnswer(m) && size % ALIGNMENT == 0
      requires p != 0 && Unused(Region(p, n), size, blocks, sizes) && (m != 0 ==> Disjoint(Region(m, size), Region(p, n)))
      modifies `blocks, `current, `chunks, `large, `sizes
      ensures Valid() && r in {0, p}
      ensures r == 0 <==> m == 0 && NoRoom(old(blocks), old(current), size, LARGE_NODE, true)
      ensures r == 0 ==> sizes == old(sizes) && chunks == old(chunks)
      ensures r != 0 ==> sizes == old(sizes)[p := n] && old(chunks) <= chunks
    {
      hide BlocksOk, ChunksOk, LargeOk, SystemOk, Unused;
      var node;
      ghost var b;
      node, b := AllocSmall(LARGE_NODE, true, m);
      GrownKeeps(size, old(blocks), blocks, m, sizes, Region(p, n));
      if node == 0 {
        return 0;
      }
      ChunkGrows(old(large), sizes, old(chunks), Chunk(b, Region(node, LARGE_NODE)));
      NodeKeeps(size, blocks, large, sizes, chunks, node, Region(p, n));
      large := [Large(node, p)] + large;
      sizes := sizes[p := n];
      return p;
    }
  
    ghost predicate Live(r: Region)
      reads this
    {
      IsLive(sizes, chunks, r)
    }

    /** What malloc or memalign may answer for n bytes, next to a block at m. */
    ghost predicate SystemAnswer(p: nat, n: nat, m: nat)
      reads this
    {
      p != 0 ==> Unused(Region(p, n), size, blocks, sizes) && (m != 0 ==> Disjoint(Region(m, size), Region(p, n)))
    }

    /** There is neither room for n bytes in a block nor memory for a new one. */
    ghost predicate Spent(n: nat, aligned: bool, m: nat)
      reads this
    {
      m == 0 && NoRoom(blocks, current, size, n, aligned)
    }

    /** What it takes that n bytes cannot be had. */
    ghost predicate NoMemory(n: nat, aligned: bool, p: nat, m: nat)
      reads this
    {
      if n <= max then Spent(n, aligned, m) else p == 0 || (NoSlot(large) && Spent(LARGE_NODE, true, m))
    }

    /** A region of n bytes that overlaps no live one: from a block if it is small, else from the system. */
    method Alloc(n: nat, aligned: bool, p: nat, m: nat) returns (r: nat)
      requires Valid() && BlockAnswer(m) && SystemAnswer(p, n, m) && (aligned || n > max ==> size % ALIGNMENT == 0)
      modifies this
      ensures Valid() && (r == 0 <==> old(NoMemory(n, aligned, p, m)))
      ensures r != 0 ==> Live(Region(r, n))
      ensures forall q :: old(Live(q)) ==> Live(q) && (r != 0 ==> Disjoint(q, Region(r, n)))
      ensures aligned && p % ALIGNMENT == 0 ==> r % ALIGNMENT == 0
      ensures if n <= max then sizes == old(sizes) else r in {0, p}
    {
      hide BlocksOk, ChunksOk, LargeOk, SystemOk, Unused;
      if n <= max {
        ghost var b;
        r, b := AllocSmall(n, aligned, m);
        forall q | old(Live(q)) ensures Live(q) && (r != 0 ==> Disjoint(q, Region(r, n))) {
          if r != 0 {
            LiveGrows(sizes, old(chunks), Chunk(b, Region(r, n)), q);
            assert chunks[..|old(chunks)|] + chunks[|old(chunks)| + 1..] == old(chunks);
            ChunkApart(size, blocks, chunks, sizes, |old(chunks)|, q);
          }
        }
        if r != 0 { LiveGrows(sizes, old(chunks), Chunk(b, Region(r, n)), Region(r, n)); }
      } else {
        forall q | p != 0 && Live(q) ensures Disjoint(Region(p, n), q) { UnusedApart(size, blocks, chunks, sizes, Region(p, n), q); }
        UnusedNew(Region(p, n), size, blocks, sizes);
        r := AllocLarge(n, p, m);
        forall q | old(Live(q)) ensures Live(q) { LivePrefix(old(sizes), old(chunks), sizes, chunks, q); }
      }
    }

    /** Aligned. */
    method Palloc(n: nat, p: nat, m: nat) returns (r: nat)
      requires Valid() && BlockAnswer(m) && SystemAnswer(p, n, m) && size % ALIGNMENT == 0
      modifies this
      ensures Valid() && (r == 0 <==> old(NoMemory(n, true, p, m)))
      ensures r != 0 ==> Live(Region(r, n))
      ensures forall q :: old(Live(q)) ==> Live(q) && (r != 0 ==> Disjoint(q, Region(r, n)))
      ensures p % ALIGNMENT == 0 ==> r % ALIGNMENT == 0
    {
      r := Alloc(n, true, p, m);
    }

    method Pnalloc(n: nat, p: nat, m: nat) returns (r: nat)
      requires Valid() && BlockAnswer(m) && SystemAnswer(p, n, m) && (n > max ==> size % ALIGNMENT == 0)
      modifies this
      ensures Valid() && (r == 0 <==> old(NoMemory(n, false, p, m)))
      ensures r != 0 ==> Live(Region(r, n))
      ensures forall q :: old(Live(q)) ==> Live(q) && (r != 0 ==> Disjoint(q, Region(r, n)))
    {
      r := Alloc(n, false, p, m);
    }

    /** A region from the system with the alignment asked for. */
    method Pmemalign(n: nat, alignment: nat, p: nat, m: nat) returns (r: nat)
      requires Valid() && BlockAnswer(m) && SystemAnswer(p, n, m) && alignment > 0 && p % alignment == 0
      requires size % ALIGNMENT == 0
      modifies this
      ensures Valid() && (r == 0 <==> p == 0 || old(Spent(LARGE_NODE, true, m)))
      ensures r != 0 ==> Live(Region(r, n)) && r % alignment == 0
      ensures forall q :: old(Live(q)) ==> Live(q) && (r != 0 ==> Disjoint(q, Region(r, n)))
    {
      hide BlocksOk, ChunksOk, LargeOk, SystemOk, Unused;
      if p == 0 {
        return 0;
      }
      forall q | Live(q) ensures Disjoint(Region(p, n), q) { UnusedApart(size, blocks, chunks, sizes, Region(p, n), q); }
      UnusedNew(Region(p, n), size, blocks, sizes);
      r := AddNode(n, p, m);
      forall q | old(Live(q)) ensures Live(q) { LivePrefix(old(sizes), old(chunks), sizes, chunks, q); }
    }

    /** Gives a large region back; its node stays, empty. */
    method Pfree(p: nat) returns (code: int)
      requires Valid()
      modifies `large, `sizes
      ensures Valid() && sizes == old(sizes) - {p}
      ensures p != 0 ==> (code == 0 <==> p in old(sizes)) && (code == 0 || code == -1)
    {
      hide BlocksOk, ChunksOk, SystemOk;
      var i := 0;
      while i < |large|
        invariant i <= |large| && unchanged(this) && forall j :: 0 <= j < i ==> large[j].alloc != p
      {
        if large[i].alloc == p {
          if p != 0 {
            FreeKeeps(size, blocks, large, sizes, chunks, i);
          }
          sizes := sizes - {p};
          large := large[i := large[i].(alloc := 0)];
          assert p == 0 ==> large == old(large) && sizes == old(sizes);
          return 0;
        }
        i := i + 1;
      }
      assert p in sizes ==> Owned(large, p);
      assert sizes - {p} == sizes;
      code := -1;
    }

    /** Gives all large regions back and empties every block. */
    method Reset()
      requires Valid()
      modifies this
      ensures Valid() && chunks == [] && sizes == map[] && large == []
      ensures |blocks| == |old(blocks)| && current == 0
      ensures forall i :: 0 <= i < |blocks| ==> blocks[i] == Block(old(blocks[i].start), old(blocks[i].start) + POOL_HEADER, 0)
    {
      FreeLarge();
      chunks, large := [], [];
      EmptyBlocks();
      current := 0;
    }

    /** Gives the regions of all nodes back. */
    method FreeLarge()
      requires 0 !in sizes && forall a :: a in sizes ==> Owned(large, a)
      modifies `sizes
      ensures sizes == map[]
    {
      var i := 0;
      assert large[0..] == large;
      while i < |large|
        invariant i <= |large| && 0 !in sizes && forall a :: a in sizes ==> Owned(large[i..], a)
      {
        forall a | a in sizes && a != large[i].alloc ensures Owned(large[i + 1..], a) { OwnedLater(large[i..], a); }
        if large[i].alloc != 0 {
          sizes := sizes - {large[i].alloc};
        }
        i := i + 1;
      }
    }

    /** Marks every block as used up to the first block's header. */
    method EmptyBlocks()
      requires BlocksOk(size, blocks) && POOL_HEADER <= size
      modifies `blocks
      ensures BlocksOk(size, blocks) && |blocks| == |old(blocks)|
      ensures forall i :: 0 <= i < |blocks| ==> blocks[i] == Block(old(blocks[i].start), old(blocks[i].start) + POOL_HEADER, 0)
    {
      var i := 0;
      while i < |blocks|
        invariant i <= |blocks| == |old(blocks)| && BlocksOk(size, blocks)
        invariant forall j :: 0 <= j < |blocks| ==> blocks[j].start == old(blocks[j].start)
        invariant forall j :: 0 <= j < i ==> blocks[j] == Block(old(blocks[j].start), old(blocks[j].start) + POOL_HEADER, 0)
      {
        blocks := blocks[i := Block(blocks[i].start, blocks[i].start + POOL_HEADER, 0)];
        i := i + 1;
      }
    }
  }

  lemma LiveGrows(sizes: map<nat, nat>, chunks: seq<Chunk>, c: Chunk, r: Region)
    requires IsLive(sizes, chunks, r) || r == c.at
    ensures IsLive(sizes, chunks + [c], r)
  {
    var more := chunks + [c];
    if r == c.at {
      assert more[|chunks|].at == r;
    } else if k :| 0 <= k < |chunks| && chunks[k].at == r {
      assert more[k].at == r;
    }
  }

  lemma LivePrefix(sizes: map<nat, nat>, chunks: seq<Chunk>, sizes': map<nat, nat>, chunks': seq<Chunk>, r: Region)
    requires IsLive(sizes, chunks, r) && chunks <= chunks'
    requires forall a :: a in sizes ==> a in sizes' && sizes'[a] == sizes[a]
    ensures IsLive(sizes', chunks', r)
  {
    if k :| 0 <= k < |chunks| && chunks[k].at == r { assert chunks'[k].at == r; }
  }

  lemma OwnedLater(large: seq<Large>, a: nat)
    requires large != [] && Owned(large, a) && large[0].alloc != a
    ensures Owned(large[1..], a)
  {
    var i :| 0 <= i < |large| && large[i].alloc == a;
    assert large[1..][i - 1].alloc == a;
  }

  lemma UnusedNew(r: Region, size: nat, blocks: seq<Block>, sizes: map<nat, nat>)
    requires Unused(r, size, blocks, sizes) || r.addr == 0
    ensures r.addr != 0 ==> r.addr !in sizes
  {
  }
}
