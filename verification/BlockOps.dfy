/** Turning a fresh block of memory into a block with one free chunk. */
module BlockOps {
  import opened ChunkWords
  import opened BinTable
  import opened Heap
  import opened HeapBooks
  import opened HeapSteps
  import opened HeapOps
  import opened HeapMemory
  import opened ChunkOps

  /** The block header, and the first chunk's header before doFree. */
  function BlockWords(m: seq<nat>, newest: nat, b: Block): (r: seq<nat>)
    requires BLOCK_HEADER_WORDS + MIN_CHUNK_WORDS <= b.words && End(b) <= |m|
    ensures |r| == |m|
  {
    var c := First(b);
    m[b.at := 8 * b.words][b.at + 1 := 0][b.at + 2 := newest]
      [c := WithLast(WithWords(m[c], b.words - BLOCK_HEADER_WORDS))]
  }

  function FreshBlock(m: seq<nat>, newest: nat, b: Block): (r: seq<nat>)
    requires BLOCK_HEADER_WORDS + MIN_CHUNK_WORDS <= b.words && End(b) <= |m|
    ensures |r| == |m|
  {
    BlockWordsFacts(m, newest, b);
    FinishWords(BlockWords(m, newest, b), First(b))
  }

  lemma BlockWordsFacts(m: seq<nat>, newest: nat, b: Block)
    requires BLOCK_HEADER_WORDS + MIN_CHUNK_WORDS <= b.words && End(b) <= |m|
    ensures var r := BlockWords(m, newest, b);
      && FootAt(r, First(b)) && NextAt(r, First(b)) == End(b) && IsLast(r[First(b)])
      && r[First(b)] == WithLast(WithWords(m[First(b)], b.words - BLOCK_HEADER_WORDS))
      && SizeBytes(r[First(b)]) == 8 * (b.words - BLOCK_HEADER_WORDS)
  {
  }

  /** The header that results: setSize keeps whatever flags it finds, and of those the
      predecessor flag is the one that is not set or overwritten later. */
  lemma FreshHeaderWord(w: nat, words: nat, block: nat)
    ensures WithFree(WithLast(WithWords(w, words))) == Header(Chunk(words, true, IsPredFree(w), true, block))
  {
    FlagBits(w);
    var k := Chunk(words, IsFree(w), IsPredFree(w), IsLast(w), block);
    assert WithWords(w, words) == Header(k);
    HeaderUpdates(k, 0);
    HeaderUpdates(k.(last := true), 0);
  }

  lemma FlagBits(w: nat)
    ensures w % 8 == (if IsFree(w) then 1 else 0) + (if IsPredFree(w) then 2 else 0) + (if IsLast(w) then 4 else 0)
  {
    assert w / 2 == 4 * (w / 8) + (w % 8) / 2;
    assert w / 4 == 2 * (w / 8) + (w % 8) / 4;
    var f := w % 8;
    assert f == 0 || f == 1 || f == 2 || f == 3 || f == 4 || f == 5 || f == 6 || f == 7;
  }

  lemma FreshBlockAt(m: seq<nat>, newest: nat, b: Block, i: nat)
    requires BLOCK_HEADER_WORDS + MIN_CHUNK_WORDS <= b.words && End(b) <= |m| && i < |m|
    ensures FreshBlock(m, newest, b)[i] ==
      if i == First(b) then WithFree(WithLast(WithWords(m[First(b)], b.words - BLOCK_HEADER_WORDS)))
      else if i == End(b) - 1 then 8 * (b.words - BLOCK_HEADER_WORDS)
      else if i == b.at then 8 * b.words
      else if i == b.at + 1 then 0
      else if i == b.at + 2 then newest
      else m[i]
  {
    BlockWordsFacts(m, newest, b);
    hide WithFree, WithLast, WithWords, IsLast, IsFree, SizeBytes;
  }

  /** Only words of the new block differ. */
  ghost predicate SameOffBlock(m: seq<nat>, m': seq<nat>, b: Block) {
    |m'| == |m| && forall i: nat | i < |m| && !(b.at <= i < End(b)) :: m'[i] == m[i]
  }

  lemma FreshBlockOnlyBlock(m: seq<nat>, newest: nat, b: Block)
    requires BLOCK_HEADER_WORDS + MIN_CHUNK_WORDS <= b.words && End(b) <= |m|
    ensures SameOffBlock(m, FreshBlock(m, newest, b), b)
  {
    hide FreshBlock;
    forall i: nat | i < |m| && !(b.at <= i < End(b))
      ensures FreshBlock(m, newest, b)[i] == m[i]
    {
      FreshBlockAt(m, newest, b, i);
    }
  }

  lemma BlockKeepsList(m: seq<nat>, m': seq<nat>, h: Heap, b: Block, i: nat, head: nat)
    requires Good(h) && CanAdd(h, b) && SameOffBlock(m, m', b) && i < BIN_COUNT && |m| == h.capacity
    requires ListOk(m, head, h.bins[i])
    ensures ListOk(m', head, h.bins[i])
  {
    var l := h.bins[i];
    forall k: nat | k < |l|
      ensures LinkOk(m', l, k)
    {
      assert LinkOk(m, l, k) && BinOk(h.chunks, l, i, {}) && Member(h.chunks, l[k], i, {});
      BlockApart(h, b, l[k]);
    }
  }

  lemma BlockShape(h: Heap, b: Block, i: nat)
    requires Good(h) && CanAdd(h, b) && i < |h.blocks|
    ensures Disjoint(h.blocks[i], b) && End(h.blocks[i]) >= h.blocks[i].at + BLOCK_HEADER_WORDS
  {
    hide ChunkOk, Apart, CoalescedAt, Binned;
  }

  lemma BlockKeepsBlocks(m: seq<nat>, m': seq<nat>, newest: nat, h: Heap, b: Block)
    requires Good(h) && CanAdd(h, b) && SameOffBlock(m, m', b) && BlockLinks(m, newest, h.blocks)
    requires End(b) <= |m| && m'[b.at] == 8 * b.words && m'[b.at + 1] == 0 && m'[b.at + 2] == newest
    ensures BlockLinks(m', b.at, h.blocks + [b])
  {
    hide Consistent;
    var bs := h.blocks + [b];
    forall i: nat | i < |bs|
      ensures BlockLinkOk(m', bs, i)
    {
      if i < |h.blocks| {
        BlockShape(h, b, i);
        assert BlockLinkOk(m, h.blocks, i);
      }
    }
  }

  lemma BlockKeepsTags(m: seq<nat>, m': seq<nat>, h: Heap, b: Block, r: Heap)
    requires Good(h) && CanAdd(h, b) && SameOffBlock(m, m', b) && |m| == h.capacity
    requires r == WithBlock(h, b) && First(b) in r.chunks && m'[First(b)] == Header(r.chunks[First(b)])
    requires m'[End(b) - 1] == 8 * (b.words - BLOCK_HEADER_WORDS)
    requires Tags(m, h.chunks) && Feet(m, h.chunks, {})
    ensures Tags(m', r.chunks) && Feet(m', r.chunks, {})
  {
    hide Consistent, Header, Books, Live;
    forall c | c in r.chunks
      ensures c < |m'| && m'[c] == Header(r.chunks[c])
    {
      if c != First(b) {
        BlockApart(h, b, c);
      }
    }
    forall c | c in r.chunks && r.chunks[c].free
      ensures FootOk(m', r.chunks, c)
    {
      if c != First(b) {
        assert FootOk(m, h.chunks, c);
        BlockApart(h, b, c);
      }
    }
  }

  lemma BlockKeeps(m: seq<nat>, m': seq<nat>, h: Heap, b: Block)
    requires Good(h) && CanAdd(h, b) && SameOffBlock(m, m', b)
    ensures Keeps(m, m', Live(h.chunks), h.blocks + [b])
  {
    var bs := h.blocks + [b];
    assert bs[|h.blocks|] == b;
    forall i: nat | i < |m| && Shielded(Live(h.chunks), bs, i)
      ensures m'[i] == m[i]
    {
      if d :| d in Live(h.chunks) && d < i < d + Live(h.chunks)[d] {
        BlockApart(h, b, d);
      } else {
        assert !(bs[|h.blocks|].at <= i < End(bs[|h.blocks|]));
      }
    }
  }

  /** Memory after the block is formatted represents the heap with that block if and only if
      the predecessor flag was clear in the word that becomes the first chunk's header;
      either way nothing outside the block has changed. */
  lemma FreshBlockRepresents(m: seq<nat>, heads: seq<nat>, newest: nat, h: Heap, b: Block)
    requires Good(h) && CanAdd(h, b) && Represents(m, heads, newest, h, {}) && End(b) <= |m|
    ensures Represents(FreshBlock(m, newest, b), heads, b.at, WithBlock(h, b), {}) <==> !IsPredFree(m[First(b)])
    ensures Keeps(m, FreshBlock(m, newest, b), Live(h.chunks), h.blocks + [b])
  {
    hide Good, Feet, BlockLinks, FreshBlock, Keeps, Live, Header, Lists;
    FreshBlockOnlyBlock(m, newest, b);
    BlockKeeps(m, FreshBlock(m, newest, b), h, b);
    if !IsPredFree(m[First(b)]) {
      CleanBlockRepresents(m, heads, newest, h, b);
    } else {
      FreshBlockAt(m, newest, b, First(b));
      FreshHeaderWord(m[First(b)], b.words - BLOCK_HEADER_WORDS, |h.blocks|);
      assert First(b) in WithBlock(h, b).chunks && !WithBlock(h, b).chunks[First(b)].pred;
    }
  }

  lemma CleanBlockRepresents(m: seq<nat>, heads: seq<nat>, newest: nat, h: Heap, b: Block)
    requires Good(h) && CanAdd(h, b) && Represents(m, heads, newest, h, {}) && End(b) <= |m|
    requires !IsPredFree(m[First(b)])
    ensures Represents(FreshBlock(m, newest, b), heads, b.at, WithBlock(h, b), {})
  {
    hide Good, Tags, Feet, BlockLinks, FreshBlock, Keeps, Live, Header, ListOk;
    var m' := FreshBlock(m, newest, b);
    FreshBlockOnlyBlock(m, newest, b);
    FreshBlockAt(m, newest, b, First(b));
    FreshBlockAt(m, newest, b, End(b) - 1);
    FreshBlockAt(m, newest, b, b.at);
    FreshBlockAt(m, newest, b, b.at + 1);
    FreshBlockAt(m, newest, b, b.at + 2);
    FreshHeaderWord(m[First(b)], b.words - BLOCK_HEADER_WORDS, |h.blocks|);
    BlockKeepsTags(m, m', h, b, WithBlock(h, b));
    BlockKeepsBlocks(m, m', newest, h, b);
    forall i | 0 <= i < |h.bins|
      ensures ListOk(m', heads[i], h.bins[i])
    {
      BlockKeepsList(m, m', h, b, i, heads[i]);
    }
  }
}
