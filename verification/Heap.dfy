/** The heap as a value: which chunks tile which blocks, and which bin holds which
    free chunk.  Addresses are word indices and chunk lengths count words. */
module Heap {
  import opened ChunkWords
  import opened BinTable

  /** A memory block given to the arena, its three header words included. */
  datatype Block = Block(at: nat, words: nat)

  function First(b: Block): nat { b.at + BLOCK_HEADER_WORDS }

  function End(b: Block): nat { b.at + b.words }

  /** The counters the arena keeps and the conservation laws speak about. */
  datatype Accounting = Accounting(
    allocations: int, failures: int, frees: int,
    blocks: int, chunksAllocated: int, splits: int, merges: int,
    totalSize: int, allocatedSize: int, overheadSize: int)

  datatype Heap = Heap(
    capacity: nat,
    chunks: map<nat, Chunk>,
    blocks: seq<Block>,
    bins: seq<seq<nat>>,
    acct: Accounting)

  // ----- tiling -----

  function Next(cs: map<nat, Chunk>, c: nat): nat
    requires c in cs
  {
    c + cs[c].words
  }

  /** p is a free chunk that ends where d begins. */
  predicate FreeBefore(cs: map<nat, Chunk>, p: nat, d: nat) {
    p in cs && cs[p].free && !cs[p].last && p + cs[p].words == d
  }

  /** What holds of every single chunk: it lies in its block, the last flag marks the
      end of the block, its successor knows whether it is free, and its own such flag
      is right. */
  ghost predicate ChunkOk(cs: map<nat, Chunk>, bs: seq<Block>, c: nat)
    requires c in cs
  {
    var k := cs[c];
    && MIN_CHUNK_WORDS <= k.words && k.block < |bs|
    && First(bs[k.block]) <= c && c + k.words <= End(bs[k.block])
    && (c - First(bs[k.block])) % 2 == 0
    && (k.last <==> c + k.words == End(bs[k.block]))
    && (!k.last ==> Next(cs, c) in cs && cs[Next(cs, c)].pred == k.free)
    && (k.pred ==> exists p: nat :: FreeBefore(cs, p, c))
  }

  predicate Apart(cs: map<nat, Chunk>, c: nat, d: nat)
    requires c in cs
  {
    c + cs[c].words <= d
  }

  predicate Disjoint(a: Block, b: Block) { End(a) <= b.at || End(b) <= a.at }

  ghost predicate BlocksOk(bs: seq<Block>, capacity: nat) {
    && (forall i | 0 <= i < |bs| ::
          1 <= bs[i].at && BLOCK_HEADER_WORDS + MIN_CHUNK_WORDS <= bs[i].words && End(bs[i]) <= capacity)
    && (forall i, j | 0 <= i < j < |bs| :: Disjoint(bs[i], bs[j]))
  }

  ghost predicate Tiled(cs: map<nat, Chunk>, bs: seq<Block>, capacity: nat) {
    && BlocksOk(bs, capacity)
    && (forall i | 0 <= i < |bs| :: First(bs[i]) in cs)
    && (forall c {:trigger ChunkOk(cs, bs, c)} | c in cs :: ChunkOk(cs, bs, c))
    && (forall c, d {:trigger Apart(cs, c, d)} | c in cs && d in cs && c < d :: Apart(cs, c, d))
  }

  // ----- coalescing -----

  /** No two neighbours are both free, unless one of them is being worked on. */
  predicate CoalescedAt(cs: map<nat, Chunk>, c: nat, pending: set<nat>)
    requires c in cs
  {
    !cs[c].last && Next(cs, c) in cs && cs[c].free && cs[Next(cs, c)].free
    ==> c in pending || Next(cs, c) in pending
  }

  ghost predicate Coalesced(cs: map<nat, Chunk>, pending: set<nat>) {
    forall c {:trigger CoalescedAt(cs, c, pending)} | c in cs :: CoalescedAt(cs, c, pending)
  }

  // ----- bins -----

  function BinFor(cs: map<nat, Chunk>, c: nat): (i: nat)
    requires c in cs
    ensures i < BIN_COUNT
  {
    BinIndex(8 * cs[c].words)
  }

  predicate Member(cs: map<nat, Chunk>, c: nat, i: nat, pending: set<nat>) {
    c in cs && cs[c].free && c !in pending && BinFor(cs, c) == i
  }

  ghost predicate BinOk(cs: map<nat, Chunk>, l: seq<nat>, i: nat, pending: set<nat>) {
    && (forall k | 0 <= k < |l| :: Member(cs, l[k], i, pending))
    && (forall j, k | 0 <= j < k < |l| :: l[j] != l[k] && cs[l[j]].words <= cs[l[k]].words)
  }

  ghost predicate Binned(cs: map<nat, Chunk>, bins: seq<seq<nat>>, pending: set<nat>) {
    && |bins| == BIN_COUNT
    && (forall i | 0 <= i < BIN_COUNT :: BinOk(cs, bins[i], i, pending))
    && (forall c | c in cs && cs[c].free && c !in pending :: c in bins[BinFor(cs, c)])
  }

  /** Everything that holds while the chunks in pending are out of their bins. */
  ghost predicate Consistent(h: Heap, pending: set<nat>) {
    && Tiled(h.chunks, h.blocks, h.capacity)
    && Coalesced(h.chunks, pending)
    && Binned(h.chunks, h.bins, pending)
    && (forall c | c in pending :: c in h.chunks && h.chunks[c].free)
  }

  // ----- operations on the chunk map -----

  /** Marks c free or not, and tells its successor. */
  function SetFree(cs: map<nat, Chunk>, c: nat, free: bool): map<nat, Chunk>
    requires c in cs && (!cs[c].last ==> Next(cs, c) in cs)
  {
    var marked := cs[c := cs[c].(free := free)];
    if cs[c].last then marked else marked[Next(cs, c) := marked[Next(cs, c)].(pred := free)]
  }

  /** c takes over the words and the last flag of its successor. */
  function MergeNext(cs: map<nat, Chunk>, c: nat): map<nat, Chunk>
    requires c in cs && Next(cs, c) in cs
  {
    var s := cs[Next(cs, c)];
    (cs - {Next(cs, c)})[c := cs[c].(words := cs[c].words + s.words, last := s.last)]
  }

  /** c keeps its first words words; the rest becomes a free chunk. */
  function Split(cs: map<nat, Chunk>, c: nat, words: nat): map<nat, Chunk>
    requires c in cs && words <= cs[c].words
  {
    var k := cs[c];
    cs[c := k.(words := words, last := false)]
      [c + words := Chunk(k.words - words, true, k.free, k.last, k.block)]
  }

  // ----- the steps keep the tiling -----

  /** Words inside a chunk are not headers of other chunks. */
  lemma NoHeaderInside(cs: map<nat, Chunk>, bs: seq<Block>, capacity: nat, c: nat, i: nat)
    requires Tiled(cs, bs, capacity) && c in cs && c < i < c + cs[c].words
    ensures i !in cs
  {
    assert i in cs ==> Apart(cs, c, i);
  }

  /** Different chunks have different successors. */
  lemma NextInjective(cs: map<nat, Chunk>, bs: seq<Block>, capacity: nat, c: nat, d: nat)
    requires Tiled(cs, bs, capacity) && c in cs && d in cs && c != d
    ensures Next(cs, c) != Next(cs, d)
  {
    assert ChunkOk(cs, bs, c) && ChunkOk(cs, bs, d);
    assert if c < d then Apart(cs, c, d) else Apart(cs, d, c);
  }

  lemma SameBlock(bs: seq<Block>, capacity: nat, i: nat, j: nat, a: nat)
    requires BlocksOk(bs, capacity) && i < |bs| && j < |bs|
    requires bs[i].at <= a < End(bs[i]) && bs[j].at <= a < End(bs[j])
    ensures i == j
  {
    assert i < j ==> Disjoint(bs[i], bs[j]);
    assert j < i ==> Disjoint(bs[j], bs[i]);
  }

  /** The successor of a chunk lies in the same block. */
  lemma NextInBlock(cs: map<nat, Chunk>, bs: seq<Block>, capacity: nat, c: nat)
    requires Tiled(cs, bs, capacity) && c in cs && !cs[c].last
    ensures Next(cs, c) in cs && cs[Next(cs, c)].block == cs[c].block
  {
    assert ChunkOk(cs, bs, c);
    var s := Next(cs, c);
    assert ChunkOk(cs, bs, s);
    SameBlock(bs, capacity, cs[c].block, cs[s].block, s);
  }

  lemma SetFreeChunk(cs: map<nat, Chunk>, bs: seq<Block>, capacity: nat, c: nat, free: bool, d: nat)
    requires Tiled(cs, bs, capacity) && c in cs && ChunkOk(cs, bs, c) && d in cs
    ensures ChunkOk(SetFree(cs, c, free), bs, d)
  {
    var ds := SetFree(cs, c, free);
    assert ChunkOk(cs, bs, d);
    if d != c {
      NextInjective(cs, bs, capacity, c, d);
    }
    if cs[d].pred {
      var p: nat :| FreeBefore(cs, p, d);
      assert ds[d].pred ==> FreeBefore(ds, p, d);
    } else {
      assert ds[d].pred ==> FreeBefore(ds, c, d);
    }
  }

  lemma SetFreeTiled(cs: map<nat, Chunk>, bs: seq<Block>, capacity: nat, c: nat, free: bool)
    requires Tiled(cs, bs, capacity) && c in cs
    ensures ChunkOk(cs, bs, c) && Tiled(SetFree(cs, c, free), bs, capacity)
  {
    hide ChunkOk, SetFree, BlocksOk;
    assert ChunkOk(cs, bs, c);
    SetFreeShape(cs, bs, c, free);
    var ds := SetFree(cs, c, free);
    forall d | d in ds
      ensures ChunkOk(ds, bs, d)
    {
      SetFreeChunk(cs, bs, capacity, c, free, d);
    }
    forall d, e | d in ds && e in ds && d < e
      ensures Apart(ds, d, e)
    {
      assert Apart(cs, d, e);
    }
  }

  lemma SetFreeShape(cs: map<nat, Chunk>, bs: seq<Block>, c: nat, free: bool)
    requires c in cs && ChunkOk(cs, bs, c)
    ensures !cs[c].last ==> Next(cs, c) in cs
    ensures var ds := SetFree(cs, c, free); ds.Keys == cs.Keys && forall d | d in cs :: ds[d].words == cs[d].words
  {
  }

  lemma MergeChunk(cs: map<nat, Chunk>, bs: seq<Block>, capacity: nat, c: nat, d: nat)
    requires Tiled(cs, bs, capacity) && c in cs && !cs[c].last && cs[c].free
    requires ChunkOk(cs, bs, c) && cs[Next(cs, c)].free
    requires d in cs && d != Next(cs, c)
    ensures ChunkOk(MergeNext(cs, c), bs, d)
  {
    var s := Next(cs, c);
    NextInBlock(cs, bs, capacity, c);
    assert ChunkOk(cs, bs, s) && ChunkOk(cs, bs, d);
    var ds := MergeNext(cs, c);
    if d != c {
      NextInjective(cs, bs, capacity, c, d);
    }
    if cs[d].pred {
      var p: nat :| FreeBefore(cs, p, d);
      assert FreeBefore(ds, if p == s then c else p, d);
    }
  }

  lemma MergeApart(cs: map<nat, Chunk>, bs: seq<Block>, capacity: nat, c: nat, d: nat, e: nat)
    requires Tiled(cs, bs, capacity) && c in cs && !cs[c].last && Next(cs, c) in cs
    requires d in cs && e in cs && d < e && d != Next(cs, c) && e != Next(cs, c)
    ensures Apart(MergeNext(cs, c), d, e)
  {
    var s := Next(cs, c);
    assert Apart(cs, d, e);
    if d == c {
      assert Apart(cs, s, e);
    }
  }

  /** A successor never is the first chunk of a block. */
  lemma NextNotFirst(cs: map<nat, Chunk>, bs: seq<Block>, capacity: nat, c: nat, i: nat)
    requires Tiled(cs, bs, capacity) && c in cs && !cs[c].last && i < |bs|
    ensures First(bs[i]) != Next(cs, c)
  {
    NextInBlock(cs, bs, capacity, c);
    assert ChunkOk(cs, bs, c);
    assert ChunkOk(cs, bs, Next(cs, c));
    if First(bs[i]) == Next(cs, c) {
      SameBlock(bs, capacity, cs[c].block, i, Next(cs, c));
    }
  }

  lemma MergeTiled(cs: map<nat, Chunk>, bs: seq<Block>, capacity: nat, c: nat)
    requires Tiled(cs, bs, capacity) && c in cs && !cs[c].last && cs[c].free
    requires ChunkOk(cs, bs, c) && cs[Next(cs, c)].free
    ensures Tiled(MergeNext(cs, c), bs, capacity)
  {
    var s := Next(cs, c);
    var ds := MergeNext(cs, c);
    assert ds.Keys == cs.Keys - {s};
    forall d | d in ds
      ensures ChunkOk(ds, bs, d)
    {
      MergeChunk(cs, bs, capacity, c, d);
    }
    forall d, e | d in ds && e in ds && d < e
      ensures Apart(ds, d, e)
    {
      MergeApart(cs, bs, capacity, c, d, e);
    }
    forall i | 0 <= i < |bs|
      ensures First(bs[i]) in ds
    {
      NextNotFirst(cs, bs, capacity, c, i);
    }
  }

  lemma SplitChunk(cs: map<nat, Chunk>, bs: seq<Block>, capacity: nat, c: nat, words: nat, d: nat)
    requires Tiled(cs, bs, capacity) && c in cs && cs[c].free
    requires MIN_CHUNK_WORDS <= words && words + MIN_CHUNK_WORDS <= cs[c].words && words % 2 == 0
    requires ChunkOk(cs, bs, c) && c + words !in cs && d in cs
    ensures ChunkOk(Split(cs, c, words), bs, d)
  {
    var r := c + words;
    var ds := Split(cs, c, words);
    assert ChunkOk(cs, bs, d);
    if cs[d].pred {
      var p: nat :| FreeBefore(cs, p, d);
      assert FreeBefore(ds, if p == c then r else p, d);
    }
  }

  lemma SplitApart(cs: map<nat, Chunk>, bs: seq<Block>, capacity: nat, c: nat, words: nat, d: nat, e: nat)
    requires Tiled(cs, bs, capacity) && c in cs
    requires 0 < words < cs[c].words && c + words !in cs
    requires d in Split(cs, c, words) && e in Split(cs, c, words) && d < e
    ensures Apart(Split(cs, c, words), d, e)
  {
    var r := c + words;
    if d == r {
      assert Apart(cs, c, e);
    } else if e == r {
      assert c < d ==> Apart(cs, c, d);
      assert d < c ==> Apart(cs, d, c);
    } else {
      assert Apart(cs, d, e);
    }
  }

  lemma SplitTiled(cs: map<nat, Chunk>, bs: seq<Block>, capacity: nat, c: nat, words: nat)
    requires Tiled(cs, bs, capacity) && c in cs && cs[c].free
    requires MIN_CHUNK_WORDS <= words && words + MIN_CHUNK_WORDS <= cs[c].words && words % 2 == 0
    ensures c + words !in cs && Tiled(Split(cs, c, words), bs, capacity)
  {
    assert ChunkOk(cs, bs, c);
    var r := c + words;
    NoHeaderInside(cs, bs, capacity, c, r);
    var ds := Split(cs, c, words);
    assert ds.Keys == cs.Keys + {r};
    forall d | d in ds
      ensures ChunkOk(ds, bs, d)
    {
      if d == r {
        assert FreeBefore(ds, c, r);
      } else {
        SplitChunk(cs, bs, capacity, c, words, d);
      }
    }
    forall d, e | d in ds && e in ds && d < e
      ensures Apart(ds, d, e)
    {
      SplitApart(cs, bs, capacity, c, words, d, e);
    }
  }
}
