/** What allocate, free and addMemoryBlock do to the heap value. */
module HeapOps {
  import opened ChunkWords
  import opened BinTable
  import opened Heap
  import opened HeapBooks
  import opened HeapSteps

  // ----- allocation -----

  /** The first bin at or after i that holds a chunk of at least words words. */
  ghost function FindBin(h: Heap, i: nat, words: nat): (b: nat)
    requires Good(h) && i <= BIN_COUNT
    ensures i <= b <= BIN_COUNT
    ensures forall j, c | i <= j < b && c in h.bins[j] :: c in h.chunks && h.chunks[c].words < words
    ensures b < BIN_COUNT ==>
      && (forall c | c in h.bins[b] :: c in h.chunks)
      && FitIndex(h.chunks, h.bins[b], words) < |h.bins[b]|
    decreases BIN_COUNT - i
  {
    if i == BIN_COUNT then i
    else
      BinMembers(h, i);
      var k := FitIndex(h.chunks, h.bins[i], words);
      if k < |h.bins[i]| then i else FindBin(h, i + 1, words)
  }

  lemma BinMembers(h: Heap, i: nat)
    requires Good(h) && i < BIN_COUNT
    ensures forall c | c in h.bins[i] :: Member(h.chunks, c, i, {})
  {
    forall c | c in h.bins[i]
      ensures Member(h.chunks, c, i, {})
    {
      MemberBin(h.chunks, h.bins, {}, c, i);
    }
  }

  /** Whether allocate cuts the chunk: another smallest chunk must be left over. */
  predicate Splits(k: Chunk, words: nat) {
    CanSplit(8 * k.words, 8 * words)
  }

  lemma SplitsWhen(k: Chunk, words: nat)
    requires words % 2 == 0
    ensures Splits(k, words) <==> words + MIN_CHUNK_WORDS <= k.words
  {
  }

  /** Splits the surplus off a free chunk that is out of its bin. */
  ghost function Trim(h: Heap, c: nat, words: nat): (r: Heap)
    requires Consistent(h, {c}) && Settled(h.chunks, c, {})
    requires MIN_CHUNK_WORDS <= words <= h.chunks[c].words && words % 2 == 0
    ensures Consistent(r, {c}) && c in r.chunks && (Books(h) ==> Books(r))
    ensures words <= r.chunks[c].words < words + MIN_CHUNK_WORDS
    ensures r.chunks[c].words == if words + MIN_CHUNK_WORDS <= h.chunks[c].words then words else h.chunks[c].words
    ensures Live(r.chunks) == Live(h.chunks) && r.blocks == h.blocks && r.capacity == h.capacity
  {
    SplitsWhen(h.chunks[c], words);
    if Splits(h.chunks[c], words) then
      var r := c + words;
      var cut := SplitOff(h, c, words);
      TrimSettled(h, cut, c, words);
      assert {c, r} - {r} == {c};
      Enbin(cut, {c, r}, r)
    else h
  }

  lemma TrimSettled(h: Heap, cut: Heap, c: nat, words: nat)
    requires Consistent(h, {c}) && Settled(h.chunks, c, {})
    requires MIN_CHUNK_WORDS <= words && words + MIN_CHUNK_WORDS <= h.chunks[c].words && words % 2 == 0
    requires cut == SplitOff(h, c, words) && Consistent(cut, {c, c + words})
    ensures Settled(cut.chunks, c + words, {c, c + words} - {c + words})
  {
    var r := c + words;
    forall p: nat | FreeBefore(cut.chunks, p, r)
      ensures p == c
    {
      if p != c {
        NextInjective(cut.chunks, h.blocks, h.capacity, c, p);
      }
    }
  }

  lemma FreeIsSettled(h: Heap, c: nat)
    requires Good(h) && c in h.chunks && h.chunks[c].free
    ensures Settled(h.chunks, c, {})
  {
    assert CoalescedAt(h.chunks, c, {});
    forall p: nat
      ensures !FreeBefore(h.chunks, p, c)
    {
      assert p in h.chunks ==> CoalescedAt(h.chunks, p, {});
    }
  }

  /** Hands out the free chunk c, cut down to words words if the rest is a chunk. */
  ghost function Take(h: Heap, c: nat, words: nat): (r: Heap)
    requires Good(h) && c in h.chunks && h.chunks[c].free
    requires MIN_CHUNK_WORDS <= words <= h.chunks[c].words && words % 2 == 0
    ensures Good(r) && (Books(h) ==> Books(r))
    ensures r.blocks == h.blocks && r.capacity == h.capacity
    ensures c in r.chunks && words <= r.chunks[c].words < words + MIN_CHUNK_WORDS
    ensures r.chunks[c].words == if words + MIN_CHUNK_WORDS <= h.chunks[c].words then words else h.chunks[c].words
    ensures Live(r.chunks) == Live(h.chunks)[c := r.chunks[c].words]
  {
    FreeIsSettled(h, c);
    assert {} + {c} == {c};
    assert Consistent(h, {});
    hide *;
    MarkUsed(Trim(Unbin(h, {}, c), c, words), c)
  }

  /** What a request asks of the search, before any bin is looked at. */
  datatype Plan = Nothing | Unserved | Search(start: nat, words: nat)

  function PlanFor(userSize: nat, alignment: nat): (p: Plan)
    requires userSize < WORD_LIMIT
    ensures p.Search? ==>
      && p.start < BIN_COUNT && p.words % 2 == 0 && p.words >= MIN_CHUNK_WORDS
      && 8 * p.words >= userSize + 8 && p.start == BinIndex(8 * p.words)
  {
    ChunkSizeLeast(userSize);
    var size := ChunkSizeFor(userSize);
    if userSize == 0 then Nothing
    else if !SupportedAlignment(alignment) || size >= LARGEST_BIN then Unserved
    else SearchFor(size)
  }

  function SearchFor(size: nat): (p: Plan)
    requires size % ALIGNMENT == 0 && size >= SMALLEST_BIN
    ensures p.Search? && p.words % 2 == 0 && p.words >= MIN_CHUNK_WORDS && 8 * p.words == size
    ensures p.start == BinIndex(size)
  {
    hide BinIndex;
    Search(BinIndex(size), size / 8)
  }

  predicate SupportedAlignment(alignment: nat) { alignment in {1, 2, 4, 8, 16} }

  /** Why an allocation yields no memory, or the address of its data. */
  datatype Outcome = Empty | Refused | Full | At(data: nat)

  /** The pointer a caller of allocate sees: null unless memory was found. */
  function AddressOf(o: Outcome): nat {
    match o
    case At(d) => d
    case _ => 0
  }

  /** The chunk the search settles on: the best fit of the first bin that has one.
      0 if there is none. */
  ghost function Choose(h: Heap, start: nat, words: nat): (c: nat)
    requires Good(h) && start < BIN_COUNT
    ensures c == 0 <==> FindBin(h, start, words) == BIN_COUNT
    ensures c != 0 ==> c in h.chunks && h.chunks[c].free && words <= h.chunks[c].words
  {
    var b := FindBin(h, start, words);
    if b == BIN_COUNT then 0
    else
      BinMembers(h, b);
      var c := h.bins[b][FitIndex(h.chunks, h.bins[b], words)];
      assert Member(h.chunks, c, b, {}) && ChunkOk(h.chunks, h.blocks, c);
      c
  }

  /** Serves a chunk size from the bins at and above its own. */
  ghost function Serve(h: Heap, start: nat, words: nat): (r: (Heap, Outcome))
    requires Good(h) && start < BIN_COUNT && words % 2 == 0 && words >= MIN_CHUNK_WORDS
    ensures Good(r.0) && (Books(h) ==> Books(r.0)) && r.0.blocks == h.blocks
  {
    var c := Choose(h, start, words);
    if c == 0 then (Fail(h), Full) else (Take(h, c, words), At(c + 1))
  }

  ghost function Fail(h: Heap): (r: Heap)
    ensures r == h.(acct := r.acct) && (Books(h) ==> Books(r))
  {
    h.(acct := h.acct.(failures := h.acct.failures + 1))
  }

  ghost function Allocate(h: Heap, userSize: nat, alignment: nat): (r: (Heap, Outcome))
    requires Good(h) && userSize < WORD_LIMIT
    ensures Good(r.0) && (Books(h) ==> Books(r.0)) && r.0.blocks == h.blocks
  {
    match PlanFor(userSize, alignment)
    case Nothing => (h, Empty)
    case Unserved => (Fail(h), Refused)
    case Search(start, words) => Serve(h, start, words)
  }

  // ----- release -----

  ghost function FreePrevious(cs: map<nat, Chunk>, c: nat): (p: nat)
    requires exists p: nat :: FreeBefore(cs, p, c)
    ensures FreeBefore(cs, p, c)
  {
    var p: nat :| FreeBefore(cs, p, c);
    p
  }

  /** Joins a just freed chunk with its successor, if that is free. */
  ghost function MergeForward(h: Heap, c: nat): (r: Heap)
    requires Consistent(h, {c})
    ensures Consistent(r, {c}) && (Books(h) ==> Books(r))
    ensures Live(r.chunks) == Live(h.chunks) && r.blocks == h.blocks && r.capacity == h.capacity
    ensures !r.chunks[c].last && Next(r.chunks, c) in r.chunks ==> !r.chunks[Next(r.chunks, c)].free
  {
    hide Consistent, Books, Live;
    SuccessorFacts(h, c);
    if !h.chunks[c].last && h.chunks[Next(h.chunks, c)].free then
      var s := Next(h.chunks, c);
      MergedFacts(h, Merge(Unbin(h, {c}, s), {c, s}, c), c);
      Merge(Unbin(h, {c}, s), {c, s}, c)
    else h
  }

  /** The chunk after a pending one, and the one after that. */
  lemma SuccessorFacts(h: Heap, c: nat)
    requires Consistent(h, {c})
    ensures c in h.chunks && h.chunks[c].words > 0 && (!h.chunks[c].last ==> Next(h.chunks, c) in h.chunks)
    ensures !h.chunks[c].last ==> var s := Next(h.chunks, c);
      s != c && {c} + {s} == {c, s} && {c, s} - {s} == {c}
      && (h.chunks[s].free && !h.chunks[s].last ==> Next(h.chunks, s) in h.chunks && !h.chunks[Next(h.chunks, s)].free)
  {
    assert ChunkOk(h.chunks, h.blocks, c);
    if !h.chunks[c].last {
      var s := Next(h.chunks, c);
      assert ChunkOk(h.chunks, h.blocks, s) && CoalescedAt(h.chunks, s, {c});
    }
  }

  lemma MergedFacts(h: Heap, r: Heap, c: nat)
    requires Consistent(h, {c}) && !h.chunks[c].last && Next(h.chunks, c) in h.chunks
    requires h.chunks[Next(h.chunks, c)].free && r.chunks == MergeNext(h.chunks, c)
    ensures !r.chunks[c].last && Next(r.chunks, c) in r.chunks ==> !r.chunks[Next(r.chunks, c)].free
  {
    hide Consistent;
    SuccessorFacts(h, c);
  }

  lemma ForwardSettled(h: Heap, c: nat)
    requires Consistent(h, {c}) && !h.chunks[c].pred
    requires !h.chunks[c].last && Next(h.chunks, c) in h.chunks ==> !h.chunks[Next(h.chunks, c)].free
    ensures Settled(h.chunks, c, {})
  {
    forall p: nat
      ensures !FreeBefore(h.chunks, p, c)
    {
      assert p in h.chunks ==> ChunkOk(h.chunks, h.blocks, p);
    }
  }

  lemma BackwardSettled(h: Heap, m: Heap, p: nat, c: nat)
    requires Consistent(h, {c}) && FreeBefore(h.chunks, p, c)
    requires !h.chunks[c].last && Next(h.chunks, c) in h.chunks ==> !h.chunks[Next(h.chunks, c)].free
    requires Consistent(m, {p}) && m.chunks == MergeNext(h.chunks, p)
    ensures Settled(m.chunks, p, {})
  {
    var cs := h.chunks;
    assert ChunkOk(cs, h.blocks, p);
    forall q: nat
      ensures !FreeBefore(m.chunks, q, p)
    {
      assert q in cs ==> CoalescedAt(cs, q, {c});
    }
  }

  /** Joins a freed chunk with its free predecessor. */
  ghost function MergeBackward(h: Heap, c: nat, p: nat): (r: Heap)
    requires Consistent(h, {c}) && FreeBefore(h.chunks, p, c)
    requires !h.chunks[c].last && Next(h.chunks, c) in h.chunks ==> !h.chunks[Next(h.chunks, c)].free
    ensures Consistent(r, {p}) && Settled(r.chunks, p, {}) && (Books(h) ==> Books(r))
    ensures Live(r.chunks) == Live(h.chunks) && r.blocks == h.blocks && r.capacity == h.capacity
  {
    assert ChunkOk(h.chunks, h.blocks, p) && ChunkOk(h.chunks, h.blocks, c);
    assert {c} + {p} == {c, p} && {c, p} - {c} == {p};
    hide Consistent;
    hide Books;
    var m := Merge(Unbin(h, {c}, p), {c, p}, p);
    BackwardSettled(h, m, p, c);
    m
  }

  /** Joins a freed chunk with its predecessor, if that is free, and bins the result. */
  ghost function Settle(h: Heap, c: nat): (r: Heap)
    requires Consistent(h, {c})
    requires !h.chunks[c].last && Next(h.chunks, c) in h.chunks ==> !h.chunks[Next(h.chunks, c)].free
    ensures Good(r) && (Books(h) ==> Books(r))
    ensures Live(r.chunks) == Live(h.chunks) && r.blocks == h.blocks && r.capacity == h.capacity
  {
    assert ChunkOk(h.chunks, h.blocks, c);
    hide Consistent;
    hide Books;
    if h.chunks[c].pred then
      var p := FreePrevious(h.chunks, c);
      assert {p} - {p} == {};
      Enbin(MergeBackward(h, c, p), {p}, p)
    else
      ForwardSettled(h, c);
      assert {c} - {c} == {};
      Enbin(h, {c}, c)
  }

  ghost function Release(h: Heap, c: nat): (r: Heap)
    requires Good(h) && c in h.chunks && !h.chunks[c].free
    ensures Good(r) && (Books(h) ==> Books(r))
    ensures Live(r.chunks) == Live(h.chunks) - {c} && r.blocks == h.blocks && r.capacity == h.capacity
  {
    Settle(MergeForward(MarkFree(h, c), c), c)
  }

  /** free ignores null and chunks that are free already. */
  ghost function Free(h: Heap, data: nat): (r: Heap)
    requires Good(h) && (data == 0 || data - 1 in h.chunks)
    ensures Good(r) && (Books(h) ==> Books(r)) && r.blocks == h.blocks
  {
    if data == 0 || h.chunks[data - 1].free then h else Release(h, data - 1)
  }

  // ----- new blocks -----

  /** The block fits in memory, holds a smallest chunk and overlaps no other block. */
  ghost predicate CanAdd(h: Heap, b: Block) {
    && 1 <= b.at && BLOCK_HEADER_WORDS + MIN_CHUNK_WORDS <= b.words && End(b) <= h.capacity
    && forall i | 0 <= i < |h.blocks| :: Disjoint(h.blocks[i], b)
  }

  /** The heap with the new block's one chunk, not binned yet. */
  ghost function WithBlock(h: Heap, b: Block): (r: Heap)
    requires Good(h) && CanAdd(h, b)
    ensures First(b) !in h.chunks && Consistent(r, {First(b)}) && (Books(h) ==> Books(r))
    ensures Live(r.chunks) == Live(h.chunks) && r.blocks == h.blocks + [b] && r.capacity == h.capacity
  {
    var chunk := Chunk(b.words - BLOCK_HEADER_WORDS, true, false, true, |h.blocks|);
    var r := h.(
      chunks := h.chunks[First(b) := chunk],
      blocks := h.blocks + [b],
      acct := h.acct.(blocks := h.acct.blocks + 1, totalSize := h.acct.totalSize + 8 * b.words,
                      overheadSize := h.acct.overheadSize + 8 * BLOCK_HEADER_WORDS));
    hide Consistent, Books, Live;
    WithBlockConsistent(h, b, r);
    WithBlockBooks(h, b, r);
    r
  }

  lemma WithBlockBooks(h: Heap, b: Block, r: Heap)
    requires First(b) !in h.chunks && b.words >= BLOCK_HEADER_WORDS
    requires r == h.(
      chunks := h.chunks[First(b) := Chunk(b.words - BLOCK_HEADER_WORDS, true, false, true, |h.blocks|)],
      blocks := h.blocks + [b],
      acct := h.acct.(blocks := h.acct.blocks + 1, totalSize := h.acct.totalSize + 8 * b.words,
                      overheadSize := h.acct.overheadSize + 8 * BLOCK_HEADER_WORDS))
    ensures (Books(h) ==> Books(r)) && Live(r.chunks) == Live(h.chunks)
  {
    hide Sum;
    var chunk := r.chunks[First(b)];
    SumUpdate(h.chunks, Length, First(b), chunk);
    SumUpdate(h.chunks, LiveLength, First(b), chunk);
    SumUpdate(h.chunks, LiveOne, First(b), chunk);
    assert r.chunks.Keys == h.chunks.Keys + {First(b)};
  }

  lemma BlockApart(h: Heap, b: Block, c: nat)
    requires Good(h) && CanAdd(h, b) && c in h.chunks
    ensures ChunkOk(h.chunks, h.blocks, c)
    ensures c + h.chunks[c].words <= b.at || End(b) <= c
  {
    assert ChunkOk(h.chunks, h.blocks, c);
    assert Disjoint(h.blocks[h.chunks[c].block], b);
  }

  lemma WithBlockTiled(h: Heap, b: Block, r: Heap)
    requires Good(h) && CanAdd(h, b)
    requires r.capacity == h.capacity && r.blocks == h.blocks + [b]
    requires r.chunks == h.chunks[First(b) :=
      Chunk(b.words - BLOCK_HEADER_WORDS, true, false, true, |h.blocks|)]
    ensures First(b) !in h.chunks && Tiled(r.chunks, r.blocks, r.capacity)
  {
    if First(b) in h.chunks {
      BlockApart(h, b, First(b));
    }
    forall c | c in r.chunks
      ensures ChunkOk(r.chunks, r.blocks, c)
    {
      if c in h.chunks {
        BlockApart(h, b, c);
        if h.chunks[c].pred {
          var p: nat :| FreeBefore(h.chunks, p, c);
          assert FreeBefore(r.chunks, p, c);
        }
      }
    }
    forall c, d | c in r.chunks && d in r.chunks && c < d
      ensures Apart(r.chunks, c, d)
    {
      if c in h.chunks && d in h.chunks {
        assert Apart(h.chunks, c, d);
      } else {
        BlockApart(h, b, if c in h.chunks then c else d);
      }
    }
  }

  lemma WithBlockConsistent(h: Heap, b: Block, r: Heap)
    requires Good(h) && CanAdd(h, b)
    requires r.capacity == h.capacity && r.blocks == h.blocks + [b] && r.bins == h.bins
    requires r.chunks == h.chunks[First(b) :=
      Chunk(b.words - BLOCK_HEADER_WORDS, true, false, true, |h.blocks|)]
    ensures First(b) !in h.chunks && Consistent(r, {First(b)})
    ensures Settled(r.chunks, First(b), {})
  {
    WithBlockTiled(h, b, r);
    BinnedFrame(h.chunks, r.chunks, h.bins, {}, {First(b)});
    forall c | c in r.chunks
      ensures CoalescedAt(r.chunks, c, {First(b)})
    {
      if c in h.chunks {
        assert CoalescedAt(h.chunks, c, {});
      }
    }
    forall p: nat
      ensures !FreeBefore(r.chunks, p, First(b))
    {
      if p in h.chunks {
        BlockApart(h, b, p);
      }
    }
  }

  ghost function AddBlock(h: Heap, b: Block): (r: Heap)
    requires Good(h) && CanAdd(h, b)
    ensures Good(r) && (Books(h) ==> Books(r))
    ensures Live(r.chunks) == Live(h.chunks) && r.blocks == h.blocks + [b] && r.capacity == h.capacity
  {
    var w := WithBlock(h, b);
    WithBlockConsistent(h, b, w);
    assert {First(b)} - {First(b)} == {};
    Enbin(w, {First(b)}, First(b))
  }
}
