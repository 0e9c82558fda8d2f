/** The arena: bins, block list, counters and the memory they describe. */
module ClassicArena {
  import opened ChunkWords
  import opened BinTable
  import opened Heap
  import opened HeapBooks
  import opened HeapSteps
  import opened HeapOps
  import opened HeapMemory
  import opened ChunkOps
  import opened ChunkSplit
  import opened ListOps
  import opened ChunkMethods
  import opened BlockOps

  class Arena {
    const mem: array<nat>
    const bins: array<nat>
    const chunkCounts: array<nat>
    var newestBlock: nat
    var accounting: Accounting
    ghost var heap: Heap

    /** The fields represent heap, while the chunks in pending are out of their bins and
        those in unfooted lack a footer. */
    ghost predicate Shape(pending: set<nat>, unfooted: set<nat>)
      reads this, mem, bins, chunkCounts
    {
      && mem != bins && mem != chunkCounts && bins != chunkCounts
      && bins.Length == BIN_COUNT && chunkCounts.Length == BIN_COUNT && 8 * mem.Length < WORD_LIMIT
      && Consistent(heap, pending)
      && Represents(mem[..], bins[..], newestBlock, heap, unfooted)
      && accounting == heap.acct
      && (forall i | 0 <= i < BIN_COUNT :: chunkCounts[i] == |heap.bins[i]|)
    }

    ghost predicate Valid()
      reads this, mem, bins, chunkCounts
    {
      Shape({}, {}) && Books(heap)
    }

    constructor (memory: array<nat>)
      requires 8 * memory.Length < WORD_LIMIT
      ensures Valid() && mem == memory && fresh(bins) && fresh(chunkCounts)
      ensures heap.chunks == map[] && heap.blocks == [] && mem[..] == old(memory[..])
    {
      mem := memory;
      bins := new nat[BIN_COUNT](_ => 0);
      chunkCounts := new nat[BIN_COUNT](_ => 0);
      newestBlock := 0;
      accounting := Accounting(0, 0, 0, 0, 0, 0, 0, 0, 0, 0);
      heap := Heap(memory.Length, map[], [], seq(BIN_COUNT, _ => []), Accounting(0, 0, 0, 0, 0, 0, 0, 0, 0, 0));
    }

    // ----- bins -----

    method RemoveChunkFromBin(c: nat, ghost pending: set<nat>, ghost unfooted: set<nat>)
      requires Shape(pending, unfooted) && c in heap.chunks && heap.chunks[c].free && c !in pending
      modifies this`heap, mem, bins, chunkCounts
      ensures Shape(pending + {c}, unfooted) && heap == Unbin(old(heap), pending, c)
      ensures Keeps(old(mem[..]), mem[..], Live(old(heap).chunks), old(heap).blocks)
    {
      hide Consistent, ChunkOk, Tags, Feet, Lists, BlockLinks, Keeps, Live, UnlinkWords, UnlinkHead, BinIndex, Header;
      HeadersPresent(mem[..], heap, pending, c);
      UnlinkRepresents(mem[..], bins[..], newestBlock, heap, pending, unfooted, c);
      var i := BinIndex(SizeBytes(mem[c]));
      assert i == BinFor(heap.chunks, c);
      UnlinkFromList(mem, bins, i, c);
      UnbinSizes(heap, pending, c);
      heap := Unbin(heap, pending, c);
      chunkCounts[i] := chunkCounts[i] - 1;
    }

    /** Where the list of c's bin stands in memory, for the walk over it. */
    lemma BinInMemory(pending: set<nat>, unfooted: set<nat>, i: nat)
      requires Shape(pending, unfooted) && i < BIN_COUNT
      ensures i < |heap.bins| && ListOk(mem[..], bins[i], heap.bins[i])
      ensures Headed(mem[..], heap.chunks, heap.bins[i]) && Spread(heap.bins[i])
    {
      BinSpread(heap, pending, i);
      forall j: nat | j < |heap.bins[i]|
        ensures heap.bins[i][j] in heap.chunks
      {
        MemberBin(heap.chunks, heap.bins, pending, heap.bins[i][j], i);
      }
    }

    lemma PendingAway(pending: set<nat>, unfooted: set<nat>, c: nat, i: nat)
      requires Shape(pending, unfooted) && i < BIN_COUNT && c in pending
      ensures c in heap.chunks && c + 2 < mem.Length && mem[c] == Header(heap.chunks[c])
      ensures Away(heap.bins[i], c)
    {
      assert ChunkOk(heap.chunks, heap.blocks, c);
      forall j: nat | j < |heap.bins[i]|
        ensures heap.bins[i][j] + 4 <= c || c + 4 <= heap.bins[i][j]
      {
        MemberBin(heap.chunks, heap.bins, pending, heap.bins[i][j], i);
        ChunksSpread(heap, pending, heap.bins[i][j], c);
      }
    }

    method AddFreeChunk(c: nat, ghost pending: set<nat>, ghost unfooted: set<nat>)
      requires Shape(pending, unfooted) && c in pending
      requires c in heap.chunks && Settled(heap.chunks, c, pending - {c})
      modifies this`heap, mem, bins, chunkCounts
      ensures Shape(pending - {c}, unfooted) && heap == Enbin(old(heap), pending, c)
      ensures Keeps(old(mem[..]), mem[..], Live(old(heap).chunks), old(heap).blocks)
    {
      hide Consistent, ChunkOk, Tags, Feet, Lists, BlockLinks, Keeps, Live, LinkWords, LinkHead, BinIndex,
        Header, Settled, ListOk, Headed, Spread, Away;
      HeadersPresent(mem[..], heap, pending, c);
      var i := BinIndex(SizeBytes(mem[c]));
      assert i == BinFor(heap.chunks, c);
      BinInMemory(pending, unfooted, i);
      PendingAway(pending, unfooted, c, i);
      ghost var m, heads, h := mem[..], bins[..], heap;
      ghost var p := LinkIntoSortedList(mem, bins, i, c, heap.chunks, heap.bins[i]);
      assert PlacedAfter(h, c, i, p);
      LinkRepresents(m, heads, newestBlock, h, pending, unfooted, c, i, p);
      EnbinSizes(h, pending, c);
      heap := Enbin(h, pending, c);
      chunkCounts[i] := chunkCounts[i] + 1;
    }

    // ----- allocation -----

    /** The bin scan. */
    method Search(start: nat, words: nat) returns (chunk: nat)
      requires Valid() && start < BIN_COUNT
      ensures chunk == Choose(heap, start, words)
    {
      hide Consistent, Books, Represents, BinIndex, ListOk, Headed, Spread, FindBin, Choose, FitIndex;
      chunk := 0;
      var index := start;
      while index < BIN_COUNT
        invariant start <= index <= BIN_COUNT
        invariant FindBin(heap, start, words) == FindBin(heap, index, words)
      {
        BinInMemory({}, {}, index);
        chunk := BestFitInList(mem, bins[index], words, heap.chunks, heap.bins[index]);
        BinDecides(heap, index, words, chunk);
        if chunk != 0 {
          ChoiceIs(heap, start, words);
          return;
        }
        index := index + 1;
      }
      ChoiceIs(heap, start, words);
    }

    /** Splits the surplus off a chunk that is about to be handed out. */
    method TrimChunk(c: nat, words: nat)
      requires Shape({c}, {}) && c in heap.chunks && Settled(heap.chunks, c, {})
      requires MIN_CHUNK_WORDS <= words <= heap.chunks[c].words && words % 2 == 0
      modifies this`heap, this`accounting, mem, bins, chunkCounts
      ensures Shape({c}, {}) && heap == Trim(old(heap), c, words)
      ensures Keeps(old(mem[..]), mem[..], Live(old(heap).chunks), old(heap).blocks)
    {
      hide Consistent, ChunkOk, Tags, Feet, Lists, BlockLinks, Keeps, Live, Header, Settled, CanSplit,
        SplitWords, CanCut;
      HeadersPresent(mem[..], heap, {c}, c);
      SplitsWhen(heap.chunks[c], words);
      if CanSplit(SizeBytes(mem[c]), 8 * words) {
        ghost var m, h := mem[..], heap;
        SplitRepresents(m, bins[..], newestBlock, h, c, words);
        SplitConsistent(h, c, words);
        var rest := SplitInPlace(mem, c, words);
        heap := SplitOff(h, c, words);
        accounting := accounting.(splits := accounting.splits + 1, overheadSize := accounting.overheadSize + 8);
        TrimSettled(h, heap, c, words);
        ghost var m' := mem[..];
        assert {c, rest} - {rest} == {c};
        AddFreeChunk(rest, {c, rest}, {});
        KeepsTransitive(m, m', mem[..], Live(h.chunks), h.blocks);
      } else {
        KeepsReflexive(mem[..], Live(heap.chunks), heap.blocks);
      }
    }

    /** allocate: the data address and data size in bytes, or nothing. */
    method Allocate(userSize: nat, alignment: nat) returns (data: nat, size: nat)
      requires Valid() && userSize < WORD_LIMIT
      modifies this`heap, this`accounting, mem, bins, chunkCounts
      ensures Valid() && heap == HeapOps.Allocate(old(heap), userSize, alignment).0
      ensures data == AddressOf(HeapOps.Allocate(old(heap), userSize, alignment).1)
      ensures data == 0 ==> size == 0
      ensures data != 0 ==> data - 1 in heap.chunks && size == 8 * heap.chunks[data - 1].words - 8
      ensures Keeps(old(mem[..]), mem[..], Live(old(heap).chunks), old(heap).blocks)
    {
      hide Consistent, Represents, BinIndex, ChunkSizeFor, Keeps, Live, Books;
      KeepsReflexive(mem[..], Live(heap.chunks), heap.blocks);
      data, size := 0, 0;
      if userSize == 0 {
        return;
      }
      if !SupportedAlignment(alignment) {
        RecordFailure();
        return;
      }
      var chunkSize := ChunkSizeFor(userSize);
      if chunkSize >= LARGEST_BIN {
        RecordFailure();
        return;
      }
      ChunkSizeLeast(userSize);
      var chunk := Search(BinIndex(chunkSize), chunkSize / 8);
      if chunk == 0 {
        RecordFailure();
        return;
      }
      size := TakeChunk(chunk, chunkSize / 8);
      data := chunk + 1;
    }

    method RecordFailure()
      requires Valid()
      modifies this`heap, this`accounting
      ensures Valid() && heap == Fail(old(heap))
    {
      accounting := accounting.(failures := accounting.failures + 1);
      heap := Fail(heap);
    }

    /** Unbins a chunk, trims it and marks it as in use. */
    method TakeChunk(c: nat, words: nat) returns (size: nat)
      requires Valid() && c in heap.chunks && heap.chunks[c].free
      requires MIN_CHUNK_WORDS <= words <= heap.chunks[c].words && words % 2 == 0
      modifies this`heap, this`accounting, mem, bins, chunkCounts
      ensures Valid() && heap == Take(old(heap), c, words)
      ensures size == 8 * heap.chunks[c].words - 8
      ensures Keeps(old(mem[..]), mem[..], Live(old(heap).chunks), old(heap).blocks)
    {
      hide Consistent, ChunkOk, Tags, Feet, Lists, BlockLinks, Keeps, Live, Header, Settled, MarkWords, Books, BinFor;
      ghost var m0, h0 := mem[..], heap;
      FreeIsSettled(heap, c);
      assert {} + {c} == {c};
      RemoveChunkFromBin(c, {}, {});
      ghost var m1 := mem[..];
      TrimChunk(c, words);
      ghost var m2, h2 := mem[..], heap;
      HeadersPresent(m2, h2, {c}, c);
      MarkUsedRepresents(m2, bins[..], newestBlock, h2, c);
      size := SizeBytes(mem[c]) - 8;
      accounting := accounting.(allocations := accounting.allocations + 1,
                                chunksAllocated := accounting.chunksAllocated + 1,
                                allocatedSize := accounting.allocatedSize + SizeBytes(mem[c]));
      Mark(mem, c, false);
      heap := MarkUsed(h2, c);
      KeepsTransitive(m0, m1, m2, Live(h0.chunks), h0.blocks);
      KeepsTransitive(m0, m2, mem[..], Live(h0.chunks), h0.blocks);
    }

    // ----- release -----

    method Free(data: nat)
      requires Valid() && (data == 0 || data - 1 in heap.chunks)
      modifies this`heap, this`accounting, mem, bins, chunkCounts
      ensures Valid() && heap == HeapOps.Free(old(heap), data)
      ensures Keeps(old(mem[..]), mem[..], Live(heap.chunks), old(heap).blocks)
    {
      hide Consistent, Tags, Feet, Lists, BlockLinks, Keeps, Live, Books, Header;
      KeepsReflexive(mem[..], Live(heap.chunks), heap.blocks);
      if data == 0 {
        return;
      }
      var c := data - 1;
      HeadersPresent(mem[..], heap, {}, c);
      if IsFree(mem[c]) {
        return;
      }
      ReleaseChunk(c);
    }

    method ReleaseChunk(c: nat)
      requires Valid() && c in heap.chunks && !heap.chunks[c].free
      modifies this`heap, this`accounting, mem, bins, chunkCounts
      ensures Valid() && heap == Release(old(heap), c)
      ensures Keeps(old(mem[..]), mem[..], Live(heap.chunks), old(heap).blocks)
    {
      hide Consistent, ChunkOk, Tags, Feet, Lists, BlockLinks, Keeps, Live, Header, Settled, MarkWords, Books;
      ghost var m0, h0 := mem[..], heap;
      HeadersPresent(m0, h0, {}, c);
      MarkFreeRepresents(m0, bins[..], newestBlock, h0, c);
      accounting := accounting.(frees := accounting.frees + 1,
                                chunksAllocated := accounting.chunksAllocated - 1,
                                allocatedSize := accounting.allocatedSize - SizeBytes(mem[c]));
      Mark(mem, c, true);
      heap := MarkFree(h0, c);
      ghost var m1, live := mem[..], Live(heap.chunks);
      JoinForward(c);
      ghost var m2 := mem[..];
      var f := JoinBackward(c);
      ghost var m3 := mem[..];
      FinishFree(f);
      KeepsTransitive(m0, m1, m2, live, h0.blocks);
      KeepsTransitive(m0, m2, m3, live, h0.blocks);
      KeepsTransitive(m0, m3, mem[..], live, h0.blocks);
    }

    /** If the successor is free it is unbinned and merged. */
    method JoinForward(c: nat)
      requires Shape({c}, {c})
      modifies this`heap, this`accounting, mem, bins, chunkCounts
      ensures Shape({c}, {c}) && heap == MergeForward(old(heap), c)
      ensures Keeps(old(mem[..]), mem[..], Live(old(heap).chunks), old(heap).blocks)
    {
      hide Consistent, Tags, Feet, Lists, BlockLinks, Keeps, Live, Header, Books, MergeWords, BinFor;
      PendingPresent({c}, {c}, c);
      HeadersPresent(mem[..], heap, {c}, c);
      KeepsReflexive(mem[..], Live(heap.chunks), heap.blocks);
      if !IsLast(mem[c]) && IsFree(mem[c + WordCount(mem[c])]) {
        var s := c + WordCount(mem[c]);
        ghost var m0 := mem[..];
        assert {c} + {s} == {c, s} && {c, s} - {s} == {c};
        RemoveChunkFromBin(s, {c}, {c});
        ghost var m1 := mem[..];
        MergeInPlace(c, {c, s}, {c});
        KeepsTransitive(m0, m1, mem[..], Live(old(heap).chunks), old(heap).blocks);
      }
    }

    lemma PendingPresent(pending: set<nat>, unfooted: set<nat>, c: nat)
      requires Shape(pending, unfooted) && c in pending
      ensures c in heap.chunks && heap.chunks[c].free
    {
    }

    /** Merges c with its successor, both of which are out of their bins. */
    method MergeInPlace(c: nat, ghost pending: set<nat>, ghost unfooted: set<nat>)
      requires Shape(pending, unfooted) && c in pending && c in heap.chunks && !heap.chunks[c].last
      requires Next(heap.chunks, c) in heap.chunks && Next(heap.chunks, c) in pending
      requires pending == {c, Next(heap.chunks, c)} && unfooted <= pending
      modifies this`heap, this`accounting, mem
      ensures Shape({c}, {c}) && heap == Merge(old(heap), pending, c)
      ensures Keeps(old(mem[..]), mem[..], Live(old(heap).chunks), old(heap).blocks)
    {
      hide Consistent, Tags, Feet, Lists, BlockLinks, Keeps, Live, Header, Books, MergeWords;
      ghost var s := Next(heap.chunks, c);
      HeadersPresent(mem[..], heap, pending, c);
      MergeRepresents(mem[..], bins[..], newestBlock, heap, pending, unfooted, c);
      MergeWithSuccessor(mem, c);
      heap := Merge(heap, pending, c);
      assert pending - {s} == {c};
      accounting := accounting.(merges := accounting.merges + 1, overheadSize := accounting.overheadSize - 8);
    }

    lemma PredecessorInMemory(c: nat)
      requires Shape({c}, {c}) && c in heap.chunks && heap.chunks[c].pred
      ensures exists p: nat :: FreeBefore(heap.chunks, p, c)
      ensures 0 < c < mem.Length && WordCount(mem[c - 1]) <= c
      ensures FreePrevious(heap.chunks, c) == c - WordCount(mem[c - 1])
    {
      hide Tags, Lists, BlockLinks, Coalesced, Binned;
      assert ChunkOk(heap.chunks, heap.blocks, c);
      var p := FreePrevious(heap.chunks, c);
      assert ChunkOk(heap.chunks, heap.blocks, p) && FootOk(mem[..], heap.chunks, p);
    }

    /** If the predecessor is free it is unbinned and takes c over. */
    method JoinBackward(c: nat) returns (f: nat)
      requires Shape({c}, {c}) && c in heap.chunks
      requires !heap.chunks[c].last && Next(heap.chunks, c) in heap.chunks ==> !heap.chunks[Next(heap.chunks, c)].free
      modifies this`heap, this`accounting, mem, bins, chunkCounts
      ensures Shape({f}, {f}) && f in heap.chunks && Settled(heap.chunks, f, {f} - {f})
      ensures Enbin(heap, {f}, f) == Settle(old(heap), c) && Live(heap.chunks) == Live(old(heap).chunks)
      ensures heap.blocks == old(heap).blocks && (Books(old(heap)) ==> Books(heap))
      ensures Keeps(old(mem[..]), mem[..], Live(old(heap).chunks), old(heap).blocks)
    {
      hide Consistent, Tags, Feet, Lists, BlockLinks, Keeps, Live, Header, Books, MergeWords, BinFor;
      HeadersPresent(mem[..], heap, {c}, c);
      KeepsReflexive(mem[..], Live(heap.chunks), heap.blocks);
      f := c;
      if IsPredFree(mem[c]) {
        ghost var m0 := mem[..];
        PredecessorInMemory(c);
        f := Predecessor(mem, c);
        assert {c} + {f} == {f, c} && {f, c} - {c} == {f} && {f} - {f} == {};
        RemoveChunkFromBin(f, {c}, {c});
        ghost var m1 := mem[..];
        MergeInPlace(f, {f, c}, {c});
        assert heap == MergeBackward(old(heap), c, f);
        KeepsTransitive(m0, m1, mem[..], Live(old(heap).chunks), old(heap).blocks);
      } else {
        ForwardSettled(heap, c);
        assert {c} - {c} == {};
      }
    }

    /** Writes the footer and puts the chunk into its bin. */
    method FinishFree(f: nat)
      requires Shape({f}, {f}) && f in heap.chunks && Settled(heap.chunks, f, {f} - {f})
      modifies this`heap, mem, bins, chunkCounts
      ensures Shape({}, {}) && heap == Enbin(old(heap), {f}, f)
      ensures Keeps(old(mem[..]), mem[..], Live(old(heap).chunks), old(heap).blocks)
    {
      hide Consistent, Tags, Feet, Lists, BlockLinks, Keeps, Live, Header, Books, FinishWords, BinFor, Settled;
      ghost var m0 := mem[..];
      FinishRepresents(mem[..], bins[..], newestBlock, heap, f);
      DoFree(mem, f);
      ghost var m1 := mem[..];
      assert {f} - {f} == {};
      AddFreeChunk(f, {f}, {});
      KeepsTransitive(m0, m1, mem[..], Live(old(heap).chunks), old(heap).blocks);
    }

    // ----- blocks and clients -----

    /** addMemoryBlock.  The predecessor flag of the first chunk's header word must be
        clear in the memory handed over: setSize keeps it. */
    method AddMemoryBlock(at: nat, words: nat)
      requires Valid() && CanAdd(heap, Block(at, words)) && !IsPredFree(mem[at + BLOCK_HEADER_WORDS])
      modifies this, mem, bins, chunkCounts
      ensures Valid() && heap == AddBlock(old(heap), Block(at, words)) && newestBlock == at
      ensures Keeps(old(mem[..]), mem[..], Live(old(heap).chunks), heap.blocks)
    {
      hide Consistent, Tags,
          Feet, Lists, BlockLinks, Keeps, Live, Header, Books, FinishWords, BinFor, Settled, WithWords, WithLast;
      ghost var m0, h0, b := mem[..], heap, Block(at, words);
      var c := at + BLOCK_HEADER_WORDS;
      BlockWordsFacts(m0, newestBlock, b);
      FreshBlockRepresents(m0, bins[..], newestBlock, h0, b);
      mem[at] := 8 * words;
      mem[at + 1] := 0;
      mem[at + 2] := newestBlock;
      accounting := accounting.(blocks := accounting.blocks + 1, totalSize := accounting.totalSize + 8 * words,
                                overheadSize := accounting.overheadSize + 8 * BLOCK_HEADER_WORDS);
      mem[c] := WithWords(mem[c], words - BLOCK_HEADER_WORDS);
      mem[c] := WithLast(mem[c]);
      assert mem[..] == BlockWords(m0, newestBlock, b);
      DoFree(mem, c);
      newestBlock := at;
      heap := WithBlock(h0, b);
      WithBlockConsistent(h0, b, heap);
      ghost var m1 := mem[..];
      assert {c} - {c} == {};
      AddFreeChunk(c, {c}, {});
      KeepsTransitive(m0, m1, mem[..], Live(h0.chunks), heap.blocks);
    }
  }

  lemma KeepsReflexive(m: seq<nat>, live: map<nat, nat>, bs: seq<Block>)
    ensures Keeps(m, m, live, bs)
  {
  }

  /** What the walk over one bin means for the scan. */
  lemma BinDecides(h: Heap, i: nat, words: nat, chunk: nat)
    requires Good(h) && i < BIN_COUNT && (forall e | e in h.bins[i] :: e in h.chunks)
    requires var k := FitIndex(h.chunks, h.bins[i], words); chunk == if k < |h.bins[i]| then h.bins[i][k] else 0
    ensures if chunk != 0 then FindBin(h, i, words) == i else FindBin(h, i, words) == FindBin(h, i + 1, words)
    ensures chunk != 0 ==> var k := FitIndex(h.chunks, h.bins[i], words); k < |h.bins[i]| && chunk == h.bins[i][k]
  {
    hide Consistent, FitIndex;
    BinNonNull(h, i, words);
  }

  lemma ChoiceIs(h: Heap, start: nat, words: nat)
    requires Good(h) && start < BIN_COUNT
    ensures var b := FindBin(h, start, words);
      && (b == BIN_COUNT ==> Choose(h, start, words) == 0)
      && (b < BIN_COUNT ==>
            && (forall c | c in h.bins[b] :: c in h.chunks)
            && FitIndex(h.chunks, h.bins[b], words) < |h.bins[b]|
            && Choose(h, start, words) == h.bins[b][FitIndex(h.chunks, h.bins[b], words)])
    ensures FindBin(h, BIN_COUNT, words) == BIN_COUNT
  {
    hide Consistent, FitIndex;
  }

  lemma BinNonNull(h: Heap, i: nat, words: nat)
    requires Good(h) && i < BIN_COUNT
    ensures forall c | c in h.bins[i] :: c in h.chunks && c != 0
  {
    BinMembers(h, i);
    forall c | c in h.bins[i]
      ensures c != 0
    {
      assert Member(h.chunks, c, i, {}) && ChunkOk(h.chunks, h.blocks, c);
    }
  }
}
