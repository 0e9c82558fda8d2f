/** What the heap promises its callers, over single calls and over whole runs. */
module HeapLaws {
  import opened Powers
  import opened ChunkWords
  import opened BinTable
  import opened Heap
  import opened HeapBooks
  import opened HeapSteps
  import opened HeapOps
  import opened HeapMemory

  // ----- walking a block through memory alone -----

  /** The chunks met by following successors from c until the last flag. */
  function Walk(m: seq<nat>, c: nat): (w: seq<nat>)
    ensures |w| > 0 && w[0] == c
    decreases if c < |m| then |m| - c else 0
  {
    if c >= |m| || WordCount(m[c]) == 0 || IsLast(m[c]) then [c]
    else [c] + Walk(m, c + WordCount(m[c]))
  }

  /** w is a gapless row of chunks up to end.  Only the last one has the last flag, each
      knows whether the one before it is free, and no two neighbours are free. */
  ghost predicate RowTo(m: seq<nat>, w: seq<nat>, end: nat) {
    && |w| > 0 && (forall k: nat | k < |w| :: w[k] < |m|)
    && w[|w| - 1] + WordCount(m[w[|w| - 1]]) == end && IsLast(m[w[|w| - 1]])
    && forall k: nat | k < |w| - 1 :: Adjoin(m, w[k], w[k + 1])
  }

  predicate Adjoin(m: seq<nat>, c: nat, d: nat)
    requires c < |m| && d < |m|
  {
    && c + WordCount(m[c]) == d && c < d && !IsLast(m[c])
    && (IsPredFree(m[d]) <==> IsFree(m[c])) && !(IsFree(m[c]) && IsFree(m[d]))
  }

  lemma {:induction false} WalkRow(m: seq<nat>, heads: seq<nat>, newest: nat, h: Heap, c: nat)
    requires Good(h) && Represents(m, heads, newest, h, {}) && c in h.chunks
    ensures h.chunks[c].block < |h.blocks|
    ensures RowTo(m, Walk(m, c), End(h.blocks[h.chunks[c].block]))
    ensures forall d :: d in Walk(m, c) <==>
      d in h.chunks && h.chunks[d].block == h.chunks[c].block && d >= c
    decreases |m| - c
  {
    hide Feet, Lists, BlockLinks, Binned, Header;
    assert c < |m| && m[c] == Header(h.chunks[c]);
    assert ChunkOk(h.chunks, h.blocks, c);
    if h.chunks[c].last {
      forall d | d in h.chunks && h.chunks[d].block == h.chunks[c].block && d >= c
        ensures d == c
      {
        assert ChunkOk(h.chunks, h.blocks, d);
        ApartAfter(h, c, d);
      }
    } else {
      WalkStep(m, heads, newest, h, c);
      var s := Next(h.chunks, c);
      WalkRow(m, heads, newest, h, s);
      forall d | d in h.chunks && d >= c
        ensures d == c || d >= s
      {
        ApartAfter(h, c, d);
      }
    }
  }

  lemma ApartAfter(h: Heap, c: nat, d: nat)
    requires Good(h) && c in h.chunks && d in h.chunks
    ensures d > c ==> d >= c + h.chunks[c].words
  {
    hide Coalesced, Binned;
    assert d > c ==> Apart(h.chunks, c, d);
  }

  lemma WalkStep(m: seq<nat>, heads: seq<nat>, newest: nat, h: Heap, c: nat)
    requires Good(h) && Represents(m, heads, newest, h, {}) && c in h.chunks && !h.chunks[c].last
    ensures var s := Next(h.chunks, c);
      && s in h.chunks && h.chunks[s].block == h.chunks[c].block
      && c < |m| && s < |m| && Adjoin(m, c, s)
  {
    assert ChunkOk(h.chunks, h.blocks, c);
    NextInBlock(h.chunks, h.blocks, h.capacity, c);
    assert CoalescedAt(h.chunks, c, {});
  }

  /** Walking successors from the start of a block meets every chunk of the block once
      and ends exactly at the end of the block, in the one chunk with the last flag. */
  lemma WalkTilesBlock(m: seq<nat>, heads: seq<nat>, newest: nat, h: Heap, i: nat)
    requires Good(h) && Represents(m, heads, newest, h, {}) && i < |h.blocks|
    ensures RowTo(m, Walk(m, First(h.blocks[i])), End(h.blocks[i]))
    ensures !IsPredFree(m[First(h.blocks[i])])
    ensures forall d :: d in Walk(m, First(h.blocks[i])) <==> d in h.chunks && h.chunks[d].block == i
  {
    FirstOfBlock(h, i);
    WalkRow(m, heads, newest, h, First(h.blocks[i]));
    forall d | d in h.chunks && h.chunks[d].block == i
      ensures d >= First(h.blocks[i])
    {
      assert ChunkOk(h.chunks, h.blocks, d);
    }
  }

  lemma FirstOfBlock(h: Heap, i: nat)
    requires Good(h) && i < |h.blocks|
    ensures First(h.blocks[i]) in h.chunks
    ensures h.chunks[First(h.blocks[i])].block == i && !h.chunks[First(h.blocks[i])].pred
  {
    var f := First(h.blocks[i]);
    assert ChunkOk(h.chunks, h.blocks, f);
    SameBlock(h.blocks, h.capacity, i, h.chunks[f].block, f);
    if h.chunks[f].pred {
      var p: nat :| FreeBefore(h.chunks, p, f);
      NextNotFirst(h.chunks, h.blocks, h.capacity, p, i);
    }
  }

  /** The footer of a free chunk leads back from its successor to it. */
  lemma PredecessorInvertsSuccessor(m: seq<nat>, heads: seq<nat>, newest: nat, h: Heap, c: nat)
    requires Good(h) && Represents(m, heads, newest, h, {})
    requires c in h.chunks && h.chunks[c].free && !h.chunks[c].last
    ensures var s := c + WordCount(m[c]);
      && c < |m| && 0 < s < |m| && IsPredFree(m[s])
      && m[s - 1] == SizeBytes(m[c]) && s - WordCount(m[s - 1]) == c
  {
    hide Header, Lists, BlockLinks, Coalesced, Binned;
    assert ChunkOk(h.chunks, h.blocks, c) && FootOk(m, h.chunks, c);
    WordsOfSize(m[c], h.chunks[c].words);
    WordsOfSize(8 * h.chunks[c].words, h.chunks[c].words);
  }

  lemma WordsOfSize(w: nat, words: nat)
    requires SizeBytes(w) == 8 * words
    ensures WordCount(w) == words
  {
  }

  // ----- following a bin through memory alone -----

  /** The chunks met by following at most n next links from p until null. */
  function Follow(m: seq<nat>, p: nat, n: nat): (w: seq<nat>)
    ensures |w| <= n
    decreases n
  {
    if n == 0 || p == 0 || p + 1 >= |m| then [] else [p] + Follow(m, m[p + 1], n - 1)
  }

  lemma {:induction false} FollowsList(m: seq<nat>, l: seq<nat>, k: nat, n: nat)
    requires (forall j: nat | j < |l| :: LinkOk(m, l, j) && l[j] != 0) && k <= |l| <= k + n
    ensures Follow(m, if k < |l| then l[k] else 0, n) == l[k..]
    decreases n
  {
    if k < |l| {
      assert LinkOk(m, l, k);
      FollowsList(m, l, k + 1, n - 1);
    }
  }

  /** The sizes of chunks met by a walk do not decrease, and each points back at the one
      before it. */
  ghost predicate RisingChain(m: seq<nat>, w: seq<nat>) {
    && (forall k: nat | k < |w| :: w[k] + 2 < |m| && m[w[k] + 2] == if k > 0 then w[k - 1] else 0)
    && (forall j: nat, k: nat | j < k < |w| :: w[j] != w[k] && SizeBytes(m[w[j]]) <= SizeBytes(m[w[k]]))
  }

  /** Following next links from the head of a bin, with no bound that matters, comes to null
      after meeting exactly the free chunks of that bin, each once and in ascending order,
      each pointing back at the one before. */
  lemma WalkFindsBin(m: seq<nat>, heads: seq<nat>, newest: nat, h: Heap, i: nat, n: nat)
    requires Good(h) && Represents(m, heads, newest, h, {}) && i < BIN_COUNT && n >= |h.bins[i]|
    ensures i < |heads|
    ensures var w := Follow(m, heads[i], n);
      && w == h.bins[i] && RisingChain(m, w)
      && (forall c: nat :: c in w <==> c in h.chunks && c < |m| && IsFree(m[c]) && BinIndex(SizeBytes(m[c])) == i)
  {
    hide Consistent, BinIndex, Header, Tags, Feet, BlockLinks, RisingChain;
    BinInOrder(m, heads, newest, h, i);
    var l := h.bins[i];
    assert ListOk(m, heads[i], l);
    FollowsList(m, l, 0, n);
    assert l[0..] == l;
    forall c: nat
      ensures c in l <==> c in h.chunks && c < |m| && IsFree(m[c]) && BinIndex(SizeBytes(m[c])) == i
    {
      BinHolds(m, h, c, i);
    }
  }

  /** A bin's list holds no null, and in memory it is linked both ways and rises. */
  lemma BinInOrder(m: seq<nat>, heads: seq<nat>, newest: nat, h: Heap, i: nat)
    requires Good(h) && Represents(m, heads, newest, h, {}) && i < BIN_COUNT
    ensures i < |h.bins|
    ensures forall j: nat | j < |h.bins[i]| :: LinkOk(m, h.bins[i], j) && h.bins[i][j] != 0
    ensures RisingChain(m, h.bins[i])
  {
    hide Consistent, Header, Tags, RisingChain;
    BinLengths(h);
    var l := h.bins[i];
    assert ListOk(m, heads[i], l);
    forall j: nat | j < |l|
      ensures LinkOk(m, l, j) && l[j] != 0
    {
      BinEntry(m, h, i, j);
      assert LinkOk(m, l, j);
    }
    forall j: nat, k: nat | j < k < |l|
      ensures InOrder(m, l[j], l[k])
    {
      BinPair(m, h, i, j, k);
    }
    ListRises(m, l);
  }

  lemma BinLengths(h: Heap)
    requires Good(h)
    ensures |h.bins| == BIN_COUNT
  {
  }

  predicate InOrder(m: seq<nat>, c: nat, d: nat) {
    c < |m| && d < |m| && c != d && SizeBytes(m[c]) <= SizeBytes(m[d])
  }

  lemma ListRises(m: seq<nat>, l: seq<nat>)
    requires forall j: nat | j < |l| :: LinkOk(m, l, j)
    requires forall j: nat, k: nat | j < k < |l| :: InOrder(m, l[j], l[k])
    ensures RisingChain(m, l)
  {
    hide SizeBytes;
    forall k: nat | k < |l|
      ensures l[k] + 2 < |m| && m[l[k] + 2] == if k > 0 then l[k - 1] else 0
    {
      assert LinkOk(m, l, k);
    }
    forall j: nat, k: nat | j < k < |l|
      ensures l[j] != l[k] && SizeBytes(m[l[j]]) <= SizeBytes(m[l[k]])
    {
      assert InOrder(m, l[j], l[k]);
    }
  }

  lemma BinEntry(m: seq<nat>, h: Heap, i: nat, j: nat)
    requires Good(h) && Tags(m, h.chunks) && i < |h.bins| && j < |h.bins[i]|
    ensures var c := h.bins[i][j]; c in h.chunks && c != 0 && c < |m| && m[c] == Header(h.chunks[c])
  {
    hide Header, BinIndex;
    BinMembers(h, i);
    assert Member(h.chunks, h.bins[i][j], i, {}) && ChunkOk(h.chunks, h.blocks, h.bins[i][j]);
  }

  lemma BinPair(m: seq<nat>, h: Heap, i: nat, j: nat, k: nat)
    requires Good(h) && Tags(m, h.chunks) && i < |h.bins| && j < k < |h.bins[i]|
    ensures InOrder(m, h.bins[i][j], h.bins[i][k])
  {
    hide BinIndex, Coalesced, Tiled, Tags;
    BinEntry(m, h, i, j);
    BinEntry(m, h, i, k);
    assert BinOk(h.chunks, h.bins[i], i, {});
  }

  lemma BinHolds(m: seq<nat>, h: Heap, c: nat, i: nat)
    requires Good(h) && Tags(m, h.chunks) && i < |h.bins|
    ensures c in h.bins[i] <==> c in h.chunks && c < |m| && IsFree(m[c]) && BinIndex(SizeBytes(m[c])) == i
  {
    hide BinIndex, Header;
    if c in h.bins[i] {
      BinMembers(h, i);
    }
  }

  // ----- live data -----

  /** The data of a live chunk lies inside its block, starts on the block's alignment and
      shares no word with another live chunk, a header, a link, a footer or a block header. */
  lemma LiveDataIsPrivate(h: Heap, c: nat, i: nat)
    requires Good(h) && c in Live(h.chunks) && c < i < c + Live(h.chunks)[c]
    ensures exists j :: 0 <= j < |h.blocks| && First(h.blocks[j]) < i < End(h.blocks[j])
                        && (c + 1 - h.blocks[j].at) % 2 == 0
    ensures forall d | d in h.chunks && d != c :: !(d <= i < d + h.chunks[d].words)
    ensures forall j | 0 <= j < |h.blocks| :: !(h.blocks[j].at <= i < First(h.blocks[j]))
  {
    LiveDataInBlock(h, c, i);
    hide ChunkOk, Live;
    forall d | d in h.chunks && d != c
      ensures !(d <= i < d + h.chunks[d].words)
    {
      if d <= i < d + h.chunks[d].words {
        OwnExtent(h, {}, c, d, i);
      }
    }
    forall j | 0 <= j < |h.blocks|
      ensures !(h.blocks[j].at <= i < First(h.blocks[j]))
    {
      if h.blocks[j].at <= i < First(h.blocks[j]) {
        BlockHeaderFree(h, {}, j, c, i);
      }
    }
  }

  lemma LiveDataInBlock(h: Heap, c: nat, i: nat)
    requires Good(h) && c in Live(h.chunks) && c < i < c + Live(h.chunks)[c]
    ensures c in h.chunks && c < i < c + h.chunks[c].words && h.chunks[c].block < |h.blocks|
    ensures var b := h.blocks[h.chunks[c].block]; First(b) < i < End(b) && (c + 1 - b.at) % 2 == 0
  {
    assert ChunkOk(h.chunks, h.blocks, c);
  }

  /** Whatever a caller stores in its own data, memory still represents the same heap. */
  lemma CallersMayWrite(m: seq<nat>, heads: seq<nat>, newest: nat, h: Heap, c: nat, i: nat, value: nat)
    requires Good(h) && Represents(m, heads, newest, h, {}) && c in Live(h.chunks)
    requires c < i < c + Live(h.chunks)[c] && i < |m|
    ensures Represents(m[i := value], heads, newest, h, {})
  {
    hide Header, BinIndex, Coalesced, Binned;
    LiveDataIsPrivate(h, c, i);
    BinLengths(h);
    var m' := m[i := value];
    forall d | d in h.chunks
      ensures d != i && (h.chunks[d].free ==> FootOk(m', h.chunks, d))
    {
      assert ChunkOk(h.chunks, h.blocks, d);
      assert h.chunks[d].free ==> FootOk(m, h.chunks, d);
    }
    forall j | 0 <= j < |h.bins|
      ensures ListOk(m', heads[j], h.bins[j])
    {
      WriteKeepsList(m, heads[j], h, j, c, i, value);
    }
    forall j: nat | j < |h.blocks|
      ensures BlockLinkOk(m', h.blocks, j)
    {
      assert BlockLinkOk(m, h.blocks, j);
    }
  }

  lemma WriteKeepsList(m: seq<nat>, head: nat, h: Heap, j: nat, c: nat, i: nat, value: nat)
    requires Good(h) && j < BIN_COUNT && ListOk(m, head, h.bins[j]) && c in Live(h.chunks)
    requires c < i < c + Live(h.chunks)[c] && i < |m|
    requires forall d | d in h.chunks && d != c :: !(d <= i < d + h.chunks[d].words)
    ensures ListOk(m[i := value], head, h.bins[j])
  {
    var l := h.bins[j];
    var m' := m[i := value];
    forall k: nat | k < |l|
      ensures LinkOk(m', l, k)
    {
      assert LinkOk(m, l, k) && BinOk(h.chunks, l, j, {}) && Member(h.chunks, l[k], j, {});
      assert ChunkOk(h.chunks, h.blocks, l[k]);
    }
  }

  // ----- which chunk allocate chooses -----

  /** The chosen chunk is a smallest sufficient one of the first bin, at or above the
      starting bin, that has a sufficient one. */
  lemma ChoiceIsBestFit(h: Heap, start: nat, words: nat)
    requires Good(h) && start < BIN_COUNT && Choose(h, start, words) != 0
    ensures var c := Choose(h, start, words);
      && c in h.chunks && start <= BinFor(h.chunks, c) && words <= h.chunks[c].words
      && (forall d | d in h.chunks && h.chunks[d].free && words <= h.chunks[d].words && start <= BinFor(h.chunks, d) ::
            BinFor(h.chunks, c) < BinFor(h.chunks, d)
            || (BinFor(h.chunks, c) == BinFor(h.chunks, d) && h.chunks[c].words <= h.chunks[d].words))
  {
    hide BinIndex;
    var b := FindBin(h, start, words);
    BinMembers(h, b);
    var l := h.bins[b];
    var k := FitIndex(h.chunks, l, words);
    var c := l[k];
    assert Member(h.chunks, c, b, {}) && BinOk(h.chunks, l, b, {});
    forall d | d in h.chunks && h.chunks[d].free && words <= h.chunks[d].words && start <= BinFor(h.chunks, d)
      ensures b < BinFor(h.chunks, d) || (b == BinFor(h.chunks, d) && h.chunks[c].words <= h.chunks[d].words)
    {
      assert d in h.bins[BinFor(h.chunks, d)];
      if BinFor(h.chunks, d) == b {
        var j := Position(l, d);
        assert k <= j;
      }
    }
  }

  /** The search fails exactly when no bin at or above the starting one has a chunk that
      is large enough. */
  lemma ChoiceFailsIff(h: Heap, start: nat, words: nat)
    requires Good(h) && start < BIN_COUNT
    ensures Choose(h, start, words) == 0 <==>
      forall d | d in h.chunks && h.chunks[d].free && words <= h.chunks[d].words :: BinFor(h.chunks, d) < start
  {
    hide BinIndex;
    if Choose(h, start, words) != 0 {
      ChoiceIsBestFit(h, start, words);
    } else {
      forall d | d in h.chunks && h.chunks[d].free && words <= h.chunks[d].words
        ensures BinFor(h.chunks, d) < start
      {
        assert d in h.bins[BinFor(h.chunks, d)];
      }
    }
  }

  ghost predicate NoneReachable(h: Heap, words: nat) {
    forall d | d in h.chunks && h.chunks[d].free && words <= h.chunks[d].words ::
      && InWrapZone(8 * h.chunks[d].words)
      && 8 * Subdivision(Octave(8 * h.chunks[d].words)) < 8 * words
      && 8 * words <= 15 * Subdivision(Octave(8 * h.chunks[d].words))
  }

  /** Exactly when a request that passes the size checks is turned away: every free chunk
      that is large enough sits in the wrap zone of the request's own octave. */
  lemma RequestFailsIff(h: Heap, start: nat, words: nat)
    requires Good(h) && start == BinIndex(8 * words)
    ensures Choose(h, start, words) == 0 <==> NoneReachable(h, words)
  {
    ChoiceFailsIff(h, start, words);
    forall d | d in h.chunks && words <= h.chunks[d].words
      ensures BinFor(h.chunks, d) < start <==>
        && InWrapZone(8 * h.chunks[d].words)
        && 8 * Subdivision(Octave(8 * h.chunks[d].words)) < 8 * words
        && 8 * words <= 15 * Subdivision(Octave(8 * h.chunks[d].words))
    {
      SearchSkips(8 * words, 8 * h.chunks[d].words);
    }
    hide BinIndex, InWrapZone, Octave, Subdivision, Choose;
  }

  /** The heap of a new arena. */
  ghost function EmptyHeap(capacity: nat): (h: Heap)
    ensures Good(h) && Books(h)
  {
    Heap(capacity, map[], [], seq(BIN_COUNT, _ => []), Accounting(0, 0, 0, 0, 0, 0, 0, 0, 0, 0))
  }

  /** Every way an allocation can end, told from the request and the free chunks alone; a
      request that is not served changes nothing but the count of failures. */
  lemma AllocateOutcomes(h: Heap, userSize: nat, alignment: nat)
    requires Good(h) && userSize < WORD_LIMIT
    ensures var (r, o) := Allocate(h, userSize, alignment);
            var served := userSize != 0 && SupportedAlignment(alignment) && userSize + 8 <= LARGEST_BIN - ALIGNMENT;
      && (o.Empty? <==> userSize == 0)
      && (o.Refused? <==> userSize != 0 && !served)
      && (o.Full? <==> served && NoneReachable(h, ChunkSizeFor(userSize) / 8))
      && (o.At? <==> served && !NoneReachable(h, ChunkSizeFor(userSize) / 8))
      && (!o.At? ==> r == h.(acct := h.acct.(failures := h.acct.failures + if userSize == 0 then 0 else 1)))
  {
    ChunkSizeLeast(userSize);
    hide Consistent, Books, Live, BinIndex, ChunkSizeFor, NoneReachable;
    var p := PlanFor(userSize, alignment);
    if p.Search? {
      RequestFailsIff(h, p.start, p.words);
    }
  }

  /** With one block and nothing allocated yet, exactly when a request of a servable size is
      not served: the block's chunk is too small, or the search begins above its bin. */
  lemma OneChunkNotFoundIff(capacity: nat, b: Block, userSize: nat)
    requires CanAdd(EmptyHeap(capacity), b) && 0 < userSize && userSize + 8 <= LARGEST_BIN - ALIGNMENT
    ensures var h := AddBlock(EmptyHeap(capacity), b);
            var (size, request) := (8 * (b.words - BLOCK_HEADER_WORDS), ChunkSizeFor(userSize));
      && h.chunks == map[First(b) := Chunk(b.words - BLOCK_HEADER_WORDS, true, false, true, 0)]
      && (Allocate(h, userSize, ALIGNMENT).1 == Full <==>
            || size < request
            || (InWrapZone(size) && 8 * Subdivision(Octave(size)) < request <= 15 * Subdivision(Octave(size))))
  {
    hide Consistent, Books, Allocate, AddBlock, CanAdd, NoneReachable, ChunkSizeFor, EmptyHeap;
    ServableSize(userSize);
    OneChunk(capacity, b);
    var h := AddBlock(EmptyHeap(capacity), b);
    AllocateOutcomes(h, userSize, ALIGNMENT);
    OnlyChunkReachable(h, First(b), ChunkSizeFor(userSize) / 8);
  }

  lemma ServableSize(userSize: nat)
    requires userSize + 8 <= LARGEST_BIN - ALIGNMENT
    ensures ChunkSizeFor(userSize) == 8 * (ChunkSizeFor(userSize) / 8)
  {
    hide ChunkSizeFor;
    ChunkSizeLeast(userSize);
    WholeWords(ChunkSizeFor(userSize));
  }

  lemma WholeWords(size: nat)
    requires size % ALIGNMENT == 0
    ensures size == 8 * (size / 8)
  {
  }

  lemma OneChunk(capacity: nat, b: Block)
    requires CanAdd(EmptyHeap(capacity), b)
    ensures AddBlock(EmptyHeap(capacity), b).chunks
         == map[First(b) := Chunk(b.words - BLOCK_HEADER_WORDS, true, false, true, 0)]
  {
    hide Consistent, Books, BinIndex;
  }

  lemma OnlyChunkReachable(h: Heap, c: nat, words: nat)
    requires Good(h) && h.chunks.Keys == {c} && h.chunks[c].free
    ensures var size := 8 * h.chunks[c].words;
      NoneReachable(h, words) <==>
        || size < 8 * words
        || (InWrapZone(size) && 8 * Subdivision(Octave(size)) < 8 * words <= 15 * Subdivision(Octave(size)))
  {
    hide Consistent, Octave, Subdivision, InWrapZone;
    assert c in h.chunks;
  }

  /** Such a request: 512 bytes, where all there is is one free chunk of 1000. */
  lemma LargeChunkNotFound(capacity: nat, b: Block)
    requires CanAdd(EmptyHeap(capacity), b) && b.words == 128
    ensures var h := AddBlock(EmptyHeap(capacity), b);
      && h.chunks == map[First(b) := Chunk(125, true, false, true, 0)]
      && ChunkSizeFor(512) < 8 * 125 && Allocate(h, 512, ALIGNMENT).1 == Full
  {
    hide Consistent, Books, BinIndex, Allocate, AddBlock, CanAdd, Octave, Subdivision, InWrapZone, ChunkSizeFor;
    OneChunkNotFoundIff(capacity, b, 512);
    FirstOctave(1000);
    RequestOf512();
  }

  lemma RequestOf512()
    ensures ChunkSizeFor(512) == 528
  {
  }

  /** A successful allocation adds one live chunk with room for the request, taken from
      free memory and cut as small as a chunk can be cut, and leaves every other live
      chunk as it was. */
  lemma AllocateAddsOne(h: Heap, userSize: nat, alignment: nat)
    requires Good(h) && userSize < WORD_LIMIT && Allocate(h, userSize, alignment).1.At?
    ensures var (r, o) := Allocate(h, userSize, alignment); var c := o.data - 1;
      && o.data > 0 && c !in Live(h.chunks) && c in r.chunks && c in h.chunks && h.chunks[c].free
      && Live(r.chunks) == Live(h.chunks)[c := r.chunks[c].words]
      && 8 * r.chunks[c].words - 8 >= userSize && r.blocks == h.blocks
      && 8 * r.chunks[c].words < ChunkSizeFor(userSize) + SMALLEST_BIN
      && 8 * r.chunks[c].words == if ChunkSizeFor(userSize) + SMALLEST_BIN <= 8 * h.chunks[c].words
                                  then ChunkSizeFor(userSize) else 8 * h.chunks[c].words
  {
    hide Consistent, Books, Live, BinIndex, ChunkSizeFor;
    var p := PlanFor(userSize, alignment);
    var c := Choose(h, p.start, p.words);
    FreeIsNotLive(h, c);
  }

  /** c is free and large enough, in a bin from the starting one on, and no such chunk lies in
      an earlier bin or in the same one and is smaller. */
  ghost predicate BestFit(h: Heap, size: nat, c: nat) {
    && c in h.chunks && h.chunks[c].free && size <= 8 * h.chunks[c].words && BinIndex(size) <= BinFor(h.chunks, c)
    && (forall d | d in h.chunks && h.chunks[d].free && size <= 8 * h.chunks[d].words
                   && BinIndex(size) <= BinFor(h.chunks, d) ::
          BinFor(h.chunks, c) < BinFor(h.chunks, d)
          || (BinFor(h.chunks, c) == BinFor(h.chunks, d) && h.chunks[c].words <= h.chunks[d].words))
  }

  /** What a served request is given is the best fit. */
  lemma AllocateIsBestFit(h: Heap, userSize: nat, alignment: nat)
    requires Good(h) && userSize < WORD_LIMIT && Allocate(h, userSize, alignment).1.At?
    ensures var o := Allocate(h, userSize, alignment).1;
      o.data > 0 && BestFit(h, ChunkSizeFor(userSize), o.data - 1)
  {
    hide Consistent, Books, Live, BinIndex, ChunkSizeFor, Allocate, Choose;
    ServedChoice(h, userSize, alignment);
    ChoiceIsBestFit(h, BinIndex(ChunkSizeFor(userSize)), ChunkSizeFor(userSize) / 8);
  }

  lemma ServedChoice(h: Heap, userSize: nat, alignment: nat)
    requires Good(h) && userSize < WORD_LIMIT && Allocate(h, userSize, alignment).1.At?
    ensures var size := ChunkSizeFor(userSize); var c := Choose(h, BinIndex(size), size / 8);
      size == 8 * (size / 8) && c != 0 && Allocate(h, userSize, alignment).1.data == c + 1
  {
    hide Consistent, Books, Live, BinIndex, ChunkSizeFor, Take, Choose, PlanFor;
    SearchedSize(userSize, alignment);
  }

  lemma SearchedSize(userSize: nat, alignment: nat)
    requires userSize < WORD_LIMIT && PlanFor(userSize, alignment).Search?
    ensures var p := PlanFor(userSize, alignment); var size := ChunkSizeFor(userSize);
      8 * p.words == size && p.words == size / 8 && p.start == BinIndex(size)
  {
    hide BinIndex, ChunkSizeFor;
  }

  /** Which alignments are served: the powers of two up to 16. */
  lemma SupportedAlignmentIff(alignment: nat)
    ensures SupportedAlignment(alignment) <==> exists n: nat :: alignment == Pow2(n) && alignment <= 16
  {
    assert Pow2(0) == 1 && Pow2(1) == 2 && Pow2(2) == 4 && Pow2(3) == 8 && Pow2(4) == 16;
    forall n: nat | Pow2(n) <= 16
      ensures SupportedAlignment(Pow2(n))
    {
      assert Pow2(5) == 32;
      Pow2Reflects(n, 5);
    }
  }

  // ----- the counters, call by call -----

  /** What the counters are after a request: one more allocation of the size handed out, with
      one split if the chunk was cut; or one more failure; or as before. */
  lemma AllocateCounts(h: Heap, userSize: nat, alignment: nat)
    requires Good(h) && userSize < WORD_LIMIT
    ensures var (r, o) := Allocate(h, userSize, alignment);
      match o
      case Empty => r.acct == h.acct
      case At(data) =>
        && data > 0 && data - 1 in r.chunks && data - 1 in h.chunks
        && var words := r.chunks[data - 1].words;
           var splits := if words < h.chunks[data - 1].words then 1 else 0;
           r.acct == h.acct.(
             allocations := h.acct.allocations + 1, chunksAllocated := h.acct.chunksAllocated + 1,
             allocatedSize := h.acct.allocatedSize + 8 * words,
             splits := h.acct.splits + splits, overheadSize := h.acct.overheadSize + 8 * splits)
      case _ => r.acct == h.acct.(failures := h.acct.failures + 1)
  {
    hide Consistent, Books, Live, BinIndex, ChunkSizeFor, Take, Choose;
    var p := PlanFor(userSize, alignment);
    if p.Search? {
      var c := Choose(h, p.start, p.words);
      if c != 0 {
        TakeCounts(h, c, p.words);
      }
    }
  }

  lemma TakeCounts(h: Heap, c: nat, words: nat)
    requires Good(h) && c in h.chunks && h.chunks[c].free
    requires MIN_CHUNK_WORDS <= words <= h.chunks[c].words && words % 2 == 0
    ensures var r := Take(h, c, words); var splits := if r.chunks[c].words < h.chunks[c].words then 1 else 0;
      r.acct == h.acct.(
        allocations := h.acct.allocations + 1, chunksAllocated := h.acct.chunksAllocated + 1,
        allocatedSize := h.acct.allocatedSize + 8 * r.chunks[c].words,
        splits := h.acct.splits + splits, overheadSize := h.acct.overheadSize + 8 * splits)
  {
    hide Consistent, Books, Live, Settled, Enbin, Unbin, Trim, MarkUsed, Take;
    TakeSteps(h, c, words);
    var u := Unbin(h, {}, c);
    TrimCounts(u, c, words);
    MarkUsedCounts(Trim(u, c, words), c);
  }

  lemma TakeSteps(h: Heap, c: nat, words: nat)
    requires Good(h) && c in h.chunks && h.chunks[c].free
    requires MIN_CHUNK_WORDS <= words <= h.chunks[c].words && words % 2 == 0
    ensures Consistent(Unbin(h, {}, c), {c}) && Settled(h.chunks, c, {})
    ensures Unbin(h, {}, c) == h.(bins := Unbin(h, {}, c).bins)
    ensures Take(h, c, words) == MarkUsed(Trim(Unbin(h, {}, c), c, words), c)
  {
    FreeIsSettled(h, c);
    assert {} + {c} == {c};
    hide Consistent, Books, Live, Settled, Enbin, Unbin, Trim, MarkUsed;
  }

  lemma MarkUsedCounts(h: Heap, c: nat)
    requires Consistent(h, {c})
    ensures c in h.chunks
    ensures MarkUsed(h, c).acct == h.acct.(
      allocations := h.acct.allocations + 1, chunksAllocated := h.acct.chunksAllocated + 1,
      allocatedSize := h.acct.allocatedSize + 8 * h.chunks[c].words)
  {
    hide Tiled, Coalesced, Binned, Books, Live, SetFree;
  }

  lemma TrimCounts(h: Heap, c: nat, words: nat)
    requires Consistent(h, {c}) && Settled(h.chunks, c, {})
    requires MIN_CHUNK_WORDS <= words <= h.chunks[c].words && words % 2 == 0
    ensures var r := Trim(h, c, words); var splits := if r.chunks[c].words < h.chunks[c].words then 1 else 0;
      r.acct == h.acct.(splits := h.acct.splits + splits, overheadSize := h.acct.overheadSize + 8 * splits)
  {
    SplitsWhen(h.chunks[c], words);
    hide Consistent, Books, Live, Settled, Enbin;
    if Splits(h.chunks[c], words) {
      TrimSettled(h, SplitOff(h, c, words), c, words);
    }
  }

  /** How many neighbours of a live chunk a free merges it with. */
  function FreeNeighbours(cs: map<nat, Chunk>, c: nat): nat
    requires c in cs
  {
    (if cs[c].pred then 1 else 0)
    + (if MergesForward(cs, c) then 1 else 0)
  }

  predicate MergesForward(cs: map<nat, Chunk>, c: nat)
    requires c in cs
  {
    !cs[c].last && Next(cs, c) in cs && cs[Next(cs, c)].free
  }

  /** What the counters are after a live chunk is freed: one more free, one merge for every
      free neighbour. */
  lemma FreeCounts(h: Heap, c: nat)
    requires Good(h) && c in h.chunks && !h.chunks[c].free
    ensures var merges := FreeNeighbours(h.chunks, c);
      Free(h, c + 1).acct == h.acct.(
        frees := h.acct.frees + 1, chunksAllocated := h.acct.chunksAllocated - 1,
        allocatedSize := h.acct.allocatedSize - 8 * h.chunks[c].words,
        merges := h.acct.merges + merges, overheadSize := h.acct.overheadSize - 8 * merges)
  {
    hide Consistent, Books, Live, MergeForward, Settle;
    var m := MarkFree(h, c);
    MarkedNeighbours(h, c);
    ForwardCounts(m, c);
    SettleCounts(MergeForward(m, c), c);
  }

  lemma MarkedNeighbours(h: Heap, c: nat)
    requires Good(h) && c in h.chunks && !h.chunks[c].free
    ensures var m := MarkFree(h, c);
      && c in m.chunks && m.chunks[c].pred == h.chunks[c].pred
      && FreeNeighbours(m.chunks, c) == FreeNeighbours(h.chunks, c)
  {
    hide Coalesced, Binned, Books, Live;
    assert ChunkOk(h.chunks, h.blocks, c);
  }

  lemma ForwardCounts(h: Heap, c: nat)
    requires Consistent(h, {c})
    ensures c in h.chunks
    ensures var r := MergeForward(h, c);
            var n := if MergesForward(h.chunks, c) then 1 else 0;
      && c in r.chunks && r.chunks[c].pred == h.chunks[c].pred
      && r.acct == h.acct.(merges := h.acct.merges + n, overheadSize := h.acct.overheadSize - 8 * n)
  {
    SuccessorFacts(h, c);
    hide Consistent, Books, Live;
  }

  lemma SettleCounts(h: Heap, c: nat)
    requires Consistent(h, {c}) && c in h.chunks
    requires !h.chunks[c].last && Next(h.chunks, c) in h.chunks ==> !h.chunks[Next(h.chunks, c)].free
    ensures var n := if h.chunks[c].pred then 1 else 0;
      Settle(h, c).acct == h.acct.(merges := h.acct.merges + n, overheadSize := h.acct.overheadSize - 8 * n)
  {
    assert ChunkOk(h.chunks, h.blocks, c);
    hide Consistent, Books, Live, Settled, MergeBackward, Enbin;
    if h.chunks[c].pred {
      BackwardCounts(h, c, FreePrevious(h.chunks, c));
    }
  }

  lemma BackwardCounts(h: Heap, c: nat, p: nat)
    requires Consistent(h, {c}) && FreeBefore(h.chunks, p, c)
    requires !h.chunks[c].last && Next(h.chunks, c) in h.chunks ==> !h.chunks[Next(h.chunks, c)].free
    ensures MergeBackward(h, c, p).acct
         == h.acct.(merges := h.acct.merges + 1, overheadSize := h.acct.overheadSize - 8)
  {
    assert ChunkOk(h.chunks, h.blocks, p) && ChunkOk(h.chunks, h.blocks, c);
    assert {c} + {p} == {c, p} && {c, p} - {c} == {p};
    hide Consistent, Books, Live, Settled, Unbin;
  }

  /** What the counters are after a block is added. */
  lemma AddBlockCounts(h: Heap, b: Block)
    requires Good(h) && CanAdd(h, b)
    ensures AddBlock(h, b).acct == h.acct.(
      blocks := h.acct.blocks + 1, totalSize := h.acct.totalSize + 8 * b.words,
      overheadSize := h.acct.overheadSize + 8 * BLOCK_HEADER_WORDS)
  {
    hide Consistent, Books, Live, CanAdd, Enbin;
  }

  // ----- the order inside a bin -----

  /** A chunk put back goes to its own bin, after the smaller ones and in front of those of
      its size; nothing else moves. */
  lemma EnbinPlaces(h: Heap, pending: set<nat>, c: nat)
    requires Consistent(h, pending) && c in pending && Settled(h.chunks, c, pending - {c})
    ensures var r := Enbin(h, pending, c);
      && |r.bins| == |h.bins| == BIN_COUNT && (forall e | e in h.bins[BinFor(h.chunks, c)] :: e in h.chunks)
      && (forall j | 0 <= j < BIN_COUNT && j != BinFor(h.chunks, c) :: r.bins[j] == h.bins[j])
      && exists k :: Placed(h.chunks, h.bins[BinFor(h.chunks, c)], r.bins[BinFor(h.chunks, c)], c, k)
  {
    EnbinConsistent(h, pending, c);
    assert |h.bins| == BIN_COUNT;
    hide Consistent, BinIndex;
    var i := BinFor(h.chunks, c);
    var k := FitIndex(h.chunks, h.bins[i], h.chunks[c].words);
    assert Placed(h.chunks, h.bins[i], Enbin(h, pending, c).bins[i], c, k);
  }

  ghost predicate Placed(cs: map<nat, Chunk>, l: seq<nat>, l': seq<nat>, c: nat, k: int)
    requires c in cs && forall e | e in l :: e in cs
  {
    && 0 <= k <= |l| && l' == l[..k] + [c] + l[k..]
    && (forall j | 0 <= j < k :: cs[l[j]].words < cs[c].words)
    && (k < |l| ==> cs[l[k]].words >= cs[c].words)
  }

  lemma FreeIsNotLive(h: Heap, c: nat)
    requires c in h.chunks && h.chunks[c].free
    ensures c !in Live(h.chunks)
  {
  }

  // ----- complete coalescing -----

  lemma AfterFreeIsLive(h: Heap, c: nat)
    requires Good(h) && c in h.chunks && h.chunks[c].free && !h.chunks[c].last
    ensures Next(h.chunks, c) in Live(h.chunks)
  {
    assert ChunkOk(h.chunks, h.blocks, c) && CoalescedAt(h.chunks, c, {});
  }

  /** With nothing live, every block is one free chunk of its original size. */
  lemma AllFreeIsOneChunk(h: Heap, i: nat)
    requires Good(h) && Live(h.chunks) == map[] && i < |h.blocks|
    ensures var f := First(h.blocks[i]); var b := h.blocks[i];
      && f in h.chunks && h.chunks[f] == Chunk(b.words - BLOCK_HEADER_WORDS, true, false, true, i)
      && forall d | d in h.chunks && h.chunks[d].block == i :: d == f
  {
    var f := First(h.blocks[i]);
    FirstOfBlock(h, i);
    assert ChunkOk(h.chunks, h.blocks, f);
    assert f !in Live(h.chunks);
    if !h.chunks[f].last {
      AfterFreeIsLive(h, f);
    }
    forall d | d in h.chunks && h.chunks[d].block == i
      ensures d == f
    {
      assert ChunkOk(h.chunks, h.blocks, d);
      ApartAfter(h, f, d);
    }
  }

  /** Different addresses of live allocations. */
  ghost predicate Freeable(h: Heap, ds: seq<nat>) {
    && (forall k: nat | k < |ds| :: ds[k] > 0 && ds[k] - 1 in Live(h.chunks))
    && (forall j: nat, k: nat | j < k < |ds| :: ds[j] != ds[k])
  }

  lemma FreeDropsOne(h: Heap, c: nat)
    requires Good(h) && c in Live(h.chunks)
    ensures c in h.chunks && !h.chunks[c].free
    ensures var r := Free(h, c + 1);
      && Good(r) && r.blocks == h.blocks && (Books(h) ==> Books(r)) && Live(r.chunks) == Live(h.chunks) - {c}
  {
    hide Consistent, Books;
  }

  lemma FreeableStep(h: Heap, ds: seq<nat>)
    requires Good(h) && Freeable(h, ds) && |ds| > 0
    ensures ds[0] > 0 && ds[0] - 1 in h.chunks && ds[0] - 1 in Live(h.chunks)
    ensures Freeable(Free(h, ds[0]), ds[1..])
  {
    hide Consistent, Books, Free;
    FreeDropsOne(h, ds[0] - 1);
    var r := Free(h, ds[0]);
    forall k: nat | k < |ds[1..]|
      ensures ds[1..][k] > 0 && ds[1..][k] - 1 in Live(r.chunks)
    {
      assert ds[1..][k] == ds[k + 1] && ds[k + 1] - 1 in Live(h.chunks) && ds[0] != ds[k + 1];
    }
    forall j: nat, k: nat | j < k < |ds[1..]|
      ensures ds[1..][j] != ds[1..][k]
    {
      assert ds[j + 1] != ds[k + 1];
    }
  }

  /** Freeing data addresses one after another. */
  ghost function FreeEach(h: Heap, ds: seq<nat>): (r: Heap)
    requires Good(h) && Freeable(h, ds)
    ensures Good(r)
    decreases |ds|
  {
    hide Consistent, Freeable, Free;
    if |ds| == 0 then h
    else
      FreeableStep(h, ds);
      FreeEach(Free(h, ds[0]), ds[1..])
  }

  lemma {:induction false} FreeEachLeaves(h: Heap, ds: seq<nat>)
    requires Good(h) && Freeable(h, ds)
    ensures var r := FreeEach(h, ds);
      && r.blocks == h.blocks && (Books(h) ==> Books(r))
      && forall c :: c in Live(r.chunks) <==> c in Live(h.chunks) && c + 1 !in ds
    decreases |ds|
  {
    hide Consistent, Books, Freeable, Free, Live;
    if |ds| > 0 {
      FreeableStep(h, ds);
      FreeDropsOne(h, ds[0] - 1);
      FreeEachLeaves(Free(h, ds[0]), ds[1..]);
      assert forall d :: d in ds <==> d == ds[0] || d in ds[1..];
    }
  }

  /** Freeing every live allocation, in whatever order, leaves each block as the single
      free chunk it started as, and the counters say so. */
  lemma FreeAllRestoresBlocks(h: Heap, ds: seq<nat>, i: nat)
    requires Good(h) && Books(h) && i < |h.blocks| && Freeable(h, ds)
    requires forall c | c in Live(h.chunks) :: c + 1 in ds
    ensures var r := FreeEach(h, ds); var b := h.blocks[i];
      && First(b) in r.chunks
      && r.chunks[First(b)] == Chunk(b.words - BLOCK_HEADER_WORDS, true, false, true, i)
      && (forall d | d in r.chunks && r.chunks[d].block == i :: d == First(b))
      && r.acct.chunksAllocated == 0 && r.acct.allocatedSize == 0
  {
    hide Consistent, Freeable, FreeEach, Live, Sum;
    var r := FreeEach(h, ds);
    FreeEachLeaves(h, ds);
    assert Live(r.chunks) == map[];
    AllFreeIsOneChunk(r, i);
    NothingLive(r.chunks);
  }

  lemma {:induction false} NothingLive(cs: map<nat, Chunk>)
    requires Live(cs) == map[]
    ensures Sum(cs, LiveLength) == 0 && Sum(cs, LiveOne) == 0
    decreases |cs|
  {
    if |cs| > 0 {
      var c := Pick(cs);
      assert cs[c].free by { assert c !in Live(cs); }
      forall d | d in cs - {c}
        ensures (cs - {c})[d].free
      {
        assert d !in Live(cs);
      }
      NothingLive(cs - {c});
      SumWithout(cs, LiveLength, c);
      SumWithout(cs, LiveOne, c);
    }
  }

  // ----- whole runs -----

  /** What callers do; DoWrite is a store into one of their own data words. */
  datatype Op =
    | DoAllocate(size: nat, alignment: nat)
    | DoFree(data: nat)
    | DoAdd(block: Block)
    | DoWrite(at: nat, value: nat)

  /** The word i belongs to the data of the live allocation c. */
  predicate Owns(live: map<nat, nat>, c: nat, i: nat) { c in live && c < i < c + live[c] }

  ghost predicate Legal(h: Heap, op: Op)
    requires Good(h)
  {
    match op
    case DoAllocate(size, _) => size < WORD_LIMIT
    case DoFree(data) => data == 0 || data - 1 in h.chunks
    case DoAdd(b) => CanAdd(h, b)
    case DoWrite(at, _) => exists c: nat :: Owns(Live(h.chunks), c, at)
  }

  ghost function Apply(h: Heap, op: Op): (r: Heap)
    requires Good(h) && Legal(h, op)
    ensures Good(r) && (Books(h) ==> Books(r))
  {
    match op
    case DoAllocate(size, alignment) => Allocate(h, size, alignment).0
    case DoFree(data) => Free(h, data)
    case DoAdd(b) => AddBlock(h, b)
    case DoWrite(_, _) => h
  }

  ghost predicate LegalRun(h: Heap, ops: seq<Op>)
    requires Good(h)
    decreases |ops|
  {
    |ops| == 0 || (Legal(h, ops[0]) && LegalRun(Apply(h, ops[0]), ops[1..]))
  }

  /** Every run of allocations, frees, new blocks and stores keeps the tiling, the coalescing,
      the bins and the books. */
  ghost function Run(h: Heap, ops: seq<Op>): (r: Heap)
    requires Good(h) && LegalRun(h, ops)
    ensures Good(r) && (Books(h) ==> Books(r))
    decreases |ops|
  {
    if |ops| == 0 then h else Run(Apply(h, ops[0]), ops[1..])
  }

  lemma ApplyKeepsLive(h: Heap, op: Op, c: nat)
    requires Good(h) && Legal(h, op) && c in Live(h.chunks) && op != DoFree(c + 1)
    ensures c in Live(Apply(h, op).chunks) && Live(Apply(h, op).chunks)[c] == Live(h.chunks)[c]
  {
    hide Consistent, Books, BinIndex, ChunkSizeFor;
    match op
    case DoAllocate(size, alignment) =>
      if Allocate(h, size, alignment).1.At? {
        AllocateAddsOne(h, size, alignment);
      }
    case DoFree(data) =>
      if data != 0 && !h.chunks[data - 1].free {
        FreeDropsOne(h, data - 1);
      }
    case DoAdd(b) =>
    case DoWrite(_, _) =>
  }

  /** An allocation that a run never frees is still there at its end, as large as before. */
  lemma {:induction false} RunKeepsLive(h: Heap, ops: seq<Op>, c: nat)
    requires Good(h) && LegalRun(h, ops) && c in Live(h.chunks) && DoFree(c + 1) !in ops
    ensures c in Live(Run(h, ops).chunks) && Live(Run(h, ops).chunks)[c] == Live(h.chunks)[c]
    decreases |ops|
  {
    if |ops| > 0 {
      ApplyKeepsLive(h, ops[0], c);
      RunKeepsLive(Apply(h, ops[0]), ops[1..], c);
    }
  }
}
