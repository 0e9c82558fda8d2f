/** The chunk operations as functions on memory words, flag by flag and in the order
    the words are written, and what each means for the heap value. */
module ChunkOps {
  import opened ChunkWords
  import opened Heap
  import opened HeapBooks
  import opened HeapSteps
  import opened HeapMemory

  predicate HeaderAt(m: seq<nat>, c: nat) {
    c < |m| && (!IsLast(m[c]) ==> c + WordCount(m[c]) < |m|)
  }

  function NextAt(m: seq<nat>, c: nat): nat
    requires c < |m|
  {
    c + WordCount(m[c])
  }

  /** markFree and markNotFree: the chunk's own flag, then the successor's. */
  function MarkWords(m: seq<nat>, c: nat, free: bool): (r: seq<nat>)
    requires HeaderAt(m, c)
    ensures |r| == |m|
  {
    var own := m[c := if free then WithFree(m[c]) else WithoutFree(m[c])];
    if IsLast(m[c]) then own
    else
      var n := NextAt(m, c);
      own[n := if free then WithPredFree(own[n]) else WithoutPredFree(own[n])]
  }

  /** mergeWithSuccessor: does nothing unless there is a free successor. */
  function MergeWords(m: seq<nat>, c: nat): (r: seq<nat>)
    requires HeaderAt(m, c)
    ensures |r| == |m|
  {
    if IsLast(m[c]) || !IsFree(m[NextAt(m, c)]) then m
    else
      var n := NextAt(m, c);
      var grown := m[c := WithWords(m[c], WordCount(m[c]) + WordCount(m[n]))];
      if IsLast(m[n]) then grown[c := WithLast(grown[c])] else grown
  }

  predicate FootAt(m: seq<nat>, c: nat) {
    HeaderAt(m, c) && 1 < WordCount(m[c]) && c + WordCount(m[c]) <= |m|
  }

  /** doFree: mark free, write the footer, tell the successor again. */
  function FinishWords(m: seq<nat>, c: nat): (r: seq<nat>)
    requires FootAt(m, c)
    ensures |r| == |m|
  {
    var n := NextAt(m, c);
    var footed := MarkWords(m, c, true)[n - 1 := SizeBytes(m[c])];
    if IsLast(m[c]) then footed else footed[n := WithPredFree(footed[n])]
  }

  // ----- what they mean -----

  lemma HeadersPresent(m: seq<nat>, h: Heap, pending: set<nat>, c: nat)
    requires Consistent(h, pending) && Tags(m, h.chunks) && |m| == h.capacity && c in h.chunks
    ensures ChunkOk(h.chunks, h.blocks, c) && HeaderAt(m, c) && FootAt(m, c)
    ensures m[c] == Header(h.chunks[c]) && NextAt(m, c) == Next(h.chunks, c)
    ensures !h.chunks[c].last ==> m[Next(h.chunks, c)] == Header(h.chunks[Next(h.chunks, c)])
  {
    assert ChunkOk(h.chunks, h.blocks, c);
    if !h.chunks[c].last {
      assert ChunkOk(h.chunks, h.blocks, Next(h.chunks, c));
    }
  }

  lemma MarkTags(m: seq<nat>, h: Heap, pending: set<nat>, c: nat, free: bool)
    requires Consistent(h, pending) && Tags(m, h.chunks) && |m| == h.capacity && c in h.chunks
    ensures HeaderAt(m, c) && ChunkOk(h.chunks, h.blocks, c)
    ensures Tags(MarkWords(m, c, free), SetFree(h.chunks, c, free))
    ensures SameOffHeaders(m, MarkWords(m, c, free), h.chunks)
  {
    HeadersPresent(m, h, pending, c);
    HeaderUpdates(h.chunks[c], 0);
    if !h.chunks[c].last {
      HeaderUpdates(h.chunks[Next(h.chunks, c)], 0);
    }
  }

  lemma MergeTags(m: seq<nat>, h: Heap, pending: set<nat>, c: nat)
    requires Consistent(h, pending) && Tags(m, h.chunks) && |m| == h.capacity && c in h.chunks
    requires !h.chunks[c].last && Next(h.chunks, c) in h.chunks && h.chunks[Next(h.chunks, c)].free
    ensures HeaderAt(m, c) && ChunkOk(h.chunks, h.blocks, c)
    ensures Tags(MergeWords(m, c), MergeNext(h.chunks, c))
    ensures SameOffHeaders(m, MergeWords(m, c), h.chunks)
  {
    hide Consistent, Header, ChunkOk, HeaderAt, MergeWords;
    var cs := h.chunks;
    var n := Next(cs, c);
    var k := cs[c].(words := cs[c].words + cs[n].words, last := cs[n].last);
    MergeIsStore(m, h, pending, c, k);
    assert Tags(m, cs - {n});
  }

  lemma MergeIsStore(m: seq<nat>, h: Heap, pending: set<nat>, c: nat, k: Chunk)
    requires Consistent(h, pending) && Tags(m, h.chunks) && |m| == h.capacity && c in h.chunks
    requires !h.chunks[c].last && Next(h.chunks, c) in h.chunks && h.chunks[Next(h.chunks, c)].free
    requires var s := h.chunks[Next(h.chunks, c)];
      k == h.chunks[c].(words := h.chunks[c].words + s.words, last := s.last)
    ensures c < |m| && HeaderAt(m, c) && ChunkOk(h.chunks, h.blocks, c) && MergeWords(m, c) == m[c := Header(k)]
  {
    HeadersPresent(m, h, pending, c);
    MergedHeader(h.chunks[c], h.chunks[Next(h.chunks, c)]);
  }

  lemma MergedHeader(k: Chunk, s: Chunk)
    requires !k.last
    ensures var grown := WithWords(Header(k), k.words + s.words);
      && grown == Header(k.(words := k.words + s.words))
      && (if s.last then WithLast(grown) else grown) == Header(k.(words := k.words + s.words, last := s.last))
  {
    HeaderUpdates(k, k.words + s.words);
    HeaderUpdates(k.(words := k.words + s.words), 0);
  }

  /** On a chunk that is marked free already, doFree only writes the footer. */
  lemma FinishIsFooter(m: seq<nat>, h: Heap, pending: set<nat>, c: nat)
    requires Consistent(h, pending) && Tags(m, h.chunks) && |m| == h.capacity && c in h.chunks
    requires h.chunks[c].free
    ensures FootAt(m, c)
    ensures FinishWords(m, c) == m[NextAt(m, c) - 1 := 8 * h.chunks[c].words]
  {
    HeadersPresent(m, h, pending, c);
    var n := NextAt(m, c);
    var foot := m[n - 1 := 8 * h.chunks[c].words];
    assert MarkWords(m, c, true) == m;
    if !h.chunks[c].last {
      assert foot[n] == m[n];
      assert foot[n := foot[n]] == foot;
    }
  }

  lemma FootWritten(m: seq<nat>, m': seq<nat>, h: Heap, c: nat)
    requires Consistent(h, {c}) && |m| == h.capacity && FootAt(m, c)
    requires NextAt(m, c) == Next(h.chunks, c)
    requires m' == m[NextAt(m, c) - 1 := 8 * h.chunks[c].words] && Tags(m, h.chunks)
    requires Feet(m', h.chunks, {c})
    ensures Tags(m', h.chunks) && Feet(m', h.chunks, {})
  {
    var foot := NextAt(m, c) - 1;
    NoHeaderInside(h.chunks, h.blocks, h.capacity, c, foot);
    forall d | d in h.chunks && h.chunks[d].free
      ensures FootOk(m', h.chunks, d)
    {
      assert d != c ==> FootOk(m', h.chunks, d);
    }
  }

  /** After doFree the footer of c is right and nothing else has changed. */
  lemma FinishRepresents(m: seq<nat>, heads: seq<nat>, newest: nat, h: Heap, c: nat)
    requires Consistent(h, {c}) && Represents(m, heads, newest, h, {c})
    ensures FootAt(m, c)
    ensures Represents(FinishWords(m, c), heads, newest, h, {})
    ensures Keeps(m, FinishWords(m, c), Live(h.chunks), h.blocks)
  {
    FinishIsFooter(m, h, {c}, c);
    HeadersPresent(m, h, {c}, c);
    var m' := FinishWords(m, c);
    assert InPending(h.chunks, {c}, NextAt(m, c) - 1);
    hide Consistent;
    hide ChunkOk;
    hide InPending;
    hide FinishWords;
    assert SameOffPending(m, m', h.chunks, {c});
    PendingWrites(m, m', heads, newest, h, {c}, {c});
    assert {c} + {c} == {c};
    FootWritten(m, m', h, c);
  }

  // ----- flag changes and merges, as steps of the heap value -----

  /** A step that writes headers only: new tags, and the same free chunks once the ones
      at work are set aside. */
  lemma HeaderStep(m: seq<nat>, m': seq<nat>, heads: seq<nat>, newest: nat, h: Heap, r: Heap,
                   pending: set<nat>, unfooted: set<nat>, before: set<nat>, after: set<nat>)
    requires Consistent(h, pending) && Represents(m, heads, newest, h, unfooted) && unfooted <= before
    requires SameOffHeaders(m, m', h.chunks) && Tags(m', r.chunks)
    requires r.bins == h.bins && r.blocks == h.blocks && r.capacity == h.capacity
    requires SameFree(h.chunks, r.chunks, before, after)
    ensures Represents(m', heads, newest, r, after)
    ensures Keeps(m, m', Live(h.chunks), h.blocks)
  {
    hide Consistent, SameFree, Tags, Lists, BlockLinks, Keeps, Live, Header, FootOk;
    HeaderWrites(m, m', heads, newest, h, pending, unfooted);
    assert Feet(m', h.chunks, before);
    FeetFrame(m', h.chunks, r.chunks, before, after);
  }

  lemma MarkFreeSame(h: Heap, c: nat)
    requires Good(h) && c in h.chunks && !h.chunks[c].free
    ensures SameFree(h.chunks, MarkFree(h, c).chunks, {}, {c})
  {
    assert ChunkOk(h.chunks, h.blocks, c);
  }

  lemma MarkFreeRepresents(m: seq<nat>, heads: seq<nat>, newest: nat, h: Heap, c: nat)
    requires Good(h) && Represents(m, heads, newest, h, {}) && c in h.chunks && !h.chunks[c].free
    ensures HeaderAt(m, c)
    ensures Represents(MarkWords(m, c, true), heads, newest, MarkFree(h, c), {c})
    ensures Keeps(m, MarkWords(m, c, true), Live(h.chunks) - {c}, h.blocks)
  {
    hide Consistent, ChunkOk, SameFree, Tags, Lists, Feet, BlockLinks, Keeps, Live, SetFree, MarkWords;
    MarkTags(m, h, {}, c, true);
    MarkFreeSame(h, c);
    HeaderStep(m, MarkWords(m, c, true), heads, newest, h, MarkFree(h, c), {}, {}, {}, {c});
    FewerShielded(m, MarkWords(m, c, true), Live(h.chunks), Live(h.chunks) - {c}, h.blocks);
  }

  lemma FewerShielded(m: seq<nat>, m': seq<nat>, live: map<nat, nat>, fewer: map<nat, nat>, bs: seq<Block>)
    requires Keeps(m, m', live, bs)
    requires forall d | d in fewer :: d in live && live[d] == fewer[d]
    ensures Keeps(m, m', fewer, bs)
  {
    forall i: nat | i < |m| && Shielded(fewer, bs, i)
      ensures m'[i] == m[i]
    {
      assert Shielded(live, bs, i);
    }
  }

  lemma MarkUsedSame(h: Heap, c: nat)
    requires Consistent(h, {c})
    ensures c in h.chunks && SameFree(h.chunks, MarkUsed(h, c).chunks, {c}, {})
  {
    assert c in {c};
    assert ChunkOk(h.chunks, h.blocks, c);
  }

  lemma MarkUsedRepresents(m: seq<nat>, heads: seq<nat>, newest: nat, h: Heap, c: nat)
    requires Consistent(h, {c}) && Represents(m, heads, newest, h, {})
    ensures HeaderAt(m, c)
    ensures Represents(MarkWords(m, c, false), heads, newest, MarkUsed(h, c), {})
    ensures Keeps(m, MarkWords(m, c, false), Live(h.chunks), h.blocks)
  {
    hide Consistent, ChunkOk, SameFree, Tags, Lists, Feet, BlockLinks, Keeps, Live, SetFree, MarkWords;
    MarkUsedSame(h, c);
    MarkTags(m, h, {c}, c, false);
    HeaderStep(m, MarkWords(m, c, false), heads, newest, h, MarkUsed(h, c), {c}, {}, {c}, {});
  }

  lemma MergeSame(h: Heap, pending: set<nat>, c: nat)
    requires Consistent(h, pending) && c in pending && !h.chunks[c].last && Next(h.chunks, c) in pending
    ensures h.chunks[Next(h.chunks, c)].free
    ensures SameFree(h.chunks, Merge(h, pending, c).chunks, {c, Next(h.chunks, c)}, {c})
  {
  }

  lemma MergeRepresents(m: seq<nat>, heads: seq<nat>, newest: nat, h: Heap,
                        pending: set<nat>, unfooted: set<nat>, c: nat)
    requires Consistent(h, pending) && Represents(m, heads, newest, h, unfooted)
    requires c in pending && c in h.chunks && !h.chunks[c].last
    requires Next(h.chunks, c) in pending && Next(h.chunks, c) in h.chunks && unfooted <= {c, Next(h.chunks, c)}
    ensures HeaderAt(m, c)
    ensures Represents(MergeWords(m, c), heads, newest, Merge(h, pending, c), {c})
    ensures Keeps(m, MergeWords(m, c), Live(h.chunks), h.blocks)
  {
    hide Consistent, ChunkOk, SameFree, Tags, Lists, Feet, BlockLinks, Keeps, Live, MergeNext, MergeWords;
    MergeSame(h, pending, c);
    MergeTags(m, h, pending, c);
    HeaderStep(m, MergeWords(m, c), heads, newest, h, Merge(h, pending, c),
               pending, unfooted, {c, Next(h.chunks, c)}, {c});
  }
}
