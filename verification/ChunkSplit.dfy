/** Splitting a chunk in memory. */
module ChunkSplit {
  import opened ChunkWords
  import opened Heap
  import opened HeapBooks
  import opened HeapSteps
  import opened HeapMemory
  import opened ChunkOps

  predicate CanCut(m: seq<nat>, c: nat, words: nat) {
    FootAt(m, c) && 1 < words && words + 2 < WordCount(m[c])
  }

  /** The first part of split: the remainder's links and header, and the last flag
      handed over to it. */
  function SplitHead(m: seq<nat>, c: nat, words: nat): (r: seq<nat>)
    requires CanCut(m, c, words)
    ensures |r| == |m|
  {
    var rest := c + words;
    var cleared := m[rest + 1 := 0][rest + 2 := 0][rest := 8 * (WordCount(m[c]) - words)];
    if IsLast(m[c]) then cleared[rest := WithLast(cleared[rest])][c := WithoutLast(cleared[c])] else cleared
  }

  lemma SplitHeadFacts(m: seq<nat>, c: nat, words: nat)
    requires CanCut(m, c, words)
    ensures var r := SplitHead(m, c, words); var rest := c + words;
      && FootAt(r, rest) && NextAt(r, rest) == NextAt(m, c)
      && SizeBytes(r[rest]) == 8 * (WordCount(m[c]) - words) && IsLast(r[rest]) == IsLast(m[c])
      && r[rest] == 8 * (WordCount(m[c]) - words) + (if IsLast(m[c]) then FLAG_LAST else 0)
      && r[c] == WithoutLast(m[c]) && WordCount(r[c]) == WordCount(m[c])
  {
  }

  /** split: the remainder is made a free chunk, then this chunk shrinks and, if it is
      free, gets a new footer. */
  function SplitWords(m: seq<nat>, c: nat, words: nat): (r: seq<nat>)
    requires CanCut(m, c, words)
    ensures |r| == |m|
  {
    SplitHeadFacts(m, c, words);
    var cut := FinishWords(SplitHead(m, c, words), c + words);
    ShrinkFacts(m, c, words);
    var shrunk := cut[c := WithWords(cut[c], words)];
    if IsFree(shrunk[c]) then FinishWords(shrunk, c) else shrunk
  }

  lemma ShrinkFacts(m: seq<nat>, c: nat, words: nat)
    requires CanCut(m, c, words)
    ensures FootAt(SplitHead(m, c, words), c + words)
    ensures var cut := FinishWords(SplitHead(m, c, words), c + words);
      && cut[c] == WithoutLast(m[c])
      && FootAt(cut[c := WithWords(cut[c], words)], c)
  {
    hide SplitHead, FinishWords;
    SplitHeadFacts(m, c, words);
    FinishWordAt(SplitHead(m, c, words), c + words, c);
  }

  // ----- splitting a free chunk -----

  /** All the words split writes when the chunk is free. */
  function CutWords(m: seq<nat>, c: nat, k: Chunk, words: nat): (r: seq<nat>)
    requires c + k.words <= |m| && 1 < words && words + 2 < k.words
    ensures |r| == |m|
  {
    var rest := c + words;
    m[rest + 1 := 0][rest + 2 := 0]
      [rest := Header(Chunk(k.words - words, true, k.free, k.last, k.block))]
      [c + k.words - 1 := 8 * (k.words - words)]
      [c := Header(k.(words := words, last := false))]
      [rest - 1 := 8 * words]
  }

  lemma ShrunkHeader(k: Chunk, words: nat)
    requires k.free
    ensures var w := WithWords(WithoutLast(Header(k)), words);
      && w == Header(k.(words := words, last := false)) && IsFree(w) && WithFree(w) == w
  {
    HeaderUpdates(k, 0);
    HeaderUpdates(k.(last := false), words);
  }

  /** doFree word by word. */
  lemma FinishWordAt(m: seq<nat>, c: nat, i: nat)
    requires FootAt(m, c) && i < |m|
    ensures var n := NextAt(m, c);
      FinishWords(m, c)[i] ==
        if i == c then WithFree(m[c])
        else if i == n - 1 then SizeBytes(m[c])
        else if i == n && !IsLast(m[c]) then WithPredFree(m[n])
        else m[i]
  {
  }

  /** Of the other words the first part of split writes only the remainder's links. */
  lemma SplitHeadAt(m: seq<nat>, c: nat, words: nat, i: nat)
    requires CanCut(m, c, words) && i < |m| && i != c && i != c + words
    ensures SplitHead(m, c, words)[i] == if i == c + words + 1 || i == c + words + 2 then 0 else m[i]
  {
  }

  lemma CutWordAt(m: seq<nat>, c: nat, k: Chunk, words: nat, i: nat)
    requires c + k.words <= |m| && 3 < words && words + 3 < k.words && i < |m|
    ensures var rest := c + words;
      CutWords(m, c, k, words)[i] ==
        if i == rest - 1 then 8 * words
        else if i == c then Header(k.(words := words, last := false))
        else if i == c + k.words - 1 then 8 * (k.words - words)
        else if i == rest then Header(Chunk(k.words - words, true, k.free, k.last, k.block))
        else if i == rest + 1 || i == rest + 2 then 0
        else m[i]
  {
  }

  lemma SplitWordAt(m: seq<nat>, c: nat, k: Chunk, words: nat, i: nat)
    requires CanCut(m, c, words) && m[c] == Header(k) && k.free && i < |m| && words + 3 < k.words && words > 3
    requires !k.last ==> c + k.words < |m| && IsPredFree(m[c + k.words])
    ensures SplitWords(m, c, words)[i] == CutWords(m, c, k, words)[i]
  {
    hide CutWords, SplitHead, FinishWords;
    CutWordAt(m, c, k, words, i);
    if i != c && i != c + words {
      SplitHeadAt(m, c, words, i);
    }
    SplitHeadFacts(m, c, words);
    ShrinkFacts(m, c, words);
    ShrunkHeader(k, words);
    var rest := c + words;
    var head := SplitHead(m, c, words);
    var cut := FinishWords(head, rest);
    var shrunk := cut[c := WithWords(cut[c], words)];
    FinishWordAt(head, rest, i);
    FinishWordAt(head, rest, rest);
    FinishWordAt(head, rest, c);
    FinishWordAt(shrunk, c, i);
    if !k.last {
      SplitHeadAt(m, c, words, c + k.words);
    }
  }

  lemma SplitIsCut(m: seq<nat>, c: nat, k: Chunk, words: nat)
    requires CanCut(m, c, words) && m[c] == Header(k) && k.free && words + 3 < k.words && words > 3
    requires !k.last ==> c + k.words < |m| && IsPredFree(m[c + k.words])
    ensures SplitWords(m, c, words) == CutWords(m, c, k, words)
  {
    hide SplitWords, CutWords;
    forall i: nat | i < |m|
      ensures SplitWords(m, c, words)[i] == CutWords(m, c, k, words)[i]
    {
      SplitWordAt(m, c, k, words, i);
    }
  }

  lemma CutTags(m: seq<nat>, h: Heap, c: nat, words: nat)
    requires Consistent(h, {c}) && Tags(m, h.chunks) && |m| == h.capacity
    requires MIN_CHUNK_WORDS <= words && words + MIN_CHUNK_WORDS <= h.chunks[c].words && words % 2 == 0
    ensures c + h.chunks[c].words <= |m|
    ensures Tags(CutWords(m, c, h.chunks[c], words), Split(h.chunks, c, words))
    ensures SameOffPending(m, CutWords(m, c, h.chunks[c], words), h.chunks, {c})
  {
    var cs := h.chunks;
    var k := cs[c];
    var rest := c + words;
    var ds := Split(cs, c, words);
    HeadersPresent(m, h, {c}, c);
    var m' := CutWords(m, c, k, words);
    forall i: nat | i < |m| && !InPending(cs, {c}, i)
      ensures m'[i] == m[i]
    {
      assert !(c <= i < c + k.words);
    }
    forall d | d in ds
      ensures d < |m'| && m'[d] == Header(ds[d])
    {
      if d != c && d != rest {
        assert c < d ==> Apart(cs, c, d);
      }
    }
  }

  lemma CutFeet(m: seq<nat>, m': seq<nat>, h: Heap, c: nat, words: nat)
    requires Consistent(h, {c}) && |m| == h.capacity && Feet(m', h.chunks, {c})
    requires MIN_CHUNK_WORDS <= words && words + MIN_CHUNK_WORDS <= h.chunks[c].words && words % 2 == 0
    requires c + h.chunks[c].words <= |m| && m' == CutWords(m, c, h.chunks[c], words)
    ensures Feet(m', Split(h.chunks, c, words), {})
  {
    var ds := Split(h.chunks, c, words);
    forall d | d in ds && ds[d].free
      ensures FootOk(m', ds, d)
    {
      if d != c && d != c + words {
        assert FootOk(m', h.chunks, d);
      }
    }
  }

  /** After split both parts have right headers and footers and nothing else changed. */
  lemma SplitRepresents(m: seq<nat>, heads: seq<nat>, newest: nat, h: Heap, c: nat, words: nat)
    requires Consistent(h, {c}) && Represents(m, heads, newest, h, {}) && c in h.chunks
    requires MIN_CHUNK_WORDS <= words && words + MIN_CHUNK_WORDS <= h.chunks[c].words && words % 2 == 0
    ensures CanCut(m, c, words)
    ensures Represents(SplitWords(m, c, words), heads, newest, SplitOff(h, c, words), {})
    ensures Keeps(m, SplitWords(m, c, words), Live(h.chunks), h.blocks)
  {
    hide Consistent, ChunkOk, Tags, Feet, Lists, BlockLinks, Split, CutWords, SplitWords, Keeps, Live;
    HeadersPresent(m, h, {c}, c);
    FreeNext(h, c);
    var k := h.chunks[c];
    SplitIsCut(m, c, k, words);
    CutTags(m, h, c, words);
    var m' := CutWords(m, c, k, words);
    PendingWrites(m, m', heads, newest, h, {c}, {});
    assert {} + {c} == {c};
    CutFeet(m, m', h, c, words);
  }

  lemma FreeNext(h: Heap, c: nat)
    requires Consistent(h, {c})
    ensures c in h.chunks && h.chunks[c].free
    ensures !h.chunks[c].last ==> Next(h.chunks, c) in h.chunks && h.chunks[Next(h.chunks, c)].pred
  {
    assert c in {c};
    assert ChunkOk(h.chunks, h.blocks, c);
  }
}
