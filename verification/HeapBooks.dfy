/** Conservation: what the accounting fields add up to. */
module HeapBooks {
  import opened ChunkWords
  import opened Heap

  ghost function Pick(cs: map<nat, Chunk>): (c: nat)
    requires |cs| > 0
    ensures c in cs
  {
    var c :| c in cs;
    c
  }

  /** Sum of a measure over all chunks. */
  ghost function Sum(cs: map<nat, Chunk>, f: Chunk -> nat): nat
    decreases |cs|
  {
    if |cs| == 0 then 0
    else
      var c := Pick(cs);
      f(cs[c]) + Sum(cs - {c}, f)
  }

  lemma {:induction false} SumWithout(cs: map<nat, Chunk>, f: Chunk -> nat, c: nat)
    requires c in cs
    ensures Sum(cs, f) == f(cs[c]) + Sum(cs - {c}, f)
    decreases |cs|
  {
    var d := Pick(cs);
    if d != c {
      SumWithout(cs - {d}, f, c);
      SumWithout(cs - {c}, f, d);
      assert cs - {d} - {c} == cs - {c} - {d};
    }
  }

  lemma SumUpdate(cs: map<nat, Chunk>, f: Chunk -> nat, c: nat, k: Chunk)
    ensures Sum(cs[c := k], f) == f(k) + Sum(cs, f) - (if c in cs then f(cs[c]) else 0)
  {
    SumWithout(cs[c := k], f, c);
    assert cs[c := k] - {c} == cs - {c};
    if c in cs {
      SumWithout(cs, f, c);
    } else {
      assert cs - {c} == cs;
    }
  }

  function Length(k: Chunk): nat { k.words }

  function LiveLength(k: Chunk): nat { if k.free then 0 else k.words }

  function LiveOne(k: Chunk): nat { if k.free then 0 else 1 }

  /** The live allocations: where each starts and how many words it has. */
  function Live(cs: map<nat, Chunk>): map<nat, nat> {
    map c | c in cs && !cs[c].free :: cs[c].words
  }

  /** The laws the counters obey: total size is chunks plus block headers, allocated
      size is the live chunks, splits less merges is chunks less blocks, and overhead is
      the block headers and one header per further chunk. */
  ghost predicate Books(h: Heap) {
    && h.acct.blocks == |h.blocks|
    && h.acct.totalSize == 8 * Sum(h.chunks, Length) + 8 * BLOCK_HEADER_WORDS * |h.blocks|
    && h.acct.allocatedSize == 8 * Sum(h.chunks, LiveLength)
    && h.acct.chunksAllocated == Sum(h.chunks, LiveOne) == h.acct.allocations - h.acct.frees
    && h.acct.splits - h.acct.merges == |h.chunks| - |h.blocks|
    && h.acct.overheadSize == 8 * BLOCK_HEADER_WORDS * |h.blocks| + 8 * (|h.chunks| - |h.blocks|)
  }

  lemma SumSetFree(cs: map<nat, Chunk>, c: nat, free: bool, f: Chunk -> nat)
    requires c in cs && (!cs[c].last ==> Next(cs, c) in cs) && cs[c].words > 0
    requires forall k: Chunk, b: bool :: f(k.(pred := b)) == f(k)
    ensures Sum(SetFree(cs, c, free), f) == Sum(cs, f) - f(cs[c]) + f(cs[c].(free := free))
    ensures |SetFree(cs, c, free)| == |cs|
  {
    var k := cs[c].(free := free);
    SumUpdate(cs, f, c, k);
    assert cs[c := k].Keys == cs.Keys;
    if !cs[c].last {
      var n := Next(cs, c);
      SumUpdate(cs[c := k], f, n, cs[n].(pred := free));
      assert SetFree(cs, c, free).Keys == cs.Keys;
    }
  }

  lemma SetFreeBooks(cs: map<nat, Chunk>, c: nat, free: bool)
    requires c in cs && (!cs[c].last ==> Next(cs, c) in cs) && cs[c].words > 0 && cs[c].free != free
    ensures var ds := SetFree(cs, c, free);
      && |ds| == |cs| && Sum(ds, Length) == Sum(cs, Length)
      && Sum(ds, LiveLength)
          == Sum(cs, LiveLength) + (if free then 0 else cs[c].words) - (if free then cs[c].words else 0)
      && Sum(ds, LiveOne) == Sum(cs, LiveOne) + (if free then 0 else 1) - (if free then 1 else 0)
  {
    hide SetFree;
    hide Sum;
    SumSetFree(cs, c, free, Length);
    SumSetFree(cs, c, free, LiveLength);
    SumSetFree(cs, c, free, LiveOne);
  }

  lemma SetFreeLive(cs: map<nat, Chunk>, c: nat, free: bool)
    requires c in cs && (!cs[c].last ==> Next(cs, c) in cs) && cs[c].words > 0 && cs[c].free != free
    ensures Live(SetFree(cs, c, free)) == if free then Live(cs) - {c} else Live(cs)[c := cs[c].words]
  {
  }

  lemma SumMerge(cs: map<nat, Chunk>, c: nat, f: Chunk -> nat)
    requires c in cs && cs[c].words > 0 && Next(cs, c) in cs
    ensures var s := cs[Next(cs, c)];
      Sum(MergeNext(cs, c), f) == Sum(cs, f) - f(cs[c]) - f(s)
        + f(cs[c].(words := cs[c].words + s.words, last := s.last))
  {
    hide Sum;
    var n := Next(cs, c);
    var k := cs[c].(words := cs[c].words + cs[n].words, last := cs[n].last);
    SumWithout(cs, f, n);
    SumUpdate(cs - {n}, f, c, k);
    assert MergeNext(cs, c) == (cs - {n})[c := k];
  }

  lemma MergeBooks(cs: map<nat, Chunk>, c: nat)
    requires c in cs && cs[c].words > 0 && Next(cs, c) in cs && cs[c].free && cs[Next(cs, c)].free
    ensures var ds := MergeNext(cs, c);
      && |ds| == |cs| - 1 && Sum(ds, Length) == Sum(cs, Length)
      && Sum(ds, LiveLength) == Sum(cs, LiveLength) && Sum(ds, LiveOne) == Sum(cs, LiveOne)
  {
    hide Sum;
    SumMerge(cs, c, Length);
    SumMerge(cs, c, LiveLength);
    SumMerge(cs, c, LiveOne);
    assert MergeNext(cs, c).Keys == (cs - {Next(cs, c)}).Keys;
  }

  lemma MergeLive(cs: map<nat, Chunk>, c: nat)
    requires c in cs && cs[c].words > 0 && Next(cs, c) in cs && cs[c].free && cs[Next(cs, c)].free
    ensures Live(MergeNext(cs, c)) == Live(cs)
  {
  }

  lemma SumSplit(cs: map<nat, Chunk>, c: nat, words: nat, f: Chunk -> nat)
    requires c in cs && 0 < words <= cs[c].words && c + words !in cs
    ensures var k := cs[c];
      Sum(Split(cs, c, words), f) == Sum(cs, f) - f(k) + f(k.(words := words, last := false))
        + f(Chunk(k.words - words, true, k.free, k.last, k.block))
  {
    hide Sum;
    var k := cs[c];
    var l := k.(words := words, last := false);
    SumUpdate(cs, f, c, l);
    SumUpdate(cs[c := l], f, c + words, Chunk(k.words - words, true, k.free, k.last, k.block));
  }

  lemma SplitBooks(cs: map<nat, Chunk>, c: nat, words: nat)
    requires c in cs && cs[c].free && 0 < words <= cs[c].words && c + words !in cs
    ensures var ds := Split(cs, c, words);
      && |ds| == |cs| + 1 && Sum(ds, Length) == Sum(cs, Length)
      && Sum(ds, LiveLength) == Sum(cs, LiveLength) && Sum(ds, LiveOne) == Sum(cs, LiveOne)
  {
    assert Split(cs, c, words).Keys == cs.Keys + {c + words};
    hide Sum;
    hide Split;
    SumSplit(cs, c, words, Length);
    SumSplit(cs, c, words, LiveLength);
    SumSplit(cs, c, words, LiveOne);
  }

  lemma SplitLive(cs: map<nat, Chunk>, c: nat, words: nat)
    requires c in cs && cs[c].free && 0 < words <= cs[c].words && c + words !in cs
    ensures Live(Split(cs, c, words)) == Live(cs)
  {
  }
}
