/** The arena's steps on the heap value, each with the invariant it keeps. */
module HeapSteps {
  import opened ChunkWords
  import opened BinTable
  import opened Heap
  import opened HeapBooks

  // ----- positions in a bin -----

  /** How many leading chunks of a bin are smaller than words. */
  function FitIndex(cs: map<nat, Chunk>, l: seq<nat>, words: nat): (k: nat)
    requires forall c | c in l :: c in cs
    ensures k <= |l|
    ensures forall j | 0 <= j < k :: cs[l[j]].words < words
    ensures k < |l| ==> cs[l[k]].words >= words
  {
    if |l| == 0 || cs[l[0]].words >= words then 0
    else 1 + FitIndex(cs, l[1..], words)
  }

  function Position(l: seq<nat>, c: nat): (k: nat)
    requires c in l
    ensures k < |l| && l[k] == c
  {
    if l[0] == c then 0 else 1 + Position(l[1..], c)
  }

  function RemoveAt(l: seq<nat>, k: nat): (r: seq<nat>)
    requires k < |l|
    ensures |r| == |l| - 1
    ensures forall j | 0 <= j < |r| :: r[j] == if j < k then l[j] else l[j + 1]
  {
    l[..k] + l[k + 1..]
  }

  function InsertAt(l: seq<nat>, k: nat, c: nat): (r: seq<nat>)
    requires k <= |l|
    ensures |r| == |l| + 1
    ensures forall j | 0 <= j < |r| :: r[j] == if j < k then l[j] else if j == k then c else l[j - 1]
  {
    l[..k] + [c] + l[k..]
  }

  // ----- bins under steps -----

  /** ds has the same free chunks as cs, once the pending ones are set aside. */
  ghost predicate SameFree(cs: map<nat, Chunk>, ds: map<nat, Chunk>, before: set<nat>, after: set<nat>) {
    && (forall d | d in cs && cs[d].free && d !in before ::
          d in ds && ds[d].free && d !in after && ds[d].words == cs[d].words)
    && (forall d | d in ds && ds[d].free && d !in after :: d in cs && cs[d].free && d !in before)
  }

  lemma BinnedFrame(cs: map<nat, Chunk>, ds: map<nat, Chunk>, bins: seq<seq<nat>>, before: set<nat>, after: set<nat>)
    requires Binned(cs, bins, before) && SameFree(cs, ds, before, after)
    ensures Binned(ds, bins, after)
  {
    forall i | 0 <= i < BIN_COUNT
      ensures BinOk(ds, bins[i], i, after)
    {
      assert BinOk(cs, bins[i], i, before);
      forall k | 0 <= k < |bins[i]|
        ensures Member(ds, bins[i][k], i, after)
      {
        assert Member(cs, bins[i][k], i, before);
      }
    }
  }

  lemma MemberBin(cs: map<nat, Chunk>, bins: seq<seq<nat>>, pending: set<nat>, c: nat, i: nat)
    requires Binned(cs, bins, pending) && i < BIN_COUNT && c in bins[i]
    ensures Member(cs, c, i, pending)
  {
    assert BinOk(cs, bins[i], i, pending);
    assert bins[i][Position(bins[i], c)] == c;
  }

  lemma StaysIn(l: seq<nat>, k: nat, d: nat)
    requires d in l && k < |l| && d != l[k]
    ensures d in RemoveAt(l, k)
  {
    var n := Position(l, d);
    assert RemoveAt(l, k)[if n < k then n else n - 1] == d;
  }

  lemma RemoveSorted(cs: map<nat, Chunk>, l: seq<nat>, i: nat, pending: set<nat>, c: nat)
    requires BinOk(cs, l, i, pending) && c in l
    ensures BinOk(cs, RemoveAt(l, Position(l, c)), i, pending + {c})
  {
    var k := Position(l, c);
    var l' := RemoveAt(l, k);
    forall n | 0 <= n < |l'|
      ensures Member(cs, l'[n], i, pending + {c})
    {
      assert Member(cs, l[if n < k then n else n + 1], i, pending);
    }
  }

  lemma OtherBin(cs: map<nat, Chunk>, l: seq<nat>, j: nat, pending: set<nat>, c: nat)
    requires BinOk(cs, l, j, pending) && c in cs && BinFor(cs, c) != j
    ensures BinOk(cs, l, j, pending + {c}) && BinOk(cs, l, j, pending - {c})
  {
    forall n | 0 <= n < |l|
      ensures Member(cs, l[n], j, pending + {c}) && Member(cs, l[n], j, pending - {c})
    {
      assert Member(cs, l[n], j, pending);
    }
  }

  lemma UnbinBinned(cs: map<nat, Chunk>, bins: seq<seq<nat>>, pending: set<nat>, c: nat)
    requires Binned(cs, bins, pending) && c in cs && cs[c].free && c !in pending
    ensures c in bins[BinFor(cs, c)]
    ensures var i := BinFor(cs, c);
      Binned(cs, bins[i := RemoveAt(bins[i], Position(bins[i], c))], pending + {c})
  {
    var i := BinFor(cs, c);
    var l := bins[i];
    var k := Position(l, c);
    var l' := RemoveAt(l, k);
    var bins' := bins[i := l'];
    forall j | 0 <= j < BIN_COUNT
      ensures BinOk(cs, bins'[j], j, pending + {c})
    {
      assert BinOk(cs, bins[j], j, pending);
      if j == i {
        RemoveSorted(cs, l, i, pending, c);
      } else {
        OtherBin(cs, bins[j], j, pending, c);
      }
    }
    forall d | d in cs && cs[d].free && d !in pending + {c}
      ensures d in bins'[BinFor(cs, d)]
    {
      var j := BinFor(cs, d);
      assert d in bins[j];
      if j == i {
        StaysIn(l, k, d);
      }
    }
  }

  lemma EnbinBinned(cs: map<nat, Chunk>, bins: seq<seq<nat>>, pending: set<nat>, c: nat)
    requires Binned(cs, bins, pending) && c in cs && cs[c].free && c in pending
    ensures forall d | d in bins[BinFor(cs, c)] :: d in cs
    ensures var i := BinFor(cs, c);
      Binned(cs, bins[i := InsertAt(bins[i], FitIndex(cs, bins[i], cs[c].words), c)], pending - {c})
  {
    hide BinIndex, FitIndex;
    var i := BinFor(cs, c);
    var l := bins[i];
    forall d | d in l
      ensures d in cs
    {
      MemberBin(cs, bins, pending, d, i);
    }
    assert BinOk(cs, l, i, pending);
    var k := FitIndex(cs, l, cs[c].words);
    var l' := InsertAt(l, k, c);
    var bins' := bins[i := l'];
    forall j | 0 <= j < BIN_COUNT
      ensures BinOk(cs, bins'[j], j, pending - {c})
    {
      assert BinOk(cs, bins[j], j, pending);
      if j == i {
        InsertSorted(cs, l, i, pending, c);
      } else {
        OtherBin(cs, bins[j], j, pending, c);
      }
    }
    forall d | d in cs && cs[d].free && d !in pending - {c}
      ensures d in bins'[BinFor(cs, d)]
    {
      if d == c {
        assert l'[k] == c;
      } else {
        var j := BinFor(cs, d);
        var n := Position(bins[j], d);
        if j == i {
          assert l'[if n < k then n else n + 1] == d;
        }
      }
    }
  }

  lemma InsertSorted(cs: map<nat, Chunk>, l: seq<nat>, i: nat, pending: set<nat>, c: nat)
    requires BinOk(cs, l, i, pending) && (forall d | d in l :: d in cs)
    requires c in cs && cs[c].free && c in pending && BinFor(cs, c) == i
    ensures BinOk(cs, InsertAt(l, FitIndex(cs, l, cs[c].words), c), i, pending - {c})
  {
    hide BinIndex, FitIndex;
    var k := FitIndex(cs, l, cs[c].words);
    var l' := InsertAt(l, k, c);
    forall n | 0 <= n < |l'|
      ensures Member(cs, l'[n], i, pending - {c})
    {
      if n != k {
        assert Member(cs, l[if n < k then n else n - 1], i, pending);
      }
    }
    forall a, b | 0 <= a < b < |l'|
      ensures l'[a] != l'[b] && cs[l'[a]].words <= cs[l'[b]].words
    {
      if a == k {
        assert Member(cs, l[b - 1], i, pending);
        assert k < b - 1 ==> cs[l[k]].words <= cs[l[b - 1]].words;
      } else if b == k {
        assert Member(cs, l[a], i, pending);
      }
    }
  }

  // ----- steps -----

  ghost predicate Good(h: Heap) { Consistent(h, {}) }

  /** c's neighbours are in use, or set aside themselves. */
  ghost predicate Settled(cs: map<nat, Chunk>, c: nat, others: set<nat>)
    requires c in cs
  {
    && (!cs[c].last && Next(cs, c) in cs && cs[Next(cs, c)].free ==> Next(cs, c) in others)
    && (forall p: nat | FreeBefore(cs, p, c) :: p in others)
  }

  lemma LengthPositive(h: Heap, pending: set<nat>, c: nat)
    requires Consistent(h, pending) && c in h.chunks
    ensures h.chunks[c].words >= MIN_CHUNK_WORDS
  {
    assert ChunkOk(h.chunks, h.blocks, c);
  }

  lemma UnbinConsistent(h: Heap, pending: set<nat>, c: nat)
    requires Consistent(h, pending) && c in h.chunks && h.chunks[c].free && c !in pending
    ensures c in h.bins[BinFor(h.chunks, c)]
    ensures var i := BinFor(h.chunks, c);
      Consistent(h.(bins := h.bins[i := RemoveAt(h.bins[i], Position(h.bins[i], c))]), pending + {c})
  {
    UnbinBinned(h.chunks, h.bins, pending, c);
    forall d | d in h.chunks
      ensures CoalescedAt(h.chunks, d, pending + {c})
    {
      assert CoalescedAt(h.chunks, d, pending);
    }
  }

  /** Takes a free chunk out of its bin. */
  ghost function Unbin(h: Heap, pending: set<nat>, c: nat): (r: Heap)
    requires Consistent(h, pending) && c in h.chunks && h.chunks[c].free && c !in pending
    ensures Consistent(r, pending + {c})
    ensures r == h.(bins := r.bins) && (Books(h) ==> Books(r))
  {
    UnbinConsistent(h, pending, c);
    var i := BinFor(h.chunks, c);
    h.(bins := h.bins[i := RemoveAt(h.bins[i], Position(h.bins[i], c))])
  }

  lemma UnbinSizes(h: Heap, pending: set<nat>, c: nat)
    requires Consistent(h, pending) && c in h.chunks && h.chunks[c].free && c !in pending
    ensures var r := Unbin(h, pending, c);
      && |h.bins| == |r.bins| == BIN_COUNT && |h.bins[BinFor(h.chunks, c)]| > 0
      && forall i | 0 <= i < BIN_COUNT ::
           |r.bins[i]| == |h.bins[i]| - if i == BinFor(h.chunks, c) then 1 else 0
  {
    UnbinConsistent(h, pending, c);
  }

  lemma EnbinSizes(h: Heap, pending: set<nat>, c: nat)
    requires Consistent(h, pending) && c in pending && Settled(h.chunks, c, pending - {c})
    ensures var r := Enbin(h, pending, c);
      && |h.bins| == |r.bins| == BIN_COUNT
      && forall i | 0 <= i < BIN_COUNT ::
           |r.bins[i]| == |h.bins[i]| + if i == BinFor(h.chunks, c) then 1 else 0
  {
    EnbinConsistent(h, pending, c);
  }

  lemma EnbinConsistent(h: Heap, pending: set<nat>, c: nat)
    requires Consistent(h, pending) && c in pending && Settled(h.chunks, c, pending - {c})
    ensures forall d | d in h.bins[BinFor(h.chunks, c)] :: d in h.chunks
    ensures var i := BinFor(h.chunks, c);
      Consistent(h.(bins := h.bins[i :=
        InsertAt(h.bins[i], FitIndex(h.chunks, h.bins[i], h.chunks[c].words), c)]), pending - {c})
  {
    hide Tiled, Binned, CoalescedAt, Settled;
    EnbinBinned(h.chunks, h.bins, pending, c);
    forall d | d in h.chunks
      ensures CoalescedAt(h.chunks, d, pending - {c})
    {
      assert CoalescedAt(h.chunks, d, pending);
      SettledNeighbour(h.chunks, c, d, pending);
    }
  }

  lemma SettledNeighbour(cs: map<nat, Chunk>, c: nat, d: nat, pending: set<nat>)
    requires c in cs && d in cs && CoalescedAt(cs, d, pending) && Settled(cs, c, pending - {c})
    ensures CoalescedAt(cs, d, pending - {c})
  {
    assert !cs[d].last && cs[d].free && Next(cs, d) == c ==> FreeBefore(cs, d, c);
  }

  /** Puts a free chunk into its bin, which is kept in order of size. */
  ghost function Enbin(h: Heap, pending: set<nat>, c: nat): (r: Heap)
    requires Consistent(h, pending) && c in pending && Settled(h.chunks, c, pending - {c})
    ensures Consistent(r, pending - {c})
    ensures r == h.(bins := r.bins) && (Books(h) ==> Books(r))
  {
    EnbinConsistent(h, pending, c);
    var i := BinFor(h.chunks, c);
    h.(bins := h.bins[i := InsertAt(h.bins[i], FitIndex(h.chunks, h.bins[i], h.chunks[c].words), c)])
  }

  lemma SetFreeConsistent(h: Heap, c: nat, free: bool)
    requires Consistent(h, if free then {} else {c}) && c in h.chunks && h.chunks[c].free != free
    ensures !h.chunks[c].last ==> Next(h.chunks, c) in h.chunks
    ensures Consistent(h.(chunks := SetFree(h.chunks, c, free)), if free then {c} else {})
  {
    hide ChunkOk, Apart, BlocksOk, SetFree, Binned, CoalescedAt, SameFree;
    SetFreeTiled(h.chunks, h.blocks, h.capacity, c, free);
    SetFreeShape(h.chunks, h.blocks, c, free);
    var cs, ds := h.chunks, SetFree(h.chunks, c, free);
    var before, after := if free then {} else {c}, if free then {c} else {};
    SetFreeRest(cs, c, free);
    BinnedFrame(cs, ds, h.bins, before, after);
    forall d | d in ds
      ensures CoalescedAt(ds, d, after)
    {
      assert CoalescedAt(cs, d, before);
      SetFreeNeighbours(cs, c, free, d);
    }
  }

  /** Only the chunk itself changes between free and live. */
  lemma SetFreeRest(cs: map<nat, Chunk>, c: nat, free: bool)
    requires c in cs && (!cs[c].last ==> Next(cs, c) in cs) && cs[c].free != free
    ensures SameFree(cs, SetFree(cs, c, free), if free then {} else {c}, if free then {c} else {})
    ensures c in SetFree(cs, c, free) && SetFree(cs, c, free)[c].free == free
  {
  }

  lemma SetFreeNeighbours(cs: map<nat, Chunk>, c: nat, free: bool, d: nat)
    requires c in cs && (!cs[c].last ==> Next(cs, c) in cs) && d in cs
    requires CoalescedAt(cs, d, if free then {} else {c})
    ensures d in SetFree(cs, c, free) && CoalescedAt(SetFree(cs, c, free), d, if free then {c} else {})
  {
  }

  /** A live chunk becomes free; it is not in a bin yet. */
  ghost function MarkFree(h: Heap, c: nat): (r: Heap)
    requires Good(h) && c in h.chunks && !h.chunks[c].free
    ensures Consistent(r, {c}) && (Books(h) ==> Books(r))
    ensures Live(r.chunks) == Live(h.chunks) - {c} && r.blocks == h.blocks && r.capacity == h.capacity
  {
    SetFreeConsistent(h, c, true);
    LengthPositive(h, {}, c);
    SetFreeBooks(h.chunks, c, true);
    SetFreeLive(h.chunks, c, true);
    h.(chunks := SetFree(h.chunks, c, true),
       acct := h.acct.(frees := h.acct.frees + 1,
                       chunksAllocated := h.acct.chunksAllocated - 1,
                       allocatedSize := h.acct.allocatedSize - 8 * h.chunks[c].words))
  }

  /** A free chunk that is in no bin is handed to the caller. */
  ghost function MarkUsed(h: Heap, c: nat): (r: Heap)
    requires Consistent(h, {c})
    ensures Good(r) && (Books(h) ==> Books(r))
    ensures c in r.chunks && r.chunks[c].words == h.chunks[c].words
    ensures Live(r.chunks) == Live(h.chunks)[c := h.chunks[c].words]
    ensures r.blocks == h.blocks && r.capacity == h.capacity
  {
    SetFreeConsistent(h, c, false);
    LengthPositive(h, {c}, c);
    SetFreeBooks(h.chunks, c, false);
    SetFreeLive(h.chunks, c, false);
    h.(chunks := SetFree(h.chunks, c, false),
       acct := h.acct.(allocations := h.acct.allocations + 1,
                       chunksAllocated := h.acct.chunksAllocated + 1,
                       allocatedSize := h.acct.allocatedSize + 8 * h.chunks[c].words))
  }

  lemma MergeConsistent(h: Heap, pending: set<nat>, c: nat)
    requires Consistent(h, pending) && c in pending && !h.chunks[c].last
    requires Next(h.chunks, c) in pending
    ensures Next(h.chunks, c) in h.chunks
    ensures Consistent(h.(chunks := MergeNext(h.chunks, c)), pending - {Next(h.chunks, c)})
  {
    var cs := h.chunks;
    assert ChunkOk(cs, h.blocks, c);
    var s := Next(cs, c);
    MergeTiled(cs, h.blocks, h.capacity, c);
    var ds := MergeNext(cs, c);
    BinnedFrame(cs, ds, h.bins, pending, pending - {s});
    forall d | d in ds
      ensures CoalescedAt(ds, d, pending - {s})
    {
      assert CoalescedAt(cs, d, pending);
      if d != c {
        NextInjective(cs, h.blocks, h.capacity, c, d);
      }
    }
  }

  /** Joins c with its successor, both free and both out of their bins. */
  ghost function Merge(h: Heap, pending: set<nat>, c: nat): (r: Heap)
    requires Consistent(h, pending) && c in pending && !h.chunks[c].last
    requires Next(h.chunks, c) in pending
    ensures Consistent(r, pending - {Next(h.chunks, c)}) && (Books(h) ==> Books(r))
    ensures Live(r.chunks) == Live(h.chunks) && r.blocks == h.blocks && r.capacity == h.capacity
  {
    MergeConsistent(h, pending, c);
    LengthPositive(h, pending, c);
    MergeBooks(h.chunks, c);
    MergeLive(h.chunks, c);
    h.(chunks := MergeNext(h.chunks, c),
       acct := h.acct.(merges := h.acct.merges + 1, overheadSize := h.acct.overheadSize - 8))
  }

  lemma SplitConsistent(h: Heap, c: nat, words: nat)
    requires Consistent(h, {c})
    requires MIN_CHUNK_WORDS <= words && words + MIN_CHUNK_WORDS <= h.chunks[c].words && words % 2 == 0
    ensures c + words !in h.chunks
    ensures Consistent(h.(chunks := Split(h.chunks, c, words)), {c, c + words})
  {
    var cs := h.chunks;
    SplitTiled(cs, h.blocks, h.capacity, c, words);
    var ds := Split(cs, c, words);
    BinnedFrame(cs, ds, h.bins, {c}, {c, c + words});
    forall d | d in ds
      ensures CoalescedAt(ds, d, {c, c + words})
    {
      if d in cs {
        assert CoalescedAt(cs, d, {c});
      }
    }
  }

  /** Cuts a free chunk in two; both parts are out of the bins. */
  ghost function SplitOff(h: Heap, c: nat, words: nat): (r: Heap)
    requires Consistent(h, {c})
    requires MIN_CHUNK_WORDS <= words && words + MIN_CHUNK_WORDS <= h.chunks[c].words && words % 2 == 0
    ensures Consistent(r, {c, c + words}) && (Books(h) ==> Books(r))
    ensures Live(r.chunks) == Live(h.chunks) && r.blocks == h.blocks && r.capacity == h.capacity
  {
    SplitConsistent(h, c, words);
    SplitBooks(h.chunks, c, words);
    SplitLive(h.chunks, c, words);
    h.(chunks := Split(h.chunks, c, words),
       acct := h.acct.(splits := h.acct.splits + 1, overheadSize := h.acct.overheadSize + 8))
  }
}
