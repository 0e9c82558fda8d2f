/** How memory and the list heads represent a heap value, and what each kind of write
    leaves intact. */
module HeapMemory {
  import opened ChunkWords
  import opened BinTable
  import opened Heap
  import opened HeapBooks
  import opened HeapSteps

  // ----- representation -----

  ghost predicate Tags(m: seq<nat>, cs: map<nat, Chunk>) {
    forall c | c in cs :: c < |m| && m[c] == Header(cs[c])
  }

  predicate FootOk(m: seq<nat>, cs: map<nat, Chunk>, c: nat)
    requires c in cs
  {
    0 < cs[c].words && c + cs[c].words <= |m| && m[c + cs[c].words - 1] == 8 * cs[c].words
  }

  /** Every free chunk whose footer is due repeats its size in its last word. */
  ghost predicate Feet(m: seq<nat>, cs: map<nat, Chunk>, unfooted: set<nat>) {
    forall c {:trigger FootOk(m, cs, c)} | c in cs && cs[c].free && c !in unfooted :: FootOk(m, cs, c)
  }

  lemma FeetFrame(m: seq<nat>, cs: map<nat, Chunk>, ds: map<nat, Chunk>, before: set<nat>, after: set<nat>)
    requires Feet(m, cs, before) && SameFree(cs, ds, before, after)
    ensures Feet(m, ds, after)
  {
    forall c | c in ds && ds[c].free && c !in after
      ensures FootOk(m, ds, c)
    {
      assert FootOk(m, cs, c);
    }
  }

  function HeadOf(l: seq<nat>): nat { if |l| == 0 then 0 else l[0] }

  function After(l: seq<nat>, k: nat): nat { if k + 1 < |l| then l[k + 1] else 0 }

  function Before(l: seq<nat>, k: nat): nat
    requires k < |l|
  {
    if k > 0 then l[k - 1] else 0
  }

  predicate LinkOk(m: seq<nat>, l: seq<nat>, k: nat)
    requires k < |l|
  {
    l[k] + 2 < |m| && m[l[k] + 1] == After(l, k) && m[l[k] + 2] == Before(l, k)
  }

  /** The doubly linked list that starts at head holds exactly l. */
  ghost predicate ListOk(m: seq<nat>, head: nat, l: seq<nat>) {
    && head == HeadOf(l)
    && forall k: nat {:trigger LinkOk(m, l, k)} | k < |l| :: LinkOk(m, l, k)
  }

  ghost predicate Lists(m: seq<nat>, heads: seq<nat>, bins: seq<seq<nat>>) {
    && |heads| == |bins|
    && forall i | 0 <= i < |bins| :: ListOk(m, heads[i], bins[i])
  }

  predicate BlockLinkOk(m: seq<nat>, bs: seq<Block>, i: nat)
    requires i < |bs|
  {
    && bs[i].at + 2 < |m| && m[bs[i].at] == 8 * bs[i].words
    && m[bs[i].at + 1] == 0 && m[bs[i].at + 2] == if i > 0 then bs[i - 1].at else 0
  }

  /** Block headers hold their size and lead back from the newest block to the oldest. */
  ghost predicate BlockLinks(m: seq<nat>, newest: nat, bs: seq<Block>) {
    && newest == (if |bs| == 0 then 0 else bs[|bs| - 1].at)
    && forall i: nat {:trigger BlockLinkOk(m, bs, i)} | i < |bs| :: BlockLinkOk(m, bs, i)
  }

  ghost predicate Represents(m: seq<nat>, heads: seq<nat>, newest: nat, h: Heap, unfooted: set<nat>) {
    && |m| == h.capacity && Tags(m, h.chunks) && Feet(m, h.chunks, unfooted)
    && Lists(m, heads, h.bins) && BlockLinks(m, newest, h.blocks)
  }

  // ----- what a step must not touch -----

  /** Words of live data, and words of no block at all. */
  ghost predicate Shielded(live: map<nat, nat>, bs: seq<Block>, i: nat) {
    || (exists d :: d in live && d < i < d + live[d])
    || (forall j | 0 <= j < |bs| :: !(bs[j].at <= i < End(bs[j])))
  }

  ghost predicate Keeps(m: seq<nat>, m': seq<nat>, live: map<nat, nat>, bs: seq<Block>) {
    && |m'| == |m|
    && forall i: nat | i < |m| && Shielded(live, bs, i) :: m'[i] == m[i]
  }

  lemma KeepsTransitive(m: seq<nat>, m': seq<nat>, m'': seq<nat>, live: map<nat, nat>, bs: seq<Block>)
    requires Keeps(m, m', live, bs) && Keeps(m', m'', live, bs)
    ensures Keeps(m, m'', live, bs)
  {
  }

  /** A word of a chunk lies in the extent of no other chunk. */
  lemma OwnExtent(h: Heap, pending: set<nat>, c: nat, d: nat, i: nat)
    requires Consistent(h, pending) && c in h.chunks && d in h.chunks
    requires c <= i < c + h.chunks[c].words && d <= i < d + h.chunks[d].words
    ensures c == d
  {
    assert c < d ==> Apart(h.chunks, c, d);
    assert d < c ==> Apart(h.chunks, d, c);
  }

  /** A block's header words lie in the extent of no chunk. */
  lemma BlockHeaderFree(h: Heap, pending: set<nat>, i: nat, c: nat, a: nat)
    requires Consistent(h, pending) && i < |h.blocks| && c in h.chunks
    requires h.blocks[i].at <= a < First(h.blocks[i])
    ensures !(c <= a < c + h.chunks[c].words)
  {
    assert ChunkOk(h.chunks, h.blocks, c);
    if c <= a < c + h.chunks[c].words {
      SameBlock(h.blocks, h.capacity, i, h.chunks[c].block, a);
    }
  }

  /** A shielded word is no header and lies in no free chunk. */
  lemma ShieldedOutside(h: Heap, pending: set<nat>, i: nat, c: nat)
    requires Consistent(h, pending) && c in h.chunks && Shielded(Live(h.chunks), h.blocks, i)
    ensures i != c && (h.chunks[c].free ==> !(c <= i < c + h.chunks[c].words))
  {
    assert ChunkOk(h.chunks, h.blocks, c);
    if exists d :: d in Live(h.chunks) && d < i < d + Live(h.chunks)[d] {
      var d :| d in Live(h.chunks) && d < i < d + Live(h.chunks)[d];
      if c <= i < c + h.chunks[c].words {
        OwnExtent(h, pending, c, d, i);
      }
    } else {
      assert !(h.blocks[h.chunks[c].block].at <= i < End(h.blocks[h.chunks[c].block]));
    }
  }

  // ----- writes to headers -----

  /** Only chunk headers may differ. */
  ghost predicate SameOffHeaders(m: seq<nat>, m': seq<nat>, cs: map<nat, Chunk>) {
    |m'| == |m| && forall i: nat | i < |m| && i !in cs :: m'[i] == m[i]
  }

  lemma HeaderWritesKeepFeet(m: seq<nat>, m': seq<nat>, h: Heap, pending: set<nat>, unfooted: set<nat>)
    requires Consistent(h, pending) && SameOffHeaders(m, m', h.chunks) && Feet(m, h.chunks, unfooted)
    ensures Feet(m', h.chunks, unfooted)
  {
    forall c | c in h.chunks && h.chunks[c].free && c !in unfooted
      ensures FootOk(m', h.chunks, c)
    {
      assert FootOk(m, h.chunks, c) && ChunkOk(h.chunks, h.blocks, c);
      NoHeaderInside(h.chunks, h.blocks, h.capacity, c, c + h.chunks[c].words - 1);
    }
  }

  lemma HeaderWritesKeepList(m: seq<nat>, m': seq<nat>, h: Heap, pending: set<nat>, i: nat, head: nat)
    requires Consistent(h, pending) && SameOffHeaders(m, m', h.chunks) && i < BIN_COUNT
    requires ListOk(m, head, h.bins[i])
    ensures ListOk(m', head, h.bins[i])
  {
    var l := h.bins[i];
    forall k: nat | k < |l|
      ensures LinkOk(m', l, k)
    {
      assert LinkOk(m, l, k) && BinOk(h.chunks, l, i, pending) && Member(h.chunks, l[k], i, pending);
      assert ChunkOk(h.chunks, h.blocks, l[k]);
      NoHeaderInside(h.chunks, h.blocks, h.capacity, l[k], l[k] + 1);
      NoHeaderInside(h.chunks, h.blocks, h.capacity, l[k], l[k] + 2);
    }
  }

  lemma HeaderWritesKeepBlocks(m: seq<nat>, m': seq<nat>, h: Heap, pending: set<nat>, newest: nat)
    requires Consistent(h, pending) && SameOffHeaders(m, m', h.chunks) && BlockLinks(m, newest, h.blocks)
    ensures BlockLinks(m', newest, h.blocks)
  {
    forall i: nat | i < |h.blocks|
      ensures BlockLinkOk(m', h.blocks, i)
    {
      assert BlockLinkOk(m, h.blocks, i);
      forall a: nat | h.blocks[i].at <= a < First(h.blocks[i])
        ensures a !in h.chunks
      {
        if a in h.chunks {
          assert ChunkOk(h.chunks, h.blocks, a);
          BlockHeaderFree(h, pending, i, a, a);
        }
      }
    }
  }

  /** Writing chunk headers leaves footers, bin lists, block headers and all shielded
      words as they were. */
  lemma HeaderWrites(m: seq<nat>, m': seq<nat>, heads: seq<nat>, newest: nat, h: Heap,
                     pending: set<nat>, unfooted: set<nat>)
    requires Consistent(h, pending) && Represents(m, heads, newest, h, unfooted)
    requires SameOffHeaders(m, m', h.chunks)
    ensures Feet(m', h.chunks, unfooted) && Lists(m', heads, h.bins) && BlockLinks(m', newest, h.blocks)
    ensures Keeps(m, m', Live(h.chunks), h.blocks)
  {
    HeaderWritesKeepFeet(m, m', h, pending, unfooted);
    HeaderWritesKeepBlocks(m, m', h, pending, newest);
    forall i | 0 <= i < |h.bins|
      ensures ListOk(m', heads[i], h.bins[i])
    {
      HeaderWritesKeepList(m, m', h, pending, i, heads[i]);
    }
    forall i: nat | i < |m| && Shielded(Live(h.chunks), h.blocks, i)
      ensures m'[i] == m[i]
    {
      if i in h.chunks {
        ShieldedOutside(h, pending, i, i);
      }
    }
  }

  // ----- writes inside pending chunks -----

  ghost predicate InPending(cs: map<nat, Chunk>, pending: set<nat>, i: nat) {
    exists c :: c in pending && c in cs && c <= i < c + cs[c].words
  }

  /** Only words of pending chunks may differ. */
  ghost predicate SameOffPending(m: seq<nat>, m': seq<nat>, cs: map<nat, Chunk>, pending: set<nat>) {
    |m'| == |m| && forall i: nat | i < |m| && !InPending(cs, pending, i) :: m'[i] == m[i]
  }

  lemma NotInPending(h: Heap, pending: set<nat>, d: nat, i: nat)
    requires Consistent(h, pending) && d in h.chunks && d !in pending && d <= i < d + h.chunks[d].words
    ensures !InPending(h.chunks, pending, i)
  {
    if InPending(h.chunks, pending, i) {
      var c :| c in pending && c in h.chunks && c <= i < c + h.chunks[c].words;
      OwnExtent(h, pending, c, d, i);
    }
  }

  lemma PendingWritesKeepFeet(m: seq<nat>, m': seq<nat>, h: Heap, pending: set<nat>, unfooted: set<nat>)
    requires Consistent(h, pending) && SameOffPending(m, m', h.chunks, pending) && Feet(m, h.chunks, unfooted)
    ensures Feet(m', h.chunks, unfooted + pending)
  {
    forall c | c in h.chunks && h.chunks[c].free && c !in unfooted + pending
      ensures FootOk(m', h.chunks, c)
    {
      assert FootOk(m, h.chunks, c);
      NotInPending(h, pending, c, c + h.chunks[c].words - 1);
    }
  }

  lemma PendingWritesKeepList(m: seq<nat>, m': seq<nat>, h: Heap, pending: set<nat>, i: nat, head: nat)
    requires Consistent(h, pending) && SameOffPending(m, m', h.chunks, pending) && i < BIN_COUNT
    requires ListOk(m, head, h.bins[i])
    ensures ListOk(m', head, h.bins[i])
  {
    var l := h.bins[i];
    forall k: nat | k < |l|
      ensures LinkOk(m', l, k)
    {
      assert LinkOk(m, l, k) && BinOk(h.chunks, l, i, pending) && Member(h.chunks, l[k], i, pending);
      assert ChunkOk(h.chunks, h.blocks, l[k]);
      NotInPending(h, pending, l[k], l[k] + 1);
      NotInPending(h, pending, l[k], l[k] + 2);
    }
  }

  lemma PendingWritesKeepBlocks(m: seq<nat>, m': seq<nat>, h: Heap, pending: set<nat>, newest: nat)
    requires Consistent(h, pending) && SameOffPending(m, m', h.chunks, pending)
    requires BlockLinks(m, newest, h.blocks)
    ensures BlockLinks(m', newest, h.blocks)
  {
    forall i: nat | i < |h.blocks|
      ensures BlockLinkOk(m', h.blocks, i)
    {
      assert BlockLinkOk(m, h.blocks, i);
      forall a: nat | h.blocks[i].at <= a < First(h.blocks[i])
        ensures !InPending(h.chunks, pending, a)
      {
        if InPending(h.chunks, pending, a) {
          var c :| c in pending && c in h.chunks && c <= a < c + h.chunks[c].words;
          BlockHeaderFree(h, pending, i, c, a);
        }
      }
    }
  }

  /** Writing inside pending chunks leaves everything else as it was. */
  lemma PendingWrites(m: seq<nat>, m': seq<nat>, heads: seq<nat>, newest: nat, h: Heap,
                      pending: set<nat>, unfooted: set<nat>)
    requires Consistent(h, pending) && Represents(m, heads, newest, h, unfooted)
    requires SameOffPending(m, m', h.chunks, pending)
    ensures Feet(m', h.chunks, unfooted + pending) && Lists(m', heads, h.bins) && BlockLinks(m', newest, h.blocks)
    ensures Keeps(m, m', Live(h.chunks), h.blocks)
    ensures forall d | d in h.chunks && d !in pending :: m'[d] == m[d]
  {
    PendingWritesKeepFeet(m, m', h, pending, unfooted);
    PendingWritesKeepBlocks(m, m', h, pending, newest);
    forall i | 0 <= i < |h.bins|
      ensures ListOk(m', heads[i], h.bins[i])
    {
      PendingWritesKeepList(m, m', h, pending, i, heads[i]);
    }
    forall i: nat | i < |m| && Shielded(Live(h.chunks), h.blocks, i)
      ensures m'[i] == m[i]
    {
      if InPending(h.chunks, pending, i) {
        var c :| c in pending && c in h.chunks && c <= i < c + h.chunks[c].words;
        ShieldedOutside(h, pending, i, c);
      }
    }
    forall d | d in h.chunks && d !in pending
      ensures m'[d] == m[d]
    {
      assert ChunkOk(h.chunks, h.blocks, d);
      NotInPending(h, pending, d, d);
    }
  }
}
