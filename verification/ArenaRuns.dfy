/** Whole runs of the arena in memory. */
module ArenaRuns {
  import opened ChunkWords
  import opened BinTable
  import opened Heap
  import opened HeapBooks
  import opened HeapSteps
  import opened HeapOps
  import opened HeapMemory
  import opened HeapLaws
  import opened ClassicArena

  /** Every block of the run is made of memory whose first chunk header word has the
      predecessor flag clear. */
  ghost predicate CleanBlocks(m: seq<nat>, ops: seq<Op>) {
    forall k: nat | k < |ops| && ops[k].DoAdd? ::
      First(ops[k].block) < |m| && !IsPredFree(m[First(ops[k].block)])
  }

  predicate InNoBlock(bs: seq<Block>, i: nat) {
    forall j: nat | j < |bs| :: !(bs[j].at <= i < End(bs[j]))
  }

  /** What op leaves in word i, which held v. */
  function Stored(op: Op, i: nat, v: nat): nat { if op.DoWrite? && op.at == i then op.value else v }

  /** The last value ops store into word i, or v if they store none. */
  function LastStored(ops: seq<Op>, i: nat, v: nat): nat {
    if |ops| == 0 then v else Stored(ops[|ops| - 1], i, LastStored(ops[..|ops| - 1], i, v))
  }

  /** The data words of the live allocations other than the one op frees, and the words
      outside the blocks, change by the store of op alone. */
  ghost predicate OnlyStored(m: seq<nat>, m': seq<nat>, h: Heap, op: Op)
    requires Good(h) && Legal(h, op)
  {
    && |m'| == |m|
    && (forall c: nat, i: nat | Owns(Live(h.chunks), c, i) && op != DoFree(c + 1) && i < |m| ::
          m'[i] == Stored(op, i, m[i]))
    && (forall i: nat | i < |m| && InNoBlock(Apply(h, op).blocks, i) :: m'[i] == m[i])
  }

  /** One call, or one store of a caller.  It changes no word of an allocation it does not
      free, apart from the word stored, and no word outside the blocks. */
  method Step(a: Arena, op: Op)
    requires a.Valid() && Legal(a.heap, op)
    requires op.DoAdd? ==> First(op.block) < a.mem.Length && !IsPredFree(a.mem[First(op.block)])
    modifies a, a.mem, a.bins, a.chunkCounts
    ensures a.Valid() && a.heap == Apply(old(a.heap), op)
    ensures OnlyStored(old(a.mem[..]), a.mem[..], old(a.heap), op)
  {
    hide Consistent, Books, Represents, Keeps, Live, HeapOps.Allocate, HeapOps.Free, AddBlock, OnlyStored;
    ghost var m0, h0 := a.mem[..], a.heap;
    match op {
      case DoAllocate(size, alignment) =>
        var data, bytes := a.Allocate(size, alignment);
        StepKeeps(m0, a.mem[..], h0, op);
      case DoFree(data) =>
        a.Free(data);
        StepKeeps(m0, a.mem[..], h0, op);
      case DoAdd(b) =>
        a.AddMemoryBlock(b.at, b.words);
        StepKeeps(m0, a.mem[..], h0, op);
      case DoWrite(at, value) =>
        StoreKeeps(m0, a.bins[..], a.newestBlock, h0, at, value);
        a.mem[at] := value;
        assert a.mem[..] == m0[at := value];
    }
  }

  /** What the frame of each call says about the words the statement above names. */
  lemma StepKeeps(m: seq<nat>, m': seq<nat>, h: Heap, op: Op)
    requires Good(h) && Legal(h, op) && !op.DoWrite?
    requires var r := Apply(h, op);
      Keeps(m, m', if op.DoFree? then Live(r.chunks) else Live(h.chunks), r.blocks)
    ensures OnlyStored(m, m', h, op)
  {
    hide Consistent, Books, Live, HeapOps.Allocate, HeapOps.Free, AddBlock;
    var r := Apply(h, op);
    forall c: nat, i: nat | Owns(Live(h.chunks), c, i) && op != DoFree(c + 1) && i < |m|
      ensures m'[i] == m[i]
    {
      ApplyKeepsLive(h, op, c);
      assert Shielded(if op.DoFree? then Live(r.chunks) else Live(h.chunks), r.blocks, i);
    }
    forall i: nat | i < |m| && InNoBlock(r.blocks, i)
      ensures m'[i] == m[i]
    {
      assert Shielded(if op.DoFree? then Live(r.chunks) else Live(h.chunks), r.blocks, i);
    }
  }

  /** A caller's store keeps the representation and touches that one word. */
  lemma StoreKeeps(m: seq<nat>, heads: seq<nat>, newest: nat, h: Heap, at: nat, value: nat)
    requires Good(h) && Represents(m, heads, newest, h, {}) && Legal(h, DoWrite(at, value))
    ensures at < |m| && Represents(m[at := value], heads, newest, h, {})
    ensures OnlyStored(m, m[at := value], h, DoWrite(at, value))
  {
    hide Consistent, Represents, Live;
    var c: nat :| Owns(Live(h.chunks), c, at);
    LiveDataIsPrivate(h, c, at);
    LiveDataInMemory(h, c, at);
    assert |m| == h.capacity by { RepresentedSize(m, heads, newest, h); }
    CallersMayWrite(m, heads, newest, h, c, at, value);
    var j :| 0 <= j < |h.blocks| && First(h.blocks[j]) < at < End(h.blocks[j]);
    assert !InNoBlock(h.blocks, at);
  }

  lemma LiveDataInMemory(h: Heap, c: nat, i: nat)
    requires Good(h) && Owns(Live(h.chunks), c, i)
    ensures i < h.capacity
  {
    assert ChunkOk(h.chunks, h.blocks, c);
  }

  lemma RepresentedSize(m: seq<nat>, heads: seq<nat>, newest: nat, h: Heap)
    requires Represents(m, heads, newest, h, {})
    ensures |m| == h.capacity
  {
  }

  /** A run of the real arena is a run of the heap value: it keeps every invariant, and an
      allocation it never frees keeps its place and its size, and each word of its data
      holds the last value its owner stored there. */
  method Execute(a: Arena, ops: seq<Op>)
    requires a.Valid() && LegalRun(a.heap, ops) && CleanBlocks(a.mem[..], ops)
    modifies a, a.mem, a.bins, a.chunkCounts
    ensures a.Valid() && a.heap == Run(old(a.heap), ops)
    ensures forall c: nat, i: nat | Owns(Live(old(a.heap).chunks), c, i) && DoFree(c + 1) !in ops && i < a.mem.Length ::
              Owns(Live(a.heap.chunks), c, i) && Live(a.heap.chunks)[c] == Live(old(a.heap).chunks)[c]
              && a.mem[i] == LastStored(ops, i, old(a.mem[i]))
  {
    hide Consistent, Books, Represents, Keeps, Live, Apply, Legal;
    ghost var m0, h0 := a.mem[..], a.heap;
    var n := 0;
    assert ops[..0] == [];
    while n < |ops|
      invariant n <= |ops| && a.Valid() && LegalRun(h0, ops[..n]) && a.heap == Run(h0, ops[..n])
      invariant LegalRun(a.heap, ops[n..])
      invariant Holds(m0, a.mem[..], h0, ops[..n])
      invariant forall i: nat | i < a.mem.Length && InNoBlock(a.heap.blocks, i) :: a.mem[i] == m0[i]
    {
      var op := ops[n];
      ghost var before, m := a.heap, a.mem[..];
      assert ops[n..][0] == op && ops[n..][1..] == ops[n + 1..] && ops[..n + 1] == ops[..n] + [op];
      NewBlockIsClean(m0, a.mem[..], a.heap, ops, n);
      Step(a, op);
      RunExtends(h0, ops[..n], op);
      HoldsOn(m0, m, a.mem[..], h0, ops[..n], op);
      BlocksOnlyGrow(before, op);
      n := n + 1;
    }
    assert ops[..n] == ops;
    StillLive(h0, ops);
  }

  /** After ops every word of an allocation they do not free holds the last value stored. */
  ghost predicate Holds(m0: seq<nat>, m: seq<nat>, h: Heap, ops: seq<Op>) {
    |m| == |m0| && forall c: nat, i: nat | Owns(Live(h.chunks), c, i) && DoFree(c + 1) !in ops && i < |m| ::
      m[i] == LastStored(ops, i, m0[i])
  }

  lemma HoldsOn(m0: seq<nat>, m: seq<nat>, m': seq<nat>, h: Heap, ops: seq<Op>, op: Op)
    requires Good(h) && LegalRun(h, ops) && Legal(Run(h, ops), op)
    requires Holds(m0, m, h, ops) && OnlyStored(m, m', Run(h, ops), op)
    ensures Holds(m0, m', h, ops + [op])
  {
    hide Consistent, Books, Live, Apply, Legal;
    StillLive(h, ops);
    var all := ops + [op];
    assert all[..|all| - 1] == ops && all[|all| - 1] == op;
    forall c: nat, i: nat | Owns(Live(h.chunks), c, i) && DoFree(c + 1) !in all && i < |m|
      ensures m'[i] == LastStored(all, i, m0[i])
    {
      assert DoFree(c + 1) !in ops && op != DoFree(c + 1) by { assert op in all; }
      assert Owns(Live(Run(h, ops).chunks), c, i);
    }
  }

  lemma StillLive(h: Heap, ops: seq<Op>)
    requires Good(h) && LegalRun(h, ops)
    ensures forall c | c in Live(h.chunks) && DoFree(c + 1) !in ops ::
      c in Live(Run(h, ops).chunks) && Live(Run(h, ops).chunks)[c] == Live(h.chunks)[c]
  {
    hide Consistent, Books, Live;
    forall c | c in Live(h.chunks) && DoFree(c + 1) !in ops
      ensures c in Live(Run(h, ops).chunks) && Live(Run(h, ops).chunks)[c] == Live(h.chunks)[c]
    {
      RunKeepsLive(h, ops, c);
    }
  }

  lemma {:induction false} RunExtends(h: Heap, ops: seq<Op>, op: Op)
    requires Good(h) && LegalRun(h, ops) && Legal(Run(h, ops), op)
    ensures LegalRun(h, ops + [op]) && Run(h, ops + [op]) == Apply(Run(h, ops), op)
    decreases |ops|
  {
    hide Consistent, Books, Apply, Legal;
    if |ops| == 0 {
      assert ops + [op] == [op] && [op][1..] == [];
    } else {
      assert (ops + [op])[0] == ops[0] && (ops + [op])[1..] == ops[1..] + [op];
      RunExtends(Apply(h, ops[0]), ops[1..], op);
    }
  }

  lemma BlocksOnlyGrow(h: Heap, op: Op)
    requires Good(h) && Legal(h, op)
    ensures forall i: nat | InNoBlock(Apply(h, op).blocks, i) :: InNoBlock(h.blocks, i)
  {
    hide Consistent, Books, HeapOps.Allocate, HeapOps.Free, AddBlock;
    var bs := Apply(h, op).blocks;
    forall i: nat | InNoBlock(bs, i)
      ensures InNoBlock(h.blocks, i)
    {
      assert forall j: nat | j < |h.blocks| :: bs[j] == h.blocks[j];
    }
  }

  /** Memory of a block still to be added has not been written. */
  lemma NewBlockIsClean(m0: seq<nat>, m: seq<nat>, h: Heap, ops: seq<Op>, n: nat)
    requires Good(h) && n < |ops| && Legal(h, ops[n]) && CleanBlocks(m0, ops) && |m| == |m0|
    requires forall i: nat | i < |m| && InNoBlock(h.blocks, i) :: m[i] == m0[i]
    ensures ops[n].DoAdd? ==> First(ops[n].block) < |m| && !IsPredFree(m[First(ops[n].block)])
  {
    hide Consistent;
    if ops[n].DoAdd? {
      var b := ops[n].block;
      forall j: nat | j < |h.blocks|
        ensures !(h.blocks[j].at <= First(b) < End(h.blocks[j]))
      {
        assert Disjoint(h.blocks[j], b);
      }
      assert InNoBlock(h.blocks, First(b));
    }
  }

  /** The bins of an arena, read from its memory: following next links from the head of a bin
      for chunk_count steps comes to null and meets exactly the free chunks of that bin,
      each once and in ascending order. */
  lemma BinsInMemory(a: Arena, i: nat)
    requires a.Valid() && i < a.bins.Length
    ensures i < a.chunkCounts.Length
    ensures forall n: nat | n >= a.chunkCounts[i] ::
      Follow(a.mem[..], a.bins[i], n) == Follow(a.mem[..], a.bins[i], a.chunkCounts[i])
    ensures var w := Follow(a.mem[..], a.bins[i], a.chunkCounts[i]);
      && |w| == a.chunkCounts[i] && RisingChain(a.mem[..], w)
      && (forall c: nat :: c in w <==>
            c in a.heap.chunks && c < a.mem.Length && IsFree(a.mem[c]) && BinIndex(SizeBytes(a.mem[c])) == i)
  {
    hide Consistent, Represents, RisingChain, BinIndex;
    var m, heads := a.mem[..], a.bins[..];
    WalkFindsBin(m, heads, a.newestBlock, a.heap, i, a.chunkCounts[i]);
    forall n: nat | n >= a.chunkCounts[i]
      ensures Follow(m, a.bins[i], n) == Follow(m, a.bins[i], a.chunkCounts[i])
    {
      WalkFindsBin(m, heads, a.newestBlock, a.heap, i, n);
    }
  }
}
