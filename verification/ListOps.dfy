/** Linking free chunks into and out of the doubly linked bin lists in memory. */
module ListOps {
  import opened ChunkWords
  import opened BinTable
  import opened Heap
  import opened HeapBooks
  import opened HeapSteps
  import opened HeapMemory

  // ----- the pointer updates -----

  predicate Linked(m: seq<nat>, c: nat) {
    c + 2 < |m| && m[c + 1] + 2 < |m| && m[c + 2] + 2 < |m|
  }

  function UnlinkWords(m: seq<nat>, c: nat): (r: seq<nat>)
    requires Linked(m, c)
    ensures |r| == |m|
  {
    var n, p := m[c + 1], m[c + 2];
    var forward := if n != 0 then m[n + 2 := p] else m;
    var back := if p != 0 then forward[p + 1 := n] else forward;
    back[c + 1 := 0][c + 2 := 0]
  }

  function UnlinkHead(m: seq<nat>, head: nat, c: nat): nat
    requires Linked(m, c)
  {
    if m[c + 2] != 0 then head else m[c + 1]
  }

  /** Inserting c after p, or at the front when p is null. */
  function LinkWords(m: seq<nat>, head: nat, c: nat, p: nat): (r: seq<nat>)
    requires c + 2 < |m| && head + 2 < |m|
    requires p != 0 ==> p + 2 < |m| && m[p + 1] + 2 < |m|
    ensures |r| == |m|
  {
    if p == 0 then
      var own := m[c + 1 := head][c + 2 := 0];
      if head == 0 then own else own[head + 2 := c]
    else
      var n := m[p + 1];
      var own := m[c + 1 := n][c + 2 := p][p + 1 := c];
      if n == 0 then own else own[n + 2 := c]
  }

  function LinkHead(head: nat, c: nat, p: nat): nat { if p == 0 then c else head }

  // ----- one list -----

  /** Different list entries are different chunks, so their link words differ too. */
  ghost predicate Spread(l: seq<nat>) {
    && (forall a: nat | a < |l| :: l[a] >= 4)
    && (forall a: nat, b: nat | a < b < |l| :: l[a] + 4 <= l[b] || l[b] + 4 <= l[a])
  }

  lemma UnlinkList(m: seq<nat>, head: nat, l: seq<nat>, k: nat)
    requires ListOk(m, head, l) && Spread(l) && k < |l|
    ensures Linked(m, l[k])
    ensures ListOk(UnlinkWords(m, l[k]), UnlinkHead(m, head, l[k]), RemoveAt(l, k))
  {
    assert LinkOk(m, l, k);
    assert k + 1 < |l| ==> LinkOk(m, l, k + 1);
    assert k > 0 ==> LinkOk(m, l, k - 1);
    var l' := RemoveAt(l, k);
    var m' := UnlinkWords(m, l[k]);
    forall j: nat | j < |l'|
      ensures LinkOk(m', l', j)
    {
      UnlinkAt(m, head, l, k, if j < k then j else j + 1);
    }
  }

  lemma UnlinkWordAt(m: seq<nat>, c: nat, i: nat)
    requires Linked(m, c) && i < |m|
    ensures var n, p := m[c + 1], m[c + 2];
      UnlinkWords(m, c)[i] ==
        if i == c + 1 || i == c + 2 then 0
        else if p != 0 && i == p + 1 then n
        else if n != 0 && i == n + 2 then p
        else m[i]
  {
  }

  lemma UnlinkAt(m: seq<nat>, head: nat, l: seq<nat>, k: nat, j: nat)
    requires ListOk(m, head, l) && Spread(l) && k < |l| && j < |l| && j != k && Linked(m, l[k])
    ensures LinkOk(UnlinkWords(m, l[k]), RemoveAt(l, k), if j < k then j else j - 1)
  {
    hide UnlinkWords, Spread;
    assert LinkOk(m, l, k) && LinkOk(m, l, j);
    UnlinkWordAt(m, l[k], l[j] + 1);
    UnlinkWordAt(m, l[k], l[j] + 2);
    SpreadPair(l, j, k);
    if k > 0 {
      SpreadPair(l, j, k - 1);
    }
    if k + 1 < |l| {
      SpreadPair(l, j, k + 1);
    }
  }

  lemma SpreadPair(l: seq<nat>, a: nat, b: nat)
    requires Spread(l) && a < |l| && b < |l|
    ensures l[a] >= 4 && (a != b ==> l[a] + 4 <= l[b] || l[b] + 4 <= l[a])
  {
  }

  lemma LinkWordAt(m: seq<nat>, head: nat, c: nat, p: nat, i: nat)
    requires c + 2 < |m| && head + 2 < |m| && i < |m|
    requires p != 0 ==> p + 2 < |m| && m[p + 1] + 2 < |m|
    ensures var n := if p == 0 then head else m[p + 1];
      LinkWords(m, head, c, p)[i] ==
        if n != 0 && i == n + 2 then c
        else if p != 0 && i == p + 1 then c
        else if i == c + 2 then p
        else if i == c + 1 then n
        else m[i]
  {
  }

  lemma LinkAt(m: seq<nat>, head: nat, l: seq<nat>, c: nat, k: nat, j: nat)
    requires ListOk(m, head, l) && k <= |l| && Spread(InsertAt(l, k, c)) && c + 2 < |m| && head + 2 < |m|
    requires k > 0 ==> l[k - 1] + 2 < |m| && m[l[k - 1] + 1] + 2 < |m|
    requires j <= |l|
    ensures LinkOk(LinkWords(m, head, c, if k > 0 then l[k - 1] else 0), InsertAt(l, k, c), j)
  {
    hide LinkWords, Spread;
    assert j < k ==> LinkOk(m, l, j);
    assert j > k ==> LinkOk(m, l, j - 1);
    var l' := InsertAt(l, k, c);
    var p := if k > 0 then l[k - 1] else 0;
    Distances(l', j, k);
    InsertedNeighbours(m, head, l, c, k);
    LinkWordAt(m, head, c, p, l'[j] + 1);
    LinkWordAt(m, head, c, p, l'[j] + 2);
  }

  /** The entry at j shares no link word with the entries around k. */
  lemma Distances(l: seq<nat>, j: nat, k: nat)
    requires Spread(l) && j < |l| && k < |l|
    ensures l[j] >= 4 && (j != k ==> Clear(l[j], l[k]))
    ensures k > 0 ==> l[k - 1] >= 4 && (j != k - 1 ==> Clear(l[j], l[k - 1]))
    ensures k + 1 < |l| ==> l[k + 1] >= 4 && (j != k + 1 ==> Clear(l[j], l[k + 1]))
  {
    hide Spread;
    SpreadPair(l, j, k);
    if k > 0 {
      SpreadPair(l, j, k - 1);
    }
    if k + 1 < |l| {
      SpreadPair(l, j, k + 1);
      SpreadPair(l, k + 1, k + 1);
    }
    if k > 0 {
      SpreadPair(l, k - 1, k - 1);
    }
  }

  predicate Clear(a: nat, b: nat) { a + 4 <= b || b + 4 <= a }

  /** Where the new entry's neighbours stood, and what linked them. */
  lemma InsertedNeighbours(m: seq<nat>, head: nat, l: seq<nat>, c: nat, k: nat)
    requires ListOk(m, head, l) && k <= |l|
    ensures var l' := InsertAt(l, k, c);
      && l'[k] == c && (k > 0 ==> l'[k - 1] == l[k - 1]) && (k < |l| ==> l'[k + 1] == l[k])
      && (k > 0 ==> l[k - 1] + 2 < |m| && m[l[k - 1] + 1] == if k < |l| then l[k] else 0)
      && (k == 0 ==> head == if |l| > 0 then l[0] else 0)
  {
    assert k > 0 ==> LinkOk(m, l, k - 1);
  }

  lemma LinkFits(m: seq<nat>, head: nat, l: seq<nat>, k: nat)
    requires ListOk(m, head, l) && k <= |l| && 2 < |m|
    ensures head + 2 < |m|
    ensures k > 0 ==> l[k - 1] + 2 < |m| && m[l[k - 1] + 1] + 2 < |m|
    ensures k > 0 ==> m[l[k - 1] + 1] == if k < |l| then l[k] else 0
  {
    assert |l| > 0 ==> LinkOk(m, l, 0);
    assert k > 0 ==> LinkOk(m, l, k - 1);
    assert k < |l| ==> LinkOk(m, l, k);
  }

  lemma LinkList(m: seq<nat>, head: nat, l: seq<nat>, c: nat, k: nat)
    requires ListOk(m, head, l) && k <= |l| && Spread(InsertAt(l, k, c)) && c + 2 < |m|
    ensures var p := if k > 0 then l[k - 1] else 0;
      && head + 2 < |m| && (p != 0 ==> p + 2 < |m| && m[p + 1] + 2 < |m|)
      && ListOk(LinkWords(m, head, c, p), LinkHead(head, c, p), InsertAt(l, k, c))
  {
    LinkFits(m, head, l, k);
    var p := if k > 0 then l[k - 1] else 0;
    forall j: nat | j < |InsertAt(l, k, c)|
      ensures LinkOk(LinkWords(m, head, c, p), InsertAt(l, k, c), j)
    {
      LinkAt(m, head, l, c, k, j);
    }
    assert k > 0 ==> InsertAt(l, k, c)[k - 1] == l[k - 1];
  }

  // ----- link writes leave the rest alone -----

  ghost predicate IsLinkWord(es: set<nat>, i: nat) { exists e :: e in es && (i == e + 1 || i == e + 2) }

  /** Only link words of the chunks es may differ. */
  ghost predicate SameOffLinks(m: seq<nat>, m': seq<nat>, es: set<nat>) {
    |m'| == |m| && forall i: nat | i < |m| && !IsLinkWord(es, i) :: m'[i] == m[i]
  }

  ghost predicate FreeChunks(h: Heap, es: set<nat>) {
    forall e | e in es :: e in h.chunks && h.chunks[e].free
  }

  /** Where a link word lies: strictly inside its chunk, short of the footer. */
  lemma LinkWordInside(h: Heap, pending: set<nat>, es: set<nat>, i: nat) returns (e: nat)
    requires Consistent(h, pending) && FreeChunks(h, es) && IsLinkWord(es, i)
    ensures e in es && e in h.chunks && h.chunks[e].free && e < i < e + h.chunks[e].words - 1
  {
    e :| e in es && (i == e + 1 || i == e + 2);
    assert ChunkOk(h.chunks, h.blocks, e);
  }

  lemma LinkWritesKeepTags(m: seq<nat>, m': seq<nat>, h: Heap, pending: set<nat>, es: set<nat>)
    requires Consistent(h, pending) && FreeChunks(h, es) && SameOffLinks(m, m', es) && Tags(m, h.chunks)
    ensures Tags(m', h.chunks)
  {
    forall c | c in h.chunks
      ensures c < |m'| && m'[c] == Header(h.chunks[c])
    {
      if IsLinkWord(es, c) {
        var e := LinkWordInside(h, pending, es, c);
        NoHeaderInside(h.chunks, h.blocks, h.capacity, e, c);
      }
    }
  }

  lemma LinkWritesKeepFeet(m: seq<nat>, m': seq<nat>, h: Heap, pending: set<nat>, es: set<nat>, unfooted: set<nat>)
    requires Consistent(h, pending) && FreeChunks(h, es) && SameOffLinks(m, m', es)
    requires Feet(m, h.chunks, unfooted)
    ensures Feet(m', h.chunks, unfooted)
  {
    forall c | c in h.chunks && h.chunks[c].free && c !in unfooted
      ensures FootOk(m', h.chunks, c)
    {
      assert FootOk(m, h.chunks, c);
      var foot := c + h.chunks[c].words - 1;
      if IsLinkWord(es, foot) {
        var e := LinkWordInside(h, pending, es, foot);
        OwnExtent(h, pending, c, e, foot);
      }
    }
  }

  lemma LinkWritesKeepBlocks(m: seq<nat>, m': seq<nat>, h: Heap, pending: set<nat>, es: set<nat>, newest: nat)
    requires Consistent(h, pending) && FreeChunks(h, es) && SameOffLinks(m, m', es)
    requires BlockLinks(m, newest, h.blocks)
    ensures BlockLinks(m', newest, h.blocks)
  {
    forall i: nat | i < |h.blocks|
      ensures BlockLinkOk(m', h.blocks, i)
    {
      assert BlockLinkOk(m, h.blocks, i);
      forall a: nat | h.blocks[i].at <= a < First(h.blocks[i])
        ensures !IsLinkWord(es, a)
      {
        if IsLinkWord(es, a) {
          var e := LinkWordInside(h, pending, es, a);
          BlockHeaderFree(h, pending, i, e, a);
        }
      }
    }
  }

  lemma LinkWritesKeep(m: seq<nat>, m': seq<nat>, h: Heap, pending: set<nat>, es: set<nat>)
    requires Consistent(h, pending) && FreeChunks(h, es) && SameOffLinks(m, m', es)
    ensures Keeps(m, m', Live(h.chunks), h.blocks)
  {
    forall i: nat | i < |m| && Shielded(Live(h.chunks), h.blocks, i)
      ensures m'[i] == m[i]
    {
      if IsLinkWord(es, i) {
        var e := LinkWordInside(h, pending, es, i);
        ShieldedOutside(h, pending, i, e);
      }
    }
  }

  lemma LinkWritesKeepList(m: seq<nat>, m': seq<nat>, h: Heap, pending: set<nat>, es: set<nat>, j: nat, head: nat)
    requires Consistent(h, pending) && FreeChunks(h, es) && SameOffLinks(m, m', es)
    requires j < BIN_COUNT && ListOk(m, head, h.bins[j]) && (forall e | e in es :: e !in h.bins[j])
    ensures ListOk(m', head, h.bins[j])
  {
    var l := h.bins[j];
    forall k: nat | k < |l|
      ensures LinkOk(m', l, k)
    {
      assert LinkOk(m, l, k) && BinOk(h.chunks, l, j, pending) && Member(h.chunks, l[k], j, pending);
      assert ChunkOk(h.chunks, h.blocks, l[k]);
      forall i: nat | l[k] < i <= l[k] + 2
        ensures !IsLinkWord(es, i)
      {
        if IsLinkWord(es, i) {
          var e := LinkWordInside(h, pending, es, i);
          OwnExtent(h, pending, l[k], e, i);
        }
      }
    }
  }

  /** A step that rewrites one bin's list and nothing else. */
  lemma ListStep(m: seq<nat>, m': seq<nat>, heads: seq<nat>, newest: nat, h: Heap, r: Heap,
                 pending: set<nat>, unfooted: set<nat>, es: set<nat>, i: nat, head: nat)
    requires Consistent(h, pending) && Represents(m, heads, newest, h, unfooted)
    requires FreeChunks(h, es) && SameOffLinks(m, m', es) && i < BIN_COUNT == |h.bins| == |r.bins|
    requires forall j, e | 0 <= j < BIN_COUNT && j != i && e in es :: e !in h.bins[j]
    requires r == h.(bins := h.bins[i := r.bins[i]]) && ListOk(m', head, r.bins[i])
    ensures Represents(m', heads[i := head], newest, r, unfooted)
    ensures Keeps(m, m', Live(h.chunks), h.blocks)
  {
    hide Consistent, Tags, Feet, BlockLinks, Keeps, Live, FreeChunks, SameOffLinks, ListOk;
    LinkWritesKeepTags(m, m', h, pending, es);
    LinkWritesKeepFeet(m, m', h, pending, es, unfooted);
    LinkWritesKeepBlocks(m, m', h, pending, es, newest);
    LinkWritesKeep(m, m', h, pending, es);
    forall j | 0 <= j < BIN_COUNT && j != i
      ensures ListOk(m', heads[j], h.bins[j])
    {
      LinkWritesKeepList(m, m', h, pending, es, j, heads[j]);
    }
  }

  // ----- as steps of the heap value -----

  lemma BinSpread(h: Heap, pending: set<nat>, i: nat)
    requires Consistent(h, pending) && i < BIN_COUNT
    ensures Spread(h.bins[i])
    ensures FreeChunks(h, set e | e in h.bins[i])
    ensures forall j, e | 0 <= j < BIN_COUNT && j != i && e in h.bins[i] :: e !in h.bins[j]
    ensures forall e | e in h.bins[i] :: BinFor(h.chunks, e) == i && e !in pending
  {
    var l := h.bins[i];
    assert BinOk(h.chunks, l, i, pending);
    forall a: nat | a < |l|
      ensures l[a] >= 4
    {
      assert Member(h.chunks, l[a], i, pending) && ChunkOk(h.chunks, h.blocks, l[a]);
    }
    forall a: nat, b: nat | a < b < |l|
      ensures l[a] + 4 <= l[b] || l[b] + 4 <= l[a]
    {
      ChunksSpread(h, pending, l[a], l[b]);
    }
    forall e | e in l
      ensures Member(h.chunks, e, i, pending)
    {
      MemberBin(h.chunks, h.bins, pending, e, i);
    }
    forall j, e | 0 <= j < BIN_COUNT && j != i && e in l
      ensures e !in h.bins[j]
    {
      if e in h.bins[j] {
        MemberBin(h.chunks, h.bins, pending, e, j);
      }
    }
  }

  lemma ChunksSpread(h: Heap, pending: set<nat>, c: nat, d: nat)
    requires Consistent(h, pending) && c in h.chunks && d in h.chunks && c != d
    ensures c + 4 <= d || d + 4 <= c
  {
    assert ChunkOk(h.chunks, h.blocks, c) && ChunkOk(h.chunks, h.blocks, d);
    assert c < d ==> Apart(h.chunks, c, d);
    assert d < c ==> Apart(h.chunks, d, c);
  }

  lemma UnlinkOnlyLinks(m: seq<nat>, head: nat, l: seq<nat>, k: nat)
    requires ListOk(m, head, l) && Spread(l) && k < |l| && Linked(m, l[k])
    ensures SameOffLinks(m, UnlinkWords(m, l[k]), set e | e in l)
  {
    assert LinkOk(m, l, k);
    var es := set e | e in l;
    assert l[k] in es;
    assert k + 1 < |l| ==> l[k + 1] in es;
    assert k > 0 ==> l[k - 1] in es;
    var m' := UnlinkWords(m, l[k]);
    forall i: nat | i < |m| && m'[i] != m[i]
      ensures IsLinkWord(es, i)
    {
      UnlinkWordAt(m, l[k], i);
    }
  }

  /** Unlinking c from its bin's list takes it out of the bin. */
  lemma UnlinkRepresents(m: seq<nat>, heads: seq<nat>, newest: nat, h: Heap,
                         pending: set<nat>, unfooted: set<nat>, c: nat)
    requires Consistent(h, pending) && Represents(m, heads, newest, h, unfooted)
    requires c in h.chunks && h.chunks[c].free && c !in pending && |heads| == BIN_COUNT
    ensures var i := BinFor(h.chunks, c);
      && Linked(m, c) && c in h.bins[i]
      && Represents(UnlinkWords(m, c), heads[i := UnlinkHead(m, heads[i], c)], newest, Unbin(h, pending, c), unfooted)
      && Keeps(m, UnlinkWords(m, c), Live(h.chunks), h.blocks)
  {
    hide Consistent, Tags, Feet, BlockLinks, Keeps, Live, FreeChunks, SameOffLinks, ListOk,
      UnlinkWords, UnlinkHead, Spread, BinIndex;
    UnbinConsistent(h, pending, c);
    var i := BinFor(h.chunks, c);
    var l := h.bins[i];
    var k := Position(l, c);
    BinSpread(h, pending, i);
    UnlinkList(m, heads[i], l, k);
    UnlinkOnlyLinks(m, heads[i], l, k);
    ListStep(m, UnlinkWords(m, c), heads, newest, h, Unbin(h, pending, c), pending, unfooted,
             (set e | e in l), i, UnlinkHead(m, heads[i], c));
  }

  lemma LinkOnlyLinks(m: seq<nat>, head: nat, l: seq<nat>, c: nat, k: nat)
    requires ListOk(m, head, l) && k <= |l| && c + 2 < |m| && (forall a: nat | a < |l| :: l[a] != 0)
    ensures var p := if k > 0 then l[k - 1] else 0;
      && head + 2 < |m| && (p != 0 ==> p + 2 < |m| && m[p + 1] + 2 < |m|)
      && SameOffLinks(m, LinkWords(m, head, c, p), (set e | e in l) + {c})
  {
    LinkFits(m, head, l, k);
    var es := (set e | e in l) + {c};
    var p := if k > 0 then l[k - 1] else 0;
    assert k > 0 ==> l[k - 1] in es;
    assert k < |l| ==> l[k] in es;
    var m' := LinkWords(m, head, c, p);
    assert c in es;
    forall i: nat | i < |m| && m'[i] != m[i]
      ensures IsLinkWord(es, i)
    {
      LinkWordAt(m, head, c, p, i);
    }
  }

  lemma InsertSpread(h: Heap, pending: set<nat>, i: nat, c: nat, k: nat)
    requires Consistent(h, pending) && i < BIN_COUNT && c in pending && k <= |h.bins[i]|
    ensures c in h.chunks && h.chunks[c].free && Spread(InsertAt(h.bins[i], k, c))
    ensures c >= 4 && c + 4 <= h.capacity
    ensures forall j | 0 <= j < BIN_COUNT :: c !in h.bins[j]
  {
    BinSpread(h, pending, i);
    assert ChunkOk(h.chunks, h.blocks, c);
    var l := h.bins[i];
    forall j | 0 <= j < BIN_COUNT
      ensures c !in h.bins[j]
    {
      if c in h.bins[j] {
        MemberBin(h.chunks, h.bins, pending, c, j);
      }
    }
    forall a: nat | a < |l|
      ensures l[a] + 4 <= c || c + 4 <= l[a]
    {
      MemberBin(h.chunks, h.bins, pending, l[a], i);
      ChunksSpread(h, pending, l[a], c);
    }
  }

  /** c goes into the list of its bin right after p. */
  ghost predicate PlacedAfter(h: Heap, c: nat, i: nat, p: nat) {
    && c in h.chunks && i == BinFor(h.chunks, c) && i < |h.bins| && (forall d | d in h.bins[i] :: d in h.chunks)
    && var k := FitIndex(h.chunks, h.bins[i], h.chunks[c].words);
       p == if k > 0 then h.bins[i][k - 1] else 0
  }

  /** Linking c at its place in the sorted list puts it into the bin. */
  lemma LinkRepresents(m: seq<nat>, heads: seq<nat>, newest: nat, h: Heap, pending: set<nat>, unfooted: set<nat>,
                       c: nat, i: nat, p: nat)
    requires Consistent(h, pending) && Represents(m, heads, newest, h, unfooted) && |heads| == BIN_COUNT
    requires c in pending && PlacedAfter(h, c, i, p) && Settled(h.chunks, c, pending - {c})
    ensures c + 2 < |m| && heads[i] + 2 < |m| && (p != 0 ==> p + 2 < |m| && m[p + 1] + 2 < |m|)
    ensures Represents(LinkWords(m, heads[i], c, p), heads[i := LinkHead(heads[i], c, p)], newest,
                       Enbin(h, pending, c), unfooted)
    ensures Keeps(m, LinkWords(m, heads[i], c, p), Live(h.chunks), h.blocks)
  {
    hide Consistent, Tags, Feet, BlockLinks, Keeps, Live, SameOffLinks, ListOk,
      LinkWords, LinkHead, Spread, BinIndex;
    var l := h.bins[i];
    var k := FitIndex(h.chunks, l, h.chunks[c].words);
    BinSpread(h, pending, i);
    InsertSpread(h, pending, i, c, k);
    LinkList(m, heads[i], l, c, k);
    LinkOnlyLinks(m, heads[i], l, c, k);
    ListStep(m, LinkWords(m, heads[i], c, p), heads, newest, h, Enbin(h, pending, c), pending, unfooted,
             (set e | e in l) + {c}, i, LinkHead(heads[i], c, p));
  }
}
