/** The chunk operations themselves, rewriting an array of memory words in place. */
module ChunkMethods {
  import opened ChunkWords
  import opened HeapSteps
  import opened HeapMemory
  import opened ChunkOps
  import opened ChunkSplit
  import opened ListOps

  /** markFree (free) or markNotFree (not free). */
  method Mark(mem: array<nat>, c: nat, free: bool)
    requires HeaderAt(mem[..], c)
    modifies mem
    ensures mem[..] == MarkWords(old(mem[..]), c, free)
  {
    hide WithFree, WithoutFree, WithPredFree, WithoutPredFree, IsLast, WordCount;
    FreeFlagAlone(mem[c]);
    mem[c] := if free then WithFree(mem[c]) else WithoutFree(mem[c]);
    if !IsLast(mem[c]) {
      var n := c + WordCount(mem[c]);
      mem[n] := if free then WithPredFree(mem[n]) else WithoutPredFree(mem[n]);
    }
  }

  method MergeWithSuccessor(mem: array<nat>, c: nat)
    requires HeaderAt(mem[..], c) && (!IsLast(mem[c]) ==> NextAt(mem[..], c) != c)
    modifies mem
    ensures mem[..] == MergeWords(old(mem[..]), c)
  {
    if IsLast(mem[c]) {
      return;
    }
    var n := c + WordCount(mem[c]);
    if !IsFree(mem[n]) {
      return;
    }
    var last := IsLast(mem[n]);
    mem[c] := WithWords(mem[c], WordCount(mem[c]) + WordCount(mem[n]));
    if last {
      mem[c] := WithLast(mem[c]);
    }
  }

  /** Setting the free flag, and the successor's, moves neither the footer nor the
      successor; the footer is not the header itself. */
  lemma FootFacts(m: seq<nat>, c: nat)
    requires FootAt(m, c)
    ensures c < c + WordCount(m[c]) - 1 < |m| && (!IsLast(m[c]) ==> c + WordCount(m[c]) < |m|)
    ensures MarkWords(m, c, true)[c] == WithFree(m[c])
  {
    FreeFlagAlone(m[c]);
  }

  method DoFree(mem: array<nat>, c: nat)
    requires FootAt(mem[..], c)
    modifies mem
    ensures mem[..] == FinishWords(old(mem[..]), c)
  {
    hide WithFree, WithPredFree, IsLast, WordCount, SizeBytes;
    FreeFlagAlone(mem[c]);
    FootFacts(mem[..], c);
    Mark(mem, c, true);
    mem[c + WordCount(mem[c]) - 1] := SizeBytes(mem[c]);
    if !IsLast(mem[c]) {
      var n := c + WordCount(mem[c]);
      mem[n] := WithPredFree(mem[n]);
    }
  }

  method SplitInPlace(mem: array<nat>, c: nat, words: nat) returns (rest: nat)
    requires CanCut(mem[..], c, words)
    modifies mem
    ensures rest == c + words
    ensures mem[..] == SplitWords(old(mem[..]), c, words)
  {
    hide WithFree, WithLast, WithoutLast, WithWords, IsLast, IsFree, FinishWords, FootAt;
    SplitHeadFacts(mem[..], c, words);
    ShrinkFacts(mem[..], c, words);
    ghost var m := mem[..];
    var remaining := WordCount(mem[c]) - words;
    rest := c + words;
    mem[rest + 1] := 0;
    mem[rest + 2] := 0;
    mem[rest] := 8 * remaining;
    if IsLast(mem[c]) {
      mem[rest] := WithLast(mem[rest]);
      mem[c] := WithoutLast(mem[c]);
    }
    assert mem[..] == SplitHead(m, c, words);
    DoFree(mem, rest);
    mem[c] := WithWords(mem[c], words);
    if IsFree(mem[c]) {
      DoFree(mem, c);
    }
  }

  /** The chunk before c, read from that chunk's footer. */
  method Predecessor(mem: array<nat>, c: nat) returns (p: nat)
    requires c < mem.Length && IsPredFree(mem[c]) && 0 < c && WordCount(mem[c - 1]) <= c
    ensures p == c - WordCount(mem[c - 1])
  {
    var size := mem[c - 1];
    p := c - size / 8;
  }

  method UnlinkFromList(mem: array<nat>, heads: array<nat>, i: nat, c: nat)
    requires Linked(mem[..], c) && i < heads.Length && mem != heads
    modifies mem, heads
    ensures mem[..] == UnlinkWords(old(mem[..]), c)
    ensures heads[..] == old(heads[..])[i := UnlinkHead(old(mem[..]), old(heads[i]), c)]
  {
    var next, prev := mem[c + 1], mem[c + 2];
    if next != 0 {
      mem[next + 2] := prev;
    }
    if prev != 0 {
      mem[prev + 1] := next;
    } else {
      heads[i] := next;
    }
    mem[c + 2] := 0;
    mem[c + 1] := 0;
  }

  // ----- walking a list -----

  lemma {:induction false} FitIndexIs(cs: map<nat, Chunk>, l: seq<nat>, words: nat, k: nat)
    requires (forall c | c in l :: c in cs) && k <= |l|
    requires forall j | 0 <= j < k :: cs[l[j]].words < words
    requires k < |l| ==> cs[l[k]].words >= words
    ensures FitIndex(cs, l, words) == k
  {
    if k > 0 {
      assert cs[l[0]].words < words;
      forall j | 0 <= j < k - 1
        ensures cs[l[1..][j]].words < words
      {
        assert l[1..][j] == l[j + 1];
      }
      FitIndexIs(cs, l[1..], words, k - 1);
    }
  }

  /** The entries of l are chunks whose headers are in memory. */
  ghost predicate Headed(m: seq<nat>, cs: map<nat, Chunk>, l: seq<nat>) {
    forall j: nat | j < |l| :: l[j] in cs && l[j] < |m| && m[l[j]] == Header(cs[l[j]])
  }

  /** c is none of the chunks in l. */
  ghost predicate Away(l: seq<nat>, c: nat) {
    c >= 4 && forall j: nat | j < |l| :: l[j] + 4 <= c || c + 4 <= l[j]
  }

  method BestFitInList(mem: array<nat>, head: nat, words: nat, ghost cs: map<nat, Chunk>, ghost l: seq<nat>)
    returns (p: nat)
    requires ListOk(mem[..], head, l) && Headed(mem[..], cs, l) && Spread(l)
    ensures forall e | e in l :: e in cs
    ensures var k := FitIndex(cs, l, words); p == if k < |l| then l[k] else 0
  {
    p := head;
    ghost var k := 0;
    while p != 0 && SizeBytes(mem[p]) < 8 * words
      invariant k <= |l| && p == if k < |l| then l[k] else 0
      invariant p != 0 ==> k < |l| && p < mem.Length && mem[p] == Header(cs[l[k]])
      invariant forall j | 0 <= j < k :: cs[l[j]].words < words
      decreases |l| - k
    {
      assert LinkOk(mem[..], l, k);
      p := mem[p + 1];
      k := k + 1;
    }
    FitIndexIs(cs, l, words, k);
  }

  /** Clearing c's links does not disturb a list c is not in. */
  lemma ClearKeepsList(m: seq<nat>, head: nat, l: seq<nat>, c: nat, cs: map<nat, Chunk>)
    requires ListOk(m, head, l) && Headed(m, cs, l) && Away(l, c) && c + 2 < |m|
    ensures ListOk(m[c + 1 := 0][c + 2 := 0], head, l) && Headed(m[c + 1 := 0][c + 2 := 0], cs, l)
  {
    var m' := m[c + 1 := 0][c + 2 := 0];
    forall k: nat | k < |l|
      ensures LinkOk(m', l, k)
    {
      assert LinkOk(m, l, k);
    }
  }

  lemma ClearedLink(m: seq<nat>, head: nat, c: nat, p: nat)
    requires c + 2 < |m| && head + 2 < |m| && p + 1 != c + 1 && p + 1 != c + 2
    requires p != 0 ==> p + 2 < |m| && m[p + 1] + 2 < |m|
    ensures LinkWords(m[c + 1 := 0][c + 2 := 0], head, c, p) == LinkWords(m, head, c, p)
  {
  }

  method LinkIntoSortedList(mem: array<nat>, heads: array<nat>, i: nat, c: nat,
                            ghost cs: map<nat, Chunk>, ghost l: seq<nat>)
    returns (ghost p: nat)
    requires mem != heads && i < heads.Length && c + 2 < mem.Length
    requires ListOk(mem[..], heads[i], l) && Headed(mem[..], cs, l) && Spread(l) && Away(l, c)
    requires c in cs && mem[c] == Header(cs[c])
    modifies mem, heads
    ensures forall e | e in l :: e in cs
    ensures var k := FitIndex(cs, l, cs[c].words); p == if k > 0 then l[k - 1] else 0
    ensures old(heads[i]) + 2 < mem.Length
    ensures p != 0 ==> p + 2 < mem.Length && old(mem[p + 1]) + 2 < mem.Length
    ensures mem[..] == LinkWords(old(mem[..]), old(heads[i]), c, p)
    ensures heads[..] == old(heads[..])[i := LinkHead(old(heads[i]), c, p)]
  {
    hide LinkWords, LinkHead, Spread, ListOk;
    ghost var m, head := mem[..], heads[i];
    ClearKeepsList(m, head, l, c, cs);
    mem[c + 2] := 0;
    mem[c + 1] := 0;
    assert mem[..] == m[c + 1 := 0][c + 2 := 0];
    p := InsertSorted(mem, heads, i, c, cs, l);
    ClearedLink(m, head, c, p);
  }

  /** An empty list, a chunk no larger than the first, and the general case. */
  method InsertSorted(mem: array<nat>, heads: array<nat>, i: nat, c: nat,
                      ghost cs: map<nat, Chunk>, ghost l: seq<nat>)
    returns (ghost p: nat)
    requires mem != heads && i < heads.Length && c + 2 < mem.Length && mem[c + 1] == mem[c + 2] == 0
    requires ListOk(mem[..], heads[i], l) && Headed(mem[..], cs, l) && Spread(l) && Away(l, c)
    requires c in cs && mem[c] == Header(cs[c])
    modifies mem, heads
    ensures forall e | e in l :: e in cs
    ensures var k := FitIndex(cs, l, cs[c].words); p == if k > 0 then l[k - 1] else 0
    ensures old(heads[i]) + 2 < mem.Length
    ensures p != 0 ==> p + 2 < mem.Length && old(mem[p + 1]) + 2 < mem.Length
    ensures mem[..] == LinkWords(old(mem[..]), old(heads[i]), c, p)
    ensures heads[..] == old(heads[..])[i := LinkHead(old(heads[i]), c, p)]
  {
    hide LinkWords, Header;
    var head := heads[i];
    p := 0;
    if head == 0 {
      InsertFront(mem, heads, i, c);
      FitIndexIs(cs, l, cs[c].words, 0);
      return;
    }
    assert LinkOk(mem[..], l, 0);
    if SizeBytes(mem[head]) >= SizeBytes(mem[c]) {
      InsertFront(mem, heads, i, c);
      FitIndexIs(cs, l, cs[c].words, 0);
      return;
    }
    var q := LastSmaller(mem, c, head, cs, l);
    p := q;
    LinkFits(mem[..], head, l, FitIndex(cs, l, cs[c].words));
    InsertAfter(mem, c, q, head);
  }

  /** Makes c the first entry of the list, or its only one. */
  method InsertFront(mem: array<nat>, heads: array<nat>, i: nat, c: nat)
    requires mem != heads && i < heads.Length && c + 2 < mem.Length && mem[c + 1] == mem[c + 2] == 0
    requires heads[i] + 2 < mem.Length && heads[i] != c
    modifies mem, heads
    ensures mem[..] == LinkWords(old(mem[..]), old(heads[i]), c, 0)
    ensures heads[..] == old(heads[..])[i := LinkHead(old(heads[i]), c, 0)]
  {
    var head := heads[i];
    if head != 0 {
      mem[c + 1] := head;
      mem[head + 2] := c;
    }
    heads[i] := c;
  }

  /** Walks to the last chunk of the list that is smaller than c. */
  method LastSmaller(mem: array<nat>, c: nat, head: nat, ghost cs: map<nat, Chunk>, ghost l: seq<nat>)
    returns (p: nat)
    requires ListOk(mem[..], head, l) && Headed(mem[..], cs, l)
    requires c < mem.Length && c in cs && mem[c] == Header(cs[c]) && Spread(l)
    requires |l| > 0 && cs[l[0]].words < cs[c].words
    ensures forall e | e in l :: e in cs
    ensures FitIndex(cs, l, cs[c].words) > 0 && p == l[FitIndex(cs, l, cs[c].words) - 1]
  {
    assert LinkOk(mem[..], l, 0);
    p := head;
    ghost var k := 0;
    while mem[p + 1] != 0 && SizeBytes(mem[mem[p + 1]]) < SizeBytes(mem[c])
      invariant k < |l| && p == l[k] && LinkOk(mem[..], l, k)
      invariant mem[p + 1] != 0 ==> k + 1 < |l| && mem[p + 1] < mem.Length && mem[mem[p + 1]] == Header(cs[l[k + 1]])
      invariant forall j | 0 <= j <= k :: cs[l[j]].words < cs[c].words
      decreases |l| - k
    {
      assert LinkOk(mem[..], l, k + 1);
      p := mem[p + 1];
      k := k + 1;
    }
    FitIndexIs(cs, l, cs[c].words, k + 1);
  }

  method InsertAfter(mem: array<nat>, c: nat, p: nat, ghost head: nat)
    requires p != 0 && p + 2 < mem.Length && mem[p + 1] + 2 < mem.Length
    requires c + 2 < mem.Length && head + 2 < mem.Length && p + 1 != c + 1 && p + 1 != c + 2
    modifies mem
    ensures mem[..] == LinkWords(old(mem[..]), head, c, p)
  {
    mem[c + 1] := mem[p + 1];
    mem[c + 2] := p;
    mem[p + 1] := c;
    if mem[c + 1] != 0 {
      mem[mem[c + 1] + 2] := c;
    }
  }
}
