/** rotate and stable_partition, in place. */
module Partition {

  function Filter<T>(s: seq<T>, p: T -> bool): (r: seq<T>) {
    if |s| == 0 then []
    else if p(s[|s| - 1]) then Filter(s[..|s| - 1], p) + [s[|s| - 1]]
    else Filter(s[..|s| - 1], p)
  }

  function Not<T>(p: T -> bool): T -> bool { x => !p(x) }

  lemma {:induction false} FilterConcat<T>(a: seq<T>, b: seq<T>, p: T -> bool)
    ensures Filter(a + b, p) == Filter(a, p) + Filter(b, p)
    decreases |b|
  {
    if |b| == 0 {
      assert a + b == a;
    } else {
      assert (a + b)[..|a + b| - 1] == a + b[..|b| - 1];
      FilterConcat(a, b[..|b| - 1], p);
    }
  }

  lemma {:induction false} FilterAll<T>(s: seq<T>, p: T -> bool)
    requires forall x | x in s :: p(x)
    ensures Filter(s, p) == s && Filter(s, Not(p)) == []
    decreases |s|
  {
    if |s| > 0 {
      assert s == s[..|s| - 1] + [s[|s| - 1]];
      FilterAll(s[..|s| - 1], p);
    }
  }

  /** Partitioning keeps every element and loses none. */
  lemma {:induction false} FilterSplits<T>(s: seq<T>, p: T -> bool)
    ensures multiset(Filter(s, p) + Filter(s, Not(p))) == multiset(s)
    ensures |Filter(s, p)| + |Filter(s, Not(p))| == |s|
    ensures (forall x | x in Filter(s, p) :: p(x)) && (forall x | x in Filter(s, Not(p)) :: !p(x))
    decreases |s|
  {
    if |s| > 0 {
      assert s == s[..|s| - 1] + [s[|s| - 1]];
      FilterSplits(s[..|s| - 1], p);
    }
  }

  // ----- rotate -----

  /** now is was with [first, middle) and [middle, last) exchanged. */
  ghost predicate Rotated<T>(now: seq<T>, was: seq<T>, first: nat, middle: nat, last: nat) {
    && first <= middle <= last <= |was| == |now|
    && now[first..first + (last - middle)] == was[middle..last]
    && now[first + (last - middle)..last] == was[first..middle]
    && now[..first] == was[..first] && now[last..] == was[last..]
  }

  /** The rotation on its way: the right part up to read is in place, and the left part
      follows, to be read from victim around. */
  ghost predicate Turning<T>(now: seq<T>, was: seq<T>, first: nat, middle: nat,
                             read: nat, write: nat, victim: nat)
  {
    && first < middle <= read <= |was| == |now| && write - first == read - middle && first <= write <= victim < read
    && now[..first] == was[..first] && now[read..] == was[read..]
    && now[first..write] == was[middle..read]
    && now[victim..read] + now[write..victim] == was[first..middle]
  }

  lemma TurnOne<T>(now: seq<T>, was: seq<T>, first: nat, middle: nat, read: nat, write: nat, victim: nat)
    requires Turning(now, was, first, middle, read, write, victim) && read < |now|
    ensures Turning(now[read := now[write]][write := now[read]], was, first, middle, read + 1, write + 1,
                    if write == victim then read else victim)
  {
    var after := now[read := now[write]][write := now[read]];
    SwapKeepsLeft(now, after, read, write, victim);
    assert now[read] == was[read] by { assert now[read..][0] == was[read..][0]; }
    assert after[first..write + 1] == now[first..write] + [was[read]];
    assert was[middle..read + 1] == was[middle..read] + [was[read]];
    assert after[read + 1..] == now[read..][1..] && was[read + 1..] == was[read..][1..];
    assert after[..first] == now[..first];
  }

  /** One swap of the rotation keeps the left part, read from the victim around. */
  lemma SwapKeepsLeft<T>(was: seq<T>, now: seq<T>, read: nat, write: nat, victim: nat)
    requires write <= victim < read < |was| && now == was[read := was[write]][write := was[read]]
    ensures var next := if write == victim then read else victim;
      now[next..read + 1] + now[write + 1..next] == was[victim..read] + was[write..victim]
  {
    if write == victim {
      assert now[read..read + 1] == [was[write]];
      assert now[write + 1..read] == was[write + 1..read];
      assert was[victim..read] == [was[write]] + was[write + 1..read];
      assert was[write..victim] == [];
    } else {
      assert now[victim..read + 1] == was[victim..read] + [was[write]];
      assert now[write + 1..victim] == was[write + 1..victim];
      assert was[write..victim] == [was[write]] + was[write + 1..victim];
    }
  }

  lemma TurnRest<T>(done: seq<T>, now: seq<T>, was: seq<T>, first: nat, middle: nat, last: nat, write: nat, victim: nat)
    requires Turning(now, was, first, middle, last, write, victim) && Rotated(done, now, write, victim, last)
    ensures Rotated(done, was, first, middle, last) && write == first + (last - middle)
  {
    var inner := write + (last - victim);
    assert done[write..last] == done[write..inner] + done[inner..last];
    assert done[first..write] == done[..write][first..] == now[..write][first..] == now[first..write];
    assert done[..first] == done[..write][..first] == now[..write][..first] == now[..first];
  }

  /** Swaps the right part to the front while victim marks where the left part now begins,
      then turns what is left the same way.  Returns where the left part ends up. */
  method Rotate<T>(a: array<T>, first: nat, middle: nat, last: nat) returns (boundary: nat)
    requires first <= middle <= last <= a.Length
    modifies a
    ensures Rotated(a[..], old(a[..]), first, middle, last) && boundary == first + (last - middle)
    decreases last - first
  {
    hide Turning, Rotated;
    ghost var was := a[..];
    NothingToTurn(was, first, middle, last);
    if first == middle {
      return last;
    }
    if middle == last {
      return first;
    }
    var read, write, victim := middle, first, first;
    while read != last
      invariant middle <= read <= last && first <= write <= victim < read && write - first == read - middle
      invariant Turning(a[..], was, first, middle, read, write, victim)
      decreases last - read
    {
      TurnOne(a[..], was, first, middle, read, write, victim);
      ghost var now := a[..];
      a[read], a[write] := a[write], a[read];
      assert a[..] == now[read := now[write]][write := now[read]];
      if write == victim {
        victim := read;
      }
      read, write := read + 1, write + 1;
    }
    ghost var now := a[..];
    var _ := Rotate(a, write, victim, read);
    TurnRest(a[..], now, was, first, middle, last, write, victim);
    return write;
  }

  /** With one part empty there is nothing to do; otherwise the rotation may begin. */
  lemma NothingToTurn<T>(s: seq<T>, first: nat, middle: nat, last: nat)
    requires first <= middle <= last <= |s|
    ensures first == middle || middle == last ==> Rotated(s, s, first, middle, last)
    ensures first < middle ==> Turning(s, s, first, middle, middle, first, first)
  {
    assert s[first..first] == [];
  }

  // ----- stable_partition -----

  /** now is was with the elements of [from, last) that satisfy p first and the others
      from boundary on, each in their order. */
  ghost predicate Partitioned<T>(now: seq<T>, was: seq<T>, from: nat, boundary: nat, last: nat, p: T -> bool) {
    && from <= boundary <= last <= |was| == |now|
    && now[from..boundary] == Filter(was[from..last], p)
    && now[boundary..last] == Filter(was[from..last], Not(p))
    && now[..from] == was[..from] && now[last..] == was[last..]
  }

  lemma SkippedStay<T>(now: seq<T>, was: seq<T>, from: nat, first: nat, boundary: nat, last: nat, p: T -> bool)
    requires Partitioned(now, was, first, boundary, last, p) && from <= first
    requires forall x | x in was[from..first] :: p(x)
    ensures Partitioned(now, was, from, boundary, last, p)
  {
    hide Filter;
    var skipped, rest := was[from..first], was[first..last];
    assert was[from..last] == skipped + rest;
    FilterAll(skipped, p);
    FilterConcat(skipped, rest, p);
    FilterConcat(skipped, rest, Not(p));
    assert now[from..first] == now[..first][from..] == was[..first][from..] == skipped;
    assert now[from..boundary] == now[from..first] + now[first..boundary];
    assert now[..from] == now[..first][..from] && was[..from] == was[..first][..from];
  }

  /** Two partitioned halves and a rotation of what lies between their boundaries. */
  lemma HalvesJoin<T>(now: seq<T>, two: seq<T>, one: seq<T>, was: seq<T>,
                      first: nat, bound1: nat, middle: nat, bound2: nat, last: nat, p: T -> bool)
    requires Partitioned(one, was, first, bound1, middle, p) && Partitioned(two, one, middle, bound2, last, p)
    requires Rotated(now, two, bound1, middle, bound2)
    ensures Partitioned(now, was, first, bound1 + (bound2 - middle), last, p)
  {
    hide Filter;
    var boundary := bound1 + (bound2 - middle);
    assert one[middle..last] == one[middle..][..last - middle] == was[middle..][..last - middle] == was[middle..last];
    assert was[first..last] == was[first..middle] + was[middle..last];
    FilterConcat(was[first..middle], was[middle..last], p);
    FilterConcat(was[first..middle], was[middle..last], Not(p));
    Pieces(now, two, one, first, bound1, middle, bound2, last);
    assert now[first..boundary] == now[first..bound1] + now[bound1..boundary];
    assert now[boundary..last] == now[boundary..bound2] + now[bound2..last];
    assert one[last..] == one[middle..][last - middle..] == was[middle..][last - middle..] == was[last..];
  }

  /** What the second half and the rotation leave alone. */
  lemma Pieces<T>(now: seq<T>, two: seq<T>, one: seq<T>, first: nat, bound1: nat, middle: nat, bound2: nat, last: nat)
    requires first <= bound1 <= middle <= bound2 <= last <= |now| == |two| == |one|
    requires two[..middle] == one[..middle] && two[last..] == one[last..]
    requires now[..bound1] == two[..bound1] && now[bound2..] == two[bound2..]
    ensures now[first..bound1] == one[first..bound1] && two[bound1..middle] == one[bound1..middle]
    ensures now[bound2..last] == two[bound2..last]
    ensures now[..first] == one[..first] && now[last..] == one[last..]
  {
    assert now[first..bound1] == now[..bound1][first..] == two[..bound1][first..] == two[..middle][first..bound1];
    assert one[first..bound1] == one[..middle][first..bound1];
    assert two[bound1..middle] == two[..middle][bound1..] && one[bound1..middle] == one[..middle][bound1..];
    assert now[bound2..last] == now[bound2..][..last - bound2] == two[bound2..][..last - bound2];
    assert now[..first] == now[..bound1][..first] == two[..bound1][..first] == two[..middle][..first];
    assert one[..first] == one[..middle][..first];
    assert now[last..] == now[bound2..][last - bound2..] == two[bound2..][last - bound2..] == two[last..];
  }

  /** At most one element, which does not satisfy p. */
  lemma AtMostOne<T>(s: seq<T>, first: nat, last: nat, p: T -> bool)
    requires first <= last <= |s| && last - first <= 1 && (first < last ==> !p(s[first]))
    ensures Partitioned(s, s, first, first, last, p)
  {
    var rest := s[first..last];
    assert rest == [] || rest == [s[first]];
    assert |rest| == 1 ==> rest[..0] == [];
  }

  lemma Pair<T>(s: seq<T>, first: nat, p: T -> bool)
    requires first + 2 <= |s| && !p(s[first])
    ensures p(s[first + 1]) ==>
      Partitioned(s[first := s[first + 1]][first + 1 := s[first]], s, first, first + 1, first + 2, p)
    ensures !p(s[first + 1]) ==> Partitioned(s, s, first, first, first + 2, p)
  {
    var x, y := s[first], s[first + 1];
    assert s[first..first + 2] == [x] + [y];
    FilterConcat([x], [y], p);
    FilterConcat([x], [y], Not(p));
  }

  /** The elements satisfying p in their order, then the others in theirs; boundary is
      where the others begin.  Works for a buffer of any size: one that holds the range
      takes the others in one pass, a smaller one splits the range in two. */
  method PartitionWith<T(0)>(a: array<T>, from: nat, last: nat, p: T -> bool, bytes: nat, elementSize: nat)
    returns (boundary: nat)
    requires from <= last <= a.Length
    modifies a
    ensures Partitioned(a[..], old(a[..]), from, boundary, last, p)
    decreases last - from
  {
    hide Filter, Partitioned;
    ghost var was := a[..];
    var first, n := from, last - from;
    while first != last
      invariant from <= first <= last && n == last - first
      invariant forall i | from <= i < first :: p(a[i])
      decreases last - first
    {
      if !p(a[first]) {
        break;
      }
      first, n := first + 1, n - 1;
    }
    boundary := PartitionRest(a, from, first, last, n, p, bytes, elementSize);
    SkippedStay(a[..], was, from, first, boundary, last, p);
  }

  /** After the skipped elements: the range is empty or begins with an element that does
      not satisfy p. */
  method PartitionRest<T(0)>(a: array<T>, ghost from: nat, first: nat, last: nat, n: nat, p: T -> bool,
                             bytes: nat, elementSize: nat)
    returns (boundary: nat)
    requires from <= first <= last <= a.Length && n == last - first && (first < last ==> !p(a[first]))
    modifies a
    ensures Partitioned(a[..], old(a[..]), first, boundary, last, p)
    decreases last - from, 0
  {
    hide Filter, Partitioned;
    ghost var was := a[..];
    if n <= 1 {
      AtMostOne(was, first, last, p);
      return first;
    }
    if n == 2 {
      var second := first + 1;
      Pair(was, first, p);
      if p(a[second]) {
        a[first], a[second] := a[second], a[first];
        assert a[..] == was[first := was[second]][second := was[first]];
        return second;
      } else {
        return first;
      }
    }
    if bytes >= n * elementSize {
      var used;
      boundary, used := ThroughBuffer(a, first, last, p, bytes, elementSize);
      return;
    }
    var half := n / 2;
    var middle := first + half;
    var bound1 := PartitionWith(a, first, middle, p, bytes, elementSize);
    ghost var one := a[..];
    var bound2 := PartitionWith(a, middle, last, p, bytes, elementSize);
    ghost var two := a[..];
    BoundariesInOrder(one, was, first, bound1, middle, p);
    BoundariesInOrder(two, one, middle, bound2, last, p);
    boundary := Rotate(a, bound1, middle, bound2);
    HalvesJoin(a[..], two, one, was, first, bound1, middle, bound2, last, p);
  }

  lemma BoundariesInOrder<T>(now: seq<T>, was: seq<T>, from: nat, boundary: nat, last: nat, p: T -> bool)
    requires Partitioned(now, was, from, boundary, last, p)
    ensures from <= boundary <= last
  {
  }

  /** The buffered pass on its way: satisfying elements gathered at the front, the others
      held in the buffer, and slots between the two that may hold anything. */
  ghost predicate Gathering<T>(now: seq<T>, was: seq<T>, first: nat, read: nat, write: nat,
                               held: seq<T>, p: T -> bool) {
    && first <= write <= read <= |was| == |now| && write - first + |held| == read - first
    && now[first..write] == Filter(was[first..read], p) && held == Filter(was[first..read], Not(p))
    && now[..first] == was[..first] && now[read..] == was[read..]
  }

  lemma GatherTrue<T>(now: seq<T>, was: seq<T>, first: nat, read: nat, write: nat, held: seq<T>, p: T -> bool)
    requires Gathering(now, was, first, read, write, held, p) && read < |now| && p(now[read])
    ensures Gathering(now[read := now[write]][write := now[read]], was, first, read + 1, write + 1, held, p)
  {
    hide Filter;
    FilterNext(now, was, first, read, p);
    var after := now[read := now[write]][write := now[read]];
    assert after[first..write + 1] == now[first..write] + [now[read]];
    assert after[..first] == now[..first] && after[read + 1..] == now[read..][1..];
  }

  lemma GatherFalse<T>(now: seq<T>, was: seq<T>, first: nat, read: nat, write: nat, held: seq<T>, p: T -> bool, junk: T)
    requires Gathering(now, was, first, read, write, held, p) && read < |now| && !p(now[read])
    ensures Gathering(now[read := junk], was, first, read + 1, write, held + [now[read]], p)
  {
    hide Filter;
    FilterNext(now, was, first, read, p);
    var after := now[read := junk];
    assert after[first..write] == now[first..write];
    assert after[..first] == now[..first] && after[read + 1..] == now[read..][1..];
  }

  lemma FilterNext<T>(now: seq<T>, was: seq<T>, first: nat, read: nat, p: T -> bool)
    requires first <= read < |was| == |now| && now[read..] == was[read..]
    ensures was[read + 1..] == now[read..][1..]
    ensures Filter(was[first..read + 1], p) == Filter(was[first..read], p) + if p(now[read]) then [now[read]] else []
    ensures Filter(was[first..read + 1], Not(p))
         == Filter(was[first..read], Not(p)) + if p(now[read]) then [] else [now[read]]
  {
    var x := now[read];
    assert x == was[read] by { assert now[read..][0] == was[read..][0]; }
    assert was[first..read + 1] == was[first..read] + [x];
    FilterConcat(was[first..read], [x], p);
    FilterConcat(was[first..read], [x], Not(p));
  }

  /** Moves the others to the buffer, the satisfying ones together, and the others back.
      A slot that was moved from may hold anything until it is written again.  used is how
      many elements the buffer came to hold, one behind the other. */
  method ThroughBuffer<T(0)>(a: array<T>, first: nat, last: nat, p: T -> bool, bytes: nat, elementSize: nat)
    returns (boundary: nat, used: nat)
    requires first <= last <= a.Length && bytes >= (last - first) * elementSize
    modifies a
    ensures Partitioned(a[..], old(a[..]), first, boundary, last, p)
    ensures used == last - boundary && used * elementSize <= bytes
  {
    hide Filter, Gathering, Partitioned;
    ghost var was := a[..];
    var held: seq<T> := [];
    var read, write := first, first;
    NothingGathered(was, first, p);
    while read != last
      invariant first <= write <= read <= last && |held| == read - write && |held| * elementSize <= bytes
      invariant Gathering(a[..], was, first, read, write, held, p)
      decreases last - read
    {
      ghost var now := a[..];
      if p(a[read]) {
        GatherTrue(now, was, first, read, write, held, p);
        if read != write {
          a[read], a[write] := a[write], a[read];
        }
        assert a[..] == now[read := now[write]][write := now[read]];
        write := write + 1;
      } else {
        FitsBuffer(|held| + 1, last - first, elementSize);
        held := held + [a[read]];
        a[read] := *;
        GatherFalse(now, was, first, read, write, held[..|held| - 1], p, a[read]);
        assert a[..] == now[read := a[read]];
      }
      read := read + 1;
    }
    boundary, used := write, |held|;
    ghost var now := a[..];
    MoveBack(a, boundary, last, held);
    Gathered(a[..], now, was, first, write, last, held, p);
  }

  /** With the range read and the buffer moved back the range is partitioned. */
  lemma Gathered<T>(done: seq<T>, now: seq<T>, was: seq<T>, first: nat, write: nat, last: nat,
                    held: seq<T>, p: T -> bool)
    requires Gathering(now, was, first, last, write, held, p) && |done| == |now|
    requires done[write..last] == held && done[..write] == now[..write] && done[last..] == now[last..]
    ensures Partitioned(done, was, first, write, last, p)
  {
    hide Filter;
    assert done[first..write] == done[..write][first..] && now[first..write] == now[..write][first..];
    assert done[..first] == done[..write][..first] && now[..first] == now[..write][..first];
  }

  lemma NothingGathered<T>(s: seq<T>, first: nat, p: T -> bool)
    requires first <= |s|
    ensures Gathering(s, s, first, first, first, [], p)
  {
    assert s[first..first] == [];
  }

  method MoveBack<T>(a: array<T>, from: nat, last: nat, held: seq<T>)
    requires from + |held| == last <= a.Length
    modifies a
    ensures a[from..last] == held && a[..from] == old(a[..from]) && a[last..] == old(a[last..])
  {
    var write, i := from, 0;
    while write != last
      invariant from <= write <= last && i == write - from
      invariant a[from..write] == held[..i]
      invariant a[..from] == old(a[..from]) && a[last..] == old(a[last..])
      decreases last - write
    {
      a[write] := held[i];
      write, i := write + 1, i + 1;
    }
  }

  lemma FitsBuffer(k: nat, n: nat, elementSize: nat)
    requires k <= n
    ensures k * elementSize <= n * elementSize
  {
    assert (n - k) * elementSize == n * elementSize - k * elementSize;
  }

  /** Tries for a buffer for the whole range, then for half as much, and so on; granted says
      which requests succeed. */
  method StablePartition<T(0)>(a: array<T>, first: nat, last: nat, p: T -> bool, elementSize: nat, granted: nat -> bool)
    returns (boundary: nat)
    requires first <= last <= a.Length && elementSize > 0
    modifies a
    ensures first <= boundary <= last
    ensures a[first..boundary] == Filter(old(a[first..last]), p)
    ensures a[boundary..last] == Filter(old(a[first..last]), Not(p))
    ensures a[..first] == old(a[..first]) && a[last..] == old(a[last..])
  {
    var bytes := 0;
    var size := (last - first) * elementSize;
    while size >= 4 * elementSize
      decreases size
    {
      if granted(size) {
        bytes := size;
        break;
      }
      size := size / 2;
    }
    ghost var was := a[..];
    boundary := PartitionWith(a, first, last, p, bytes, elementSize);
    assert was[first..last] == old(a[first..last]) && was[..first] == old(a[..first]) && was[last..] == old(a[last..]);
  }
}
