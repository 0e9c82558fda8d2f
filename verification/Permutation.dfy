/** next_permutation and reverse, in place, for any comparison that is a strict weak
    order. */
module Permutation {

  // ----- sequences of numbers -----

  predicate Lex(a: seq<int>, b: seq<int>)
    requires |a| == |b|
  {
    |a| > 0 && (a[0] < b[0] || (a[0] == b[0] && Lex(a[1..], b[1..])))
  }

  ghost predicate Falling(s: seq<int>) { forall i, j | 0 <= i < j < |s| :: s[i] >= s[j] }

  ghost predicate Rising(s: seq<int>) { forall i, j | 0 <= i < j < |s| :: s[i] <= s[j] }

  lemma SameLength<T>(a: seq<T>, b: seq<T>)
    requires multiset(a) == multiset(b)
    ensures |a| == |b|
  {
    assert |multiset(a)| == |a| && |multiset(b)| == |b|;
  }

  lemma DropFirst<T>(a: seq<T>, b: seq<T>)
    requires |a| > 0 && |b| > 0 && a[0] == b[0] && multiset(a) == multiset(b)
    ensures multiset(a[1..]) == multiset(b[1..])
  {
    assert a == [a[0]] + a[1..] && b == [b[0]] + b[1..];
    assert multiset(a[1..]) == multiset(a) - multiset{a[0]};
  }

  lemma RemoveAt<T>(s: seq<T>, j: nat)
    requires j < |s|
    ensures multiset(s[..j] + s[j + 1..]) == multiset(s) - multiset{s[j]}
  {
    assert s == s[..j] + [s[j]] + s[j + 1..];
    assert multiset(s) == multiset(s[..j]) + multiset{s[j]} + multiset(s[j + 1..]);
  }

  lemma {:induction false} FallingIsGreatest(s: seq<int>, c: seq<int>)
    requires Falling(s) && multiset(c) == multiset(s) && |c| == |s|
    ensures !Lex(s, c)
    decreases |s|
  {
    if |s| > 0 {
      assert c[0] in multiset(s);
      if c[0] == s[0] {
        DropFirst(c, s);
        FallingIsGreatest(s[1..], c[1..]);
      }
    }
  }

  lemma {:induction false} RisingIsLeast(s: seq<int>, c: seq<int>)
    requires Rising(s) && multiset(c) == multiset(s) && |c| == |s|
    ensures !Lex(c, s)
    decreases |s|
  {
    if |s| > 0 {
      assert c[0] in multiset(s);
      if c[0] == s[0] {
        DropFirst(c, s);
        RisingIsLeast(s[1..], c[1..]);
      }
    }
  }

  /** A rearrangement between pre + [x] + t and pre + [y] + u, with t falling, u rising
      and y the least value of t above x, does not exist. */
  lemma {:induction false} NothingBetween(pre: seq<int>, x: int, t: seq<int>, y: int, u: seq<int>, c: seq<int>)
    requires x < y && Falling(t) && Rising(u) && |t| == |u| && |c| == |pre| + 1 + |t|
    requires multiset([x] + t) == multiset([y] + u)
    requires forall z | z in t :: z <= x || z >= y
    requires multiset(c) == multiset(pre + [x] + t)
    ensures !(Lex(pre + [x] + t, c) && Lex(c, pre + [y] + u))
    decreases |pre|
  {
    var a, b := pre + [x] + t, pre + [y] + u;
    if |pre| == 0 {
      assert a == [x] + t && b == [y] + u;
      assert a[1..] == t && b[1..] == u;
      assert c[0] in multiset(c) && (c[0] == x || c[0] in t);
      if c[0] == x {
        DropFirst(c, a);
        FallingIsGreatest(t, c[1..]);
      } else if c[0] == y {
        DropFirst(c, b);
        RisingIsLeast(u, c[1..]);
      }
    } else {
      assert a[1..] == pre[1..] + [x] + t && b[1..] == pre[1..] + [y] + u;
      if c[0] == pre[0] {
        DropFirst(c, a);
        NothingBetween(pre[1..], x, t, y, u, c[1..]);
      }
    }
  }

  lemma {:induction false} PrefixThenLarger(pre: seq<int>, x: int, t: seq<int>, y: int, u: seq<int>)
    requires x < y && |t| == |u|
    ensures Lex(pre + [x] + t, pre + [y] + u)
    decreases |pre|
  {
    var a, b := pre + [x] + t, pre + [y] + u;
    if |pre| > 0 {
      assert a[1..] == pre[1..] + [x] + t && b[1..] == pre[1..] + [y] + u;
      PrefixThenLarger(pre[1..], x, t, y, u);
    }
  }

  // ----- any strict weak order, by counting what is less -----

  ghost predicate StrictWeakOrder<T(!new)>(less: (T, T) -> bool) {
    && (forall x :: !less(x, x))
    && (forall x, y, z :: less(x, y) && less(y, z) ==> less(x, z))
    && (forall x, y, z :: !less(x, y) && !less(y, z) ==> !less(x, z))
  }

  ghost predicate LexLess<T>(a: seq<T>, b: seq<T>, less: (T, T) -> bool)
    requires |a| == |b|
  {
    |a| > 0 && (less(a[0], b[0]) || (!less(b[0], a[0]) && LexLess(a[1..], b[1..], less)))
  }

  ghost function Rank<T>(x: T, all: seq<T>, less: (T, T) -> bool): nat {
    if |all| == 0 then 0 else Rank(x, all[1..], less) + if less(all[0], x) then 1 else 0
  }

  ghost function Ranks<T>(s: seq<T>, all: seq<T>, less: (T, T) -> bool): (r: seq<int>)
    ensures |r| == |s|
  {
    seq(|s|, i requires 0 <= i < |s| => Rank(s[i], all, less))
  }

  lemma {:induction false} RankMonotone<T(!new)>(x: T, y: T, all: seq<T>, less: (T, T) -> bool)
    requires StrictWeakOrder(less) && !less(y, x)
    ensures Rank(x, all, less) <= Rank(y, all, less)
    ensures less(x, y) && x in all ==> Rank(x, all, less) < Rank(y, all, less)
    decreases |all|
  {
    if |all| > 0 {
      RankMonotone(x, y, all[1..], less);
      assert less(all[0], x) ==> less(all[0], y);
      assert x in all ==> x == all[0] || x in all[1..];
    }
  }

  lemma RankOrders<T(!new)>(x: T, y: T, all: seq<T>, less: (T, T) -> bool)
    requires StrictWeakOrder(less) && x in all && y in all
    ensures less(x, y) <==> Rank(x, all, less) < Rank(y, all, less)
    ensures !less(x, y) && !less(y, x) <==> Rank(x, all, less) == Rank(y, all, less)
  {
    if !less(y, x) {
      RankMonotone(x, y, all, less);
    }
    if !less(x, y) {
      RankMonotone(y, x, all, less);
    }
  }

  ghost predicate Within<T>(s: seq<T>, all: seq<T>) { forall x | x in s :: x in all }

  lemma {:induction false} LexByRanks<T(!new)>(a: seq<T>, b: seq<T>, all: seq<T>, less: (T, T) -> bool)
    requires StrictWeakOrder(less) && |a| == |b| && Within(a, all) && Within(b, all)
    ensures LexLess(a, b, less) <==> Lex(Ranks(a, all, less), Ranks(b, all, less))
    decreases |a|
  {
    if |a| > 0 {
      RankOrders(a[0], b[0], all, less);
      RankOrders(b[0], a[0], all, less);
      LexByRanks(a[1..], b[1..], all, less);
      assert Ranks(a, all, less)[1..] == Ranks(a[1..], all, less);
      assert Ranks(b, all, less)[1..] == Ranks(b[1..], all, less);
    }
  }

  lemma {:induction false} RanksOfRearrangement<T>(a: seq<T>, b: seq<T>, all: seq<T>, less: (T, T) -> bool)
    requires multiset(a) == multiset(b)
    ensures multiset(Ranks(a, all, less)) == multiset(Ranks(b, all, less))
    decreases |a|
  {
    hide Rank, Ranks;
    SameLength(a, b);
    if |a| > 0 {
      assert a[0] in multiset(b);
      var j :| 0 <= j < |b| && b[j] == a[0];
      RemoveAt(a, 0);
      RemoveAt(b, j);
      RanksOfRearrangement(a[..0] + a[1..], b[..j] + b[j + 1..], all, less);
      RanksStep(a, b, j, all, less);
    }
  }

  lemma RanksStep<T>(a: seq<T>, b: seq<T>, j: nat, all: seq<T>, less: (T, T) -> bool)
    requires |a| > 0 && j < |b| && b[j] == a[0]
    requires multiset(Ranks(a[..0] + a[1..], all, less)) == multiset(Ranks(b[..j] + b[j + 1..], all, less))
    ensures multiset(Ranks(a, all, less)) == multiset(Ranks(b, all, less))
  {
    hide Rank, Ranks;
    RanksWithout(a, 0, all, less);
    RanksWithout(b, j, all, less);
    SameWithout(multiset(Ranks(a, all, less)), multiset(Ranks(b, all, less)), Rank(a[0], all, less));
  }

  lemma RanksWithout<T>(s: seq<T>, j: nat, all: seq<T>, less: (T, T) -> bool)
    requires j < |s|
    ensures multiset(Ranks(s[..j] + s[j + 1..], all, less))
         == multiset(Ranks(s, all, less)) - multiset{Rank(s[j], all, less)}
    ensures Rank(s[j], all, less) in multiset(Ranks(s, all, less))
  {
    var r := Ranks(s, all, less);
    assert r[j] == Rank(s[j], all, less);
    assert Ranks(s[..j] + s[j + 1..], all, less) == r[..j] + r[j + 1..];
    RemoveAt(r, j);
  }

  lemma SameWithout<T>(a: multiset<T>, b: multiset<T>, x: T)
    requires x in a && x in b && a - multiset{x} == b - multiset{x}
    ensures a == b
  {
    assert a == a - multiset{x} + multiset{x};
    assert b == b - multiset{x} + multiset{x};
  }

  // ----- successors among the rearrangements -----

  ghost predicate Rearranged<T>(a: seq<T>, b: seq<T>) { multiset(a) == multiset(b) && |a| == |b| }

  ghost predicate IsSuccessor<T(!new)>(a: seq<T>, b: seq<T>, less: (T, T) -> bool) {
    && Rearranged(a, b) && LexLess(a, b, less)
    && forall c: seq<T> | Rearranged(a, c) :: !(LexLess(a, c, less) && LexLess(c, b, less))
  }

  ghost predicate IsGreatest<T(!new)>(a: seq<T>, less: (T, T) -> bool) {
    forall c: seq<T> | Rearranged(a, c) :: !LexLess(a, c, less)
  }

  ghost predicate IsLeast<T(!new)>(a: seq<T>, less: (T, T) -> bool) {
    forall c: seq<T> | Rearranged(a, c) :: !LexLess(c, a, less)
  }

  /** No element is less than the one after it. */
  ghost predicate Descends<T>(s: seq<T>, less: (T, T) -> bool) {
    forall i | 0 <= i < |s| - 1 :: !less(s[i], s[i + 1])
  }

  ghost predicate Ascends<T>(s: seq<T>, less: (T, T) -> bool) {
    forall i | 0 <= i < |s| - 1 :: !less(s[i + 1], s[i])
  }

  function Reversed<T>(s: seq<T>): (r: seq<T>)
    ensures |r| == |s|
  {
    seq(|s|, i requires 0 <= i < |s| => s[|s| - 1 - i])
  }

  lemma {:induction false} ReversedRearranges<T>(s: seq<T>)
    ensures Rearranged(s, Reversed(s))
    decreases |s|
  {
    if |s| > 0 {
      ReversedRearranges(s[1..]);
      assert s == [s[0]] + s[1..];
      assert Reversed(s) == Reversed(s[1..]) + [s[0]];
    }
  }

  lemma {:induction false} FallingFrom(s: seq<int>)
    requires forall i | 0 <= i < |s| - 1 :: s[i] >= s[i + 1]
    ensures Falling(s)
    decreases |s|
  {
    if |s| > 1 {
      var t := s[1..];
      FallingFrom(t);
      forall i, j | 0 <= i < j < |s|
        ensures s[i] >= s[j]
      {
        assert s[0] >= s[1] == t[0] && s[j] == t[j - 1];
        assert i > 0 ==> s[i] == t[i - 1];
      }
    }
  }

  lemma {:induction false} RisingFrom(s: seq<int>)
    requires forall i | 0 <= i < |s| - 1 :: s[i] <= s[i + 1]
    ensures Rising(s)
    decreases |s|
  {
    if |s| > 1 {
      var t := s[1..];
      RisingFrom(t);
      forall i, j | 0 <= i < j < |s|
        ensures s[i] <= s[j]
      {
        assert s[0] <= s[1] == t[0] && s[j] == t[j - 1];
        assert i > 0 ==> s[i] == t[i - 1];
      }
    }
  }

  lemma DescendingRanks<T(!new)>(s: seq<T>, all: seq<T>, less: (T, T) -> bool)
    requires StrictWeakOrder(less) && Within(s, all) && Descends(s, less)
    ensures Falling(Ranks(s, all, less))
  {
    var r := Ranks(s, all, less);
    forall i | 0 <= i < |r| - 1
      ensures r[i] >= r[i + 1]
    {
      RankOrders(s[i], s[i + 1], all, less);
    }
    FallingFrom(r);
  }

  lemma AscendingRanks<T(!new)>(s: seq<T>, all: seq<T>, less: (T, T) -> bool)
    requires StrictWeakOrder(less) && Within(s, all) && Ascends(s, less)
    ensures Rising(Ranks(s, all, less))
  {
    var r := Ranks(s, all, less);
    forall i | 0 <= i < |r| - 1
      ensures r[i] <= r[i + 1]
    {
      RankOrders(s[i + 1], s[i], all, less);
    }
    RisingFrom(r);
  }

  lemma RearrangedWithin<T>(a: seq<T>, c: seq<T>)
    requires Rearranged(a, c)
    ensures Within(c, a)
  {
    forall x | x in c
      ensures x in a
    {
      assert x in multiset(c);
    }
  }

  /** A sequence without an ascent is the greatest rearrangement, one without a descent the
      least. */
  lemma SortedAreExtreme<T(!new)>(a: seq<T>, less: (T, T) -> bool)
    requires StrictWeakOrder(less)
    ensures Descends(a, less) ==> IsGreatest(a, less)
    ensures Ascends(a, less) ==> IsLeast(a, less)
  {
    forall c: seq<T> | Rearranged(a, c)
      ensures Descends(a, less) ==> !LexLess(a, c, less)
      ensures Ascends(a, less) ==> !LexLess(c, a, less)
    {
      RearrangedWithin(a, c);
      LexByRanks(a, c, a, less);
      LexByRanks(c, a, a, less);
      RanksOfRearrangement(a, c, a, less);
      if Descends(a, less) {
        DescendingRanks(a, a, less);
        FallingIsGreatest(Ranks(a, a, less), Ranks(c, a, less));
      }
      if Ascends(a, less) {
        AscendingRanks(a, a, less);
        RisingIsLeast(Ranks(a, a, less), Ranks(c, a, less));
      }
    }
  }

  /** Ranks of pre + [x] + t. */
  lemma RanksOfParts<T>(pre: seq<T>, x: T, t: seq<T>, all: seq<T>, less: (T, T) -> bool)
    ensures Ranks(pre + [x] + t, all, less) == Ranks(pre, all, less) + [Rank(x, all, less)] + Ranks(t, all, less)
  {
    assert Ranks([x], all, less) == [Rank(x, all, less)];
  }

  /** Swapping x with the last element of a descending rest that is greater, and turning
      that rest around, gives the immediate successor. */
  lemma SwapAndReverse<T(!new)>(pre: seq<T>, x: T, t: seq<T>, l: nat, less: (T, T) -> bool)
    requires StrictWeakOrder(less) && Descends(t, less) && l < |t| && less(x, t[l])
    requires forall j | l < j < |t| :: !less(x, t[j])
    ensures IsSuccessor(pre + [x] + t, pre + [t[l]] + Reversed(t[l := x]), less)
  {
    var y, u := t[l], Reversed(t[l := x]);
    var a, b := pre + [x] + t, pre + [y] + u;
    assert Descends(t[l := x], less);
    SwapRearranges(pre, x, t, l);
    RearrangedWithin(a, b);
    var rp, rx, rt := Ranks(pre, a, less), Rank(x, a, less), Ranks(t, a, less);
    var ry, ru := Rank(y, a, less), Ranks(u, a, less);
    assert Within(t, a) && Within(u, a) && Within(b, a) && x in a && y in a;
    RankOrders(x, y, a, less);
    DescendingRanks(t, a, less);
    AscendingRanks(u, a, less);
    NoneBetween(x, t, l, a, less);
    RanksOfParts(pre, x, t, a, less);
    RanksOfParts(pre, y, u, a, less);
    LexByRanks(a, b, a, less);
    PrefixThenLarger(rp, rx, rt, ry, ru);
    SwapRanks(x, t, l, a, less);
    forall c: seq<T> | Rearranged(a, c)
      ensures !(LexLess(a, c, less) && LexLess(c, b, less))
    {
      RearrangedWithin(a, c);
      LexByRanks(a, c, a, less);
      LexByRanks(c, b, a, less);
      RanksOfRearrangement(a, c, a, less);
      NothingBetween(rp, rx, rt, ry, ru, Ranks(c, a, less));
    }
  }

  lemma SwapRearranges<T>(pre: seq<T>, x: T, t: seq<T>, l: nat)
    requires l < |t|
    ensures Rearranged([x] + t, [t[l]] + Reversed(t[l := x]))
    ensures Rearranged(pre + [x] + t, pre + [t[l]] + Reversed(t[l := x]))
  {
    var y, r := t[l], t[l := x];
    var u := Reversed(r);
    ReversedRearranges(r);
    assert multiset([y] + u) == multiset([y] + r) by {
      assert multiset([y] + u) == multiset{y} + multiset(u) && multiset([y] + r) == multiset{y} + multiset(r);
    }
    assert multiset(pre + ([x] + t)) == multiset(pre) + multiset([x] + t);
    assert multiset(pre + ([y] + u)) == multiset(pre) + multiset([y] + u);
    assert pre + [x] + t == pre + ([x] + t) && pre + [y] + u == pre + ([y] + u);
  }

  /** No value of the rest has a rank between x and its replacement. */
  lemma NoneBetween<T(!new)>(x: T, t: seq<T>, l: nat, all: seq<T>, less: (T, T) -> bool)
    requires StrictWeakOrder(less) && Within(t, all) && x in all && l < |t|
    requires Falling(Ranks(t, all, less)) && forall j | l < j < |t| :: !less(x, t[j])
    ensures forall z | z in Ranks(t, all, less) :: z <= Rank(x, all, less) || z >= Rank(t[l], all, less)
  {
    var rt := Ranks(t, all, less);
    forall j | 0 <= j < |t|
      ensures rt[j] <= Rank(x, all, less) || rt[j] >= Rank(t[l], all, less)
    {
      RankOrders(x, t[j], all, less);
      assert j < l ==> rt[j] >= rt[l];
    }
  }

  lemma SwapRanks<T>(x: T, t: seq<T>, l: nat, all: seq<T>, less: (T, T) -> bool)
    requires l < |t|
    ensures multiset([Rank(x, all, less)] + Ranks(t, all, less))
         == multiset([Rank(t[l], all, less)] + Ranks(Reversed(t[l := x]), all, less))
  {
    var u := Reversed(t[l := x]);
    SwapRearranges([], x, t, l);
    RanksOfRearrangement([x] + t, [t[l]] + u, all, less);
    RanksOfParts([], x, t, all, less);
    RanksOfParts([], t[l], u, all, less);
    assert [] + [x] + t == [x] + t && [] + [t[l]] + u == [t[l]] + u;
    assert Ranks([], all, less) + [Rank(x, all, less)] == [Rank(x, all, less)];
    assert Ranks([], all, less) + [Rank(t[l], all, less)] == [Rank(t[l], all, less)];
  }

  // ----- in place -----

  /** Swaps from both ends inwards; the pair in the middle of an even range ends it early. */
  method Reverse<T>(a: array<T>, first: nat, last: nat)
    requires first < last <= a.Length
    modifies a
    ensures a[first..last] == Reversed(old(a[first..last]))
    ensures a[..first] == old(a[..first]) && a[last..] == old(a[last..])
  {
    var f, l := first, last - 1;
    while f != l
      invariant first <= f <= l < last && f + l == first + last - 1
      invariant forall k | first <= k < f || l < k < last :: a[k] == old(a[first + last - 1 - k])
      invariant forall k | f <= k <= l || 0 <= k < first || last <= k < a.Length :: a[k] == old(a[k])
      decreases l - f
    {
      a[f], a[l] := a[l], a[f];
      if f + 1 == l {
        break;
      }
      f, l := f + 1, l - 1;
    }
    MirroredIsReversed(old(a[..]), a[..], first, last);
    assert old(a[first..last]) == old(a[..])[first..last] && a[first..last] == a[..][first..last];
  }

  lemma MirroredIsReversed<T>(was: seq<T>, now: seq<T>, first: nat, last: nat)
    requires first <= last <= |was| == |now|
    requires forall k | first <= k < last :: now[k] == was[first + last - 1 - k]
    ensures now[first..last] == Reversed(was[first..last])
  {
  }

  /** The last place in the range where an element is less than the next, or last. */
  method LastAscent<T>(a: array<T>, first: nat, last: nat, less: (T, T) -> bool) returns (k: nat)
    requires first < last <= a.Length
    ensures k == last || (first <= k < last - 1 && less(a[k], a[k + 1]))
    ensures forall i | (if k == last then first else k + 1) <= i < last - 1 :: !less(a[i], a[i + 1])
  {
    k := last;
    var i := first;
    while i + 1 != last
      invariant first <= i < last
      invariant k == last || (first <= k < i && less(a[k], a[k + 1]))
      invariant forall j | (if k == last then first else k + 1) <= j < i :: !less(a[j], a[j + 1])
      decreases last - i
    {
      if less(a[i], a[i + 1]) {
        k := i;
      }
      i := i + 1;
    }
  }

  /** The last place after k whose element is greater than the one at k. */
  method LastGreater<T>(a: array<T>, k: nat, last: nat, less: (T, T) -> bool) returns (l: nat)
    requires k + 1 < last <= a.Length && less(a[k], a[k + 1])
    ensures k < l < last && less(a[k], a[l])
    ensures forall i | l < i < last :: !less(a[k], a[i])
  {
    l := last;
    var i := k + 1;
    while i != last
      invariant k < i <= last
      invariant if l == last then i == k + 1 else k < l < i && less(a[k], a[l])
      invariant l != last ==> forall j | l < j < i :: !less(a[k], a[j])
      decreases last - i
    {
      if less(a[k], a[i]) {
        l := i;
      }
      i := i + 1;
    }
  }

  /** Moves the range to its immediate successor and returns true, or, when there is none,
      turns the greatest arrangement into the least and returns false. */
  method NextPermutation<T(!new)>(a: array<T>, first: nat, last: nat, less: (T, T) -> bool) returns (more: bool)
    requires first <= last <= a.Length && StrictWeakOrder(less)
    modifies a
    ensures a[..first] == old(a[..first]) && a[last..] == old(a[last..])
    ensures Rearranged(old(a[first..last]), a[first..last])
    ensures more ==> IsSuccessor(old(a[first..last]), a[first..last], less)
    ensures !more ==> IsGreatest(old(a[first..last]), less)
    ensures !more ==> IsLeast(a[first..last], less) && Ascends(a[first..last], less)
  {
    ghost var was := a[first..last];
    if first == last || first + 1 == last {
      SortedAreExtreme(was, less);
      return false;
    }
    var k := LastAscent(a, first, last, less);
    if k == last {
      assert Descends(was, less) by {
        forall i | 0 <= i < last - first - 1
          ensures !less(was[i], was[i + 1])
        {
          assert !less(a[first + i], a[first + i + 1]);
        }
      }
      Reverse(a, first, last);
      ReversedRearranges(was);
      SortedAreExtreme(was, less);
      SortedAreExtreme(a[first..last], less);
      return false;
    }
    ghost var t := a[k + 1..last];
    assert Descends(t, less) by {
      forall i | 0 <= i < |t| - 1
        ensures !less(t[i], t[i + 1])
      {
        assert !less(a[k + 1 + i], a[k + 2 + i]);
      }
    }
    StepOver(a, first, k, last, less);
    return true;
  }

  /** The two closing steps: swap, then turn the rest around. */
  method StepOver<T(!new)>(a: array<T>, first: nat, k: nat, last: nat, less: (T, T) -> bool)
    requires first <= k && k + 1 < last <= a.Length && StrictWeakOrder(less) && less(a[k], a[k + 1])
    requires Descends(a[k + 1..last], less)
    modifies a
    ensures a[..first] == old(a[..first]) && a[last..] == old(a[last..])
    ensures IsSuccessor(old(a[first..last]), a[first..last], less)
  {
    hide StrictWeakOrder, IsSuccessor, Descends, Reversed;
    ghost var pre, x, t := a[first..k], a[k], a[k + 1..last];
    assert a[first..last] == pre + [x] + t;
    var l := LastGreater(a, k, last, less);
    ghost var m := l - k - 1;
    SwapAndReverse(pre, x, t, m, less);
    a[k], a[l] := a[l], a[k];
    assert a[k + 1..last] == t[m := x];
    ghost var mid := a[..k + 1];
    assert mid[first..] == pre + [t[m]];
    Reverse(a, k + 1, last);
    assert a[first..last] == a[..k + 1][first..] + a[k + 1..last];
    assert a[..first] == a[..k + 1][..first] == mid[..first];
  }
}
