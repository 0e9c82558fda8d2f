/** Substring search: the naive form, Boyer-Moore-Horspool with its skip table, and the
    choice between them.  Characters are their codes. */
module Search {
  import opened Powers

  datatype Found =
    | At(index: nat)
    | Nowhere
    | OutsideTable(at: nat)    // the skip table was indexed by a character beyond its end

  // ----- what is searched for -----

  predicate Occurs(text: seq<nat>, pattern: seq<nat>, k: nat) {
    k + |pattern| <= |text| && text[k..k + |pattern|] == pattern
  }

  ghost predicate IsFirst(text: seq<nat>, pattern: seq<nat>, f: Found) {
    match f
    case At(k) => Occurs(text, pattern, k) && forall j: nat | j < k :: !Occurs(text, pattern, j)
    case Nowhere => forall j: nat :: !Occurs(text, pattern, j)
    case OutsideTable(_) => false
  }

  lemma FirstIsUnique(text: seq<nat>, pattern: seq<nat>, f: Found, g: Found)
    requires IsFirst(text, pattern, f) && IsFirst(text, pattern, g)
    ensures f == g
  {
  }

  // ----- comparing and the naive form -----

  method Compare(text: seq<nat>, from: nat, pattern: seq<nat>) returns (diff: int)
    requires from + |pattern| <= |text|
    ensures diff == 0 <==> Occurs(text, pattern, from)
    ensures diff != 0 ==> exists i | 0 <= i < |pattern| ::
      text[from..from + i] == pattern[..i] && diff == text[from + i] as int - pattern[i] as int
  {
    for i := 0 to |pattern|
      invariant text[from..from + i] == pattern[..i]
    {
      diff := text[from + i] as int - pattern[i] as int;
      if diff != 0 {
        assert text[from..from + |pattern|][i] != pattern[i];
        return;
      }
      assert text[from..from + i + 1] == text[from..from + i] + [text[from + i]];
      assert pattern[..i + 1] == pattern[..i] + [pattern[i]];
    }
    return 0;
  }

  /** The naive search from at on. */
  function NaiveFrom(text: seq<nat>, pattern: seq<nat>, at: nat): Found
    decreases |text| - at
  {
    if |text| - at < |pattern| then Nowhere
    else if Occurs(text, pattern, at) then At(at)
    else NaiveFrom(text, pattern, at + 1)
  }

  lemma {:induction false} NaiveFindsFirst(text: seq<nat>, pattern: seq<nat>, at: nat)
    requires forall j: nat | j < at :: !Occurs(text, pattern, j)
    ensures IsFirst(text, pattern, NaiveFrom(text, pattern, at))
    decreases |text| - at
  {
    if |text| - at >= |pattern| && !Occurs(text, pattern, at) {
      NaiveFindsFirst(text, pattern, at + 1);
    }
  }

  method Naive(text: seq<nat>, pattern: seq<nat>) returns (f: Found)
    ensures f == NaiveFrom(text, pattern, 0) && IsFirst(text, pattern, f)
  {
    NaiveFindsFirst(text, pattern, 0);
    if |pattern| == 0 {
      return At(0);
    }
    var at := 0;
    while |text| - at >= |pattern|
      invariant at <= |text|
      invariant NaiveFrom(text, pattern, at) == NaiveFrom(text, pattern, 0)
    {
      var diff := Compare(text, at, pattern);
      if diff == 0 {
        return At(at);
      }
      at := at + 1;
    }
    return Nowhere;
  }

  // ----- Horspool -----

  /** How far the window may move when its last character is c: the distance from the end
      of the last occurrence of c among the first n characters of the pattern. */
  function Skip(pattern: seq<nat>, n: nat, c: nat): (d: nat)
    requires n < |pattern|
    ensures 1 <= d <= |pattern|
  {
    if n == 0 then |pattern|
    else if pattern[n - 1] == c then |pattern| - (n - 1) - 1
    else Skip(pattern, n - 1, c)
  }

  lemma {:induction false} SkipReaches(pattern: seq<nat>, n: nat, c: nat, i: nat)
    requires i < n < |pattern| && pattern[i] == c
    ensures Skip(pattern, n, c) <= |pattern| - 1 - i
  {
    if pattern[n - 1] != c {
      SkipReaches(pattern, n - 1, c, i);
    }
  }

  /** No occurrence begins strictly between a window and the window it is moved to. */
  lemma SkipsNoOccurrence(text: seq<nat>, pattern: seq<nat>, offset: nat, k: nat)
    requires |pattern| > 0 && offset + |pattern| <= |text| && offset < k && Occurs(text, pattern, k)
    ensures offset + Skip(pattern, |pattern| - 1, text[offset + |pattern| - 1]) <= k
  {
    var last := offset + |pattern| - 1;
    if k <= last {
      assert text[k..k + |pattern|][last - k] == pattern[last - k];
      SkipReaches(pattern, |pattern| - 1, text[last], last - k);
    }
  }

  /** The search from offset on, with a table of size entries. */
  function Scan(text: seq<nat>, pattern: seq<nat>, size: nat, offset: nat): Found
    requires |pattern| > 0 && offset <= |text|
    decreases |text| - offset
  {
    if |text| - offset < |pattern| then Nowhere
    else if Occurs(text, pattern, offset) then At(offset)
    else
      var last := offset + |pattern| - 1;
      if text[last] >= size then OutsideTable(last)
      else Scan(text, pattern, size, offset + Skip(pattern, |pattern| - 1, text[last]))
  }

  /** Whatever is found is the first occurrence, and the table is only left at a character
      beyond its end. */
  lemma {:induction false} ScanFindsFirst(text: seq<nat>, pattern: seq<nat>, size: nat, offset: nat)
    requires |pattern| > 0 && offset <= |text|
    requires forall j: nat | j < offset :: !Occurs(text, pattern, j)
    ensures var f := Scan(text, pattern, size, offset);
      if f.OutsideTable? then |pattern| - 1 <= f.at < |text| && text[f.at] >= size
      else IsFirst(text, pattern, f)
    decreases |text| - offset
  {
    if |text| - offset >= |pattern| && !Occurs(text, pattern, offset) {
      var last := offset + |pattern| - 1;
      if text[last] < size {
        var next := offset + Skip(pattern, |pattern| - 1, text[last]);
        forall j: nat | j < next
          ensures !Occurs(text, pattern, j)
        {
          if offset < j && Occurs(text, pattern, j) {
            SkipsNoOccurrence(text, pattern, offset, j);
          }
        }
        ScanFindsFirst(text, pattern, size, next);
      }
    }
  }

  /** The answer of the naive search, if the table is never left; it never is for a text
      within the table. */
  lemma ScanRefinesNaive(text: seq<nat>, pattern: seq<nat>, size: nat, naive: Found)
    requires |pattern| > 0 && IsFirst(text, pattern, naive)
    ensures var f := Scan(text, pattern, size, 0);
      && (f.OutsideTable? || f == naive)
      && (AllBelow(text, size) ==> f == naive)
  {
    ScanFindsFirst(text, pattern, size, 0);
    var f := Scan(text, pattern, size, 0);
    if !f.OutsideTable? {
      FirstIsUnique(text, pattern, naive, f);
    }
  }

  /** The first window alone can leave the table: it does exactly when it does not match
      and ends in a character beyond the table. */
  lemma FirstWindowOutsideIff(text: seq<nat>, pattern: seq<nat>, size: nat)
    requires 0 < |pattern| <= |text|
    ensures Scan(text, pattern, size, 0) == OutsideTable(|pattern| - 1)
      <==> !Occurs(text, pattern, 0) && text[|pattern| - 1] >= size
  {
    if !Occurs(text, pattern, 0) && text[|pattern| - 1] < size {
      LaterWindows(text, pattern, size, Skip(pattern, |pattern| - 1, text[|pattern| - 1]));
    }
  }

  lemma {:induction false} LaterWindows(text: seq<nat>, pattern: seq<nat>, size: nat, offset: nat)
    requires |pattern| > 0 && offset <= |text|
    ensures var f := Scan(text, pattern, size, offset); f.OutsideTable? ==> f.at >= offset + |pattern| - 1
    decreases |text| - offset
  {
    if |text| - offset >= |pattern| && !Occurs(text, pattern, offset) {
      var last := offset + |pattern| - 1;
      if text[last] < size {
        LaterWindows(text, pattern, size, offset + Skip(pattern, |pattern| - 1, text[last]));
      }
    }
  }

  /** Exactly which alphabets are safe.  A pattern is searched for correctly in every text
      of characters below bound if and only if bound is at most the size of the table; a
      pattern of the one character just beyond the table allows one character more. */
  lemma SafeAlphabetIff(pattern: seq<nat>, size: nat, bound: nat)
    requires |pattern| > 0 && AllBelow(pattern[..|pattern| - 1], size)
    ensures (forall text | AllBelow(text, bound) :: IsFirst(text, pattern, Scan(text, pattern, size, 0)))
      <==> bound <= size || (pattern == [size] && bound == size + 1)
  {
    if bound <= size || (pattern == [size] && bound == size + 1) {
      forall text | AllBelow(text, bound)
        ensures IsFirst(text, pattern, Scan(text, pattern, size, 0))
      {
        ScanFindsFirst(text, pattern, size, 0);
        if bound > size {
          OnlyCharacterMatches(text, size, 0);
        }
      }
    } else {
      var c := if pattern == [size] then size + 1 else size;
      var text := seq(|pattern|, _ => c);
      assert text[..|pattern|][0] == c && AllBelow(text, bound);
      assert pattern[0] != c || |pattern| > 1;
      assert |pattern| > 1 ==> pattern[..|pattern| - 1][0] == pattern[0];
      assert |pattern| == 1 ==> pattern == [pattern[0]];
      FirstWindowOutsideIff(text, pattern, size);
      assert !IsFirst(text, pattern, Scan(text, pattern, size, 0));
    }
  }

  /** A window of the character just beyond the table is a match for the pattern of it. */
  lemma {:induction false} OnlyCharacterMatches(text: seq<nat>, size: nat, offset: nat)
    requires AllBelow(text, size + 1) && offset <= |text|
    ensures !Scan(text, [size], size, offset).OutsideTable?
    decreases |text| - offset
  {
    if offset < |text| {
      assert text[offset..offset + 1] == [text[offset]];
      if text[offset] != size {
        OnlyCharacterMatches(text, size, offset + Skip([size], 0, text[offset]));
      }
    }
  }

  function TableSize(bits: nat): nat
    requires bits > 0
  {
    Pow2(bits - 1)
  }

  predicate AllBelow(s: seq<nat>, size: nat) { forall i | 0 <= i < |s| :: s[i] < size }

  /** The table is filled with the length of the pattern, then pattern character by
      character from the left, so that the last occurrence counts. */
  method SkipTable(pattern: seq<nat>, size: nat) returns (table: array<nat>)
    requires |pattern| > 0 && AllBelow(pattern[..|pattern| - 1], size)
    ensures fresh(table) && table.Length == size
    ensures forall c | 0 <= c < size :: table[c] == Skip(pattern, |pattern| - 1, c)
  {
    table := new nat[size];
    for i := 0 to size
      invariant forall c | 0 <= c < i :: table[c] == |pattern|
    {
      table[i] := |pattern|;
    }
    for i := 0 to |pattern| - 1
      invariant forall c | 0 <= c < size :: table[c] == Skip(pattern, i, c)
    {
      assert pattern[i] == pattern[..|pattern| - 1][i] < size;
      table[pattern[i]] := |pattern| - i - 1;
    }
  }

  method Horspool(text: seq<nat>, pattern: seq<nat>, bits: nat) returns (f: Found)
    requires bits > 0 && |pattern| > 0 && AllBelow(pattern[..|pattern| - 1], TableSize(bits))
    ensures f == Scan(text, pattern, TableSize(bits), 0)
    ensures if f.OutsideTable? then |pattern| - 1 <= f.at < |text| && text[f.at] >= TableSize(bits)
            else IsFirst(text, pattern, f)
  {
    hide IsFirst, TableSize;
    var size := TableSize(bits);
    var table := SkipTable(pattern, size);
    ScanFindsFirst(text, pattern, size, 0);
    var offset := 0;
    while |text| - offset >= |pattern|
      decreases |text| - offset
      invariant offset <= |text|
      invariant forall c | 0 <= c < size :: table[c] == Skip(pattern, |pattern| - 1, c)
      invariant Scan(text, pattern, size, offset) == Scan(text, pattern, size, 0)
    {
      var diff := Compare(text, offset, pattern);
      if diff == 0 {
        return At(offset);
      }
      var c := text[offset + |pattern| - 1];
      if c >= size {
        return OutsideTable(offset + |pattern| - 1);
      }
      offset := offset + table[c];
    }
    return Nowhere;
  }

  // ----- the choice between them -----

  function Chosen(text: seq<nat>, pattern: seq<nat>, bits: nat): Found
    requires bits > 0
  {
    if |pattern| < 8 then NaiveFrom(text, pattern, 0) else Scan(text, pattern, TableSize(bits), 0)
  }

  /** The values of a character type that lie in its lower half: the top bit is clear. */
  predicate LowerHalf(s: seq<nat>, bits: nat) { forall i | 0 <= i < |s| :: 2 * s[i] < Pow2(bits) }

  /** Exactly which calls are safe: memory_search is right for every text of characters
      below bound if and only if the pattern is short or bound is at most half of the values
      a character has. */
  lemma MemorySearchSafeIff(pattern: seq<nat>, bits: nat, bound: nat)
    requires bits > 0 && (|pattern| >= 8 ==> LowerHalf(pattern[..|pattern| - 1], bits))
    ensures (forall text | AllBelow(text, bound) :: IsFirst(text, pattern, Chosen(text, pattern, bits)))
      <==> |pattern| < 8 || 2 * bound <= Pow2(bits)
  {
    assert Pow2(bits) == 2 * TableSize(bits);
    if |pattern| < 8 {
      forall text | AllBelow(text, bound)
        ensures IsFirst(text, pattern, Chosen(text, pattern, bits))
      {
        NaiveFindsFirst(text, pattern, 0);
      }
    } else {
      SafeAlphabetIff(pattern, TableSize(bits), bound);
      assert forall text | AllBelow(text, bound) ::
        IsFirst(text, pattern, Chosen(text, pattern, bits))
        == IsFirst(text, pattern, Scan(text, pattern, TableSize(bits), 0));
    }
  }

  /** A search either agrees with the naive one or has met a character beyond the table;
      the second needs a pattern of 8 or more and such a character in the text. */
  method MemorySearch(text: seq<nat>, pattern: seq<nat>, bits: nat) returns (f: Found)
    requires bits > 0 && (|pattern| >= 8 ==> AllBelow(pattern[..|pattern| - 1], TableSize(bits)))
    ensures f == Chosen(text, pattern, bits)
    ensures IsFirst(text, pattern, f)
      || (|pattern| >= 8 && f.OutsideTable? && f.at < |text| && text[f.at] >= TableSize(bits))
    ensures |pattern| < 8 || AllBelow(text, TableSize(bits)) ==> IsFirst(text, pattern, f)
  {
    if |pattern| == 0 {
      f := At(0);
    } else if |pattern| < 8 {
      f := Naive(text, pattern);
    } else {
      f := Horspool(text, pattern, bits);
    }
  }
}
