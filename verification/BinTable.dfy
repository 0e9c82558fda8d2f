/** The table of size-segregated bins: which bin a chunk of a given size goes to. */
module BinTable {
  import opened Powers

  const ALIGNMENT := 16
  const SMALLEST_BIN := 32
  const FIRST_INEXACT_BIN := 512
  const LARGEST_BIN := 128 * 1024
  const BINS_PER_OCTAVE := 8
  const EXACT_BIN_COUNT := (FIRST_INEXACT_BIN - SMALLEST_BIN) / ALIGNMENT
  const BIN_COUNT := EXACT_BIN_COUNT + 64
  const WORD_LIMIT := 0x1_0000_0000_0000_0000

  /** Rounding up to a multiple of a power of two: (x + unit - 1) & ~(unit - 1). */
  function RoundUp(x: nat, unit: nat): nat
    requires unit > 0
  {
    (x + unit - 1) / unit * unit
  }

  function Octave(size: nat): (o: nat)
    requires FIRST_INEXACT_BIN < size < LARGEST_BIN
    ensures o <= 7
    ensures 8 * Subdivision(o) <= size < 16 * Subdivision(o)
  {
    var shift := BitWidth(size) - 1;
    OctaveBounds(size);
    shift - 9
  }

  /** Width in bytes of one bin of an octave. */
  function Subdivision(octave: nat): (s: nat)
    ensures s > 0
  {
    FIRST_INEXACT_BIN * Pow2(octave) / BINS_PER_OCTAVE
  }

  function BinIndex(size: nat): (i: nat)
    ensures i < BIN_COUNT
  {
    if size <= SMALLEST_BIN then 0
    else if size >= LARGEST_BIN then BIN_COUNT - 1
    else if size <= FIRST_INEXACT_BIN then
      (RoundUp(size, ALIGNMENT) - SMALLEST_BIN) / ALIGNMENT
    else
      var octave := Octave(size);
      var rounded := RoundUp(size, Subdivision(octave));
      var offset := rounded / Pow2(octave + 6) % BINS_PER_OCTAVE;
      EXACT_BIN_COUNT + octave * BINS_PER_OCTAVE + offset
  }

  lemma OctaveBounds(size: nat)
    requires FIRST_INEXACT_BIN < size < LARGEST_BIN
    ensures 10 <= BitWidth(size) <= 17
    ensures var o := BitWidth(size) - 10; 8 * Subdivision(o) <= size < 16 * Subdivision(o)
  {
    hide Subdivision, Pow2, BitWidth;
    BitWidthBounds(size);
    var w := BitWidth(size);
    PowerTable();
    Pow2Reflects(9, w);
    Pow2Reflects(w - 1, 17);
    OctaveBase(w - 10);
  }

  /** Where an octave begins and where the next one does. */
  lemma OctaveBase(o: nat)
    ensures 8 * Subdivision(o) == Pow2(o + 9) && 16 * Subdivision(o) == Pow2(o + 10)
  {
    assert Subdivision(o) == 64 * Pow2(o) by { hide Pow2; }
    assert Pow2(o + 9) == Pow2(o) * 512 by {
      PowerTable();
      Pow2Sum(o, 9);
    }
    assert Pow2(o + 10) == 2 * Pow2(o + 9);
  }

  lemma PowerTable()
    ensures Pow2(6) == 64 && Pow2(9) == 512 && Pow2(17) == 131072
  {
    assert Pow2(3) == 8;
    Pow2Sum(3, 3);
    Pow2Sum(6, 3);
    Pow2Sum(9, 3);
    Pow2Sum(12, 3);
    Pow2Sum(14, 3);
    Pow2Sum(9, 5);
    assert Pow2(5) == 32 by { Pow2Sum(3, 2); assert Pow2(2) == 4; }
  }

  /** Sizes in the last subdivision of an octave.  Rounding takes them up to the next
      octave, whose offset is 0, while the octave number stays. */
  predicate InWrapZone(size: nat) {
    FIRST_INEXACT_BIN < size < LARGEST_BIN && size > 15 * Subdivision(Octave(size))
  }

  /** The bin of an inexact size: which of its octave's eight steps it rounds up to. */
  lemma InexactBin(size: nat, o: nat, step: nat)
    requires FIRST_INEXACT_BIN < size < LARGEST_BIN && o == Octave(size)
    requires (step - 1) * Subdivision(o) < size <= step * Subdivision(o)
    ensures 8 <= step <= 16
    ensures BinIndex(size) == EXACT_BIN_COUNT + 8 * o + step % 8
  {
    var d := Subdivision(o);
    PowerTable();
    Pow2Sum(o, 6);
    assert d == Pow2(o + 6);
    MulMonotone(step, 7, d);
    MulMonotone(16, step - 1, d);
    assert (size + d - 1) / d == step by {
      DivModUnique(size + d - 1, d, step, size + d - 1 - step * d);
    }
    assert (step * d) / d == step by { DivModUnique(step * d, d, step, 0); }
  }

  /** The step a size rounds up to. */
  function Step(size: nat, d: nat): (s: nat)
    requires d > 0
    ensures (s - 1) * d < size <= s * d
  {
    var s := (size + d - 1) / d;
    assert size + d - 1 == s * d + (size + d - 1) % d;
    assert (s - 1) * d == s * d - d;
    s
  }

  lemma OctaveMonotone(a: nat, b: nat)
    requires FIRST_INEXACT_BIN < a <= b < LARGEST_BIN
    ensures Octave(a) <= Octave(b)
    ensures Octave(a) < Octave(b) ==> 16 * Subdivision(Octave(a)) <= 8 * Subdivision(Octave(b))
  {
    hide Octave, Subdivision, Pow2;
    var oa, ob := Octave(a), Octave(b);
    OctaveBase(oa);
    OctaveBase(ob);
    if ob < oa {
      Pow2Monotone(ob + 10, oa + 9);
    }
    if oa < ob {
      Pow2Monotone(oa + 10, ob + 9);
    }
  }

  lemma StepMonotone(a: nat, b: nat, d: nat)
    requires d > 0 && a <= b
    ensures Step(a, d) <= Step(b, d)
  {
    var sa, sb := Step(a, d), Step(b, d);
    if sb < sa {
      MulMonotone(sb, sa - 1, d);
    }
  }

  /** Octave, step and bin of an inexact size at once; step 16 is the wrap zone. */
  lemma BinOf(size: nat)
    requires FIRST_INEXACT_BIN < size < LARGEST_BIN
    ensures 8 <= Step(size, Subdivision(Octave(size))) <= 16
    ensures InWrapZone(size) <==> Step(size, Subdivision(Octave(size))) == 16
    ensures BinIndex(size)
            == EXACT_BIN_COUNT + 8 * Octave(size) + Step(size, Subdivision(Octave(size))) % 8
  {
    var o := Octave(size);
    var d := Subdivision(o);
    var s := Step(size, d);
    InexactBin(size, o, s);
    if s == 16 {
      assert size > 15 * d;
    } else {
      MulMonotone(s, 15, d);
    }
  }

  lemma StepAbove(x: nat, d: nat, k: nat)
    requires d > 0
    ensures Step(x, d) > k <==> x > k * d
  {
    var s := Step(x, d);
    if s > k {
      MulMonotone(k, s - 1, d);
    } else {
      MulMonotone(s, k, d);
    }
  }

  lemma SkipsInOctave(request: nat, size: nat)
    requires FIRST_INEXACT_BIN < request <= size < LARGEST_BIN && Octave(request) == Octave(size)
    ensures BinIndex(size) < BinIndex(request)
            <==> InWrapZone(size) && 8 * Subdivision(Octave(size)) < request <= 15 * Subdivision(Octave(size))
  {
    hide BinIndex, Octave, Subdivision, InWrapZone;
    var d := Subdivision(Octave(size));
    BinOf(size);
    BinOf(request);
    StepMonotone(request, size, d);
    StepAbove(request, d, 8);
    StepAbove(request, d, 15);
    StepRemainders(Step(request, d), Step(size, d));
  }

  lemma StepRemainders(s: nat, t: nat)
    requires 8 <= s <= t <= 16
    ensures t % 8 < s % 8 <==> t == 16 && 8 < s <= 15
  {
  }

  lemma SkipsAcross(request: nat, size: nat)
    requires request <= size
    requires FIRST_INEXACT_BIN < request ==> size >= LARGEST_BIN || Octave(request) != Octave(size)
    ensures BinIndex(request) <= BinIndex(size)
    ensures InWrapZone(size) ==> request <= 8 * Subdivision(Octave(size))
  {
    if FIRST_INEXACT_BIN < request && size < LARGEST_BIN {
      BinOf(size);
      BinOf(request);
      OctaveMonotone(request, size);
    } else if FIRST_INEXACT_BIN < size < LARGEST_BIN {
      BinOf(size);
    }
  }

  /** The bins of small sizes: bin 0 up to 32 bytes, then one for every 16 bytes up to 512,
      and the last bin for everything from 128 KiB. */
  lemma ExactBin(size: nat)
    ensures size <= 32 ==> BinIndex(size) == 0
    ensures 32 < size <= 512 ==> 16 + 16 * BinIndex(size) < size <= 32 + 16 * BinIndex(size)
    ensures size >= 131072 ==> BinIndex(size) == 93
  {
  }

  /** The size the table gives for a bin. */
  function BinIndexToSize(index: nat): nat {
    if index < EXACT_BIN_COUNT then SMALLEST_BIN + index * ALIGNMENT
    else
      var octave := (index - EXACT_BIN_COUNT) / BINS_PER_OCTAVE;
      var offset := (index - EXACT_BIN_COUNT) % BINS_PER_OCTAVE;
      FIRST_INEXACT_BIN * Pow2(octave) + offset * Subdivision(octave)
  }

  /** Every one of the 94 bins is the bin of the size the table gives for it. */
  lemma EveryBinHasItsSize(index: nat)
    requires index < 94
    ensures index < BIN_COUNT && BinIndex(BinIndexToSize(index)) == index
  {
    if index > EXACT_BIN_COUNT {
      var o, k := (index - EXACT_BIN_COUNT) / BINS_PER_OCTAVE, (index - EXACT_BIN_COUNT) % BINS_PER_OCTAVE;
      EveryInexactBin(o, k);
    } else {
      assert Pow2(0) == 1;
      ExactBin(BinIndexToSize(index));
    }
  }

  lemma EveryInexactBin(o: nat, k: nat)
    requires o <= 7 && k <= 7 && o + k > 0
    ensures var size := FIRST_INEXACT_BIN * Pow2(o) + k * Subdivision(o);
      FIRST_INEXACT_BIN < size < LARGEST_BIN && BinIndex(size) == EXACT_BIN_COUNT + 8 * o + k
  {
    hide BinIndex, Octave, Subdivision, Pow2;
    var d, size := Subdivision(o), FIRST_INEXACT_BIN * Pow2(o) + k * Subdivision(o);
    OctaveWidth(o);
    assert size == (8 + k) * d && (8 + k - 1) * d == size - d;
    MulMonotone(8 + k, 15, d);
    MulMonotone(9, 8 + k, d);
    OctaveIs(size, o);
    InexactBin(size, o, 8 + k);
  }

  lemma OctaveWidth(o: nat)
    requires o <= 7
    ensures FIRST_INEXACT_BIN * Pow2(o) == 8 * Subdivision(o) && Subdivision(o) == 64 * Pow2(o)
    ensures 64 <= Subdivision(o) <= 8192 && (o > 0 ==> Subdivision(o) >= 128)
  {
    Pow2Monotone(o, 7);
    Pow2Monotone(0, o);
    assert Pow2(7) == 128 by { assert Pow2(4) == 16; Pow2Sum(4, 3); }
  }

  /** A size within an octave's bounds is of that octave. */
  lemma OctaveIs(size: nat, o: nat)
    requires FIRST_INEXACT_BIN < size < LARGEST_BIN && o <= 7
    requires 8 * Subdivision(o) <= size < 16 * Subdivision(o)
    ensures Octave(size) == o
  {
    hide Octave, Subdivision, Pow2;
    var p := Octave(size);
    OctaveBase(o);
    OctaveBase(p);
    if p < o {
      Pow2Monotone(p + 10, o + 9);
    } else if o < p {
      Pow2Monotone(o + 10, p + 9);
    }
  }

  /** Exactly which free chunks a search that starts at the bin of the request skips
      although they are large enough: those in the wrap zone of the request's own
      octave, when the request lies strictly above that octave's first size and
      outside the zone. */
  lemma SearchSkips(request: nat, size: nat)
    requires request <= size
    ensures BinIndex(size) < BinIndex(request)
            <==> InWrapZone(size) && 8 * Subdivision(Octave(size)) < request <= 15 * Subdivision(Octave(size))
  {
    if FIRST_INEXACT_BIN < request && size < LARGEST_BIN && Octave(request) == Octave(size) {
      SkipsInOctave(request, size);
    } else {
      SkipsAcross(request, size);
    }
  }

  /** The table is monotone below a size exactly when that size is outside the wrap zone. */
  lemma BinIndexMonotoneIff(size: nat)
    ensures (forall a | 0 <= a <= size :: BinIndex(a) <= BinIndex(size)) <==> !InWrapZone(size)
  {
    if InWrapZone(size) {
      var a := 15 * Subdivision(Octave(size));
      SearchSkips(a, size);
      assert BinIndex(a) > BinIndex(size);
    } else {
      forall a | 0 <= a <= size
        ensures BinIndex(a) <= BinIndex(size)
      {
        SearchSkips(a, size);
      }
    }
  }

  /** Sizes of the first octave. */
  lemma FirstOctave(size: nat)
    requires FIRST_INEXACT_BIN < size < 1024
    ensures Octave(size) == 0 && Subdivision(0) == 64 && (InWrapZone(size) <==> size > 960)
  {
    assert Pow2(0) == 1;
    Pow2Reflects(Octave(size), 1);
  }

  /** A concrete size the documentation of a size-ordered table would not expect: a
      1000-byte chunk shares the bin of 512-byte chunks, below that of a 520-byte one. */
  lemma WrapExample()
    ensures BinIndex(1000) == BinIndex(512) < BinIndex(520)
  {
    BitWidthBounds(1000);
    BitWidthBounds(520);
    assert Subdivision(0) == 64;
    OctaveMonotone(520, 1000);
    Pow2Reflects(Octave(1000), 1);
    InexactBin(1000, 0, 16);
    InexactBin(520, 0, 9);
  }

  // ----- request sizes -----

  /** Bytes of the chunk that serves a request, in 64-bit arithmetic.  A request too
      large to round up yields the largest number. */
  function ChunkSizeFor(userSize: nat): (s: nat)
    requires userSize < WORD_LIMIT
  {
    var withHeader := (userSize + 8) % WORD_LIMIT;
    var rounded := (withHeader + ALIGNMENT - 1) % WORD_LIMIT / ALIGNMENT * ALIGNMENT;
    var size := if rounded < SMALLEST_BIN then SMALLEST_BIN else rounded;
    if size < userSize then WORD_LIMIT - 1 else size
  }

  /** The size is the least multiple of the alignment that holds the request and its
      header and is at least a smallest chunk; no wrap-around is ever taken for a size
      that can be served. */
  lemma ChunkSizeLeast(userSize: nat)
    requires userSize < WORD_LIMIT
    ensures ChunkSizeFor(userSize) < LARGEST_BIN <==> userSize + 8 <= LARGEST_BIN - ALIGNMENT
    ensures ChunkSizeFor(userSize) < LARGEST_BIN ==>
      && ChunkSizeFor(userSize) % ALIGNMENT == 0
      && ChunkSizeFor(userSize) >= SMALLEST_BIN && ChunkSizeFor(userSize) >= userSize + 8
      && (forall s: nat | s % ALIGNMENT == 0 && s >= SMALLEST_BIN && s >= userSize + 8 :: s >= ChunkSizeFor(userSize))
  {
    ChunkSizeCases(userSize);
    LeastMultiple(userSize + 8);
    hide ChunkSizeFor, RoundUp;
  }

  /** The sum for the header and the rounding wraps around in the last 23 sizes only, and
      those are then told from the rest by the result being below the request. */
  lemma ChunkSizeCases(userSize: nat)
    requires userSize < WORD_LIMIT
    ensures userSize + 23 >= WORD_LIMIT ==> ChunkSizeFor(userSize) == WORD_LIMIT - 1
    ensures userSize + 23 < WORD_LIMIT ==>
      ChunkSizeFor(userSize) == var rounded := RoundUp(userSize + 8, ALIGNMENT);
                                if rounded < SMALLEST_BIN then SMALLEST_BIN else rounded
  {
    var header := (userSize + 8) % WORD_LIMIT;
    if userSize + 8 < WORD_LIMIT {
      assert header == userSize + 8;
    } else {
      assert header == userSize + 8 - WORD_LIMIT;
    }
    var rounding := (header + 15) % WORD_LIMIT;
    if userSize + 23 < WORD_LIMIT {
      assert rounding == userSize + 23;
    } else {
      assert rounding < 23;
    }
  }

  lemma LeastMultiple(size: nat)
    ensures RoundUp(size, ALIGNMENT) % ALIGNMENT == 0 && size <= RoundUp(size, ALIGNMENT) < size + ALIGNMENT
    ensures forall s: nat | s % ALIGNMENT == 0 && s >= size :: s >= RoundUp(size, ALIGNMENT)
  {
  }

  predicate CanSplit(chunkSize: nat, requested: nat) {
    var aligned := RoundUp(requested, ALIGNMENT);
    var excess := if aligned < chunkSize then chunkSize - aligned else 0;
    excess >= SMALLEST_BIN
  }
}
