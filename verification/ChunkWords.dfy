/** Chunk headers as they sit in memory.

    Memory is a sequence of 8-byte words.  A chunk header is one word: the chunk's
    size in bytes, which is a multiple of 8, or-ed with three flag bits.  A pointer
    is a word index, and 0 is the null pointer. */
module ChunkWords {

  const FLAG_FREE := 1
  const FLAG_PRED_FREE := 2
  const FLAG_LAST := 4
  const FLAG_SPAN := 8

  // Words in a block header: its size and two links.
  const BLOCK_HEADER_WORDS := 3
  // Words in the smallest chunk: header, two links and the footer.
  const MIN_CHUNK_WORDS := 4

  /** What a chunk header says, plus the number of the block the chunk lies in. */
  datatype Chunk = Chunk(words: nat, free: bool, pred: bool, last: bool, block: nat)

  function SizeBytes(w: nat): nat { w - w % FLAG_SPAN }

  function WordCount(w: nat): nat { w / FLAG_SPAN }

  predicate IsFree(w: nat) { w % 2 == 1 }

  predicate IsPredFree(w: nat) { (w / FLAG_PRED_FREE) % 2 == 1 }

  predicate IsLast(w: nat) { (w / FLAG_LAST) % 2 == 1 }

  function WithFree(w: nat): nat { if IsFree(w) then w else w + FLAG_FREE }

  function WithoutFree(w: nat): nat { if IsFree(w) then w - FLAG_FREE else w }

  function WithPredFree(w: nat): nat { if IsPredFree(w) then w else w + FLAG_PRED_FREE }

  function WithoutPredFree(w: nat): nat {
    if IsPredFree(w) then w - FLAG_PRED_FREE else w
  }

  function WithLast(w: nat): nat { if IsLast(w) then w else w + FLAG_LAST }

  function WithoutLast(w: nat): nat { if IsLast(w) then w - FLAG_LAST else w }

  /** The header with its size replaced and its flag bits kept. */
  function WithWords(w: nat, words: nat): nat { FLAG_SPAN * words + w % FLAG_SPAN }

  /** The header word of a chunk.  Reading it back gives every field. */
  function Header(k: Chunk): (w: nat)
    ensures WordCount(w) == k.words && SizeBytes(w) == 8 * k.words
    ensures IsFree(w) == k.free && IsPredFree(w) == k.pred && IsLast(w) == k.last
  {
    FLAG_SPAN * k.words + (if k.free then FLAG_FREE else 0)
    + (if k.pred then FLAG_PRED_FREE else 0) + (if k.last then FLAG_LAST else 0)
  }

  /** The free flag is independent of the last flag and of the size. */
  lemma FreeFlagAlone(w: nat)
    ensures IsLast(WithFree(w)) == IsLast(w) && WordCount(WithFree(w)) == WordCount(w)
    ensures IsLast(WithoutFree(w)) == IsLast(w) && WordCount(WithoutFree(w)) == WordCount(w)
    ensures SizeBytes(WithFree(w)) == SizeBytes(w)
  {
    BitSet(if IsFree(w) then w - 1 else w);
    hide IsLast, WordCount, SizeBytes;
  }

  lemma BitSet(w: nat)
    requires w % 2 == 0
    ensures IsLast(w + 1) == IsLast(w) && WordCount(w + 1) == WordCount(w) && SizeBytes(w + 1) == SizeBytes(w)
  {
    LowestBit(w);
  }

  /** Setting the lowest bit of an even word leaves the higher ones alone. */
  lemma LowestBit(w: nat)
    requires w % 2 == 0
    ensures (w + 1) / 4 == w / 4 && (w + 1) / 8 == w / 8 && (w + 1) % 8 == w % 8 + 1
  {
    assert (w + 1) / 2 == w / 2;
    Halved(w);
    Halved(w + 1);
  }

  lemma Halved(w: nat)
    ensures w / 4 == w / 2 / 2 && w / 8 == w / 2 / 4
  {
  }

  /** Setting or clearing one field of the header word changes that field alone. */
  lemma HeaderUpdates(k: Chunk, words: nat)
    ensures WithFree(Header(k)) == Header(k.(free := true))
    ensures WithoutFree(Header(k)) == Header(k.(free := false))
    ensures WithPredFree(Header(k)) == Header(k.(pred := true))
    ensures WithoutPredFree(Header(k)) == Header(k.(pred := false))
    ensures WithLast(Header(k)) == Header(k.(last := true))
    ensures WithoutLast(Header(k)) == Header(k.(last := false))
    ensures WithWords(Header(k), words) == Header(k.(words := words))
  {
  }
}
