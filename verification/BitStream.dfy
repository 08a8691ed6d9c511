// A vector of W-bit words read as one stream of bits, and the two moves every
// packing codec makes on it: OR a value in at a bit position, read it back.
// The straddling branches are those of include/columnar/bitpack.h,
// include/columnar/for.h and include/columnar/encoding/encoding.h.
module BitStream {
  import opened Bits

  predicate WordSize(width: nat) { width == 32 || width == 64 }

  /** pos / width and pos % width, for the two word sizes in use */
  function WordOf(width: nat, p: nat): nat { if width == 64 then p / 64 else p / 32 }
  function OffsetOf(width: nat, p: nat): nat { if width == 64 then p % 64 else p % 32 }
  function Capacity(width: nat, words: nat): nat { if width == 64 then 64 * words else 32 * words }

  /** Every element is a value of the unsigned word type. */
  ghost predicate Words(words: seq<nat>, width: nat) {
    forall k :: 0 <= k < |words| ==> words[k] < Pow2(width)
  }

  predicate Window(width: nat, words: nat, pos: nat, bits: nat) {
    WordSize(width) && 0 < bits <= width && pos + bits <= Capacity(width, words)
  }

  /** Bit p of the stream; positions past the end read as 0. */
  predicate StreamBit(words: seq<nat>, width: nat, p: nat) {
    WordOf(width, p) < |words| && Bit(words[WordOf(width, p)], OffsetOf(width, p))
  }

  /** OR `v` into word `word` from bit `offset` up, spilling into the next word
      when it does not fit. */
  function PutAt(words: seq<nat>, width: nat, word: nat, offset: nat, bits: nat, v: nat): (r: seq<nat>)
    requires Cell(width, |words|, word, offset, bits)
    ensures |r| == |words|
  {
    var low := OrWord(words, word, Shl(v, offset, width));
    if offset + bits <= width then low else OrWord(low, word + 1, Shr(v, width - offset))
  }

  /** Read `bits` bits from the same place; the upper word is widened to 64 bits
      before it is shifted into position. */
  function GetAt(words: seq<nat>, width: nat, word: nat, offset: nat, bits: nat): nat
    requires Cell(width, |words|, word, offset, bits)
  {
    if offset + bits <= width then And(Shr(words[word], offset), Mask(bits))
    else And(Or(Shr(words[word], offset), Shl(words[word + 1], width - offset, 64)), Mask(bits))
  }

  predicate Cell(width: nat, len: nat, word: nat, offset: nat, bits: nat) {
    && 0 < bits <= width && offset < width && word < len
    && (offset + bits > width ==> word + 1 < len)
  }

  lemma WindowIsCell(width: nat, len: nat, pos: nat, bits: nat)
    requires Window(width, len, pos, bits)
    ensures Cell(width, len, WordOf(width, pos), OffsetOf(width, pos), bits)
  {
  }

  function PutBits(words: seq<nat>, width: nat, pos: nat, bits: nat, v: nat): (r: seq<nat>)
    requires Window(width, |words|, pos, bits)
    ensures |r| == |words|
  {
    WindowIsCell(width, |words|, pos, bits);
    PutAt(words, width, WordOf(width, pos), OffsetOf(width, pos), bits, v)
  }

  function GetBits(words: seq<nat>, width: nat, pos: nat, bits: nat): nat
    requires Window(width, |words|, pos, bits)
  {
    WindowIsCell(width, |words|, pos, bits);
    GetAt(words, width, WordOf(width, pos), OffsetOf(width, pos), bits)
  }

  /** words[k] |= v */
  function OrWord(words: seq<nat>, k: nat, v: nat): (r: seq<nat>)
    requires k < |words|
    ensures |r| == |words|
  {
    words[k := Or(words[k], v)]
  }

  // ---- one put, one get, word by word

  lemma OrWordWords(words: seq<nat>, width: nat, k: nat, v: nat)
    requires Words(words, width) && k < |words| && v < Pow2(width)
    ensures Words(OrWord(words, k, v), width)
  {
    OrBound(words[k], v, width);
  }

  lemma PutAtWords(words: seq<nat>, width: nat, word: nat, offset: nat, bits: nat, v: nat)
    requires Cell(width, |words|, word, offset, bits) && v < Pow2(bits) && Words(words, width)
    ensures Words(PutAt(words, width, word, offset, bits, v), width)
  {
    LowBitsBound(ScaleUp(v, offset), width);
    OrWordWords(words, width, word, Shl(v, offset, width));
    if offset + bits > width {
      Pow2Mono(bits, width);
      ShrBound(v, width - offset);
      OrWordWords(OrWord(words, word, Shl(v, offset, width)), width, word + 1, Shr(v, width - offset));
    }
  }

  /** Bit k of word `at` after a put. */
  lemma PutAtBit(words: seq<nat>, width: nat, word: nat, offset: nat, bits: nat, v: nat, at: nat, k: nat)
    requires Cell(width, |words|, word, offset, bits) && v < Pow2(bits)
    requires at < |words| && k < width
    ensures Bit(PutAt(words, width, word, offset, bits, v)[at], k)
         == (Bit(words[at], k) || (at == word && offset <= k < offset + bits && Bit(v, k - offset))
             || (at == word + 1 && k + width < offset + bits && Bit(v, k + width - offset)))
  {
    if at == word {
      BitOr(words[word], Shl(v, offset, width), k);
      BitShl(v, offset, width, k);
      if k >= offset + bits { BitHigh(v, bits, k - offset); }
    } else if at == word + 1 && offset + bits > width {
      BitOr(words[word + 1], Shr(v, width - offset), k);
      BitShr(v, width - offset, k);
      if k + width >= offset + bits { BitHigh(v, bits, k + width - offset); }
    }
  }

  lemma StraightBit(w: nat, offset: nat, bits: nat, k: nat)
    requires k < bits
    ensures Bit(And(Shr(w, offset), Mask(bits)), k) == Bit(w, offset + k)
  {
    BitAnd(Shr(w, offset), Mask(bits), k);
    BitShr(w, offset, k);
    BitMask(bits, k);
  }

  lemma StraddleBit(lo: nat, hi: nat, width: nat, offset: nat, bits: nat, k: nat)
    requires 0 < offset < width <= 64 && k < bits <= width && lo < Pow2(width)
    ensures Bit(And(Or(Shr(lo, offset), Shl(hi, width - offset, 64)), Mask(bits)), k)
         == if offset + k < width then Bit(lo, offset + k) else Bit(hi, offset + k - width)
  {
    BitAnd(Or(Shr(lo, offset), Shl(hi, width - offset, 64)), Mask(bits), k);
    BitMask(bits, k);
    BitOr(Shr(lo, offset), Shl(hi, width - offset, 64), k);
    BitShr(lo, offset, k);
    BitShl(hi, width - offset, 64, k);
    if offset + k >= width { BitHigh(lo, width, offset + k); }
  }

  lemma GetAtBit(words: seq<nat>, width: nat, word: nat, offset: nat, bits: nat, k: nat)
    requires Cell(width, |words|, word, offset, bits) && Words(words, width) && width <= 64 && k < bits
    ensures offset + k >= width ==> word + 1 < |words|
    ensures Bit(GetAt(words, width, word, offset, bits), k)
         == if offset + k < width then Bit(words[word], offset + k) else Bit(words[word + 1], offset + k - width)
  {
    if offset + bits <= width {
      StraightBit(words[word], offset, bits, k);
    } else {
      StraddleBit(words[word], words[word + 1], width, offset, bits, k);
    }
  }

  lemma GetAtBound(words: seq<nat>, width: nat, word: nat, offset: nat, bits: nat)
    requires Cell(width, |words|, word, offset, bits)
    ensures GetAt(words, width, word, offset, bits) < Pow2(bits)
  {
    if offset + bits <= width {
      AndBound(Shr(words[word], offset), bits);
    } else {
      AndBound(Or(Shr(words[word], offset), Shl(words[word + 1], width - offset, 64)), bits);
    }
  }

  // ---- the same on stream positions

  lemma Relate(width: nat, pos: nat, p: nat)
    requires WordSize(width)
    ensures OffsetOf(width, p) < width && OffsetOf(width, pos) < width
    ensures WordOf(width, p) == WordOf(width, pos) ==> p - pos == OffsetOf(width, p) - OffsetOf(width, pos)
    ensures WordOf(width, p) == WordOf(width, pos) + 1 ==> p - pos == OffsetOf(width, p) + width - OffsetOf(width, pos)
    ensures WordOf(width, p) < WordOf(width, pos) ==> p < pos
    ensures WordOf(width, p) > WordOf(width, pos) + 1 ==> p > pos + width
  {
  }

  /** The stream after a put: old bits, plus the bits of `v` in their window,
      and nothing else. */
  lemma PutBitsEffect(words: seq<nat>, width: nat, pos: nat, bits: nat, v: nat, p: nat)
    requires Window(width, |words|, pos, bits) && v < Pow2(bits)
    ensures StreamBit(PutBits(words, width, pos, bits, v), width, p)
         == (StreamBit(words, width, p) || (pos <= p < pos + bits && Bit(v, p - pos)))
  {
    var word, offset := WordOf(width, pos), OffsetOf(width, pos);
    var at, k := WordOf(width, p), OffsetOf(width, p);
    WindowIsCell(width, |words|, pos, bits);
    Relate(width, pos, p);
    if at < |words| { PutAtBit(words, width, word, offset, bits, v, at, k); }
  }

  lemma PutBitsWords(words: seq<nat>, width: nat, pos: nat, bits: nat, v: nat)
    requires Window(width, |words|, pos, bits) && v < Pow2(bits) && Words(words, width)
    ensures Words(PutBits(words, width, pos, bits, v), width)
  {
    WindowIsCell(width, |words|, pos, bits);
    PutAtWords(words, width, WordOf(width, pos), OffsetOf(width, pos), bits, v);
  }

  lemma WindowPosition(width: nat, pos: nat, k: nat)
    requires WordSize(width) && k < width
    ensures OffsetOf(width, pos) + k < width ==>
              WordOf(width, pos + k) == WordOf(width, pos) && OffsetOf(width, pos + k) == OffsetOf(width, pos) + k
    ensures OffsetOf(width, pos) + k >= width ==>
              && WordOf(width, pos + k) == WordOf(width, pos) + 1
              && OffsetOf(width, pos + k) == OffsetOf(width, pos) + k - width
  {
  }

  /** What a get returns: exactly the window's bits. */
  lemma GetBitsBit(words: seq<nat>, width: nat, pos: nat, bits: nat, k: nat)
    requires Window(width, |words|, pos, bits) && Words(words, width) && k < bits
    ensures Bit(GetBits(words, width, pos, bits), k) == StreamBit(words, width, pos + k)
  {
    WindowIsCell(width, |words|, pos, bits);
    WindowPosition(width, pos, k);
    GetAtBit(words, width, WordOf(width, pos), OffsetOf(width, pos), bits, k);
  }

  /** A get whose window carries the bits of `v` returns `v`. */
  lemma GetReturns(words: seq<nat>, width: nat, pos: nat, bits: nat, v: nat)
    requires Window(width, |words|, pos, bits) && Words(words, width) && v < Pow2(bits)
    requires forall k: nat :: k < bits ==> StreamBit(words, width, pos + k) == Bit(v, k)
    ensures GetBits(words, width, pos, bits) == v
  {
    var g := GetBits(words, width, pos, bits);
    forall k: nat | k < bits ensures Bit(g, k) == Bit(v, k) {
      GetBitsBit(words, width, pos, bits, k);
      assert StreamBit(words, width, pos + k) == Bit(v, k);
    }
    WindowIsCell(width, |words|, pos, bits);
    GetAtBound(words, width, WordOf(width, pos), OffsetOf(width, pos), bits);
    BitsDetermine(g, v, bits);
  }
}
