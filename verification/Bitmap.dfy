/** Bits of a bitmap page (bitmap.c), in words of 64. */
module Bitmap {
  import opened Blocks

  /** Whole words in the usable part of a block. */
  const BITMAP_WORDS: nat := 511

  function Mask(k: bv6): bv64 {
    1 << k
  }

  function Lowered(w: bv64, k: bv6): bv64 {
    w >> k
  }

  function Common(w: bv64, m: bv64): bv64 {
    w & m
  }

  function Set(w: bv64, m: bv64): bv64 {
    w | m
  }

  function Cleared(w: bv64, m: bv64): bv64 {
    w & !m
  }

  function BitOf(w: bv64, k: bv6): bv64 {
    Lowered(Common(w, Mask(k)), k)
  }

  function WithBit(w: bv64, k: bv6, v: int): bv64 {
    if v == 0 then Cleared(w, Mask(k)) else Set(w, Mask(k))
  }

  /** The word index fits the page. */
  predicate HasBit(p: Page, i: nat) {
    p.BitmapPage? ==> i / 64 < |p.words|
  }

  /** The place of bit i in its word. */
  function BitAt(i: nat): bv6 {
    (i % 64) as bv6
  }

  /** Bit i of a page; -1 when the page is no bitmap. */
  function Get(p: Page, i: nat): int
    requires HasBit(p, i)
  {
    if !p.BitmapPage? then -1 else BitOf(p.words[i / 64], BitAt(i)) as int
  }

  /** The page with bit i written; a page that is no bitmap stays as it is. */
  function With(p: Page, i: nat, v: int): Page
    requires HasBit(p, i)
  {
    if !p.BitmapPage? then p
    else BitmapPage(p.words[i / 64 := WithBit(p.words[i / 64], BitAt(i), v)])
  }

  /** Writes bit i, in word i / 64 and no other; -1 and no change when the page is no bitmap. */
  method Put(p: Page, i: nat, v: int) returns (r: Page, rv: int)
    requires HasBit(p, i)
    ensures r == With(p, i, v) && (rv == 0 <==> p.BitmapPage?) && (rv == 0 || rv == -1)
    ensures rv == -1 ==> r == p
    ensures rv == 0 ==> r.BitmapPage? && |r.words| == |p.words|
    ensures rv == 0 ==> forall j | 0 <= j < |p.words| && j != i / 64 :: r.words[j] == p.words[j]
  {
    if !p.BitmapPage? { return p, -1; }
    hide WithBit, BitAt;
    r, rv := BitmapPage(p.words[i / 64 := WithBit(p.words[i / 64], BitAt(i), v)]), 0;
  }

  // ----- Words -----

  lemma Shifted(k: bv6)
    ensures Lowered(Mask(k), k) == 1 && Lowered(0, k) == 0
  {
  }

  lemma MasksApart(k: bv6, j: bv6)
    requires j != k
    ensures Common(Mask(k), Mask(j)) == 0
  {
  }

  lemma OneBit(w: bv64, k: bv6)
    ensures Common(w, Mask(k)) == 0 || Common(w, Mask(k)) == Mask(k)
  {
  }

  lemma SetOwn(w: bv64, m: bv64)
    ensures Common(Set(w, m), m) == m
  {
  }

  lemma ClearedOwn(w: bv64, m: bv64)
    ensures Common(Cleared(w, m), m) == 0
  {
  }

  lemma SetOther(w: bv64, m: bv64, n: bv64)
    requires Common(m, n) == 0
    ensures Common(Set(w, m), n) == Common(w, n)
  {
  }

  lemma ClearedOther(w: bv64, m: bv64, n: bv64)
    requires Common(m, n) == 0
    ensures Common(Cleared(w, m), n) == Common(w, n)
  {
  }

  /** Bit k of a word counts from its low end. */
  lemma BitFromLowEnd(w: bv64, k: bv6)
    ensures BitOf(w, k) == (w >> k) & 1
  {
  }

  lemma OneShifted(k: bv6)
    ensures Mask(k) == 1 << k
  {
  }

  lemma BitsWithin(w: bv64, m: bv64)
    ensures Cleared(w, m) == w & !m && Set(w, m) == w | m
  {
  }

  lemma WrittenWord(w: bv64, k: bv6, v: int, bit: bv64)
    requires bit == 1 << k
    ensures WithBit(w, k, v) == if v == 0 then w & !bit else w | bit
  {
    hide Mask, Cleared, Set;
    OneShifted(k);
    BitsWithin(w, bit);
  }

  lemma BitIsBinary(w: bv64, k: bv6)
    ensures BitOf(w, k) == 0 || BitOf(w, k) == 1
  {
    OneBit(w, k);
    Shifted(k);
  }

  /** What a word reads after one of its bits was written. */
  lemma BitAfterWrite(w: bv64, k: bv6, j: bv6, v: int)
    ensures BitOf(WithBit(w, k, v), j) == if j == k then (if v == 0 then 0 else 1) else BitOf(w, j)
  {
    hide Mask, Lowered, Common, Set, Cleared;
    if j == k {
      Shifted(k);
      SetOwn(w, Mask(k));
      ClearedOwn(w, Mask(k));
    } else {
      MasksApart(k, j);
      SetOther(w, Mask(k), Mask(j));
      ClearedOther(w, Mask(k), Mask(j));
    }
  }

  lemma ShiftAmount(a: nat)
    requires a < 64
    ensures (a as bv6) as int == a
  {
  }

  lemma BitPlace(i: nat)
    ensures BitAt(i) as int == i % 64
  {
    ShiftAmount(i % 64);
  }

  // ----- Pages -----

  /** Bit i of a page is bit i % 64, from the low end, of word i / 64; other pages have none. */
  lemma GetRange(p: Page, i: nat)
    requires HasBit(p, i)
    ensures if p.BitmapPage? then Get(p, i) == 0 || Get(p, i) == 1 else Get(p, i) == -1
    ensures p.BitmapPage? ==> Get(p, i) == ((p.words[i / 64] >> BitAt(i)) & 1) as int
  {
    hide BitOf, BitAt;
    if p.BitmapPage? {
      BitIsBinary(p.words[i / 64], BitAt(i));
      BitFromLowEnd(p.words[i / 64], BitAt(i));
    }
  }

  /** What a write makes of the word of bit i. */
  lemma WordAfterPut(p: Page, i: nat, v: int, w: bv64, at: bv6, bit: bv64)
    requires p.BitmapPage? && HasBit(p, i) && p.words[i / 64] == w && at as int == i % 64 && bit == 1 << at
    ensures With(p, i, v) == BitmapPage(p.words[i / 64 := if v == 0 then w & !bit else w | bit])
  {
    hide *;
    SameAt(i, at);
    WordWritten(p, i, v);
    WrittenWord(w, at, v, bit);
  }

  lemma SameAt(i: nat, at: bv6)
    requires at as int == i % 64
    ensures BitAt(i) == at
  {
    BitPlace(i);
  }

  lemma WordWritten(p: Page, i: nat, v: int)
    requires p.BitmapPage? && HasBit(p, i)
    ensures i / 64 < |p.words|
    ensures With(p, i, v) == BitmapPage(p.words[i / 64 := WithBit(p.words[i / 64], BitAt(i), v)])
  {
    hide WithBit, BitAt;
  }

  /** Reading bit j after writing bit i: the written value there, the old bit elsewhere, across all words. */
  lemma GetAfterPut(p: Page, i: nat, j: nat, v: int)
    requires p.BitmapPage? && HasBit(p, i) && HasBit(p, j)
    ensures HasBit(With(p, i, v), j) && With(p, i, v).BitmapPage?
    ensures Get(With(p, i, v), j) == if j == i then (if v == 0 then 0 else 1) else Get(p, j)
  {
    hide BitOf, WithBit;
    if i / 64 == j / 64 {
      var k, l := BitAt(i), BitAt(j);
      BitAfterWrite(p.words[i / 64], k, l, v);
      if i != j { Apart(i, j); }
    }
  }

  lemma Apart(i: nat, j: nat)
    requires i / 64 == j / 64 && i != j
    ensures BitAt(i) != BitAt(j)
  {
    ShiftAmount(i % 64);
    ShiftAmount(j % 64);
  }
}
