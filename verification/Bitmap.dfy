/** The packed page bitmap: 64 pages to a word, bit `index % 64` of word `index / 64`. */
module Bitmap {
  import opened Bits

  /** Word w of the bitmap is a 64-bit word holding the truth values used[64w], .., used[64w + 63]. */
  ghost predicate Holds(word: nat, used: seq<bool>, w: nat) {
    && word < Pow2(64)
    && 64 * w + 64 <= |used|
    && forall k: nat :: k < 64 ==> Bit(word, k) == used[64 * w + k]
  }

  /** The words hold exactly these truth values, padding included. */
  ghost predicate Packs(words: seq<nat>, used: seq<bool>) {
    && |used| == 64 * |words|
    && forall w :: 0 <= w < |words| ==> Holds(words[w], used, w)
  }

  lemma {:induction false} TestReads(words: seq<nat>, used: seq<bool>, i: nat)
    requires Packs(words, used) && i < |used|
    ensures (And(words[i / 64], Pow2(i % 64)) != 0) == used[i]
  {
    assert Holds(words[i / 64], used, i / 64);
    MaskTestsBit(words[i / 64], i % 64);
    assert 64 * (i / 64) + i % 64 == i;
  }

  /** The word that `set_used` writes back. */
  function Rewritten(word: nat, k: nat, used: bool): nat {
    if used then Or(word, Pow2(k)) else AndNot(word, Pow2(k))
  }

  lemma {:induction false} WordRewritten(word: nat, used: seq<bool>, i: nat, value: bool)
    requires i < |used| && Holds(word, used, i / 64)
    ensures Holds(Rewritten(word, i % 64, value), used[i := value], i / 64)
  {
    StaysInWord(word, i % 64, 64);
    forall k: nat | k < 64
      ensures Bit(Rewritten(word, i % 64, value), k) == used[i := value][64 * (i / 64) + k]
    {
      SetBit(word, i % 64, k);
      ClearBit(word, i % 64, k);
    }
  }

  /** `set_used` writes exactly bit `index`: every other bit, padding included, keeps its value. */
  lemma {:induction false} WritesOneBit(words: seq<nat>, used: seq<bool>, i: nat, value: bool)
    requires Packs(words, used) && i < |used|
    ensures Packs(words[i / 64 := Rewritten(words[i / 64], i % 64, value)], used[i := value])
  {
    var words' := words[i / 64 := Rewritten(words[i / 64], i % 64, value)];
    var used' := used[i := value];
    forall w | 0 <= w < |words|
      ensures Holds(words'[w], used', w)
    {
      assert Holds(words[w], used, w);
      if w == i / 64 { WordRewritten(words[w], used, i, value); }
    }
  }

  /** Nothing is lost: the words are determined by the truth values they hold. */
  lemma {:induction false} PacksUnique(a: seq<nat>, b: seq<nat>, used: seq<bool>)
    requires Packs(a, used) && Packs(b, used)
    ensures a == b
  {
    forall w | 0 <= w < |a|
      ensures a[w] == b[w]
    {
      assert Holds(a[w], used, w) && Holds(b[w], used, w);
      SameBits(a[w], b[w], 64);
    }
  }

  /** A bitmap filled with 0xff bytes holds only `true`. */
  lemma {:induction false} FilledPacks(words: seq<nat>, used: seq<bool>)
    requires |used| == 64 * |words|
    requires forall w :: 0 <= w < |words| ==> words[w] == Pow2(64) - 1
    requires forall i :: 0 <= i < |used| ==> used[i]
    ensures Packs(words, used)
  {
    forall w | 0 <= w < |words|
      ensures Holds(words[w], used, w)
    {
      forall k: nat | k < 64
        ensures Bit(words[w], k) == used[64 * w + k]
      {
        AllOnes(64, k);
      }
    }
  }
}
