/** The bitmap allocator: one bit per item, packed into 32-bit words. */
module BitMaps {
  import opened DiskImage

  const BITS_IN_WORD := 32

  function Mask(k: nat): bv32
    requires k < 32
  {
    (1 as bv32) << k
  }

  function With(w: bv32, mask: bv32): bv32 {
    w | mask
  }

  function Without(w: bv32, mask: bv32): bv32 {
    w & !mask
  }

  predicate Overlap(w: bv32, mask: bv32) {
    w & mask != 0
  }

  predicate BitSet(w: bv32, k: nat)
    requires k < 32
  {
    Overlap(w, Mask(k))
  }

  /** Each mask has one bit and is greater than the one before, so mask k is the k-th power of two. */
  lemma MasksInOrder(k: nat)
    requires k < 32
    ensures Mask(k) != 0 && Mask(k) & (Mask(k) - 1) == 0
    ensures k > 0 ==> Mask(k - 1) < Mask(k)
    ensures !BitSet(0, k) && BitSet(Mask(k), k)
  {
    OneBit(k);
    if k > 0 {
      MaskIncreases(k);
    }
    hide Mask;
  }

  lemma MaskIncreases(k: nat)
    requires 0 < k < 32
    ensures Mask(k - 1) < Mask(k)
  {
    if k <= 16 {
      LowMaskIncreases(k);
    } else {
      HighMaskIncreases(k);
    }
  }

  lemma LowMaskIncreases(k: nat)
    requires 0 < k <= 16
    ensures Mask(k - 1) < Mask(k)
  {
  }

  lemma HighMaskIncreases(k: nat)
    requires 16 < k < 32
    ensures Mask(k - 1) < Mask(k)
  {
  }

  lemma OneBit(k: nat)
    requires k < 32
    ensures Mask(k) != 0 && Mask(k) & (Mask(k) - 1) == 0 && 0 & Mask(k) == 0 && Mask(k) & Mask(k) != 0
  {
  }

  lemma {:induction false} MasksDisjoint(k: nat, j: nat)
    requires k < 32 && j < 32
    ensures Overlap(Mask(k), Mask(j)) <==> k == j
  {
    if k == j {
      assert Mask(k) != 0;
    } else if k < j {
      ShiftedApart(k, j);
    } else {
      ShiftedApart(j, k);
    }
  }

  lemma ShiftedApart(k: nat, j: nat)
    requires k < j < 32
    ensures ((1 as bv32) << k) & ((1 as bv32) << j) == 0 && ((1 as bv32) << j) & ((1 as bv32) << k) == 0
  {
  }

  lemma WithOther(w: bv32, a: bv32, b: bv32)
    requires !Overlap(a, b)
    ensures Overlap(With(w, a), b) == Overlap(w, b)
  {
    if Overlap(w, b) {
      WithKeeps(w, a, b);
    } else {
      WithAddsNone(w, a, b);
    }
  }

  lemma WithKeeps(w: bv32, a: bv32, b: bv32)
    requires w & b != 0
    ensures (w | a) & b != 0
  {
  }

  lemma WithAddsNone(w: bv32, a: bv32, b: bv32)
    requires w & b == 0 && a & b == 0
    ensures (w | a) & b == 0
  {
  }

  lemma WithoutOther(w: bv32, a: bv32, b: bv32)
    requires !Overlap(a, b)
    ensures Overlap(Without(w, a), b) == Overlap(w, b)
  {
    if Overlap(w, b) {
      WithoutKeeps(w, a, b);
    } else {
      WithoutAddsNone(w, a, b);
    }
  }

  lemma WithoutKeeps(w: bv32, a: bv32, b: bv32)
    requires w & b != 0 && a & b == 0
    ensures (w & !a) & b != 0
  {
  }

  lemma WithoutAddsNone(w: bv32, a: bv32, b: bv32)
    requires w & b == 0
    ensures (w & !a) & b == 0
  {
  }

  lemma WithSame(w: bv32, a: bv32)
    requires Overlap(a, a)
    ensures Overlap(With(w, a), a) && !Overlap(Without(w, a), a)
  {
  }

  /** Setting and clearing bit k of a word changes bit k and no other. */
  lemma {:induction false} WordUpdate(w: bv32, k: nat, j: nat)
    requires k < 32 && j < 32
    ensures BitSet(With(w, Mask(k)), j) <==> j == k || BitSet(w, j)
    ensures BitSet(Without(w, Mask(k)), j) <==> j != k && BitSet(w, j)
  {
    hide Mask, Overlap, With, Without;
    MasksDisjoint(k, j);
    if k == j {
      WithSame(w, Mask(k));
    } else {
      WithOther(w, Mask(k), Mask(j));
      WithoutOther(w, Mask(k), Mask(j));
    }
  }

  /** The first n bits of a word array, lowest bit of each word first. */
  function BitsOf(words: seq<bv32>, n: nat): (bits: seq<bool>)
    requires n <= BITS_IN_WORD * |words|
    ensures |bits| == n
  {
    seq(n, i requires 0 <= i < n => BitSet(words[i / BITS_IN_WORD], i % BITS_IN_WORD))
  }

  /** Bit i of the map is bit i % 32 of word i / 32. */
  lemma BitOfMap(words: seq<bv32>, n: nat, i: nat)
    requires n <= 32 * |words| && i < n
    ensures BitsOf(words, n)[i] <==> BitSet(words[i / 32], i % 32)
  {
    hide BitSet;
  }

  lemma {:induction false} BitsUpdate(words: seq<bv32>, n: nat, which: nat)
    requires n <= BITS_IN_WORD * |words| && which < n
    ensures var at, mask := which / BITS_IN_WORD, Mask(which % BITS_IN_WORD);
            && BitsOf(words[at := With(words[at], mask)], n) == BitsOf(words, n)[which := true]
            && BitsOf(words[at := Without(words[at], mask)], n) == BitsOf(words, n)[which := false]
  {
    hide BitSet, Mask, Overlap, With, Without;
    var at, k := which / BITS_IN_WORD, which % BITS_IN_WORD;
    var marked, cleared := words[at := With(words[at], Mask(k))], words[at := Without(words[at], Mask(k))];
    forall i | 0 <= i < n
      ensures BitsOf(marked, n)[i] == BitsOf(words, n)[which := true][i]
      ensures BitsOf(cleared, n)[i] == BitsOf(words, n)[which := false][i]
    {
      if i / BITS_IN_WORD == at {
        WordUpdate(words[at], k, i % BITS_IN_WORD);
      }
    }
  }

  function CountClear(bits: seq<bool>): nat {
    if bits == [] then 0
    else CountClear(bits[..|bits| - 1]) + if bits[|bits| - 1] then 0 else 1
  }

  lemma {:induction false} CountClearMark(bits: seq<bool>, i: nat)
    requires i < |bits| && !bits[i]
    ensures CountClear(bits[i := true]) == CountClear(bits) - 1
  {
    var last := |bits| - 1;
    if i < last {
      CountClearMark(bits[..last], i);
      assert bits[i := true][..last] == bits[..last][i := true];
    } else {
      assert bits[i := true][..last] == bits[..last];
    }
  }

  lemma {:induction false} CountClearZero(bits: seq<bool>)
    ensures CountClear(bits) == 0 <==> forall i | 0 <= i < |bits| :: bits[i]
  {
    if bits != [] {
      CountClearZero(bits[..|bits| - 1]);
    }
  }

  lemma WordExists(which: int, n: int)
    requires 0 <= which < n
    ensures 0 <= which / BITS_IN_WORD < DivRoundUp(n, BITS_IN_WORD) && n <= BITS_IN_WORD * DivRoundUp(n, BITS_IN_WORD)
  {
  }

  class BitMap {
    const numBits: nat
    const words: array<bv32>

    ghost predicate Valid() {
      words.Length == DivRoundUp(numBits, BITS_IN_WORD)
    }

    ghost function Bits(): (bits: seq<bool>)
      requires Valid()
      reads words
      ensures |bits| == numBits
    {
      BitsOf(words[..], numBits)
    }

    constructor (nitems: nat)
      ensures Valid() && fresh(words) && numBits == nitems
      ensures Bits() == seq(nitems, _ => false)
    {
      numBits := nitems;
      words := new bv32[DivRoundUp(nitems, BITS_IN_WORD)];
      new;
      for i := 0 to nitems
        invariant forall j | 0 <= j < i :: !Bits()[j]
      {
        Clear(i);
      }
    }

    method Mark(which: int)
      requires Valid() && 0 <= which < numBits
      modifies words
      ensures Bits() == old(Bits())[which := true]
    {
      hide BitSet, Mask, Overlap, With, Without, BitsOf;
      WordExists(which, numBits);
      BitsUpdate(words[..], numBits, which);
      ghost var before := words[..];
      var at := which / BITS_IN_WORD;
      words[at] := With(words[at], Mask(which % BITS_IN_WORD));
      assert words[..] == before[at := words[at]];
    }

    method Clear(which: int)
      requires Valid() && 0 <= which < numBits
      modifies words
      ensures Bits() == old(Bits())[which := false]
    {
      hide BitSet, Mask, Overlap, With, Without, BitsOf;
      WordExists(which, numBits);
      BitsUpdate(words[..], numBits, which);
      ghost var before := words[..];
      var at := which / BITS_IN_WORD;
      words[at] := Without(words[at], Mask(which % BITS_IN_WORD));
      assert words[..] == before[at := words[at]];
    }

    method Test(which: int) returns (marked: bool)
      requires Valid() && 0 <= which < numBits
      ensures marked == Bits()[which]
    {
      hide Mask, Overlap;
      WordExists(which, numBits);
      marked := Overlap(words[which / BITS_IN_WORD], Mask(which % BITS_IN_WORD));
    }

    /** Takes the first clear bit, or answers -1 when there is none. */
    method Find() returns (found: int)
      requires Valid()
      modifies words
      ensures -1 <= found < numBits
      ensures found == -1 ==> words[..] == old(words[..]) && forall i | 0 <= i < numBits :: old(Bits())[i]
      ensures found >= 0 ==> !old(Bits())[found] && forall i | 0 <= i < found :: old(Bits())[i]
      ensures found >= 0 ==> Bits() == old(Bits())[found := true]
    {
      for i := 0 to numBits
        invariant words[..] == old(words[..])
        invariant forall j | 0 <= j < i :: old(Bits())[j]
      {
        var taken := Test(i);
        if !taken {
          Mark(i);
          return i;
        }
      }
      return -1;
    }

    method NumClear() returns (count: nat)
      requires Valid()
      ensures count == CountClear(Bits())
    {
      hide BitsOf;
      count := 0;
      for i := 0 to numBits
        invariant count == CountClear(Bits()[..i])
      {
        var taken := Test(i);
        assert Bits()[..i + 1][..i] == Bits()[..i];
        if !taken {
          count := count + 1;
        }
      }
      assert Bits()[..numBits] == Bits();
    }
  }
}
