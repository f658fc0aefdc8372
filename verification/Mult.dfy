/** The multiplier of the MIPS simulator: shift and add on two 32-bit halves. */
module Multiplier {
  import opened Bytes

  const TWO_31 := 0x8000_0000
  const TWO_32 := 0x1_0000_0000

  // ---- the C++ operators on 32-bit operands ----

  /** Unary minus on an int, wrapping at the most negative value. */
  function Negate(a: int32): int32 {
    if a == -TWO_31 then a else -a
  }

  /** Signed right shift by one. */
  function ShiftRight(a: int32): int32 {
    a / 2
  }

  function Plus(x: word, y: word): word {
    (x + y) % TWO_32
  }

  function ShiftLeft(x: word): word {
    2 * x % TWO_32
  }

  function OrOne(x: word): word {
    if x % 2 == 0 then x + 1 else x
  }

  function Not(x: word): word {
    TWO_32 - 1 - x
  }

  /** The value of a register pair. */
  function Pair(hi: word, lo: word): int {
    hi * TWO_32 + lo
  }

  lemma AddPairs(hi: word, lo: word, bHi: word, bLo: word)
    requires Pair(hi, lo) + Pair(bHi, bLo) < TWO_32 * TWO_32
    ensures var lo' := Plus(lo, bLo);
            var hi' := Plus(if lo' < bLo then Plus(hi, 1) else hi, bHi);
            Pair(hi', lo') == Pair(hi, lo) + Pair(bHi, bLo)
  {
    assert Plus(lo, bLo) < bLo <==> lo + bLo >= TWO_32;
    assert lo + bLo >= TWO_32 ==> Plus(lo, bLo) == lo + bLo - TWO_32;
    assert (hi + bHi + if lo + bLo >= TWO_32 then 1 else 0) < TWO_32;
  }

  lemma DoublePair(hi: word, lo: word)
    requires hi < TWO_31
    ensures Pair(if lo >= TWO_31 then OrOne(ShiftLeft(hi)) else ShiftLeft(hi), ShiftLeft(lo)) == 2 * Pair(hi, lo)
  {
  }

  lemma NegatePair(hi: word, lo: word)
    requires Pair(hi, lo) > 0
    ensures var lo' := Plus(Not(lo), 1);
            var hi' := if lo' == 0 then Plus(Not(hi), 1) else Not(hi);
            Pair(hi', lo') == TWO_32 * TWO_32 - Pair(hi, lo)
  {
    if lo == 0 {
      assert Plus(Not(lo), 1) == 0;
      assert hi > 0 && Plus(Not(hi), 1) == TWO_32 - hi;
    } else {
      assert Plus(Not(lo), 1) == TWO_32 - lo;
    }
  }

  lemma ProductBound(x: int, y: int, m: int, n: int)
    requires 0 <= x <= m && 0 <= y <= n
    ensures 0 <= x * y <= m * n
  {
  }

  function Power2(n: nat): (p: nat)
    ensures p > 0
  {
    if n == 0 then 1 else 2 * Power2(n - 1)
  }

  lemma {:induction false} Power2Monotone(m: nat, n: nat)
    requires m <= n
    ensures Power2(m) <= Power2(n)
  {
    if m < n {
      Power2Monotone(m, n - 1);
    }
  }

  lemma {:induction false} Power2Add(m: nat, n: nat)
    ensures Power2(m + n) == Power2(m) * Power2(n)
  {
    if n > 0 {
      Power2Add(m, n - 1);
    }
  }

  lemma Power2Values()
    ensures Power2(31) == TWO_31 && Power2(32) == TWO_32
  {
    assert Power2(8) == 0x100;
    assert Power2(16) == 0x1_0000 by { Power2Add(8, 8); }
    assert Power2(24) == 0x100_0000 by { Power2Add(16, 8); }
    assert Power2(7) == 0x80;
    assert Power2(31) == TWO_31 by { Power2Add(24, 7); }
    assert Power2(32) == TWO_32 by { Power2Add(24, 8); }
  }

  lemma Power2Word(n: nat)
    requires n <= 32
    ensures Power2(n) <= TWO_32
    ensures n < 32 ==> Power2(n) <= TWO_31
    ensures n == 32 ==> Power2(n) == TWO_32
  {
    hide Power2;
    Power2Values();
    Power2Monotone(n, 32);
    if n < 32 {
      Power2Monotone(n, 31);
    }
  }

  /** The state of the loop before bit i: a0 is a * 2^i + done, so done holds the bits already
      multiplied, and the pairs hold b0 shifted left i times and b0 times done. */
  ghost predicate Multiplied(a0: int32, b0: word, a: int32, i: nat, done: int,
                             bHi: word, bLo: word, hi: word, lo: word) {
    && a0 == a * Power2(i) + done
    && 0 <= done < Power2(i)
    && Pair(bHi, bLo) == b0 * Power2(i)
    && Pair(hi, lo) == b0 * done
  }

  /** The state after bit i has been looked at: done includes it if it is set. */
  ghost predicate Taken(a0: int32, b0: word, a: int32, i: nat, done: int, bHi: word, bLo: word, hi: word, lo: word) {
    && (a % 2 == 1 ==> Power2(i) <= done < 2 * Power2(i))
    && (a % 2 == 0 ==> 0 <= done < Power2(i))
    && a0 == a * Power2(i) + done - (if a % 2 == 1 then Power2(i) else 0)
    && Pair(bHi, bLo) == b0 * Power2(i)
    && Pair(hi, lo) == b0 * done
  }

  /** Adding the shifted b0 takes in bit i. */
  lemma TakeBit(a0: int32, b0: word, a: int32, i: nat, done: int, bHi: word, bLo: word, hi: word, lo: word)
    requires i < 32 && a % 2 == 1
    requires Multiplied(a0, b0, a, i, done, bHi, bLo, hi, lo)
    ensures var lo' := Plus(lo, bLo);
            var hi' := Plus(if lo' < bLo then Plus(hi, 1) else hi, bHi);
            Taken(a0, b0, a, i, done + Power2(i), bHi, bLo, hi', lo')
  {
    var p := Power2(i);
    Power2Word(i);
    SumOfProducts(b0, done, p);
    hide Plus, Power2, Pair;
    AddPairs(hi, lo, bHi, bLo);
  }

  lemma SkipBit(a0: int32, b0: word, a: int32, i: nat, done: int, bHi: word, bLo: word, hi: word, lo: word)
    requires a % 2 == 0 && Multiplied(a0, b0, a, i, done, bHi, bLo, hi, lo)
    ensures Taken(a0, b0, a, i, done, bHi, bLo, hi, lo)
  {
    hide Pair, Power2;
  }

  lemma SumOfProducts(b0: word, done: int, p: int)
    requires 0 <= done < p <= TWO_31
    ensures b0 * (done + p) == b0 * done + b0 * p && b0 * done + b0 * p < TWO_32 * TWO_32
  {
    ProductBound(b0, done + p, TWO_32 - 1, TWO_32);
  }

  lemma HighBound(hi: word, lo: word)
    requires Pair(hi, lo) < TWO_31 * TWO_32
    ensures hi < TWO_31
  {
  }

  lemma Halves(a: int, p: int)
    ensures a * p == (a / 2) * (2 * p) + if a % 2 == 1 then p else 0
  {
    var half := a / 2;
    if a % 2 == 1 {
      assert a == 2 * half + 1;
    } else {
      assert a == 2 * half;
    }
  }

  lemma ShiftedPair(b0: word, p: int, bHi: word, bLo: word)
    requires 0 <= p <= TWO_31 && Pair(bHi, bLo) == b0 * p
    ensures Pair(if bLo >= TWO_31 then OrOne(ShiftLeft(bHi)) else ShiftLeft(bHi), ShiftLeft(bLo)) == b0 * (2 * p)
  {
    hide Pair, ShiftLeft, OrOne;
    ProductBound(b0, p, TWO_32 - 1, TWO_31);
    HighBound(bHi, bLo);
    DoublePair(bHi, bLo);
    assert b0 * (2 * p) == 2 * (b0 * p);
  }

  /** Shifting both operands moves on to the next bit. */
  lemma NextBit(a0: int32, b0: word, a: int32, i: nat, done: int, bHi: word, bLo: word, hi: word, lo: word)
    requires i < 32 && Taken(a0, b0, a, i, done, bHi, bLo, hi, lo)
    ensures Multiplied(a0, b0, ShiftRight(a), i + 1, done,
                       if bLo >= TWO_31 then OrOne(ShiftLeft(bHi)) else ShiftLeft(bHi), ShiftLeft(bLo), hi, lo)
  {
    var p := Power2(i);
    assert Power2(i + 1) == 2 * p;
    Power2Word(i);
    hide Power2, Pair, ShiftLeft, OrOne;
    var bHi' := if bLo >= TWO_31 then OrOne(ShiftLeft(bHi)) else ShiftLeft(bHi);
    assert Pair(bHi', ShiftLeft(bLo)) == b0 * Power2(i + 1) by {
      ShiftedPair(b0, p, bHi, bLo);
    }
    assert a0 == ShiftRight(a) * Power2(i + 1) + done by {
      Halves(a, p);
    }
  }

  /** At the early exit, when only the bit just taken was left, done is the whole operand. */
  lemma LastBit(a0: int32, b0: word, a: int32, i: nat, done: int, bHi: word, bLo: word, hi: word, lo: word)
    requires i < 32 && a % 2 == 1 && a / 2 == 0 && Taken(a0, b0, a, i, done, bHi, bLo, hi, lo)
    ensures Pair(hi, lo) == ToWord(a0) * b0
  {
    Power2Word(i);
    hide Pair, Power2;
    assert a == 1;
    assert done == ToWord(a0);
  }

  /** And so it is after 32 bits. */
  lemma AllBits(a0: int32, b0: word, a: int32, done: int, bHi: word, bLo: word, hi: word, lo: word)
    requires Multiplied(a0, b0, a, 32, done, bHi, bLo, hi, lo)
    ensures Pair(hi, lo) == ToWord(a0) * b0
  {
    Power2Word(32);
    hide Pair, Power2;
    WholeOperand(a0, a, done);
  }

  lemma WholeOperand(a0: int32, a: int, done: int)
    requires a0 == a * TWO_32 + done && 0 <= done < TWO_32
    ensures done == ToWord(a0)
    ensures a <= 0
  {
  }

  /** The loop: hi:lo becomes the product of the two operands read as unsigned numbers. */
  method MultiplyUnsigned(a0: int32, b: int32) returns (hi: word, lo: word)
    ensures Pair(hi, lo) == ToWord(a0) * ToWord(b)
  {
    hide Plus, ShiftLeft, ShiftRight, OrOne, Power2, Pair, Multiplied, Taken;
    var a := a0;
    var bLo: word, bHi: word := ToWord(b), 0;
    lo, hi := 0, 0;
    ghost var b0, done := ToWord(b), 0;
    Start(a0, b0);
    for i := 0 to 32
      invariant Multiplied(a0, b0, a, i, done, bHi, bLo, hi, lo)
    {
      if a % 2 == 1 {
        TakeBit(a0, b0, a, i, done, bHi, bLo, hi, lo);
        lo := Plus(lo, bLo);
        if lo < bLo {
          hi := Plus(hi, 1);
        }
        hi := Plus(hi, bHi);
        done := done + Power2(i);
        if a / 2 == 0 {
          LastBit(a0, b0, a, i, done, bHi, bLo, hi, lo);
          return;
        }
      } else {
        SkipBit(a0, b0, a, i, done, bHi, bLo, hi, lo);
      }
      NextBit(a0, b0, a, i, done, bHi, bLo, hi, lo);
      bHi := ShiftLeft(bHi);
      if bLo >= TWO_31 {
        bHi := OrOne(bHi);
      }
      bLo := ShiftLeft(bLo);
      a := ShiftRight(a);
    }
    AllBits(a0, b0, a, done, bHi, bLo, hi, lo);
  }

  lemma Start(a0: int32, b0: word)
    ensures Multiplied(a0, b0, a0, 0, 0, 0, b0, 0, 0)
  {
  }

  function Abs(n: int): nat {
    if n < 0 then -n else n
  }

  lemma Magnitude(a: int32)
    ensures ToWord(if a < 0 then Negate(a) else a) == Abs(a)
  {
  }

  /** The two registers, read as one 64-bit number of the requested kind, are the exact product. */
  method Mult(a: int32, b: int32, signedArith: bool) returns (hi: int32, lo: int32)
    ensures signedArith ==> hi * 0x1_0000_0000 + ToWord(lo) == a * b
    ensures !signedArith ==> ToWord(hi) * 0x1_0000_0000 + ToWord(lo) == ToWord(a) * ToWord(b)
  {
    hide Plus, Not;
    if a == 0 || b == 0 {
      return 0, 0;
    }
    var negative := false;
    var x, y := a, b;
    if signedArith {
      if x < 0 {
        negative := !negative;
        x := Negate(x);
      }
      if y < 0 {
        negative := !negative;
        y := Negate(y);
      }
      Magnitude(a);
      Magnitude(b);
      SignedProduct(a, b, x, y, negative);
    }
    var h, l := MultiplyUnsigned(x, y);
    if negative {
      NegatePair(h, l);
      h := Not(h);
      l := Not(l);
      l := Plus(l, 1);
      if l == 0 {
        h := Plus(h, 1);
      }
    }
    return FromWord(h), FromWord(l);
  }

  lemma SignedProduct(a: int32, b: int32, x: int32, y: int32, negative: bool)
    requires a != 0 && b != 0
    requires ToWord(x) == Abs(a) && ToWord(y) == Abs(b)
    requires negative <==> (a < 0) != (b < 0)
    ensures a * b == if negative then -(ToWord(x) * ToWord(y)) else ToWord(x) * ToWord(y)
    ensures 0 < ToWord(x) * ToWord(y) <= TWO_31 * TWO_31
  {
  }
}
