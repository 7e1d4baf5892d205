/** Unsigned machine words as numbers, and the bit operations on them digit by digit. */
module BitWords {

  type Word = w: nat | w < 0x1_0000

  type Byte = w: nat | w < 0x100

  /** Whether a bit is set. */
  predicate Has(w: nat, bit: nat)
  {
    if bit == 0 then w % 2 == 1 else Has(w / 2, bit - 1)
  }

  function Digit(b: bool): nat
  {
    if b then 1 else 0
  }

  function And(v: nat, w: nat): (r: nat)
    ensures r <= v && r <= w
    decreases v
  {
    if v == 0 || w == 0 then 0 else Digit(v % 2 == 1 && w % 2 == 1) + 2 * And(v / 2, w / 2)
  }

  function Or(v: nat, w: nat): nat
    decreases v + w
  {
    if v == 0 && w == 0 then 0 else Digit(v % 2 == 1 || w % 2 == 1) + 2 * Or(v / 2, w / 2)
  }

  function Xor(v: nat, w: nat): nat
    decreases v + w
  {
    if v == 0 && w == 0 then 0 else Digit(v % 2 != w % 2) + 2 * Xor(v / 2, w / 2)
  }

  /** v & ~w. */
  function Cleared(v: nat, w: nat): (r: nat)
    ensures r <= v
    decreases v
  {
    if v == 0 then 0 else Digit(v % 2 == 1 && w % 2 == 0) + 2 * Cleared(v / 2, w / 2)
  }

  function Shl(w: nat, d: nat): nat
  {
    if d == 0 then w else 2 * Shl(w, d - 1)
  }

  function Shr(w: nat, d: nat): nat
  {
    if d == 0 then w else Shr(w / 2, d - 1)
  }

  /** BIT(bit). */
  function One(bit: nat): nat
  {
    Shl(1, bit)
  }

  // ---- what they do to each bit ----------------------------------------------------------------------------------

  lemma {:induction false} NothingSet(bit: nat)
    ensures !Has(0, bit)
  {
    if bit > 0 {
      NothingSet(bit - 1);
    }
  }

  lemma {:induction false} AndBit(v: nat, w: nat, bit: nat)
    ensures Has(And(v, w), bit) <==> Has(v, bit) && Has(w, bit)
    decreases bit
  {
    NothingSet(bit);
    if bit > 0 {
      AndBit(v / 2, w / 2, bit - 1);
      assert And(v, w) / 2 == if v == 0 || w == 0 then 0 else And(v / 2, w / 2);
    }
  }

  lemma {:induction false} OrBit(v: nat, w: nat, bit: nat)
    ensures Has(Or(v, w), bit) <==> Has(v, bit) || Has(w, bit)
    decreases bit
  {
    if bit > 0 {
      OrBit(v / 2, w / 2, bit - 1);
      assert Or(v, w) / 2 == Or(v / 2, w / 2);
    }
  }

  lemma {:induction false} XorBit(v: nat, w: nat, bit: nat)
    ensures Has(Xor(v, w), bit) <==> Has(v, bit) != Has(w, bit)
    decreases bit
  {
    if bit > 0 {
      XorBit(v / 2, w / 2, bit - 1);
      assert Xor(v, w) / 2 == Xor(v / 2, w / 2);
    }
  }

  lemma {:induction false} ClearedBit(v: nat, w: nat, bit: nat)
    ensures Has(Cleared(v, w), bit) <==> Has(v, bit) && !Has(w, bit)
    decreases bit
  {
    if bit > 0 {
      ClearedBit(v / 2, w / 2, bit - 1);
      assert Cleared(v, w) / 2 == Cleared(v / 2, w / 2);
    }
  }

  lemma {:induction false} ShlBit(w: nat, d: nat, bit: nat)
    ensures Has(Shl(w, d), bit) <==> bit >= d && Has(w, bit - d)
    decreases d
  {
    if d > 0 && bit > 0 {
      ShlBit(w, d - 1, bit - 1);
      assert Shl(w, d) / 2 == Shl(w, d - 1);
    }
  }

  lemma {:induction false} ShrBit(w: nat, d: nat, bit: nat)
    ensures Has(Shr(w, d), bit) <==> Has(w, bit + d)
    decreases d
  {
    if d > 0 {
      ShrBit(w / 2, d - 1, bit);
    }
  }

  lemma OneBit(i: nat, j: nat)
    ensures Has(One(i), j) <==> i == j
  {
    ShlBit(1, i, j);
    if j > i {
      NothingSet(j - i - 1);
    }
  }

  /** The lowest n bits. */
  function Ones(n: nat): nat
  {
    if n == 0 then 0 else 2 * Ones(n - 1) + 1
  }

  lemma {:induction false} OnesBit(n: nat, bit: nat)
    ensures Has(Ones(n), bit) <==> bit < n
    decreases n
  {
    if n == 0 {
      NothingSet(bit);
    } else if bit > 0 {
      OnesBit(n - 1, bit - 1);
    }
  }

  lemma {:induction false} NothingAbove(w: nat, n: nat, bit: nat)
    requires w <= Ones(n) && bit >= n
    ensures !Has(w, bit)
    decreases n
  {
    if n == 0 {
      NothingSet(bit);
    } else {
      NothingAbove(w / 2, n - 1, bit - 1);
    }
  }

  lemma {:induction false} OrBelow(v: nat, w: nat, n: nat)
    requires v <= Ones(n) && w <= Ones(n)
    ensures Or(v, w) <= Ones(n)
    decreases n
  {
    if n > 0 {
      OrBelow(v / 2, w / 2, n - 1);
    }
  }

  lemma {:induction false} OneBelow(bit: nat, n: nat)
    requires bit < n
    ensures One(bit) <= Ones(n)
    decreases n
  {
    if bit > 0 {
      OneBelow(bit - 1, n - 1);
    }
  }

  /** A number that is not zero has a bit. */
  lemma {:induction false} SomeBit(w: nat) returns (bit: nat)
    requires w != 0
    ensures Has(w, bit)
    decreases w
  {
    if w % 2 == 1 {
      bit := 0;
    } else {
      bit := SomeBit(w / 2);
      bit := bit + 1;
    }
  }

  // ---- 16-bit results --------------------------------------------------------------------------------------------

  lemma WordIsOnes()
    ensures Ones(16) == 0xFFFF
  {
    assert Ones(8) == 0xFF;
    assert Ones(12) == 0xFFF;
  }

  function Or16(v: Word, w: Word): (r: Word)
    ensures r == Or(v, w)
  {
    WordIsOnes();
    OrBelow(v, w, 16);
    Or(v, w)
  }

  function Bit16(bit: nat): (r: Word)
    requires bit < 16
    ensures r == One(bit)
  {
    WordIsOnes();
    OneBelow(bit, 16);
    One(bit)
  }
}
