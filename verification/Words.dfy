/** Machine words. Bytes and 64-bit words are bounded integers; the shifts and
    bitwise operators of the sources are spelled out on them, bit by bit, so that
    every mask, shift and truncation of the codec and of the bitmap is explicit. */
module Words {
  const TWO_64: nat := 0x1_0000_0000_0000_0000
  const TWO_31: nat := 0x8000_0000

  type byte = x: int | 0 <= x < 256
  type u64 = x: int | 0 <= x < TWO_64

  function Pow2(n: nat): (r: nat)
    ensures r >= 1
  {
    if n == 0 then 1 else 2 * Pow2(n - 1)
  }

  function Bit(x: nat, i: nat): bool {
    if i == 0 then x % 2 == 1 else Bit(x / 2, i - 1)
  }

  function Or(x: nat, y: nat): nat {
    if x == 0 then y else (if x % 2 == 1 || y % 2 == 1 then 1 else 0) + 2 * Or(x / 2, y / 2)
  }

  function And(x: nat, y: nat): nat {
    if x == 0 then 0 else (if x % 2 == 1 && y % 2 == 1 then 1 else 0) + 2 * And(x / 2, y / 2)
  }

  /** `~x` on a 64-bit word. */
  function Not64(x: u64): u64 {
    TWO_64 - 1 - x
  }

  /** `x << s` on a 64-bit word: bits pushed past bit 63 are lost. */
  function Shl64(x: u64, s: nat): u64 {
    x * Pow2(s) % TWO_64
  }

  function Shr64(x: u64, s: nat): u64 {
    QuotientLe(x, Pow2(s));
    x / Pow2(s)
  }

  lemma QuotientLe(x: nat, d: nat)
    requires d >= 1
    ensures 0 <= x / d <= x
  {
    MulLe(1, d, x / d);
    assert x == x / d * d + x % d;
  }

  lemma MulLe(a: nat, b: nat, c: nat)
    requires a <= b
    ensures a * c <= b * c
  {
    assert b * c == a * c + (b - a) * c;
  }

  lemma {:induction false} Pow2Add(a: nat, b: nat)
    ensures Pow2(a + b) == Pow2(a) * Pow2(b)
  {
    if a > 0 {
      Pow2Add(a - 1, b);
      MulTwice(Pow2(b), Pow2(a - 1));
    }
  }

  lemma Pow2Values()
    ensures Pow2(7) == 128 && Pow2(63) == 0x8000_0000_0000_0000 && Pow2(64) == TWO_64
  {
    assert Pow2(4) == 16 && Pow2(3) == 8;
    Pow2Products();
  }

  lemma Pow2Products()
    requires Pow2(3) == 8 && Pow2(4) == 16
    ensures Pow2(7) == 128 && Pow2(63) == 0x8000_0000_0000_0000 && Pow2(64) == TWO_64
  {
    hide Pow2;
    Pow2Add(3, 4);
    Pow2Add(4, 4);
    Pow2Add(8, 8);
    Pow2Add(16, 16);
    Pow2Add(32, 16);
    Pow2Add(48, 8);
    Pow2Add(56, 7);
    Pow2Add(32, 32);
  }

  lemma {:induction false} Pow2Monotone(a: nat, b: nat)
    requires a <= b
    ensures Pow2(a) <= Pow2(b)
    decreases b
  {
    if a < b {
      Pow2Monotone(a, b - 1);
    }
  }

  /** `|` is `+` when the right operand has only zeros below the top of the left one. */
  lemma {:induction false} OrDisjoint(x: nat, q: nat, s: nat)
    requires x < Pow2(s)
    ensures Or(x, q * Pow2(s)) == x + q * Pow2(s)
  {
    if x > 0 {
      OrDisjoint(x / 2, q, s - 1);
      MulTwice(q, Pow2(s - 1));
      OrEven(x, q * Pow2(s - 1));
    }
  }

  lemma MulTwice(q: nat, p: nat)
    ensures q * (2 * p) == 2 * (q * p)
  {
  }

  lemma OrEven(x: nat, y: nat)
    requires x > 0
    ensures Or(x, 2 * y) == x % 2 + 2 * Or(x / 2, y)
  {
    assert 2 * y % 2 == 0 && 2 * y / 2 == y;
  }

  /** Masking with s low ones keeps the remainder modulo 2^s. */
  lemma {:induction false} AndLowMask(x: nat, s: nat)
    ensures And(x, Pow2(s) - 1) == x % Pow2(s)
  {
    if s == 0 {
      AndZero(x);
    } else if x > 0 {
      var p := Pow2(s - 1);
      assert Pow2(s) - 1 == 2 * (p - 1) + 1;
      hide And, Pow2;
      calc {
        And(x, Pow2(s) - 1);
        And(x, 2 * (p - 1) + 1);
        { AndOddMask(x, p - 1); }
        x % 2 + 2 * And(x / 2, p - 1);
        { AndLowMask(x / 2, s - 1); }
        x % 2 + 2 * (x / 2 % p);
        { ModDouble(x, p); }
        x % Pow2(s);
      }
    }
  }

  lemma AndOddMask(x: nat, m: nat)
    requires x > 0
    ensures And(x, 2 * m + 1) == x % 2 + 2 * And(x / 2, m)
  {
    assert (2 * m + 1) % 2 == 1 && (2 * m + 1) / 2 == m;
  }

  lemma {:induction false} AndZero(x: nat)
    ensures And(x, 0) == 0
  {
    if x > 0 {
      AndZero(x / 2);
    }
  }

  lemma ModDouble(x: nat, p: nat)
    requires p >= 1
    ensures x % (2 * p) == x % 2 + 2 * (x / 2 % p)
  {
    var q, r := x / 2 / p, x / 2 % p;
    assert x / 2 == q * p + r;
    assert x == 2 * (x / 2) + x % 2;
    ModUnique(x, 2 * p, q, x % 2 + 2 * r) by {
      assert q * (2 * p) == 2 * (q * p);
    }
  }

  lemma ModUnique(x: nat, m: nat, q: nat, r: nat)
    requires m >= 1 && r < m && x == q * m + r
    ensures x % m == r && x / m == q
  {
    var q', r' := x / m, x % m;
    assert x == q' * m + r';
    if q < q' {
      MulLe(q + 1, q', m);
      assert false;
    } else if q' < q {
      MulLe(q' + 1, q, m);
      assert false;
    }
  }

  // Bits of the results

  lemma {:induction false} BitZero(i: nat)
    ensures !Bit(0, i)
  {
    if i > 0 {
      BitZero(i - 1);
    }
  }

  lemma {:induction false} BitOr(x: nat, y: nat, i: nat)
    ensures Bit(Or(x, y), i) == (Bit(x, i) || Bit(y, i))
  {
    if x == 0 {
      BitZero(i);
    } else if i > 0 {
      BitOr(x / 2, y / 2, i - 1);
    }
  }

  lemma {:induction false} BitAnd(x: nat, y: nat, i: nat)
    ensures Bit(And(x, y), i) == (Bit(x, i) && Bit(y, i))
  {
    if x == 0 {
      BitZero(i);
    } else if i > 0 {
      BitAnd(x / 2, y / 2, i - 1);
    }
  }

  lemma {:induction false} BitPow2(k: nat, i: nat)
    ensures Bit(Pow2(k), i) == (i == k)
  {
    if k == 0 {
      if i > 0 {
        BitZero(i - 1);
      }
    } else if i > 0 {
      assert Pow2(k) / 2 == Pow2(k - 1);
      BitPow2(k - 1, i - 1);
    }
  }

  /** Complementing below 2^w flips each of the low w bits. */
  lemma {:induction false} BitComplement(x: nat, w: nat, i: nat)
    requires x < Pow2(w) && i < w
    ensures Bit(Pow2(w) - 1 - x, i) == !Bit(x, i)
  {
    var p := Pow2(w - 1);
    if i > 0 {
      assert (2 * p - 1 - x) / 2 == p - 1 - x / 2;
      BitComplement(x / 2, w - 1, i - 1);
    }
  }

  lemma BitNot64(x: u64, i: nat)
    requires i < 64
    ensures Bit(Not64(x), i) == !Bit(x, i)
  {
    Pow2Values();
    BitComplement(x, 64, i);
  }

  /** `|` and `&` of words stay words. */
  lemma {:induction false} OrBound(x: nat, y: nat, w: nat)
    requires x < Pow2(w) && y < Pow2(w)
    ensures Or(x, y) < Pow2(w)
  {
    if x > 0 {
      OrBound(x / 2, y / 2, w - 1);
    }
  }

  lemma {:induction false} AndBound(x: nat, y: nat)
    ensures And(x, y) <= x
  {
    if x > 0 {
      AndBound(x / 2, y / 2);
    }
  }

  /** A word with no bit set is zero. */
  lemma {:induction false} NoBitsIsZero(x: nat, w: nat)
    requires x < Pow2(w)
    requires forall i: nat :: i < w ==> !Bit(x, i)
    ensures x == 0
  {
    if w > 0 {
      forall i: nat | i < w - 1
        ensures !Bit(x / 2, i)
      {
        assert Bit(x, i + 1) == Bit(x / 2, i);
      }
      assert !Bit(x, 0);
      NoBitsIsZero(x / 2, w - 1);
    }
  }

  // The three byte operations of the codec

  lemma ByteMasks(b: byte)
    ensures And(b, 0x7F) == b % 128
    ensures And(b, 0x80) == 0 <==> b < 128
  {
    Pow2Values();
    AndLowMask(b, 7);
    TopBit(b);
  }

  lemma TopBit(b: byte)
    ensures And(b, 0x80) == 0 <==> b < 128
  {
    Pow2Values();
    AndOneBit(b, 7);
    BitTop(b, 7);
  }

  lemma {:induction false} AndOneBit(x: nat, k: nat)
    ensures And(x, Pow2(k)) == 0 <==> !Bit(x, k)
  {
    if x == 0 {
      BitZero(k);
    } else if k == 0 {
      AndZero(x / 2);
    } else {
      AndOneBit(x / 2, k - 1);
    }
  }

  lemma {:induction false} BitTop(x: nat, k: nat)
    requires x < Pow2(k + 1)
    ensures Bit(x, k) <==> x >= Pow2(k)
  {
    if k > 0 {
      BitTop(x / 2, k - 1);
    }
  }
}
