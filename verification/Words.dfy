/** Words of 64 bits: what the operators of unsigned arithmetic do to them, bit by bit. */
module Words {

  const MODULUS: int := 0x1_0000_0000_0000_0000

  type Word = n: int | 0 <= n < 0x1_0000_0000_0000_0000

  function Bit(a: nat, i: nat): bool {
    if i == 0 then a % 2 == 1 else Bit(a / 2, i - 1)
  }

  function Pow2(k: nat): (r: nat)
    ensures r > 0
  {
    if k == 0 then 1 else 2 * Pow2(k - 1)
  }

  lemma Pow2Of4()
    ensures Pow2(4) == 16
  {
  }

  lemma WordSize()
    ensures Pow2(64) == MODULUS
  {
    hide Pow2;
    Pow2Of4();
    Pow2Adds(4, 4);
    Pow2Adds(8, 8);
    Pow2Adds(16, 16);
    Pow2Adds(32, 32);
  }

  lemma {:induction false} Pow2Adds(j: nat, k: nat)
    ensures Pow2(j + k) == Pow2(j) * Pow2(k)
  {
    if j > 0 {
      Pow2Adds(j - 1, k);
      assert 2 * (Pow2(j - 1) * Pow2(k)) == (2 * Pow2(j - 1)) * Pow2(k);
    }
  }

  /** A number of `n` bits has no bit from there on. */
  lemma {:induction false} NoBitAbove(a: nat, n: nat, i: nat)
    requires a < Pow2(n) && i >= n
    ensures !Bit(a, i)
    decreases i
  {
    if n > 0 {
      NoBitAbove(a / 2, n - 1, i - 1);
    } else {
      NoBitOfZero(i);
    }
  }

  lemma {:induction false} NoBitOfZero(i: nat)
    ensures !Bit(0, i)
  {
    if i > 0 {
      NoBitOfZero(i - 1);
    }
  }

  lemma WordBits(a: Word, i: nat)
    requires i >= 64
    ensures !Bit(a, i)
  {
    WordSize();
    NoBitAbove(a, 64, i);
  }

  /** Numbers of `n` bits are the same when their bits are. */
  lemma {:induction false} SameBits(a: nat, b: nat, n: nat)
    requires a < Pow2(n) && b < Pow2(n)
    requires forall i: nat :: i < n ==> Bit(a, i) == Bit(b, i)
    ensures a == b
    decreases n
  {
    if n > 0 {
      assert Bit(a, 0) == Bit(b, 0);
      forall i: nat | i < n - 1 ensures Bit(a / 2, i) == Bit(b / 2, i) {
        assert Bit(a, i + 1) == Bit(b, i + 1);
      }
      SameBits(a / 2, b / 2, n - 1);
    }
  }

  lemma SameWord(a: Word, b: Word)
    requires forall i: nat :: i < 64 ==> Bit(a, i) == Bit(b, i)
    ensures a == b
  {
    WordSize();
    SameBits(a, b, 64);
  }

  // ---------- exclusive and inclusive or ----------

  /** The number whose bits are those of `a` and `b`, joined by `f`. */
  function Joined(a: nat, b: nat, exclusive: bool): nat {
    if a == 0 && b == 0 then 0
    else
      var low := if exclusive then a % 2 != b % 2 else a % 2 == 1 || b % 2 == 1;
      (if low then 1 else 0) + 2 * Joined(a / 2, b / 2, exclusive)
  }

  lemma {:induction false} BitJoined(a: nat, b: nat, exclusive: bool, i: nat)
    ensures Bit(Joined(a, b, exclusive), i) == if exclusive then Bit(a, i) != Bit(b, i) else Bit(a, i) || Bit(b, i)
    decreases i
  {
    if a == 0 && b == 0 {
      NoBitOfZero(i);
    } else if i > 0 {
      BitJoined(a / 2, b / 2, exclusive, i - 1);
    }
  }

  lemma {:induction false} JoinedFits(a: nat, b: nat, exclusive: bool, n: nat)
    requires a < Pow2(n) && b < Pow2(n)
    ensures Joined(a, b, exclusive) < Pow2(n)
    decreases n
  {
    if n > 0 {
      JoinedFits(a / 2, b / 2, exclusive, n - 1);
    }
  }

  /** `a ^ b` */
  function Xor(a: Word, b: Word): Word {
    WordSize();
    JoinedFits(a, b, true, 64);
    Joined(a, b, true)
  }

  /** `a | b` */
  function Or(a: Word, b: Word): Word {
    WordSize();
    JoinedFits(a, b, false, 64);
    Joined(a, b, false)
  }

  // ---------- shifts ----------

  /** `a >> k` */
  function Shr(a: Word, k: nat): Word {
    if k == 0 then a else Shr(a / 2, k - 1)
  }

  /** `a << k`: what does not fit in the word is lost. */
  function Shl(a: Word, k: nat): Word {
    if k == 0 then a else (2 * Shl(a, k - 1)) % MODULUS
  }

  lemma {:induction false} BitShr(a: Word, k: nat, i: nat)
    ensures Bit(Shr(a, k), i) == Bit(a, i + k)
    decreases k
  {
    if k > 0 {
      BitShr(a / 2, k - 1, i);
    }
  }

  lemma {:induction false} BitMod(x: nat, n: nat, i: nat)
    requires i < n
    ensures Bit(x % Pow2(n), i) == Bit(x, i)
    decreases i
  {
    var p := Pow2(n - 1);
    HalfMod(x, p);
    if i > 0 {
      BitMod(x / 2, n - 1, i - 1);
    }
  }

  lemma HalfMod(x: nat, p: nat)
    requires p > 0
    ensures (x % (2 * p)) / 2 == (x / 2) % p && (x % (2 * p)) % 2 == x % 2
  {
    var q, r := x / (2 * p), x % (2 * p);
    assert x == 2 * (q * p) + r;
    assert x / 2 == q * p + r / 2 && r / 2 < p;
    ModOf(q, r / 2, p);
  }

  lemma ModOf(q: int, r: nat, p: nat)
    requires r < p
    ensures (q * p + r) % p == r
  {
    var x := q * p + r;
    var d, m := x / p, x % p;
    assert x == p * d + m;
    assert p * (d - q) == r - m;
    OnlyZero(p, d - q);
  }

  lemma MultipleFar(p: int, k: int)
    requires p > 0
    ensures k >= 1 ==> p * k >= p
    ensures k <= -1 ==> p * k <= -p
  {
    if k >= 1 {
      assert p * (k - 1) >= 0;
    } else if k <= -1 {
      assert p * (-k - 1) >= 0;
    }
  }

  lemma OnlyZero(p: int, k: int)
    requires p > 0 && -p < p * k < p
    ensures k == 0
  {
    MultipleFar(p, k);
  }

  lemma {:induction false} BitShl(a: Word, k: nat, i: nat)
    requires i < 64
    ensures Bit(Shl(a, k), i) == (i >= k && Bit(a, i - k))
    decreases k
  {
    if k > 0 {
      WordSize();
      var less: nat := Shl(a, k - 1);
      BitMod(2 * less, 64, i);
      if i > 0 {
        assert Bit(2 * less, i) == Bit(less, i - 1);
        BitShl(a, k - 1, i - 1);
      }
    }
  }

  /** `(n << shift) | (n >> (64 - shift))` */
  function RotateLeft(n: Word, shift: nat): Word
    requires shift <= 64
  {
    Or(Shl(n, shift), Shr(n, 64 - shift))
  }

  /** `(n >> shift) | (n << (64 - shift))` */
  function RotateRight(n: Word, shift: nat): Word
    requires shift <= 64
  {
    Or(Shr(n, shift), Shl(n, 64 - shift))
  }

  lemma BitRotateLeft(n: Word, shift: nat, i: nat)
    requires 0 < shift < 64 && i < 64
    ensures Bit(RotateLeft(n, shift), i) == if i >= shift then Bit(n, i - shift) else Bit(n, i + 64 - shift)
  {
    BitJoined(Shl(n, shift), Shr(n, 64 - shift), false, i);
    BitShl(n, shift, i);
    BitShr(n, 64 - shift, i);
    if i >= shift {
      WordBits(n, i + 64 - shift);
    }
  }

  lemma BitRotateRight(n: Word, shift: nat, i: nat)
    requires 0 < shift < 64 && i < 64
    ensures Bit(RotateRight(n, shift), i) == if i + shift < 64 then Bit(n, i + shift) else Bit(n, i + shift - 64)
  {
    BitJoined(Shr(n, shift), Shl(n, 64 - shift), false, i);
    BitShl(n, 64 - shift, i);
    BitShr(n, shift, i);
    if i + shift >= 64 {
      WordBits(n, i + shift);
    }
  }

  /** The two rotations undo each other. */
  lemma RotateBack(n: Word, shift: nat)
    requires 0 < shift < 64
    ensures RotateRight(RotateLeft(n, shift), shift) == n && RotateLeft(RotateRight(n, shift), shift) == n
  {
    hide RotateLeft, RotateRight, Bit;
    forall i: nat | i < 64
      ensures Bit(RotateRight(RotateLeft(n, shift), shift), i) == Bit(n, i) == Bit(RotateLeft(RotateRight(n, shift), shift), i)
    {
      BitRotateRight(RotateLeft(n, shift), shift, i);
      BitRotateLeft(n, shift, if i + shift < 64 then i + shift else i + shift - 64);
      BitRotateLeft(RotateRight(n, shift), shift, i);
      BitRotateRight(n, shift, if i >= shift then i - shift else i + 64 - shift);
    }
    SameWord(RotateRight(RotateLeft(n, shift), shift), n);
    SameWord(RotateLeft(RotateRight(n, shift), shift), n);
  }

  // ---------- the laws of exclusive or ----------

  lemma XorLaws(a: Word, b: Word, c: Word)
    ensures Xor(Xor(a, b), c) == Xor(a, Xor(b, c)) && Xor(a, b) == Xor(b, a)
    ensures Xor(a, a) == 0 && Xor(a, 0) == a
  {
    hide Joined, Bit;
    forall i: nat | i < 64
      ensures Bit(Xor(Xor(a, b), c), i) == Bit(Xor(a, Xor(b, c)), i) && Bit(Xor(a, b), i) == Bit(Xor(b, a), i)
      ensures Bit(Xor(a, a), i) == Bit(0, i) && Bit(Xor(a, 0), i) == Bit(a, i)
    {
      BitJoined(a, b, true, i);
      BitJoined(b, a, true, i);
      BitJoined(b, c, true, i);
      BitJoined(Xor(a, b), c, true, i);
      BitJoined(a, Xor(b, c), true, i);
      BitJoined(a, a, true, i);
      BitJoined(a, 0, true, i);
      NoBitOfZero(i);
    }
    SameWord(Xor(Xor(a, b), c), Xor(a, Xor(b, c)));
    SameWord(Xor(a, b), Xor(b, a));
    SameWord(Xor(a, a), 0);
    SameWord(Xor(a, 0), a);
  }

  /** What is put in twice is not there. */
  lemma XorTwice(a: Word, b: Word)
    ensures Xor(Xor(a, b), b) == a && Xor(Xor(b, a), b) == a && Xor(b, Xor(a, b)) == a && Xor(b, Xor(b, a)) == a
  {
    hide Xor;
    XorLaws(a, b, b);
    XorLaws(b, b, a);
    XorLaws(b, a, b);
    XorLaws(a, b, a);
    XorLaws(b, b, b);
    XorLaws(Xor(a, b), b, b);
    XorLaws(a, a, a);
  }

  // ---------- products ----------

  /** `n * factor`, as far as it fits in the word. */
  function Times(n: Word, factor: Word): Word {
    (n * factor) % MODULUS
  }

  /** Odd factors have an inverse. */
  lemma TimesBack(n: Word, factor: Word, inverse: Word, q: int)
    requires factor * inverse == q * MODULUS + 1
    ensures Times(Times(n, factor), inverse) == n
  {
    var m, k := (n * factor) % MODULUS, (n * factor) / MODULUS;
    assert n * factor == k * MODULUS + m;
    assert m * inverse == (n * factor - k * MODULUS) * inverse;
    assert n * factor * inverse == n * (q * MODULUS + 1);
    assert m * inverse == (n * q - k * inverse) * MODULUS + n;
    ModOf(n * q - k * inverse, n, MODULUS);
  }

  // ---------- folding ----------

  lemma ShrXor(a: Word, b: Word, k: nat)
    ensures Shr(Xor(a, b), k) == Xor(Shr(a, k), Shr(b, k))
  {
    hide Shr, Bit, Joined;
    forall i: nat | i < 64 ensures Bit(Shr(Xor(a, b), k), i) == Bit(Xor(Shr(a, k), Shr(b, k)), i) {
      BitShr(Xor(a, b), k, i);
      BitShr(a, k, i);
      BitShr(b, k, i);
      BitJoined(a, b, true, i + k);
      BitJoined(Shr(a, k), Shr(b, k), true, i);
    }
    SameWord(Shr(Xor(a, b), k), Xor(Shr(a, k), Shr(b, k)));
  }

  lemma ShlXor(a: Word, b: Word, k: nat)
    ensures Shl(Xor(a, b), k) == Xor(Shl(a, k), Shl(b, k))
  {
    hide Shl, Bit, Joined;
    forall i: nat | i < 64 ensures Bit(Shl(Xor(a, b), k), i) == Bit(Xor(Shl(a, k), Shl(b, k)), i) {
      BitShl(Xor(a, b), k, i);
      BitShl(a, k, i);
      BitShl(b, k, i);
      BitJoined(Shl(a, k), Shl(b, k), true, i);
      if i >= k {
        BitJoined(a, b, true, i - k);
      }
    }
    SameWord(Shl(Xor(a, b), k), Xor(Shl(a, k), Shl(b, k)));
  }

  lemma ShrTwice(a: Word, j: nat, k: nat)
    ensures Shr(Shr(a, j), k) == Shr(a, j + k)
    ensures j + k >= 64 ==> Shr(a, j + k) == 0
  {
    hide Shr, Bit;
    forall i: nat | i < 64
      ensures Bit(Shr(Shr(a, j), k), i) == Bit(Shr(a, j + k), i)
      ensures j + k >= 64 ==> Bit(Shr(a, j + k), i) == Bit(0, i)
    {
      BitShr(Shr(a, j), k, i);
      BitShr(a, j, i + k);
      BitShr(a, j + k, i);
      NoBitOfZero(i);
      if j + k >= 64 {
        WordBits(a, i + j + k);
      }
    }
    SameWord(Shr(Shr(a, j), k), Shr(a, j + k));
    if j + k >= 64 {
      SameWord(Shr(a, j + k), 0);
    }
  }

  lemma ShlTwice(a: Word, j: nat, k: nat)
    ensures Shl(Shl(a, j), k) == Shl(a, j + k)
    ensures j + k >= 64 ==> Shl(a, j + k) == 0
  {
    hide Shl, Bit;
    forall i: nat | i < 64
      ensures Bit(Shl(Shl(a, j), k), i) == Bit(Shl(a, j + k), i)
      ensures j + k >= 64 ==> Bit(Shl(a, j + k), i) == Bit(0, i)
    {
      BitShl(Shl(a, j), k, i);
      BitShl(a, j + k, i);
      NoBitOfZero(i);
      if i >= k {
        BitShl(a, j, i - k);
      }
    }
    SameWord(Shl(Shl(a, j), k), Shl(a, j + k));
    if j + k >= 64 {
      SameWord(Shl(a, j + k), 0);
    }
  }
}
