/** The generator: a state of four words that every draw changes by a bijection, filled from
    one word by a mixer that is a bijection too. */
module Prng {
  import opened Words

  const GAMMA: Word := 0x9E3779B97F4A7C15
  const COUNT_LIMIT: Word := 0xFFFF_FFFF_FFFF_FFFF

  // ---------- the step ----------

  datatype State = State(w: Word, x: Word, y: Word, z: Word)

  const ZERO := State(0, 0, 0, 0)

  /** What a draw gives, from the state before it. */
  function Output(s: State): Word {
    Times(RotateLeft(Times(s.x, 5), 7), 9)
  }

  /** What a draw makes of the state. */
  function Step(s: State): State {
    var t := Shl(s.x, 17);
    var y := Xor(s.y, s.w);
    var z := Xor(s.z, s.x);
    var x := Xor(s.x, y);
    var w := Xor(s.w, z);
    State(w, x, Xor(y, t), RotateRight(z, 19))
  }

  /** The word that gives `a` when it is joined with itself shifted by 17. */
  function Unshift(a: Word): Word {
    Xor(Xor(Xor(a, Shl(a, 17)), Shl(a, 34)), Shl(a, 51))
  }

  /** The state before a draw, from the state after it. */
  function Back(s: State): State {
    var z := RotateLeft(s.z, 19);
    var w := Xor(s.w, z);
    var x := Unshift(Xor(s.x, s.y));
    var y := Xor(s.x, x);
    State(w, x, Xor(y, w), Xor(z, x))
  }

  /** Four terms that meet twice each but for the first. */
  lemma Telescope(a: Word, b: Word, c: Word, d: Word)
    ensures Xor(Xor(Xor(Xor(a, b), Xor(b, c)), Xor(c, d)), d) == a
  {
    hide Xor;
    XorLaws(Xor(a, b), b, c);
    XorTwice(a, b);
    XorLaws(Xor(a, c), c, d);
    XorLaws(a, c, c);
    XorTwice(a, c);
    XorTwice(a, d);
    XorLaws(Xor(Xor(a, b), b), c, c);
    XorLaws(a, c, Xor(c, d));
    XorTwice(d, c);
    XorLaws(c, d, c);
  }

  lemma UnshiftBack(x: Word)
    ensures Unshift(Xor(x, Shl(x, 17))) == x
  {
    hide Xor, Shl;
    ShlXor(x, Shl(x, 17), 17);
    ShlXor(x, Shl(x, 17), 34);
    ShlXor(x, Shl(x, 17), 51);
    ShlTwice(x, 17, 17);
    ShlTwice(x, 17, 34);
    ShlTwice(x, 17, 51);
    XorLaws(Shl(x, 51), 0, 0);
    Telescope(x, Shl(x, 17), Shl(x, 34), Shl(x, 51));
  }

  lemma UnshiftOn(a: Word)
    ensures Xor(Unshift(a), Shl(Unshift(a), 17)) == a
  {
    hide Xor, Shl;
    var p, q, r := Shl(a, 17), Shl(a, 34), Shl(a, 51);
    ShlXor(Xor(Xor(a, p), q), r, 17);
    ShlXor(Xor(a, p), q, 17);
    ShlXor(a, p, 17);
    ShlTwice(a, 17, 17);
    ShlTwice(a, 34, 17);
    ShlTwice(a, 51, 17);
    XorLaws(Xor(Xor(p, q), r), 0, 0);
    XorLaws(a, p, q);
    XorLaws(a, Xor(p, q), r);
    XorTwice(a, Xor(Xor(p, q), r));
  }

  /** A draw can be taken back: no two states go to the same one, and every state is reached. */
  lemma BackUndoesStep(s: State)
    ensures Back(Step(s)) == s
  {
    hide Xor, Shl, RotateLeft, RotateRight, Unshift;
    var t, y, z := Shl(s.x, 17), Xor(s.y, s.w), Xor(s.z, s.x);
    RotateBack(z, 19);
    XorTwice(s.w, z);
    XorLaws(s.x, y, Xor(y, t));
    XorTwice(t, y);
    UnshiftBack(s.x);
    XorTwice(y, s.x);
    XorTwice(s.y, s.w);
    XorTwice(s.z, s.x);
  }

  lemma StepUndoesBack(s: State)
    ensures Step(Back(s)) == s
  {
    hide Xor, Shl, RotateLeft, RotateRight, Unshift;
    var z, a := RotateLeft(s.z, 19), Xor(s.x, s.y);
    var w, x := Xor(s.w, z), Unshift(a);
    var y := Xor(s.x, x);
    RotateBack(s.z, 19);
    XorTwice(y, w);
    XorTwice(s.x, x);
    XorTwice(z, x);
    XorTwice(s.w, z);
    UnshiftOn(a);
    XorLaws(s.x, x, Shl(x, 17));
    XorTwice(s.y, s.x);
  }

  /** `x` of the state before, from what has been drawn. */
  function Drawn(r: Word): Word {
    Times(RotateRight(Times(r, 0x8E38E38E38E38E39), 7), 0xCCCCCCCCCCCCCCCD)
  }

  lemma OutputTellsX(s: State)
    ensures Drawn(Output(s)) == s.x
  {
    hide RotateLeft, RotateRight, Times;
    TimesBack(RotateLeft(Times(s.x, 5), 7), 9, 0x8E38E38E38E38E39, 9 * 0x8E38E38E38E38E39 / MODULUS);
    RotateBack(Times(s.x, 5), 7);
    TimesBack(s.x, 5, 0xCCCCCCCCCCCCCCCD, 5 * 0xCCCCCCCCCCCCCCCD / MODULUS);
  }

  // ---------- the mixer ----------

  /** `r ^ (r >> shift)` */
  function Fold(r: Word, shift: nat): Word {
    Xor(r, Shr(r, shift))
  }

  function Unfold(r: Word, shift: nat): Word {
    Xor(Xor(r, Shr(r, shift)), Shr(r, 2 * shift))
  }

  /** Folding a word by more than a third of its bits is undone by folding it twice. */
  lemma FoldBack(r: Word, shift: nat)
    requires 3 * shift >= 64
    ensures Unfold(Fold(r, shift), shift) == r && Fold(Unfold(r, shift), shift) == r
  {
    hide Xor, Shr;
    var p, q := Shr(r, shift), Shr(r, 2 * shift);
    ShrXor(r, p, shift);
    ShrXor(r, p, 2 * shift);
    ShrTwice(r, shift, shift);
    ShrTwice(r, shift, 2 * shift);
    XorLaws(q, 0, 0);
    Telescope(r, p, q, 0);
    XorLaws(Xor(Xor(Xor(r, p), Xor(p, q)), Xor(q, 0)), 0, 0);
    ShrXor(Xor(r, p), q, shift);
    ShrTwice(r, 2 * shift, shift);
    XorLaws(Xor(p, q), 0, 0);
    XorLaws(r, p, q);
    XorTwice(r, Xor(p, q));
  }

  function Mix(s: Word): Word {
    Fold(Times(Fold(Times(Fold(s, 30), 0xBF58476D1CE4E5B9), 27), 0x94D049BB133111EB), 31)
  }

  function Unmix(r: Word): Word {
    Unfold(Times(Unfold(Times(Unfold(r, 31), 0x319642B2D24D8EC3), 27), 0x96DE1B173F119089), 30)
  }

  lemma MixInverses()
    ensures 0xBF58476D1CE4E5B9 * 0x96DE1B173F119089 == 0xBF58476D1CE4E5B9 * 0x96DE1B173F119089 / MODULUS * MODULUS + 1
    ensures 0x94D049BB133111EB * 0x319642B2D24D8EC3 == 0x94D049BB133111EB * 0x319642B2D24D8EC3 / MODULUS * MODULUS + 1
  {
  }

  /** The mixer is a bijection. */
  lemma UnmixUndoesMix(s: Word)
    ensures Unmix(Mix(s)) == s
  {
    hide Fold, Unfold, Times;
    MixInverses();
    var a := Fold(s, 30);
    var b := Fold(Times(a, 0xBF58476D1CE4E5B9), 27);
    FoldBack(Times(b, 0x94D049BB133111EB), 31);
    TimesBack(b, 0x94D049BB133111EB, 0x319642B2D24D8EC3, 0x94D049BB133111EB * 0x319642B2D24D8EC3 / MODULUS);
    FoldBack(Times(a, 0xBF58476D1CE4E5B9), 27);
    TimesBack(a, 0xBF58476D1CE4E5B9, 0x96DE1B173F119089, 0xBF58476D1CE4E5B9 * 0x96DE1B173F119089 / MODULUS);
    FoldBack(s, 30);
  }

  lemma MixUndoesUnmix(r: Word)
    ensures Mix(Unmix(r)) == r
  {
    hide Fold, Unfold, Times;
    MixInverses();
    var a := Unfold(r, 31);
    var b := Unfold(Times(a, 0x319642B2D24D8EC3), 27);
    FoldBack(Times(b, 0x96DE1B173F119089), 30);
    TimesBack(b, 0x96DE1B173F119089, 0xBF58476D1CE4E5B9, 0xBF58476D1CE4E5B9 * 0x96DE1B173F119089 / MODULUS);
    FoldBack(Times(a, 0x319642B2D24D8EC3), 27);
    TimesBack(a, 0x319642B2D24D8EC3, 0x94D049BB133111EB, 0x94D049BB133111EB * 0x319642B2D24D8EC3 / MODULUS);
    FoldBack(r, 31);
  }

  // ---------- bit by bit ----------

  /** What a draw makes of each bit of the state. */
  lemma StepBits(s: State, i: nat)
    requires i < 64
    ensures Bit(Step(s).w, i) == (Bit(s.w, i) != (Bit(s.z, i) != Bit(s.x, i)))
    ensures Bit(Step(s).x, i) == (Bit(s.x, i) != (Bit(s.y, i) != Bit(s.w, i)))
    ensures Bit(Step(s).y, i) == ((Bit(s.y, i) != Bit(s.w, i)) != (i >= 17 && Bit(s.x, i - 17)))
    ensures var k := if i + 19 < 64 then i + 19 else i - 45; Bit(Step(s).z, i) == (Bit(s.z, k) != Bit(s.x, k))
  {
    hide Bit, Joined, Shl, RotateRight;
    var t, y, z, k := Shl(s.x, 17), Xor(s.y, s.w), Xor(s.z, s.x), if i + 19 < 64 then i + 19 else i - 45;
    BitJoined(s.y, s.w, true, i);
    BitJoined(s.z, s.x, true, i);
    BitJoined(s.x, y, true, i);
    BitJoined(s.w, z, true, i);
    BitShl(s.x, 17, i);
    BitJoined(y, t, true, i);
    BitRotateRight(z, 19, i);
    BitJoined(s.z, s.x, true, k);
  }

  /** What is drawn: five times `x`, its bits moved round by seven, and that nine times. */
  lemma OutputIs(s: State) returns (r: Word)
    ensures Output(s) == r * 9 % 0x1_0000_0000_0000_0000
    ensures forall i: nat :: i < 64 ==> Bit(r, i) == Bit(s.x * 5 % 0x1_0000_0000_0000_0000, if i >= 7 then i - 7 else i + 57)
  {
    hide Bit, RotateLeft;
    var five := Times(s.x, 5);
    r := RotateLeft(five, 7);
    forall i: nat | i < 64 ensures Bit(r, i) == Bit(five, if i >= 7 then i - 7 else i + 57) {
      BitRotateLeft(five, 7, i);
    }
  }

  /** Each bit of `t` is that of `r`, joined with the one `shift` places above it. */
  ghost predicate IsFolded(r: nat, shift: nat, t: nat) {
    forall i: nat :: i < 64 ==> Bit(t, i) == (Bit(r, i) != (i + shift < 64 && Bit(r, i + shift)))
  }

  lemma FoldIs(r: Word, shift: nat)
    ensures IsFolded(r, shift, Fold(r, shift))
  {
    hide Bit, Joined, Shr;
    forall i: nat | i < 64 ensures Bit(Fold(r, shift), i) == (Bit(r, i) != (i + shift < 64 && Bit(r, i + shift))) {
      BitJoined(r, Shr(r, shift), true, i);
      BitShr(r, shift, i);
      if i + shift >= 64 {
        WordBits(r, i + shift);
      }
    }
  }

  /** The mixer: three folds, and a product before the second and the third. */
  lemma MixIs(s: Word) returns (a: Word, b: Word)
    ensures IsFolded(s, 30, a)
    ensures IsFolded(a * 0xBF58476D1CE4E5B9 % 0x1_0000_0000_0000_0000, 27, b)
    ensures IsFolded(b * 0x94D049BB133111EB % 0x1_0000_0000_0000_0000, 31, Mix(s))
  {
    hide Fold, IsFolded;
    a := Fold(s, 30);
    b := Fold(Times(a, 0xBF58476D1CE4E5B9), 27);
    FoldIs(s, 30);
    FoldIs(Times(a, 0xBF58476D1CE4E5B9), 27);
    FoldIs(Times(b, 0x94D049BB133111EB), 31);
  }

  // ---------- the generator ----------

  /** The word that the seeder has mixed `k + 1` draws after the seed. */
  function Added(seed: Word, k: nat): Word {
    (seed + k * GAMMA) % MODULUS
  }

  /** The state a seed gives. */
  function Seeded(seed: Word): State {
    State(Mix(Added(seed, 1)), Mix(Added(seed, 2)), Mix(Added(seed, 3)), Mix(Added(seed, 4)))
  }

  /** The words of the state are the next four of the sequence that the seed begins, mixed. */
  lemma SeededIs(seed: Word)
    ensures var s := Seeded(seed);
            && s.w == Mix((seed + 0x9E3779B97F4A7C15) % 0x1_0000_0000_0000_0000)
            && s.x == Mix((seed + 2 * 0x9E3779B97F4A7C15) % 0x1_0000_0000_0000_0000)
            && s.y == Mix((seed + 3 * 0x9E3779B97F4A7C15) % 0x1_0000_0000_0000_0000)
            && s.z == Mix((seed + 4 * 0x9E3779B97F4A7C15) % 0x1_0000_0000_0000_0000)
  {
    hide Mix;
  }

  /** The state `n` draws after `s`. */
  function After(s: State, n: nat): State {
    if n == 0 then s else Step(After(s, n - 1))
  }

  class Splitmix {
    var s: Word

    constructor (seed: Word)
      ensures s == seed
    {
      s := seed;
    }

    method Next() returns (result: Word)
      modifies this
      ensures s == Added(old(s), 1) && result == Mix(s)
    {
      s := (s + GAMMA) % MODULUS;
      result := s;
      result := Times(Xor(result, Shr(result, 30)), 0xBF58476D1CE4E5B9);
      result := Times(Xor(result, Shr(result, 27)), 0x94D049BB133111EB);
      result := Xor(result, Shr(result, 31));
    }
  }

  class Generator {
    var w: Word
    var x: Word
    var y: Word
    var z: Word
    var counter: Word

    constructor ()
      ensures Now() == ZERO && counter == 0
    {
      w, x, y, z, counter := 0, 0, 0, 0, 0;
    }

    ghost function Now(): State
      reads this
    {
      State(w, x, y, z)
    }

    /** The next number. */
    method Next() returns (result: Word)
      modifies this
      ensures result == Output(old(Now())) && Now() == Step(old(Now()))
      ensures old(counter) < COUNT_LIMIT ==> counter == (old(counter) + 1) % COUNT_LIMIT
    {
      hide Times, RotateLeft, RotateRight, Shl, Xor;
      result := Times(RotateLeft(Times(x, 5), 7), 9);
      var t := Shl(x, 17);
      y := Xor(y, w);
      z := Xor(z, x);
      x := Xor(x, y);
      w := Xor(w, z);
      y := Xor(y, t);
      z := RotateRight(z, 19);
      counter := (counter + 1) % MODULUS;
      if counter >= COUNT_LIMIT {
        counter := 0;
      }
    }

    method Seed(seed: Word)
      modifies this
      ensures Now() == Seeded(seed) && counter == 0
    {
      hide Mix;
      counter := 0;
      var mixer := new Splitmix(seed);
      AddedAdds(seed, 1);
      AddedAdds(seed, 2);
      AddedAdds(seed, 3);
      w := mixer.Next();
      x := mixer.Next();
      y := mixer.Next();
      z := mixer.Next();
    }
  }

  lemma AddedAdds(seed: Word, k: nat)
    ensures Added(Added(seed, k), 1) == Added(seed, k + 1)
  {
    var n := seed + k * GAMMA;
    assert n == n / MODULUS * MODULUS + n % MODULUS;
    assert n + GAMMA == n / MODULUS * MODULUS + (n % MODULUS + GAMMA);
  }

  // ---------- what holds of every run ----------

  /** The state of all zeros is the only one that a draw leaves as it is. */
  lemma OnlyZeroStays(s: State)
    ensures Step(s) == s <==> s == ZERO
  {
    hide Xor, Shl, Shr;
    ZeroStays();
    if Step(s) == s {
      var y, z := Xor(s.y, s.w), Xor(s.z, s.x);
      XorTwice(y, s.x);
      XorTwice(z, s.w);
      XorLaws(s.x, 0, 0);
      XorLaws(s.w, 0, 0);
      assert y == 0 && z == 0;
      XorLaws(0, 0, 0);
      assert Step(ZERO).z == RotateRight(z, 19);
    }
  }

  lemma ZeroStays()
    ensures Step(ZERO) == ZERO
  {
    hide Xor, Shl, Shr;
    XorLaws(0, 0, 0);
    ShlXor(0, 0, 17);
    ShlXor(0, 0, 45);
    ShrXor(0, 0, 19);
    XorLaws(Shl(0, 17), 0, 0);
    XorLaws(Shl(0, 45), 0, 0);
    XorLaws(Shr(0, 19), 0, 0);
  }

  /** No state but zero goes to zero. */
  lemma StepOfZero(s: State)
    ensures Step(s) == ZERO <==> s == ZERO
  {
    hide Step, Back;
    ZeroStays();
    BackUndoesStep(s);
    BackUndoesStep(ZERO);
  }

  lemma {:induction false} AfterIsInjective(s: State, t: State, n: nat)
    requires After(s, n) == After(t, n)
    ensures s == t
    decreases n
  {
    hide Step;
    if n > 0 {
      BackUndoesStep(After(s, n - 1));
      BackUndoesStep(After(t, n - 1));
      AfterIsInjective(s, t, n - 1);
    }
  }

  lemma {:induction false} NeverZero(s: State, n: nat)
    requires s != ZERO
    ensures After(s, n) != ZERO
  {
    hide Step;
    if n > 0 {
      NeverZero(s, n - 1);
      StepOfZero(After(s, n - 1));
    }
  }

  lemma MixIsInjective(a: Word, b: Word)
    requires Mix(a) == Mix(b)
    ensures a == b
  {
    hide Mix, Unmix;
    UnmixUndoesMix(a);
    UnmixUndoesMix(b);
  }

  lemma AddedIsInjective(a: Word, b: Word, k: nat)
    requires Added(a, k) == Added(b, k)
    ensures a == b
  {
    var m, n := a + k * GAMMA, b + k * GAMMA;
    assert m - n == (m / MODULUS - n / MODULUS) * MODULUS;
  }

  /** Whatever the seed, and however many numbers have been drawn, the state is never all zero. */
  lemma SeededNeverZero(seed: Word, n: nat)
    ensures After(Seeded(seed), n) != ZERO
  {
    hide Mix, Step;
    if Seeded(seed) == ZERO {
      MixIsInjective(Added(seed, 1), Added(seed, 2));
      assert false;
    }
    NeverZero(Seeded(seed), n);
  }

  /** Different seeds give different first numbers, and never meet in a state. */
  lemma SeedsStayApart(a: Word, b: Word, n: nat)
    requires a != b
    ensures Output(Seeded(a)) != Output(Seeded(b))
    ensures After(Seeded(a), n) != After(Seeded(b), n)
  {
    hide Mix, Step, Output, Drawn, Added;
    OutputTellsX(Seeded(a));
    OutputTellsX(Seeded(b));
    if Seeded(a).x == Seeded(b).x {
      MixIsInjective(Added(a, 2), Added(b, 2));
      AddedIsInjective(a, b, 2);
      assert false;
    }
    if After(Seeded(a), n) == After(Seeded(b), n) {
      AfterIsInjective(Seeded(a), Seeded(b), n);
    }
  }
}
