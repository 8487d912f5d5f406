/** The walking-ones register test, `testReg64` and `testReg32`. A word is the set of its one bits. */
module RegisterTest {

  type Word = set<nat>

  predicate IsWord(w: Word, width: nat) {
    forall b :: b in w ==> b < width
  }

  function Xor(a: Word, b: Word): Word {
    (a - b) + (b - a)
  }

  /** `w << 1` in a word of the given width. */
  function ShiftLeft(w: Word, width: nat): Word {
    set b | b in w && b + 1 < width :: b + 1
  }

  /** The register and the bus reproduce the unmasked bits of `w`. */
  predicate Agrees(f: Word -> Word, w: Word, mask: Word) {
    f(w) * mask == w * mask
  }

  /** Reading back is xor-linear up to a constant: any wiring of bits to bits, with stuck and inverted bits allowed. */
  ghost predicate Affine(f: Word -> Word, width: nat) {
    forall a: Word, b: Word :: IsWord(a, width) && IsWord(b, width) ==>
      IsWord(f(a), width) && f(Xor(a, b)) == Xor(Xor(f(a), f(b)), f({}))
  }

  ghost predicate ProbesAgree(f: Word -> Word, width: nat, mask: Word) {
    forall i: nat :: i < width ==> Agrees(f, {i}, mask)
  }

  class Register {
    const width: nat
    const readBack: Word -> Word
    var word: Word

    constructor (width: nat, readBack: Word -> Word, word: Word)
      ensures this.width == width && this.readBack == readBack && this.word == word
    {
      this.width, this.readBack, this.word := width, readBack, word;
    }

    method Write(w: Word)
      modifies this
      ensures word == w
    {
      word := w;
    }

    method Read() returns (w: Word)
      ensures w == readBack(word)
    {
      w := readBack(word);
    }
  }

  lemma ShiftProbe(i: nat, width: nat)
    requires i < width
    ensures ShiftLeft({i}, width) == if i + 1 < width then {i + 1} else {}
  {
    if i + 1 < width {
      assert i in {i};
    }
  }

  /** Writes every single bit and compares what reads back, then restores what was read before. */
  method TestReg(reg: Register, mask: Word) returns (success: bool)
    requires reg.width > 0
    modifies reg
    ensures success <==> ProbesAgree(reg.readBack, reg.width, mask)
    ensures success <==> forall i: nat :: i < reg.width ==> reg.readBack({i}) * mask == {i} * mask
    ensures reg.word == reg.readBack(old(reg.word))
  {
    var save := reg.Read();
    success := true;
    var write: Word := {0};
    ghost var k := 0;
    while write != {}
      invariant k <= reg.width
      invariant write == if k < reg.width then {k} else {}
      invariant success <==> forall i: nat :: i < k ==> Agrees(reg.readBack, {i}, mask)
      decreases reg.width - k
    {
      reg.Write(write);
      var read := reg.Read();
      if read * mask != write * mask {
        success := false;
      }
      ShiftProbe(k, reg.width);
      write := ShiftLeft(write, reg.width);
      k := k + 1;
    }
    reg.Write(save);
  }

  lemma {:induction false} AgreesEverywhere(f: Word -> Word, width: nat, mask: Word, w: Word)
    requires Affine(f, width) && ProbesAgree(f, width, mask)
    requires f({}) * mask == {} && IsWord(w, width)
    ensures Agrees(f, w, mask)
    decreases w
  {
    if w != {} {
      var b :| b in w;
      var rest := w - {b};
      AgreesEverywhere(f, width, mask, rest);
      assert Agrees(f, {b}, mask);
      assert Xor(rest, {b}) == w;
      assert f(w) == Xor(Xor(f(rest), f({b})), f({}));
      XorMasked(f(rest), f({b}), f({}), mask);
      XorMasked(rest, {b}, {}, mask);
      assert Xor(w, {}) == w;
    }
  }

  lemma XorMasked(a: Word, b: Word, c: Word, mask: Word)
    ensures Xor(Xor(a, b), c) * mask == Xor(Xor(a * mask, b * mask), c * mask)
  {
  }

  /**
   One probe a bit stands for all words: a register passes the test and reads back zero for zero, under the mask,
   exactly when every word of its width reads back as written.
   */
  lemma WalkingOnes(f: Word -> Word, width: nat, mask: Word)
    requires Affine(f, width)
    ensures ProbesAgree(f, width, mask) && f({}) * mask == {} <==>
            forall w: Word :: IsWord(w, width) ==> f(w) * mask == w * mask
  {
    if ProbesAgree(f, width, mask) && f({}) * mask == {} {
      forall w: Word | IsWord(w, width) ensures Agrees(f, w, mask) {
        AgreesEverywhere(f, width, mask, w);
      }
    }
    if forall w: Word :: IsWord(w, width) ==> f(w) * mask == w * mask {
      assert f({}) * mask == {} * mask;
      forall i: nat | i < width ensures Agrees(f, {i}, mask) {
        assert IsWord({i}, width) && f({i}) * mask == {i} * mask;
      }
    }
  }

  /** When the read-back is linear, passing the test is exactly reproducing every word. */
  lemma LinearRegister(f: Word -> Word, width: nat, mask: Word)
    requires Affine(f, width) && f({}) == {}
    ensures ProbesAgree(f, width, mask) <==> forall w: Word :: IsWord(w, width) ==> Agrees(f, w, mask)
  {
    WalkingOnes(f, width, mask);
  }

  /** After a test that passes, the register reads as it did before, under the mask. */
  lemma ContentsRestored(f: Word -> Word, width: nat, mask: Word, before: Word)
    requires Affine(f, width) && f({}) == {} && ProbesAgree(f, width, mask) && IsWord(before, width)
    ensures f(f(before)) * mask == f(before) * mask
  {
    assert Xor(before, {}) == before;
    AgreesEverywhere(f, width, mask, f(before));
  }

  // ---------------------------------------------------------------- an affine register that the test passes

  lemma XorSize(a: Word, b: Word)
    ensures |Xor(a, b)| == |a| + |b| - 2 * |a * b|
  {
    assert a == (a - b) + a * b && b == (b - a) + a * b;
    assert |a| == |a - b| + |a * b| && |b| == |b - a| + |a * b|;
  }

  /** Bit zero comes back inverted whenever the word written has an even number of ones. */
  function InvertsWhenEven(w: Word): Word {
    if |w| % 2 == 0 then Xor(w, {0}) else w
  }

  lemma XorParity(a: Word, b: Word)
    ensures |Xor(a, b)| % 2 == 0 <==> |a| % 2 == |b| % 2
  {
    XorSize(a, b);
  }

  lemma XorCancels(a: Word, b: Word, z: Word)
    ensures Xor(Xor(Xor(a, z), Xor(b, z)), z) == Xor(Xor(a, b), z)
    ensures Xor(Xor(Xor(a, z), b), z) == Xor(a, b) == Xor(Xor(a, Xor(b, z)), z)
  {
  }

  /** `c` is what the register makes of the xor of two words that it makes into `fa` and `fb`. */
  lemma XorOfResults(a: Word, b: Word, z: Word, fa: Word, fb: Word, c: Word, evenA: bool, evenB: bool)
    requires fa == (if evenA then Xor(a, z) else a) && fb == (if evenB then Xor(b, z) else b)
    requires c == if evenA == evenB then Xor(Xor(a, b), z) else Xor(a, b)
    ensures c == Xor(Xor(fa, fb), z)
  {
    XorCancels(a, b, z);
  }

  lemma InvertsAffinely(a: Word, b: Word)
    ensures InvertsWhenEven(Xor(a, b)) == Xor(Xor(InvertsWhenEven(a), InvertsWhenEven(b)), {0})
  {
    XorParity(a, b);
    XorOfResults(a, b, {0}, InvertsWhenEven(a), InvertsWhenEven(b), InvertsWhenEven(Xor(a, b)),
                 |a| % 2 == 0, |b| % 2 == 0);
  }

  lemma InvertsToWord(a: Word, width: nat)
    requires IsWord(a, width) && width > 0
    ensures IsWord(InvertsWhenEven(a), width)
  {
  }

  /** Every single bit reads back, so the test passes; zero does not. */
  lemma AffineRegisterPasses(width: nat)
    requires width > 0
    ensures Affine(InvertsWhenEven, width) && ProbesAgree(InvertsWhenEven, width, {0})
    ensures !Agrees(InvertsWhenEven, {}, {0})
  {
    assert InvertsWhenEven({}) == {0};
    forall a: Word, b: Word | IsWord(a, width) && IsWord(b, width)
      ensures IsWord(InvertsWhenEven(a), width)
      ensures InvertsWhenEven(Xor(a, b)) == Xor(Xor(InvertsWhenEven(a), InvertsWhenEven(b)), InvertsWhenEven({}))
    {
      InvertsToWord(a, width);
      InvertsAffinely(a, b);
    }
    forall i: nat | i < width ensures Agrees(InvertsWhenEven, {i}, {0}) {
      assert |{i}| == 1;
    }
    assert 0 in InvertsWhenEven({}) * {0};
  }
}
