/**
 What the logical functions of SHA-256 do to bits (FIPS 180-4 sections 3.2 and 4.1.2).
 */
module Sha256Bits {
  import opened Sha256Spec

  /** A place in a word; places are counted modulo 32. */
  type Place = bv5

  /** The bit of a word at a place, counted from its right end. */
  predicate Bit(w: Word, i: Place) { (w >> i) & 1 == 1 }

  /** `Ch` chooses: where x has a one, it shows y, and elsewhere z. */
  lemma Chooses(x: Word, y: Word, z: Word)
    ensures Ch(x, y, z) & x == y & x && Ch(x, y, z) & !x == z & !x
  {
  }

  /** `Maj` is the majority: where x has a one, a one of y or z decides, and elsewhere it takes both. */
  lemma MajorityRules(x: Word, y: Word, z: Word)
    ensures Maj(x, y, z) & x == (y | z) & x && Maj(x, y, z) & !x == (y & z) & !x
  {
    hide Xor;
    OnOnes(x, y, z);
    OnZeros(x, y, z);
    XorIs(x & y, x & z);
    XorIs((x & y) ^ (x & z), y & z);
  }

  lemma XorIs(x: Word, y: Word)
    ensures Xor(x, y) == x ^ y
  {
  }

  lemma OnOnes(x: Word, y: Word, z: Word)
    ensures (((x & y) ^ (x & z)) ^ (y & z)) & x == (y | z) & x
  {
  }

  lemma OnZeros(x: Word, y: Word, z: Word)
    ensures (((x & y) ^ (x & z)) ^ (y & z)) & !x == (y & z) & !x
  {
  }

  // A rotation by n moves the bit at place i + n to place i.

  lemma RotatesBy2(x: Word, i: Place)
    ensures Bit(Rotr2(x), i) == Bit(x, i + 2)
  {
  }

  lemma RotatesBy6(x: Word, i: Place)
    ensures Bit(Rotr6(x), i) == Bit(x, i + 6)
  {
  }

  lemma RotatesBy7(x: Word, i: Place)
    ensures Bit(Rotr7(x), i) == Bit(x, i + 7)
  {
  }

  lemma RotatesBy11(x: Word, i: Place)
    ensures Bit(Rotr11(x), i) == Bit(x, i + 11)
  {
  }

  lemma RotatesBy13(x: Word, i: Place)
    ensures Bit(Rotr13(x), i) == Bit(x, i + 13)
  {
  }

  lemma RotatesBy17(x: Word, i: Place)
    ensures Bit(Rotr17(x), i) == Bit(x, i + 17)
  {
  }

  lemma RotatesBy18(x: Word, i: Place)
    ensures Bit(Rotr18(x), i) == Bit(x, i + 18)
  {
  }

  lemma RotatesBy19(x: Word, i: Place)
    ensures Bit(Rotr19(x), i) == Bit(x, i + 19)
  {
  }

  lemma RotatesBy22(x: Word, i: Place)
    ensures Bit(Rotr22(x), i) == Bit(x, i + 22)
  {
  }

  lemma RotatesBy25(x: Word, i: Place)
    ensures Bit(Rotr25(x), i) == Bit(x, i + 25)
  {
  }

  /** Main result: every rotation, at every place. */
  lemma Rotates(x: Word)
    ensures forall i: Place ::
              && Bit(Rotr2(x), i) == Bit(x, i + 2) && Bit(Rotr6(x), i) == Bit(x, i + 6)
              && Bit(Rotr7(x), i) == Bit(x, i + 7) && Bit(Rotr11(x), i) == Bit(x, i + 11)
              && Bit(Rotr13(x), i) == Bit(x, i + 13) && Bit(Rotr17(x), i) == Bit(x, i + 17)
              && Bit(Rotr18(x), i) == Bit(x, i + 18) && Bit(Rotr19(x), i) == Bit(x, i + 19)
              && Bit(Rotr22(x), i) == Bit(x, i + 22) && Bit(Rotr25(x), i) == Bit(x, i + 25)
  {
    hide Bit, Rotr2, Rotr6, Rotr7, Rotr11, Rotr13, Rotr17, Rotr18, Rotr19, Rotr22, Rotr25;
    forall i: Place
      ensures Bit(Rotr2(x), i) == Bit(x, i + 2) && Bit(Rotr6(x), i) == Bit(x, i + 6)
      ensures Bit(Rotr7(x), i) == Bit(x, i + 7) && Bit(Rotr11(x), i) == Bit(x, i + 11)
      ensures Bit(Rotr13(x), i) == Bit(x, i + 13) && Bit(Rotr17(x), i) == Bit(x, i + 17)
      ensures Bit(Rotr18(x), i) == Bit(x, i + 18) && Bit(Rotr19(x), i) == Bit(x, i + 19)
      ensures Bit(Rotr22(x), i) == Bit(x, i + 22) && Bit(Rotr25(x), i) == Bit(x, i + 25)
    {
      RotatesBy2(x, i);
      RotatesBy6(x, i);
      RotatesBy7(x, i);
      RotatesBy11(x, i);
      RotatesBy13(x, i);
      RotatesBy17(x, i);
      RotatesBy18(x, i);
      RotatesBy19(x, i);
      RotatesBy22(x, i);
      RotatesBy25(x, i);
    }
  }
}
