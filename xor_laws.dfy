/*
 * `operator.xor` on 64-bit hash values, with the two laws that make the
 * `reduce` in `Warehouse.__hash__` independent of the order of the boxes.
 */
module XorLaws {
  import opened Folds

  /** `operator.xor` on hash values. */
  function Xor(a: bv64, b: bv64): bv64
  {
    a ^ b
  }

  lemma XorCommutes()
    ensures Commutes(Xor)
  {
    forall a: bv64, b: bv64 ensures Xor(a, b) == Xor(b, a) {
      assert a ^ b == b ^ a;
    }
  }

  lemma XorAssociates()
    ensures Associates(Xor)
  {
    forall a: bv64, b: bv64, c: bv64 ensures Xor(Xor(a, b), c) == Xor(a, Xor(b, c)) {
      XorRegroup(a, b, c);
    }
  }

  /*
   * The bit-level steps are taken one lemma at a time on the raw `^` terms:
   * unfolding `Xor` on compound arguments makes the solver bit-blast the
   * whole chain.
   */
  lemma XorRegroup(a: bv64, b: bv64, c: bv64)
    ensures Xor(Xor(a, b), c) == Xor(a, Xor(b, c))
  {
    XorLeft(a, b, c);
    XorRight(a, b, c);
    BitsRegroup(a, b, c);
  }

  lemma XorLeft(a: bv64, b: bv64, c: bv64)
    ensures Xor(Xor(a, b), c) == (a ^ b) ^ c
  {
    XorUnfold(a, b);
    XorUnfold(a ^ b, c);
  }

  lemma XorRight(a: bv64, b: bv64, c: bv64)
    ensures Xor(a, Xor(b, c)) == a ^ (b ^ c)
  {
    XorUnfold(b, c);
    XorUnfold(a, b ^ c);
  }

  lemma XorUnfold(a: bv64, b: bv64)
    ensures Xor(a, b) == a ^ b
  {
  }

  lemma BitsRegroup(a: bv64, b: bv64, c: bv64)
    ensures (a ^ b) ^ c == a ^ (b ^ c)
  {
  }
}
