/** `toPower2` (comprtest.go:83-95): round an unsigned machine word up to the
    next power of two by decrementing, smearing the highest set bit into every
    lower position, and incrementing again. Go's `uint` is 32 or 64 bits wide
    depending on the platform; the model fixes it at 64 bits, its width on
    64-bit platforms, so the word is a `bv64` and every step wraps. */
module Power2 {

  /** Exactly one bit of `x` is set. */
  predicate IsPow2(x: bv64) {
    x != 0 && x & (x - 1) == 0
  }

  /** The largest input the five smearing steps handle: 2^32. */
  const WideLimit: bv64 := 0x1_0000_0000

  /** The function as written: smearing stops at a shift of 16. */
  function ToPower2(num: bv64): (r: bv64)
    ensures num == 0 ==> r == 0
  {
    var n0 := num - 1;
    var n1 := n0 | (n0 >> 1);
    var n2 := n1 | (n1 >> 2);
    var n3 := n2 | (n2 >> 4);
    var n4 := n3 | (n3 >> 8);
    var n5 := n4 | (n4 >> 16);
    n5 + 1
  }

  /** On 1..2^32 the result is a power of two at least `num` and below `2 * num`. */
  lemma ToPower2RoundsUp(num: bv64)
    requires 1 <= num <= WideLimit
    ensures IsPow2(ToPower2(num))
    ensures num <= ToPower2(num)
    ensures ToPower2(num) >> 1 < num
  {
  }

  /** ... and so it is the least power of two that is at least `num`. */
  lemma ToPower2IsLeast(num: bv64, p: bv64)
    requires 1 <= num <= WideLimit
    requires IsPow2(p) && num <= p
    ensures ToPower2(num) <= p
  {
  }

  /** A power of two is returned unchanged, whatever its width. */
  lemma ToPower2KeepsPowers(p: bv64)
    requires IsPow2(p)
    ensures ToPower2(p) == p
  {
  }

  /** Rounding twice is rounding once, on the range the function handles. */
  lemma ToPower2Idempotent(num: bv64)
    requires num <= WideLimit
    ensures ToPower2(ToPower2(num)) == ToPower2(num)
  {
  }

  /** Above 2^32 the missing 32-bit smearing step shows: 2^32 + 1 becomes
      2^33 - 1, which is not a power of two. */
  lemma ToPower2MissesWideInputs()
    ensures ToPower2(WideLimit + 1) == 0x1_FFFF_FFFF
    ensures !IsPow2(ToPower2(WideLimit + 1))
  {
  }

  /** The evidently intended 64-bit version: one more smearing step, by 32. */
  function ToPower2Wide(num: bv64): (r: bv64)
    ensures num == 0 ==> r == 0
  {
    var n0 := num - 1;
    var n1 := n0 | (n0 >> 1);
    var n2 := n1 | (n1 >> 2);
    var n3 := n2 | (n2 >> 4);
    var n4 := n3 | (n3 >> 8);
    var n5 := n4 | (n4 >> 16);
    var n6 := n5 | (n5 >> 32);
    n6 + 1
  }

  // The range above 2^32 is checked in slices of eight bit positions, each
  // small enough for the solver's bit-level reasoning.
  lemma WideRoundsUpTo40(num: bv64)
    requires WideLimit < num <= 0x100_0000_0000
    ensures IsPow2(ToPower2Wide(num)) && num <= ToPower2Wide(num) && ToPower2Wide(num) >> 1 < num
  {
  }

  lemma WideRoundsUpTo48(num: bv64)
    requires 0x100_0000_0000 < num <= 0x1_0000_0000_0000
    ensures IsPow2(ToPower2Wide(num)) && num <= ToPower2Wide(num) && ToPower2Wide(num) >> 1 < num
  {
  }

  lemma WideRoundsUpTo56(num: bv64)
    requires 0x1_0000_0000_0000 < num <= 0x100_0000_0000_0000
    ensures IsPow2(ToPower2Wide(num)) && num <= ToPower2Wide(num) && ToPower2Wide(num) >> 1 < num
  {
  }

  lemma WideRoundsUpTo63(num: bv64)
    requires 0x100_0000_0000_0000 < num <= 0x8000_0000_0000_0000
    ensures IsPow2(ToPower2Wide(num)) && num <= ToPower2Wide(num) && ToPower2Wide(num) >> 1 < num
  {
  }

  /** For every input from 1 up to 2^63 the wide version rounds up correctly. */
  lemma ToPower2WideRoundsUp(num: bv64)
    requires 1 <= num <= 0x8000_0000_0000_0000
    ensures IsPow2(ToPower2Wide(num))
    ensures num <= ToPower2Wide(num)
    ensures ToPower2Wide(num) >> 1 < num
  {
    if num <= WideLimit {
      ToPower2WideAgrees(num);
      ToPower2RoundsUp(num);
    } else {
      if num <= 0x100_0000_0000 {
        WideRoundsUpTo40(num);
      } else if num <= 0x1_0000_0000_0000 {
        WideRoundsUpTo48(num);
      } else if num <= 0x100_0000_0000_0000 {
        WideRoundsUpTo56(num);
      } else {
        WideRoundsUpTo63(num);
      }
    }
  }

  /** Where the written function is right, the wide version agrees with it. */
  lemma ToPower2WideAgrees(num: bv64)
    requires num <= WideLimit
    ensures ToPower2Wide(num) == ToPower2(num)
  {
  }
}
