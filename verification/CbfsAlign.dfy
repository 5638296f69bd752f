/** The alignment macros of lib/cbfs/cbfs_core.c. */
module CbfsAlign {
  import opened Words

  const WORD_BITS: nat := 64   // of unsigned long long

  /** CBFS_ALIGN in words of `w` bits, where `~(unit - 1)` is 2^w - unit. */
  function AlignIn(w: nat, val: nat, unit: nat): nat
    requires unit > 0
  {
    BitAnd(val + unit - 1, if unit <= Pow2(w) then Pow2(w) - unit else 0)
  }

  /** CBFS_ALIGN */
  function Align(val: nat, unit: nat): nat
    requires unit > 0
  {
    AlignIn(WORD_BITS, val, unit)
  }

  /** CBFS_ALIGN_UP */
  function AlignUp(val: nat, unit: nat): nat
    requires unit > 0
  {
    Align(val + 1, unit)
  }

  ghost predicate LeastMultiple(r: int, unit: nat, val: int)
    requires unit > 0
  {
    && r >= val && r % unit == 0
    && forall m :: m >= val && m % unit == 0 ==> r <= m
  }

  predicate PowerOfTwo(x: nat) {
    x == 1 || (x > 1 && x % 2 == 0 && PowerOfTwo(x / 2))
  }

  lemma {:induction false} Exponent(x: nat, w: nat) returns (k: nat)
    requires PowerOfTwo(x) && x <= Pow2(w)
    ensures x == Pow2(k) && k <= w
  {
    if x == 1 {
      k := 0;
    } else {
      k := Exponent(x / 2, w - 1);
      k := k + 1;
    }
  }

  /** For a power of two, as long as the sum fits the word, the mask yields the least multiple that is
      not below the value. */
  lemma MaskIsLeast(val: nat, unit: nat, w: nat)
    requires PowerOfTwo(unit) && val + unit <= Pow2(w)
    ensures LeastMultiple(AlignIn(w, val, unit), unit, val)
    ensures AlignIn(w, val, unit) < val + unit
  {
    var k := Exponent(unit, w);
    hide *;
    MaskRoundsDown(val, unit, k, w);
    LeastByRemainder(val, unit);
  }

  lemma MaskRoundsDown(val: nat, unit: nat, k: nat, w: nat)
    requires k <= w && unit == Pow2(k) && val + unit <= Pow2(w)
    ensures var x := val + unit - 1; AlignIn(w, val, unit) == x - x % unit
  {
    hide BitAnd, Pow2;
    MaskClears(val + unit - 1, w, k);
  }

  lemma {:induction false} Pow2Sum(a: nat, b: nat)
    ensures Pow2(a + b) == Pow2(a) * Pow2(b)
  {
    if a > 0 {
      Pow2Sum(a - 1, b);
    }
  }

  lemma Square(a: nat, x: nat)
    requires Pow2(a) == x
    ensures Pow2(a + a) == x * x
  {
    hide Pow2;
    Pow2Sum(a, a);
  }

  lemma WordSize()
    ensures Pow2(WORD_BITS) == 0x1_0000_0000_0000_0000
  {
    assert Pow2(4) == 16;
    hide Pow2;
    Square(4, 16);
    Square(8, 0x100);
    Square(16, 0x1_0000);
    Square(32, 0x1_0000_0000);
  }

  /** Offsets and alignments of an image are nowhere near the limits of the word. */
  lemma AlignIsLeast(val: nat, unit: nat)
    requires PowerOfTwo(unit) && unit <= 0x1_0000_0000 && val <= 0x10_0000_0000
    ensures LeastMultiple(Align(val, unit), unit, val)
    ensures Align(val, unit) < val + unit
  {
    WordSize();
    MaskIsLeast(val, unit, WORD_BITS);
  }

  /** CBFS_ALIGN_UP is strictly above its argument, and leaves no multiple out. */
  lemma AlignUpIsNext(val: nat, unit: nat)
    requires PowerOfTwo(unit) && unit <= 0x1_0000_0000 && val < 0x10_0000_0000
    ensures val < AlignUp(val, unit) <= val + unit && AlignUp(val, unit) % unit == 0
    ensures forall m :: m > val && m % unit == 0 ==> AlignUp(val, unit) <= m
  {
    AlignIsLeast(val + 1, unit);
    assert forall m :: m > val && m % unit == 0 ==> m >= val + 1;
  }

  lemma LeastByRemainder(val: nat, unit: nat)
    requires unit > 0
    ensures var x := val + unit - 1; LeastMultiple(x - x % unit, unit, val) && x - x % unit < val + unit
  {
    var x := val + unit - 1;
    var r := x - x % unit;
    RoundedDown(x, unit);
    assert val <= r < val + unit;
    forall m | m >= val && m % unit == 0 ensures r <= m {
      MultiplesApart(r, m, unit);
    }
  }

  lemma RoundedDown(x: int, unit: nat)
    requires unit > 0
    ensures (x - x % unit) % unit == 0
  {
    ModUnique(x - x % unit, unit, x / unit, 0);
  }

  lemma MultiplesApart(r: int, m: int, unit: nat)
    requires unit > 0 && r % unit == 0 && m % unit == 0 && r < m + unit
    ensures r <= m
  {
    var d := r / unit - m / unit;
    assert r - m == unit * d;
    if d >= 1 {
      MulAtLeast(unit, d);
    }
  }

  /** Nothing of a word survives its own complement. */
  lemma {:induction false} Complement(x: nat, w: nat)
    requires x < Pow2(w)
    ensures BitAnd(x, Pow2(w) - 1 - x) == 0
  {
    if w > 0 {
      Complement(x / 2, w - 1);
      assert (Pow2(w) - 1 - x) / 2 == Pow2(w - 1) - 1 - x / 2;
    }
  }

  /** A number and its negation share just the lowest bit that is set. */
  lemma {:induction false} LowestBit(x: nat, w: nat)
    requires 0 < x < Pow2(w)
    ensures 0 < BitAnd(x, Pow2(w) - x) <= x
    ensures BitAnd(x, Pow2(w) - x) == x <==> PowerOfTwo(x)
  {
    var m := Pow2(w) - x;
    BitAndHalves(x, m);
    hide BitAnd;
    if x % 2 == 1 {
      assert m / 2 == Pow2(w - 1) - 1 - x / 2 && m % 2 == 1;
      Complement(x / 2, w - 1);
    } else {
      assert m / 2 == Pow2(w - 1) - x / 2 && m % 2 == 0;
      LowestBit(x / 2, w - 1);
    }
  }

  /** The macro, in words of `w` bits, rounds up properly for every value. */
  ghost predicate AlignsAll(unit: nat, w: nat)
    requires 0 < unit <= Pow2(w)
  {
    forall val: nat :: val + unit <= Pow2(w) ==> LeastMultiple(AlignIn(w, val, unit), unit, val)
  }

  /** "by must be power-of-two": exactly then does the macro round up properly for every value. */
  lemma AlignIffPowerOfTwo(unit: nat, w: nat)
    requires 0 < unit < Pow2(w)
    ensures AlignsAll(unit, w) <==> PowerOfTwo(unit)
  {
    if PowerOfTwo(unit) {
      forall val: nat | val + unit <= Pow2(w)
        ensures LeastMultiple(AlignIn(w, val, unit), unit, val)
      {
        MaskIsLeast(val, unit, w);
      }
    } else {
      LowestBit(unit, w);
      var r := AlignIn(w, 1, unit);
      ModUnique(r, unit, 0, r);
      assert !LeastMultiple(r, unit, 1);
    }
  }
}
