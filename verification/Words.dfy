/** Machine words on natural numbers: byte orders, and the bitwise AND behind the alignment macros. */
module Words {
  import opened Basics

  function Pow2(k: nat): (r: nat)
    ensures r > 0
  {
    if k == 0 then 1 else 2 * Pow2(k - 1)
  }

  /** Bitwise AND, bit by bit from the lowest. */
  function BitAnd(x: nat, y: nat): nat {
    if x == 0 || y == 0 then 0 else (if x % 2 == 1 && y % 2 == 1 then 1 else 0) + 2 * BitAnd(x / 2, y / 2)
  }

  /** All ones in `w` bits but for the `k` lowest: clears the low `k` bits of a `w`-bit word. */
  lemma {:induction false} MaskClears(x: nat, w: nat, k: nat)
    requires k <= w && x < Pow2(w)
    ensures Pow2(k) <= Pow2(w)
    ensures BitAnd(x, Pow2(w) - Pow2(k)) == x - x % Pow2(k)
    decreases w
  {
    if w > 0 {
      var half, n := Pow2(w - 1), if k == 0 then 0 else k - 1;
      assert Pow2(w) == 2 * half && (k > 0 ==> Pow2(k) == 2 * Pow2(n)) && (k == 0 ==> Pow2(k) == Pow2(n) == 1);
      MaskClears(x / 2, w - 1, n);
      hide *;
      var m := half - Pow2(n);
      BitAndHalves(x, Pow2(w) - Pow2(k));
      if k == 0 {
        ModUnique(2 * half - 1, 2, half - 1, 1);
      } else {
        ModUnique(2 * m, 2, m, 0);
        HalfMod(x, Pow2(n));
      }
    }
  }

  lemma BitAndHalves(x: nat, y: nat)
    ensures BitAnd(x, y) == (if x % 2 == 1 && y % 2 == 1 then 1 else 0) + 2 * BitAnd(x / 2, y / 2)
  {}

  lemma HalfMod(x: nat, m: nat)
    requires m > 0
    ensures x % (2 * m) == x % 2 + 2 * ((x / 2) % m)
  {
    var q := (x / 2) / m;
    var r := x % 2 + 2 * ((x / 2) % m);
    assert x / 2 == m * q + (x / 2) % m;
    assert x == (2 * m) * q + r;
    ModUnique(x, 2 * m, q, r);
  }

  lemma ModUnique(x: int, d: int, q: int, r: int)
    requires d > 0 && 0 <= r < d && x == d * q + r
    ensures x % d == r && x / d == q
  {
    var k := q - x / d;
    assert d * k == x % d - r by {
      assert x == d * (x / d) + x % d;
    }
    if k >= 1 {
      MulAtLeast(d, k);
    } else if k <= -1 {
      MulAtLeast(d, -k);
    }
  }

  lemma MulAtLeast(d: int, k: int)
    requires d > 0 && k >= 1
    ensures d * k >= d && d * -k <= -d
  {
    assert d * k == d + d * (k - 1);
  }

  function Le32(b: seq<byte>): (r: nat)
    requires |b| == 4
    ensures r < 0x1_0000_0000
  {
    b[0] as int + 256 * (b[1] as int + 256 * (b[2] as int + 256 * (b[3] as int)))
  }

  function ToLe32(x: nat): (b: seq<byte>)
    requires x < 0x1_0000_0000
    ensures |b| == 4
    ensures Le32(b) == x
  {
    var b3, r0 := x / 0x100_0000, x % 0x100_0000;
    var b2, r1 := r0 / 0x1_0000, r0 % 0x1_0000;
    [r1 % 0x100, r1 / 0x100, b2, b3]
  }

  /** Which byte counts most. */
  lemma ByteOrders()
    ensures Be32([0x12, 0x34, 0x56, 0x78]) == 0x1234_5678 == Le32([0x78, 0x56, 0x34, 0x12])
  {}

  /** ntohl of four bytes in memory. */
  function Be32(b: seq<byte>): (r: nat)
    requires |b| == 4
    ensures r < 0x1_0000_0000
  {
    b[3] as int + 256 * (b[2] as int + 256 * (b[1] as int + 256 * (b[0] as int)))
  }

  function ToBe32(x: nat): (b: seq<byte>)
    requires x < 0x1_0000_0000
    ensures |b| == 4
    ensures Be32(b) == x
  {
    var b0, r0 := x / 0x100_0000, x % 0x100_0000;
    var b1, r1 := r0 / 0x1_0000, r0 % 0x1_0000;
    [b0, b1, r1 / 0x100, r1 % 0x100]
  }

  /** Bitwise OR, bit by bit from the lowest. */
  function BitOr(x: nat, y: nat): nat {
    if x == 0 then y else if y == 0 then x
    else (if x % 2 == 1 || y % 2 == 1 then 1 else 0) + 2 * BitOr(x / 2, y / 2)
  }

  predicate Bit(x: nat, k: nat) {
    if k == 0 then x % 2 == 1 else Bit(x / 2, k - 1)
  }

  /** Bit by bit, the words are combined as their names say. */
  lemma {:induction false} BitsOf(x: nat, y: nat, k: nat)
    ensures Bit(BitOr(x, y), k) <==> Bit(x, k) || Bit(y, k)
    ensures Bit(BitAnd(x, y), k) <==> Bit(x, k) && Bit(y, k)
    decreases k
  {
    NoBits(k);
    if x > 0 && y > 0 {
      var lowOr, lowAnd := if x % 2 == 1 || y % 2 == 1 then 1 else 0, if x % 2 == 1 && y % 2 == 1 then 1 else 0;
      assert BitOr(x, y) == lowOr + 2 * BitOr(x / 2, y / 2) && BitAnd(x, y) == lowAnd + 2 * BitAnd(x / 2, y / 2);
      if k > 0 {
        hide BitOr, BitAnd;
        BitsOf(x / 2, y / 2, k - 1);
      }
    }
  }

  lemma {:induction false} NoBits(k: nat)
    ensures !Bit(0, k)
  {
    if k > 0 {
      NoBits(k - 1);
    }
  }

  /** Bits that do not overlap add up. */
  lemma {:induction false} DisjointOr(x: nat, k: nat, d: nat)
    requires x < Pow2(k)
    ensures BitOr(x, Pow2(k) * d) == x + Pow2(k) * d
  {
    if k > 0 && x > 0 && d > 0 {
      assert Pow2(k) * d == 2 * (Pow2(k - 1) * d);
      DisjointOr(x / 2, k - 1, d);
    }
  }
}
