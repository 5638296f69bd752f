/** Sums of bytes, and rolling8_csum of lib/math/math.c. */
module Checksums {
  import opened Basics

  function Sum(s: seq<byte>): nat {
    if s == [] then 0 else Sum(s[..|s| - 1]) + s[|s| - 1]
  }

  lemma {:induction false} SumConcat(s: seq<byte>, t: seq<byte>)
    ensures Sum(s + t) == Sum(s) + Sum(t)
  {
    if t == [] {
      assert s + t == s;
    } else {
      assert (s + t)[..|s + t| - 1] == s + t[..|t| - 1];
      SumConcat(s, t[..|t| - 1]);
    }
  }

  lemma SumSnoc(s: seq<byte>, x: byte)
    ensures Sum(s + [x]) == Sum(s) + x
  {
    assert (s + [x])[..|s|] == s;
  }

  lemma SumUpTo(s: seq<byte>, i: nat)
    requires i < |s|
    ensures Sum(s[..i + 1]) == Sum(s[..i]) + s[i]
  {
    assert s[..i + 1] == s[..i] + [s[i]];
    SumSnoc(s[..i], s[i]);
  }

  /** Changing one byte changes the sum by as much. */
  lemma SumUpdate(s: seq<byte>, i: nat, x: byte)
    requires i < |s|
    ensures Sum(s[i := x]) == Sum(s) - s[i] + x
  {
    var a, b := s[..i], s[i + 1..];
    assert s == (a + [s[i]]) + b && s[i := x] == (a + [x]) + b;
    SumConcat(a + [s[i]], b);
    SumConcat(a + [x], b);
    SumSnoc(a, s[i]);
    SumSnoc(a, x);
  }

  /** Two different bytes are different modulo 256. */
  lemma OneByteShows(sum: int, x: byte, y: byte)
    requires x != y
    ensures (sum - x + y) % 256 != sum % 256
  {}

  /** uint8_t arithmetic wraps at 256. */
  method Rolling8Csum(buf: array<byte>, len: nat) returns (sum: byte)
    requires len <= buf.Length
    ensures sum == Sum(buf[..len]) % 256
  {
    sum := 0;
    for i := 0 to len
      invariant sum == Sum(buf[..i]) % 256
    {
      SumUpTo(buf[..], i);
      assert buf[..i + 1] == buf[..][..i + 1] && buf[..i] == buf[..][..i];
      sum := (sum + buf[i]) % 256;
    }
  }
}
