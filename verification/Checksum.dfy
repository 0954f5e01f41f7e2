/** Bitwise exclusive or on bytes, and the XOR checksum of a byte string. */
module Checksum {
  import opened Prelude

  function Differ(x: nat, y: nat): nat {
    if x == y then 0 else 1
  }

  function XorNat(a: nat, b: nat): nat
    decreases a + b
  {
    if a == 0 && b == 0 then 0 else Differ(a % 2, b % 2) + 2 * XorNat(a / 2, b / 2)
  }

  lemma BitAndRest(bit: nat, rest: nat)
    requires bit < 2
    ensures (bit + 2 * rest) % 2 == bit && (bit + 2 * rest) / 2 == rest
  {
  }

  lemma Unfold(a: nat, b: nat)
    ensures XorNat(a, b) == Differ(a % 2, b % 2) + 2 * XorNat(a / 2, b / 2)
  {
    if a == 0 && b == 0 {
      assert 0 / 2 == 0 && 0 % 2 == 0;
    }
  }

  lemma BitIsSmall(x: nat, y: nat)
    ensures Differ(x, y) < 2
  {
  }

  lemma Halves(a: nat, b: nat)
    ensures XorNat(a, b) % 2 == Differ(a % 2, b % 2) && XorNat(a, b) / 2 == XorNat(a / 2, b / 2)
  {
    hide *;
    Unfold(a, b);
    BitIsSmall(a % 2, b % 2);
    BitAndRest(Differ(a % 2, b % 2), XorNat(a / 2, b / 2));
  }

  function Pow2(n: nat): nat {
    if n == 0 then 1 else 2 * Pow2(n - 1)
  }

  lemma {:induction false} XorBound(a: nat, b: nat, bits: nat)
    requires a < Pow2(bits) && b < Pow2(bits)
    ensures XorNat(a, b) < Pow2(bits)
    decreases bits
  {
    if bits > 0 {
      XorBound(a / 2, b / 2, bits - 1);
    }
  }

  function Xor(a: byte, b: byte): byte {
    assert Pow2(8) == 256 by {
      assert Pow2(4) == 16 && Pow2(6) == 64;
    }
    XorBound(a, b, 8);
    XorNat(a, b)
  }

  lemma {:induction false} Commutes(a: nat, b: nat)
    ensures XorNat(a, b) == XorNat(b, a)
    decreases a + b
  {
    if a + b > 0 {
      Commutes(a / 2, b / 2);
    }
  }

  lemma SameHalves(x: nat, y: nat)
    requires x % 2 == y % 2 && x / 2 == y / 2
    ensures x == y
  {
  }

  lemma {:induction false} Associates(a: nat, b: nat, c: nat)
    ensures XorNat(XorNat(a, b), c) == XorNat(a, XorNat(b, c))
    decreases a + b + c
  {
    if a + b + c > 0 {
      Associates(a / 2, b / 2, c / 2);
      Halves(a, b);
      Halves(b, c);
      SameHalves(XorNat(XorNat(a, b), c), XorNat(a, XorNat(b, c))) by {
        Halves(XorNat(a, b), c);
        Halves(a, XorNat(b, c));
        hide XorNat;
        assert a % 2 < 2 && b % 2 < 2 && c % 2 < 2;
      }
    }
  }

  lemma {:induction false} Neutral(a: nat)
    ensures XorNat(a, 0) == a && XorNat(0, a) == a
  {
    if a > 0 {
      Neutral(a / 2);
    }
  }

  lemma {:induction false} SelfInverse(a: nat)
    ensures XorNat(a, a) == 0
  {
    if a > 0 {
      SelfInverse(a / 2);
    }
  }

  lemma Cancels(a: nat, b: nat, c: nat)
    ensures XorNat(a, b) == XorNat(a, c) ==> b == c
    ensures XorNat(b, a) == XorNat(c, a) ==> b == c
  {
    Associates(a, a, b);
    Associates(a, a, c);
    SelfInverse(a);
    Neutral(b);
    Neutral(c);
    Commutes(a, b);
    Commutes(a, c);
  }

  /** The checksum: every byte folded into 0. */
  function XorSum(s: Bytes): byte {
    if s == [] then 0 else Xor(XorSum(s[..|s| - 1]), s[|s| - 1])
  }

  lemma {:induction false} XorSumAppend(a: Bytes, b: Bytes)
    ensures XorSum(a + b) == Xor(XorSum(a), XorSum(b))
  {
    if b == [] {
      Unit(a);
      Neutral(XorSum(a));
    } else {
      var init, last := b[..|b| - 1], b[|b| - 1];
      XorSumAppend(a, init);
      assert (a + b)[..|a + b| - 1] == a + init;
      Associates(XorSum(a), XorSum(init), last);
    }
  }

  /** Bit `k` of a number. */
  function Bit(x: nat, k: nat): nat {
    if k == 0 then x % 2 else Bit(x / 2, k - 1)
  }

  /** Bit by bit. */
  lemma {:induction false} XorBits(a: nat, b: nat, k: nat)
    ensures Bit(XorNat(a, b), k) == (Bit(a, k) + Bit(b, k)) % 2
  {
    Halves(a, b);
    if k > 0 {
      XorBits(a / 2, b / 2, k - 1);
    }
  }

  lemma {:induction false} NoBits(k: nat)
    ensures Bit(0, k) == 0
  {
    if k > 0 {
      NoBits(k - 1);
    }
  }

  /** How many bytes have bit `k` set. */
  function Ones(s: Bytes, k: nat): nat {
    if s == [] then 0 else Ones(s[..|s| - 1], k) + Bit(s[|s| - 1], k)
  }

  /** Every bit of the checksum is the parity of that bit over all bytes. */
  lemma {:induction false} SumIsParity(s: Bytes, k: nat)
    ensures Bit(XorSum(s), k) == Ones(s, k) % 2
  {
    if s == [] {
      NoBits(k);
    } else {
      SumIsParity(s[..|s| - 1], k);
      XorBits(XorSum(s[..|s| - 1]), s[|s| - 1], k);
    }
  }

  /** Changing one byte always changes the checksum. */
  lemma {:induction false} OneChangeShows(s: Bytes, i: nat, v: byte)
    requires i < |s| && v != s[i]
    ensures XorSum(s[i := v]) != XorSum(s)
  {
    var init, last := s[..|s| - 1], s[|s| - 1];
    if i == |s| - 1 {
      assert s[i := v][..|s| - 1] == init;
      Cancels(XorSum(init), v, last);
    } else {
      assert s[i := v][..|s| - 1] == init[i := v];
      OneChangeShows(init, i, v);
      Cancels(last, XorSum(init[i := v]), XorSum(init));
    }
  }
}
