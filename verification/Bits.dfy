/** Bitwise operations of 32-bit words, defined bit by bit on the naturals, and
    what they compute on contiguous masks. */
module Bits {
  import opened Words

  function And(x: nat, y: nat): (r: nat)
    ensures r <= x && r <= y
  {
    if x == 0 || y == 0 then 0
    else 2 * And(x / 2, y / 2) + (if x % 2 == 1 && y % 2 == 1 then 1 else 0)
  }

  function Or(x: nat, y: nat): (r: nat)
    ensures x <= r && y <= r
    decreases x + y
  {
    if x == 0 then y else if y == 0 then x
    else 2 * Or(x / 2, y / 2) + (if x % 2 == 1 || y % 2 == 1 then 1 else 0)
  }

  /** `~x` on 32 bits. */
  function Not(x: u32): u32 { TWO32 - 1 - x }

  function Pow2(k: nat): (r: nat)
    ensures r >= 1
  {
    if k == 0 then 1 else 2 * Pow2(k - 1)
  }

  /** The lowest and the highest address of the subnet, as the code computes them. */
  function Network(ip: u32, mask: u32): u32 { And(ip, mask) }

  function Broadcast(ip: u32, mask: u32): u32 {
    Pow2At32(); OrBelow(32, Network(ip, mask), Not(mask));
    Or(Network(ip, mask), Not(mask))
  }

  lemma AndStep(x: nat, y: nat)
    ensures And(x, y) == 2 * And(x / 2, y / 2) + (if x % 2 == 1 && y % 2 == 1 then 1 else 0)
  {}

  lemma OrStep(x: nat, y: nat)
    ensures Or(x, y) == 2 * Or(x / 2, y / 2) + (if x % 2 == 1 || y % 2 == 1 then 1 else 0)
  {}

  lemma Pow2At32()
    ensures Pow2(8) == 256 && Pow2(32) == TWO32
  {
    assert Pow2(4) == 16;
    assert Pow2(8) == 256;
    assert Pow2(12) == 0x1000;
    assert Pow2(16) == 0x1_0000;
    assert Pow2(20) == 0x10_0000;
    assert Pow2(24) == 0x100_0000;
    assert Pow2(28) == 0x1000_0000;
  }

  lemma {:induction false} Pow2Mono(j: nat, k: nat)
    requires j <= k
    ensures Pow2(j) <= Pow2(k)
    ensures j < k ==> 2 * Pow2(j) <= Pow2(k)
    decreases k
  {
    if j < k { Pow2Mono(j, k - 1); }
  }

  lemma {:induction false} OrBelow(w: nat, x: nat, y: nat)
    requires x < Pow2(w) && y < Pow2(w)
    ensures Or(x, y) < Pow2(w)
  {
    if w > 0 {
      OrStep(x, y);
      OrBelow(w - 1, x / 2, y / 2);
    }
  }

  /** A run of ones down from the top of `w` bits: the word 2^w - 2^k. */
  predicate IsPrefixMask(w: nat, x: nat) { exists k: nat :: k < w && x == Pow2(w) - Pow2(k) }

  /** A word and its predecessor cover all `w` bits exactly when the word is a
      run of ones down from the top bit. */
  lemma {:induction false} OrPred(w: nat, x: nat)
    requires 0 < x < Pow2(w)
    ensures Or(x - 1, x) == Pow2(w) - 1 <==> IsPrefixMask(w, x)
  {
    OrStep(x - 1, x);
    if x % 2 == 1 {
      OrPredOdd(w, x);
    } else {
      assert (x - 1) / 2 == x / 2 - 1;
      OrPred(w - 1, x / 2);
      PrefixMaskHalf(w, x);
    }
  }

  lemma OrPredOdd(w: nat, x: nat)
    requires 0 < x < Pow2(w) && x % 2 == 1
    ensures Or(x - 1, x) == x
    ensures x == Pow2(w) - 1 <==> IsPrefixMask(w, x)
  {
    assert (x - 1) / 2 == x / 2;
    OrStep(x - 1, x);
    OrSelf(x / 2);
    if x == Pow2(w) - 1 { assert x == Pow2(w) - Pow2(0); }
    if k: nat :| k < w && x == Pow2(w) - Pow2(k) { assert k == 0; }
  }

  lemma PrefixMaskHalf(w: nat, x: nat)
    requires 0 < x < Pow2(w) && x % 2 == 0
    ensures w > 0 && (IsPrefixMask(w, x) <==> IsPrefixMask(w - 1, x / 2))
  {
    var y := x / 2;
    if k: nat :| k < w - 1 && y == Pow2(w - 1) - Pow2(k) {
      assert x == Pow2(w) - Pow2(k + 1);
    }
    if k: nat :| k < w && x == Pow2(w) - Pow2(k) {
      assert k > 0;
      assert y == Pow2(w - 1) - Pow2(k - 1);
    }
  }

  lemma {:induction false} OrSelf(x: nat)
    ensures Or(x, x) == x
  {
    if x > 0 { OrSelf(x / 2); }
  }

  lemma {:induction false} AndOnes(j: nat, c: nat)
    requires c < Pow2(j)
    ensures And(c, Pow2(j) - 1) == c
  {
    if j > 0 {
      AndStep(c, Pow2(j) - 1);
      AndOnes(j - 1, c / 2);
    }
  }

  lemma AndEven(x: nat, m: nat)
    ensures And(x, 2 * m) == 2 * And(x / 2, m)
  {
    hide And;
    AndStep(x, 2 * m);
    Halves(m);
  }

  lemma Halves(m: nat)
    ensures 2 * m / 2 == m && 2 * m % 2 == 0 && (2 * m + 1) / 2 == m && (2 * m + 1) % 2 == 1
  {}

  lemma OrOdd(n: nat, m: nat)
    ensures Or(2 * n, 2 * m + 1) == 2 * Or(n, m) + 1
  {
    hide Or;
    OrStep(2 * n, 2 * m + 1);
    Halves(n);
    Halves(m);
  }

  function PrefixMask(w: nat, k: nat): nat
    requires k <= w
  {
    Pow2Mono(k, w);
    Pow2(w) - Pow2(k)
  }

  lemma PrefixMaskDouble(w: nat, k: nat)
    requires 0 < k <= w
    ensures PrefixMask(w, k) == 2 * PrefixMask(w - 1, k - 1) && Pow2(k) == 2 * Pow2(k - 1) && Pow2(w) == 2 * Pow2(w - 1)
  {}

  lemma PrefixMaskZero(w: nat)
    ensures PrefixMask(w, 0) == Pow2(w) - 1 && Pow2(0) == 1
  {}

  /** AND with a prefix mask rounds down to a multiple of 2^k: the result is
      within 2^k of `x`, and its whole block lies below 2^w. */
  lemma {:induction false} AndMask(w: nat, k: nat, x: nat)
    requires k <= w && x < Pow2(w)
    ensures var n := And(x, PrefixMask(w, k)); n <= x < n + Pow2(k) <= Pow2(w)
  {
    hide And, Pow2, PrefixMask;
    if k == 0 {
      PrefixMaskZero(w);
      AndOnes(w, x);
    } else {
      PrefixMaskDouble(w, k);
      AndEven(x, PrefixMask(w - 1, k - 1));
      AndMask(w - 1, k - 1, x / 2);
    }
  }

  /** Two addresses have the same network part exactly when one lies in the other's block. */
  lemma {:induction false} SameBlock(w: nat, k: nat, x: nat, y: nat)
    requires k <= w && x < Pow2(w) && y < Pow2(w)
    ensures var n := And(x, PrefixMask(w, k)); And(y, PrefixMask(w, k)) == n <==> n <= y < n + Pow2(k)
  {
    hide And, Pow2, PrefixMask;
    if k == 0 {
      PrefixMaskZero(w);
      AndOnes(w, x);
      AndOnes(w, y);
    } else {
      PrefixMaskDouble(w, k);
      var m := PrefixMask(w - 1, k - 1);
      AndEven(x, m);
      AndEven(y, m);
      SameBlock(w - 1, k - 1, x / 2, y / 2);
      var n := And(x / 2, m);
      assert n <= y / 2 < n + Pow2(k - 1) <==> 2 * n <= y < 2 * n + 2 * Pow2(k - 1);
    }
  }

  /** OR-ing the cleared bits back in adds them. */
  lemma {:induction false} OrMask(w: nat, k: nat, x: nat)
    requires k <= w && x < Pow2(w)
    ensures var n := And(x, PrefixMask(w, k)); Or(n, Pow2(k) - 1) == n + Pow2(k) - 1
  {
    hide And, Or, Pow2, PrefixMask;
    if k == 0 {
      PrefixMaskZero(w);
      OrZero(And(x, PrefixMask(w, 0)));
    } else {
      OrMaskStep(w, k, x);
      OrMask(w - 1, k - 1, x / 2);
    }
  }

  lemma OrZero(n: nat)
    ensures Or(n, 0) == n
  {}

  lemma OrMaskStep(w: nat, k: nat, x: nat)
    requires 0 < k <= w && x < Pow2(w)
    ensures Pow2(k) == 2 * Pow2(k - 1) && Pow2(w) == 2 * Pow2(w - 1)
    ensures var n := And(x, PrefixMask(w, k));
            var n' := And(x / 2, PrefixMask(w - 1, k - 1));
            n == 2 * n' && Or(n, Pow2(k) - 1) == 2 * Or(n', Pow2(k - 1) - 1) + 1
  {
    hide And, Or, Pow2, PrefixMask;
    PrefixMaskDouble(w, k);
    AndEven(x, PrefixMask(w - 1, k - 1));
    OrOdd(And(x / 2, PrefixMask(w - 1, k - 1)), Pow2(k - 1) - 1);
  }

  lemma And2(x: nat, y: nat, c: nat, d: nat)
    requires c < 2 && d < 2
    ensures And(2 * x + c, 2 * y + d) == 2 * And(x, y) + And(c, d)
  {
    AndStep(2 * x + c, 2 * y + d);
    AndStep(c, d);
  }

  lemma And4(x: nat, y: nat, c: nat, d: nat)
    requires c < 4 && d < 4
    ensures And(4 * x + c, 4 * y + d) == 4 * And(x, y) + And(c, d)
  {
    hide And;
    And2(2 * x + c / 2, 2 * y + d / 2, c % 2, d % 2);
    And2(x, y, c / 2, d / 2);
    And2(c / 2, d / 2, c % 2, d % 2);
    assert 2 * (2 * x + c / 2) + c % 2 == 4 * x + c && 2 * (2 * y + d / 2) + d % 2 == 4 * y + d;
  }

  lemma And16(x: nat, y: nat, c: nat, d: nat)
    requires c < 16 && d < 16
    ensures And(16 * x + c, 16 * y + d) == 16 * And(x, y) + And(c, d)
  {
    hide And;
    And4(4 * x + c / 4, 4 * y + d / 4, c % 4, d % 4);
    And4(x, y, c / 4, d / 4);
    And4(c / 4, d / 4, c % 4, d % 4);
    assert 4 * (4 * x + c / 4) + c % 4 == 16 * x + c && 4 * (4 * y + d / 4) + d % 4 == 16 * y + d;
  }

  lemma And256(x: nat, y: nat, c: nat, d: nat)
    requires c < 256 && d < 256
    ensures And(256 * x + c, 256 * y + d) == 256 * And(x, y) + And(c, d)
  {
    hide And;
    And16(16 * x + c / 16, 16 * y + d / 16, c % 16, d % 16);
    And16(x, y, c / 16, d / 16);
    And16(c / 16, d / 16, c % 16, d % 16);
    assert 16 * (16 * x + c / 16) + c % 16 == 256 * x + c && 16 * (16 * y + d / 16) + d % 16 == 256 * y + d;
  }

  /** The AND of two words is made of the ANDs of their octets. */
  lemma AndOctets(a: byte, b: byte, c: byte, d: byte, a': byte, b': byte, c': byte, d': byte)
    ensures And(Quad(a, b, c, d), Quad(a', b', c', d')) == Quad(And(a, a'), And(b, b'), And(c, c'), And(d, d'))
  {
    hide And, Quad;
    var x, x' := 256 * a + b, 256 * a' + b';
    var z, z' := 256 * x + c, 256 * x' + c';
    QuadIs(a, b, c, d, x, z);
    QuadIs(a', b', c', d', x', z');
    And256(a, a', b, b');
    And256(x, x', c, c');
    And256(z, z', d, d');
    QuadIs(And(a, a'), And(b, b'), And(c, c'), And(d, d'), And(x, x'), And(z, z'));
  }

  lemma QuadIs(a: byte, b: byte, c: byte, d: byte, x: nat, z: nat)
    requires x == 256 * a + b && z == 256 * x + c
    ensures Quad(a, b, c, d) == 256 * z + d
  {}

  /** Byte-swapping commutes with AND. */
  lemma AndRaw(x: u32, y: u32)
    ensures And(Raw(x), Raw(y)) == Raw(And(x, y))
  {
    hide And;
    QuadOctets(x);
    QuadOctets(y);
    var a, b, c, d := Octet1(x), Octet2(x), Octet3(x), Octet4(x);
    var a', b', c', d' := Octet1(y), Octet2(y), Octet3(y), Octet4(y);
    AndOctets(a, b, c, d, a', b', c', d');
    AndOctets(d, c, b, a, d', c', b', a');
    OctetsQuad(And(a, a'), And(b, b'), And(c, c'), And(d, d'));
  }
}
