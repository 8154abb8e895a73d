/** Bytes as the C code sees them (`unsigned char`): integers 0..255, with
    bitwise exclusive-or defined bit by bit. */
module Bytes {

  newtype byte = x: int | 0 <= x < 256

  type Bytes = seq<byte>

  function Pow2(k: nat): (r: nat)
    ensures r >= 1
  {
    if k == 0 then 1 else 2 * Pow2(k - 1)
  }

  /** Exclusive-or of two naturals, lowest bit first. */
  function XorNat(a: nat, b: nat): nat
    decreases a + b
  {
    if a == 0 then b
    else if b == 0 then a
    else 2 * XorNat(a / 2, b / 2) + (if a % 2 == b % 2 then 0 else 1)
  }

  /** Exclusive-or of two `k`-bit values is a `k`-bit value. */
  lemma {:induction false} XorNatBound(a: nat, b: nat, k: nat)
    requires a < Pow2(k) && b < Pow2(k)
    ensures XorNat(a, b) < Pow2(k)
    decreases a + b
  {
    if a != 0 && b != 0 {
      assert k > 0;
      XorNatBound(a / 2, b / 2, k - 1);
    }
  }

  lemma {:induction false} XorNatZero(a: nat, b: nat)
    ensures XorNat(a, b) == 0 <==> a == b
    decreases a + b
  {
    if a != 0 && b != 0 {
      XorNatZero(a / 2, b / 2);
    }
  }

  lemma {:induction false} XorNatCommutes(a: nat, b: nat)
    ensures XorNat(a, b) == XorNat(b, a)
    decreases a + b
  {
    if a != 0 && b != 0 {
      XorNatCommutes(a / 2, b / 2);
    }
  }

  /** Exclusive-or with the same value twice gives back the original. */
  lemma {:induction false} XorNatCancels(a: nat, b: nat)
    ensures XorNat(a, XorNat(a, b)) == b
    decreases a + b
  {
    if a != 0 && b != 0 {
      var y := XorNat(a / 2, b / 2);
      var bit := if a % 2 == b % 2 then 0 else 1;
      var x := XorNat(a, b);
      assert x == 2 * y + bit;
      if x == 0 {
        XorNatZero(a, b);
      } else {
        assert x / 2 == y && x % 2 == bit;
        XorNatCancels(a / 2, b / 2);
        assert XorNat(a, x) == 2 * XorNat(a / 2, y) + (if a % 2 == bit then 0 else 1);
      }
    } else if b == 0 {
      XorNatZero(a, a);
    }
  }

  /** Bytewise `a ^ b`. */
  function XorByte(a: byte, b: byte): (r: byte)
    ensures r as int == XorNat(a as int, b as int)
  {
    XorNatBound(a as int, b as int, 8);
    XorNat(a as int, b as int) as byte
  }

  /** The algebra of byte exclusive-or the chaining modes rely on. */
  lemma XorByteFacts(a: byte, b: byte)
    ensures XorByte(a, b) == XorByte(b, a)
    ensures XorByte(a, XorByte(a, b)) == b
    ensures XorByte(XorByte(a, b), b) == a
    ensures XorByte(a, 0) == a
    ensures XorByte(a, b) == a <==> b == 0
  {
    XorNatCommutes(a as int, b as int);
    XorNatCancels(a as int, b as int);
    XorNatCancels(b as int, a as int);
    XorNatCommutes(XorNat(a as int, b as int), b as int);
    if XorByte(a, b) == a {
      XorNatZero(a as int, a as int);
    }
  }

  /** Blockwise exclusive-or of two equally long byte strings. */
  function Xor(a: Bytes, b: Bytes): (r: Bytes)
    requires |a| == |b|
    ensures |r| == |a|
    ensures forall i :: 0 <= i < |a| ==> r[i] == XorByte(a[i], b[i])
  {
    seq(|a|, i requires 0 <= i < |a| => XorByte(a[i], b[i]))
  }

  function Zeros(n: nat): (r: Bytes)
    ensures |r| == n
    ensures forall i :: 0 <= i < n ==> r[i] == 0
  {
    seq(n, i => 0)
  }

  /** XOR with the same block twice cancels, and XOR with zeros changes nothing. */
  lemma XorCancels(a: Bytes, b: Bytes)
    requires |a| == |b|
    ensures Xor(Xor(a, b), b) == a
    ensures Xor(a, Zeros(|a|)) == a
  {
    forall i | 0 <= i < |a|
      ensures Xor(Xor(a, b), b)[i] == a[i] && Xor(a, Zeros(|a|))[i] == a[i]
    {
      XorByteFacts(a[i], b[i]);
      XorByteFacts(a[i], 0);
    }
  }
}
