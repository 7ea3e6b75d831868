/** Byte strings: little-endian integers, in-place overwriting, and the XOR fold. */
module Bytes {
  type byte = b: int | 0 <= b < 256

  /** The `w` low-order bytes of `n`, least significant first: how the x86 store
      `*(u_intN_t*)buffer = n` lays an integer out. */
  function LE(n: nat, w: nat): (r: seq<byte>)
    ensures |r| == w
  {
    if w == 0 then [] else [n % 256] + LE(n / 256, w - 1)
  }

  function FromLE(b: seq<byte>): nat {
    if b == [] then 0 else b[0] + 256 * FromLE(b[1..])
  }

  function Pow256(w: nat): nat {
    if w == 0 then 1 else 256 * Pow256(w - 1)
  }

  lemma {:induction false} LERoundTrip(n: nat, w: nat)
    requires n < Pow256(w)
    ensures FromLE(LE(n, w)) == n
  {
    if w > 0 {
      LERoundTrip(n / 256, w - 1);
      assert LE(n, w)[1..] == LE(n / 256, w - 1);
    }
  }

  lemma {:induction false} FromLERoundTrip(b: seq<byte>)
    ensures FromLE(b) < Pow256(|b|)
    ensures LE(FromLE(b), |b|) == b
  {
    if b != [] {
      FromLERoundTrip(b[1..]);
      assert FromLE(b) % 256 == b[0] && FromLE(b) / 256 == FromLE(b[1..]);
    }
  }

  /** Least significant byte first, as x86 lays an integer out. */
  lemma FourBytesInOrder(a: byte, b: byte, c: byte, d: byte)
    ensures FromLE([a, b, c, d]) == a + 0x100 * b + 0x1_0000 * c + 0x100_0000 * d
  {
    assert [a, b, c, d][1..] == [b, c, d] && [b, c, d][1..] == [c, d] && [c, d][1..] == [d] && [d][1..] == [];
    assert FromLE([c, d]) == c + 0x100 * FromLE([d]);
  }

  lemma Widths()
    ensures Pow256(1) == 0x100 && Pow256(4) == 0x1_0000_0000 && Pow256(8) == 0x1_0000_0000_0000_0000
  {
  }

  /** `store` with the bytes from position `at` on overwritten by `data`. */
  function Splice(store: seq<byte>, at: nat, data: seq<byte>): (r: seq<byte>)
    requires at + |data| <= |store|
    ensures |r| == |store|
    ensures forall p :: 0 <= p < |r| ==> r[p] == if at <= p < at + |data| then data[p - at] else store[p]
  {
    store[..at] + data + store[at + |data|..]
  }

  // ----- exclusive or -----

  function Pow2(w: nat): nat {
    if w == 0 then 1 else 2 * Pow2(w - 1)
  }

  /** Exclusive or of the `w` low-order bits, bit by bit. */
  function XorBits(a: nat, b: nat, w: nat): (r: nat)
    ensures r < Pow2(w)
  {
    if w == 0 then 0 else (a + b) % 2 + 2 * XorBits(a / 2, b / 2, w - 1)
  }

  lemma {:induction false} XorBitsCommutes(a: nat, b: nat, w: nat)
    ensures XorBits(a, b, w) == XorBits(b, a, w)
  {
    if w > 0 {
      XorBitsCommutes(a / 2, b / 2, w - 1);
    }
  }

  lemma ParityAssociates(a: nat, b: nat, c: nat, ab: nat, bc: nat)
    requires ab % 2 == (a + b) % 2 && bc % 2 == (b + c) % 2
    ensures (ab + c) % 2 == (a + bc) % 2
  {
    var k, l := (a + b) / 2 - ab / 2, (b + c) / 2 - bc / 2;
    assert a + b == ab + 2 * k && b + c == bc + 2 * l;
    assert ab + c == a + bc + 2 * (l - k);
  }

  lemma LowBitAndRest(a: nat, b: nat, w: nat)
    requires w > 0
    ensures XorBits(a, b, w) % 2 == (a + b) % 2 && XorBits(a, b, w) / 2 == XorBits(a / 2, b / 2, w - 1)
  {
  }

  lemma SameHalves(x: nat, y: nat)
    requires x % 2 == y % 2 && x / 2 == y / 2
    ensures x == y
  {
  }

  lemma {:induction false} XorBitsAssociates(a: nat, b: nat, c: nat, w: nat)
    ensures XorBits(XorBits(a, b, w), c, w) == XorBits(a, XorBits(b, c, w), w)
  {
    if w > 0 {
      XorBitsAssociates(a / 2, b / 2, c / 2, w - 1);
      hide XorBits;
      var ab, bc := XorBits(a, b, w), XorBits(b, c, w);
      LowBitAndRest(a, b, w);
      LowBitAndRest(b, c, w);
      LowBitAndRest(ab, c, w);
      LowBitAndRest(a, bc, w);
      ParityAssociates(a, b, c, ab, bc);
      SameHalves(XorBits(ab, c, w), XorBits(a, bc, w));
    }
  }

  lemma {:induction false} XorBitsZero(a: nat, w: nat)
    requires a < Pow2(w)
    ensures XorBits(a, 0, w) == a
  {
    if w > 0 {
      XorBitsZero(a / 2, w - 1);
    }
  }

  lemma {:induction false} XorBitsVanishes(a: nat, b: nat, w: nat)
    requires a < Pow2(w) && b < Pow2(w)
    ensures XorBits(a, b, w) == 0 <==> a == b
  {
    if w > 0 {
      XorBitsVanishes(a / 2, b / 2, w - 1);
      assert (a + b) % 2 == 0 <==> a % 2 == b % 2;
    }
  }

  function Xor(a: byte, b: byte): byte {
    assert Pow2(8) == 256 by { Pow2Of8(); }
    XorBits(a, b, 8)
  }

  lemma Pow2Of8()
    ensures Pow2(8) == 256
  {
  }

  lemma XorLaws(a: byte, b: byte, c: byte)
    ensures Xor(a, b) == Xor(b, a)
    ensures Xor(Xor(a, b), c) == Xor(a, Xor(b, c))
    ensures Xor(a, 0) == a && Xor(0, a) == a
    ensures Xor(a, b) == 0 <==> a == b
  {
    Pow2Of8();
    XorBitsCommutes(a, b, 8);
    XorBitsCommutes(0, a, 8);
    XorBitsAssociates(a, b, c, 8);
    XorBitsZero(a, 8);
    XorBitsVanishes(a, b, 8);
  }

  /** The XOR of all bytes. */
  function XorFold(b: seq<byte>): byte {
    if b == [] then 0 else Xor(XorFold(b[..|b| - 1]), b[|b| - 1])
  }

  lemma {:induction false} XorFoldConcat(a: seq<byte>, b: seq<byte>)
    ensures XorFold(a + b) == Xor(XorFold(a), XorFold(b))
  {
    if b == [] {
      assert a + b == a;
      XorLaws(XorFold(a), 0, 0);
    } else {
      var n := |b| - 1;
      XorFoldConcat(a, b[..n]);
      assert (a + b)[..|a + b| - 1] == a + b[..n];
      XorLaws(XorFold(a), XorFold(b[..n]), b[n]);
    }
  }

  /** Bytewise XOR: what an error pattern `e` turns the string `b` into. */
  function XorBytes(b: seq<byte>, e: seq<byte>): (r: seq<byte>)
    requires |b| == |e|
    ensures |r| == |b|
    ensures forall k :: 0 <= k < |r| ==> r[k] == Xor(b[k], e[k])
  {
    seq(|b|, k requires 0 <= k < |b| => Xor(b[k], e[k]))
  }

  lemma XorSwap(a: byte, b: byte, c: byte, d: byte)
    ensures Xor(Xor(a, b), Xor(c, d)) == Xor(Xor(a, c), Xor(b, d))
  {
    XorLaws(a, b, Xor(c, d));
    XorLaws(b, c, d);
    XorLaws(c, b, d);
    XorLaws(a, c, Xor(b, d));
  }

  lemma {:induction false} XorFoldOfXor(b: seq<byte>, e: seq<byte>)
    requires |b| == |e|
    ensures XorFold(XorBytes(b, e)) == Xor(XorFold(b), XorFold(e))
  {
    if b == [] {
      XorLaws(0, 0, 0);
    } else {
      var n := |b| - 1;
      XorFoldOfXor(b[..n], e[..n]);
      assert XorBytes(b, e)[..n] == XorBytes(b[..n], e[..n]);
      XorSwap(XorFold(b[..n]), XorFold(e[..n]), b[n], e[n]);
    }
  }

  lemma {:induction false} XorFoldOfZeros(b: seq<byte>)
    requires forall k :: 0 <= k < |b| ==> b[k] == 0
    ensures XorFold(b) == 0
  {
    if b != [] {
      XorFoldOfZeros(b[..|b| - 1]);
      XorLaws(0, 0, 0);
    }
  }
}
