/** What the one-byte XOR checksum of the two storage requests detects. */
module ErrorDetection {
  import opened Bytes
  import opened Message

  lemma ChecksumMeansZeroFold(k: Kind, b: seq<byte>)
    requires HasChecksum(k) && HoldsFrame(k, b) && |b| == FrameSize(k, U32At(b, 4))
    ensures ChecksumOk(k, b) <==> XorFold(b) == 0
  {
    var n := |b| - 1;
    XorLaws(XorFold(b[..n]), b[n], 0);
  }

  /** The error leaves the length of the frame readable: the size field of a WriteMsg is
      intact. (A ReadMsg has a fixed length.) */
  ghost predicate KeepsLength(k: Kind, e: seq<byte>) {
    k == Write ==> |e| >= 8 && e[4] == 0 && e[5] == 0 && e[6] == 0 && e[7] == 0
  }

  /** A frame with the error pattern `e` XORed into it is accepted exactly when the bytes of
      `e` XOR to zero. */
  lemma AcceptedIffErrorFoldsToZero(k: Kind, f: seq<byte>, e: seq<byte>)
    requires HasChecksum(k) && HoldsFrame(k, f) && |f| == FrameSize(k, U32At(f, 4)) && Decode(k, f).Accepted?
    requires |e| == |f| && KeepsLength(k, e)
    ensures HoldsFrame(k, XorBytes(f, e))
    ensures Decode(k, XorBytes(f, e)).Accepted? <==> XorFold(e) == 0
  {
    hide Xor, XorFold;
    var g := XorBytes(f, e);
    if k == Write {
      forall i | 4 <= i < 8
        ensures g[i] == f[i]
      {
        XorLaws(f[i], 0, 0);
      }
      assert g[4..8] == f[4..8];
    }
    ChecksumMeansZeroFold(k, f);
    ChecksumMeansZeroFold(k, g);
    XorFoldOfXor(f, e);
    XorLaws(XorFold(e), 0, 0);
  }

  // ----- bursts -----

  /** Bit `j` of a byte, 0 being the least significant. */
  predicate BitSet(x: nat, j: nat) {
    if j == 0 then x % 2 == 1 else BitSet(x / 2, j - 1)
  }

  /** The place of bit `j` of byte `k` on the line, for either order of transmission. */
  function Position(k: nat, j: nat, msbFirst: bool): int {
    8 * k + if msbFirst then 7 - j else j
  }

  /** Every disturbed bit lies among the 8 consecutive bits from position `p` on. */
  ghost predicate IsBurst(e: seq<byte>, p: nat, msbFirst: bool) {
    forall k, j :: 0 <= k < |e| && 0 <= j < 8 && BitSet(e[k], j) ==> p <= Position(k, j, msbFirst) < p + 8
  }

  lemma {:induction false} NoBitsMeansZero(x: nat, w: nat)
    requires x < Pow2(w) && forall j :: 0 <= j < w ==> !BitSet(x, j)
    ensures x == 0
  {
    if w > 0 {
      assert !BitSet(x, 0);
      forall j | 0 <= j < w - 1
        ensures !BitSet(x / 2, j)
      {
        assert BitSet(x, j + 1) == BitSet(x / 2, j);
      }
      NoBitsMeansZero(x / 2, w - 1);
    }
  }

  /** Two bytes without a common bit XOR to zero only if both are zero. */
  lemma NoCommonBit(x: byte, y: byte)
    requires forall j :: 0 <= j < 8 ==> !(BitSet(x, j) && BitSet(y, j))
    ensures Xor(x, y) == 0 ==> x == 0 && y == 0
  {
    XorLaws(x, y, 0);
    if x == y {
      Pow2Of8();
      NoBitsMeansZero(x, 8);
    }
  }

  lemma QuietByte(e: seq<byte>, p: nat, msbFirst: bool, k: nat)
    requires IsBurst(e, p, msbFirst) && k < |e| && k != p / 8 && k != p / 8 + 1
    ensures e[k] == 0
  {
    forall j | 0 <= j < 8
      ensures !BitSet(e[k], j)
    {
      assert Position(k, j, msbFirst) / 8 == k;
    }
    Pow2Of8();
    NoBitsMeansZero(e[k], 8);
  }

  lemma BurstFoldsToNonzero(e: seq<byte>, p: nat, msbFirst: bool)
    requires IsBurst(e, p, msbFirst) && exists k :: 0 <= k < |e| && e[k] != 0
    ensures XorFold(e) != 0
  {
    var i := p / 8;
    var k :| 0 <= k < |e| && e[k] != 0;
    if k != i && k != i + 1 {
      QuietByte(e, p, msbFirst, k);
    }
    forall q | 0 <= q < |e| && q != i && q != i + 1
      ensures e[q] == 0
    {
      QuietByte(e, p, msbFirst, q);
    }
    if i + 1 < |e| {
      forall j | 0 <= j < 8
        ensures !(BitSet(e[i], j) && BitSet(e[i + 1], j))
      {
        assert Position(i + 1, j, msbFirst) == Position(i, j, msbFirst) + 8;
      }
      NoCommonBit(e[i], e[i + 1]);
      FoldOfTwo(e, i);
    } else {
      FoldOfLast(e);
    }
  }

  lemma FoldOfTwo(e: seq<byte>, i: nat)
    requires i + 1 < |e| && forall q :: 0 <= q < |e| && q != i && q != i + 1 ==> e[q] == 0
    ensures XorFold(e) == Xor(e[i], e[i + 1])
  {
    hide Xor;
    var pair, before, after := [e[i], e[i + 1]], e[..i], e[i + 2..];
    assert e == before + (pair + after);
    forall q | 0 <= q < |after|
      ensures after[q] == 0
    {
      assert after[q] == e[i + 2 + q];
    }
    XorFoldOfZeros(before);
    XorFoldOfZeros(after);
    XorFoldConcat(before, pair + after);
    XorFoldConcat(pair, after);
    FoldOfPair(e[i], e[i + 1]);
    XorLaws(XorFold(pair), 0, 0);
  }

  lemma FoldOfPair(x: byte, y: byte)
    ensures XorFold([x, y]) == Xor(x, y)
  {
    assert [x, y] == [x] + [y];
    XorFoldConcat([x], [y]);
    XorLaws(x, 0, 0);
    XorLaws(y, 0, 0);
  }

  lemma FoldOfLast(e: seq<byte>)
    requires |e| > 0 && forall q :: 0 <= q < |e| - 1 ==> e[q] == 0
    ensures XorFold(e) == e[|e| - 1]
  {
    XorFoldOfZeros(e[..|e| - 1]);
    XorLaws(e[|e| - 1], 0, 0);
  }

  /** Any nonzero burst of at most 8 bits, across a byte boundary or in the checksum itself,
      in a frame of any length, is rejected. */
  lemma BurstIsRejected(k: Kind, f: seq<byte>, e: seq<byte>, p: nat, msbFirst: bool)
    requires HasChecksum(k) && HoldsFrame(k, f) && |f| == FrameSize(k, U32At(f, 4)) && Decode(k, f).Accepted?
    requires |e| == |f| && KeepsLength(k, e)
    requires IsBurst(e, p, msbFirst) && exists q :: 0 <= q < |e| && e[q] != 0
    ensures HoldsFrame(k, XorBytes(f, e)) && Decode(k, XorBytes(f, e)) == ChecksumMismatch
  {
    BurstFoldsToNonzero(e, p, msbFirst);
    AcceptedIffErrorFoldsToZero(k, f, e);
  }
}
