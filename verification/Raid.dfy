/** The striped and mirrored address map of src/raid01.cpp.

    The first half is stated for any number of minions and any stripe size; the
    second half fixes the three minions and the 4 MB stripe of include/raid01.hpp. */
module Raid {
  /** A byte of a minion's store. */
  datatype Loc = Loc(minion: nat, at: nat)

  function PrimaryOf(stripe: nat, o: nat): Loc
    requires stripe > 0
  {
    Loc(o / stripe, o % stripe)
  }

  function BackupOf(minions: nat, stripe: nat, o: nat): Loc
    requires minions > 0 && stripe > 0
  {
    Loc((o / stripe + 1) % minions, o % stripe + stripe)
  }

  /** The logical byte a physical byte holds a copy of. */
  function LogicalOf(minions: nat, stripe: nat, l: Loc): nat
    requires minions > 0 && stripe > 0
  {
    if l.at < stripe then l.minion * stripe + l.at
    else ((l.minion + minions - 1) % minions) * stripe + (l.at - stripe)
  }

  ghost predicate IsPhysical(minions: nat, stripe: nat, l: Loc) {
    l.minion < minions && l.at < 2 * stripe
  }

  lemma SmallerQuotient(d: nat, q: nat, r: nat, k: nat, i: nat)
    requires q < k && r < d
    ensures q * d + r < k * d + i
  {
    var n := k - q - 1;
    assert k == q + n + 1;
    assert k * d == q * d + n * d + d;
  }

  lemma QuotientIsUnique(d: nat, q: nat, r: nat, k: nat, i: nat)
    requires r < d && i < d && q * d + r == k * d + i
    ensures q == k && r == i
  {
    if q < k {
      SmallerQuotient(d, q, r, k, i);
    } else if k < q {
      SmallerQuotient(d, k, i, q, r);
    }
  }

  lemma DivModIsUnique(stripe: nat, k: nat, i: nat)
    requires stripe > 0 && i < stripe
    ensures (k * stripe + i) / stripe == k && (k * stripe + i) % stripe == i
  {
    var o := k * stripe + i;
    assert o == (o / stripe) * stripe + o % stripe;
    QuotientIsUnique(stripe, o / stripe, o % stripe, k, i);
  }

  lemma SmallMod(x: nat, m: nat)
    requires x < 2 * m
    ensures x % m == if x < m then x else x - m
  {
  }

  lemma StripeBound(minions: nat, stripe: nat, o: nat)
    requires stripe > 0
    ensures o == (o / stripe) * stripe + o % stripe
    ensures o < minions * stripe <==> o / stripe < minions
  {
    var q, r := o / stripe, o % stripe;
    assert o == q * stripe + r;
    if q < minions {
      SmallerQuotient(stripe, q, r, minions, 0);
    } else if minions < q {
      SmallerQuotient(stripe, minions, 0, q, r);
    }
  }

  lemma RotateBack(minions: nat, k: nat)
    requires k < minions
    ensures (k + 1) % minions == if k + 1 == minions then 0 else k + 1
    ensures ((k + 1) % minions + minions - 1) % minions == k
    ensures ((k + minions - 1) % minions + 1) % minions == k
    ensures (k + minions - 1) % minions < minions
  {
    SmallMod(k + 1, minions);
    SmallMod((k + 1) % minions + minions - 1, minions);
    SmallMod(k + minions - 1, minions);
    SmallMod((k + minions - 1) % minions + 1, minions);
  }

  /** Both copies of a logical byte are physical bytes that lead back to it, so each of
      the two maps is injective, and they never share a physical byte. */
  lemma CopiesLeadBack(minions: nat, stripe: nat, o: nat)
    requires stripe > 0 && o < minions * stripe
    ensures IsPhysical(minions, stripe, PrimaryOf(stripe, o)) && PrimaryOf(stripe, o).at < stripe
    ensures IsPhysical(minions, stripe, BackupOf(minions, stripe, o)) && BackupOf(minions, stripe, o).at >= stripe
    ensures LogicalOf(minions, stripe, PrimaryOf(stripe, o)) == o
    ensures LogicalOf(minions, stripe, BackupOf(minions, stripe, o)) == o
  {
    StripeBound(minions, stripe, o);
    RotateBack(minions, o / stripe);
  }

  /** Every physical byte of the cluster is the primary copy or the backup copy of
      exactly one logical byte, and never both. */
  lemma EveryPhysicalByteOnce(minions: nat, stripe: nat, l: Loc)
    requires stripe > 0 && IsPhysical(minions, stripe, l)
    ensures LogicalOf(minions, stripe, l) < minions * stripe
    ensures forall o :: 0 <= o < minions * stripe ==>
              (l == PrimaryOf(stripe, o) || l == BackupOf(minions, stripe, o) <==> o == LogicalOf(minions, stripe, l))
    ensures forall o, o' :: 0 <= o < minions * stripe && 0 <= o' < minions * stripe ==>
              !(l == PrimaryOf(stripe, o) && l == BackupOf(minions, stripe, o'))
  {
    var k := if l.at < stripe then l.minion else (l.minion + minions - 1) % minions;
    var i := if l.at < stripe then l.at else l.at - stripe;
    RotateBack(minions, l.minion);
    DivModIsUnique(stripe, k, i);
    StripeBound(minions, stripe, k * stripe + i);
    assert l.at < stripe ==> l == PrimaryOf(stripe, k * stripe + i);
    assert l.at >= stripe ==> l == BackupOf(minions, stripe, k * stripe + i);
    forall o | 0 <= o < minions * stripe
      ensures l == PrimaryOf(stripe, o) || l == BackupOf(minions, stripe, o) ==> o == LogicalOf(minions, stripe, l)
      ensures l == PrimaryOf(stripe, o) ==> l.at < stripe
      ensures l == BackupOf(minions, stripe, o) ==> l.at >= stripe
    {
      CopiesLeadBack(minions, stripe, o);
    }
  }

  /** Mirroring needs two minions, and two are enough. */
  lemma CopiesOnDifferentMinions(minions: nat, stripe: nat, o: nat)
    requires stripe > 0 && o < minions * stripe
    ensures PrimaryOf(stripe, o).minion != BackupOf(minions, stripe, o).minion <==> minions >= 2
  {
  }

  /** The map looks at the first byte of a request only. Sending the whole request to
      where its first byte lives puts every byte in its place exactly when the request
      does not leave its stripe. */
  lemma ContiguousIffInsideStripe(minions: nat, stripe: nat, off: nat, size: nat)
    requires minions > 0 && stripe > 0
    ensures off % stripe + size <= stripe <==> forall j :: 0 <= j < size ==> StaysTogether(minions, stripe, off, j)
  {
    var k, i := off / stripe, off % stripe;
    assert off == k * stripe + i;
    if i + size <= stripe {
      forall j | 0 <= j < size
        ensures StaysTogether(minions, stripe, off, j)
      {
        DivModIsUnique(stripe, k, i + j);
      }
    } else {
      assert !StaysTogether(minions, stripe, off, stripe - i);
    }
  }

  /** Byte `j` of a request at `off` is stored `j` bytes after the request's first byte,
      in both copies. */
  ghost predicate StaysTogether(minions: nat, stripe: nat, off: nat, j: nat)
    requires minions > 0 && stripe > 0
  {
    var p, b := PrimaryOf(stripe, off), BackupOf(minions, stripe, off);
    && PrimaryOf(stripe, off + j) == Loc(p.minion, p.at + j)
    && BackupOf(minions, stripe, off + j) == Loc(b.minion, b.at + j)
  }

  // ----- the deployed layout -----

  const MINIONS := 3
  const STRIPE := 0x40_0000       // 4 MB
  const DISK := 0x80_0000         // what one minion stores
  const CAPACITY := 0xC0_0000     // the device the kernel sees

  /** A request the map can serve: it starts on the device and stays in one stripe. */
  predicate InStripe(off: nat, size: nat) {
    off < CAPACITY && off % STRIPE + size <= STRIPE
  }

  /** Raid01::OffsetToProxy: the primary copy first, then the backup copy. */
  function OffsetToProxy(off: nat): (r: seq<Loc>)
    ensures |r| == 2
  {
    [PrimaryOf(STRIPE, off), BackupOf(MINIONS, STRIPE, off)]
  }

  predicate Covers(off: nat, size: nat, o: nat) {
    off <= o < off + size
  }

  /** Position `l` lies among the `size` bytes starting at `start`. */
  predicate Hits(start: Loc, size: nat, l: Loc) {
    l.minion == start.minion && start.at <= l.at < start.at + size
  }

  lemma DeployedMap(o: nat)
    requires o < CAPACITY
    ensures OffsetToProxy(o)[0] == Loc(o / 0x40_0000, o % 0x40_0000)
    ensures OffsetToProxy(o)[1] == Loc((o / 0x40_0000 + 1) % 3, o % 0x40_0000 + 0x40_0000)
    ensures o / 0x40_0000 < 3
  {
  }

  /** Which bytes a request hits, for positions given by stripe and offset within it. */
  lemma StripeHits(k: nat, i: nat, size: nat, q: nat, r: nat, kNext: nat, qNext: nat)
    requires k < 3 && q < 3 && i < STRIPE && r < STRIPE && i + size <= STRIPE
    requires kNext == (if k == 2 then 0 else k + 1) && qNext == (if q == 2 then 0 else q + 1)
    ensures var covered := Covers(k * 0x40_0000 + i, size, q * 0x40_0000 + r);
            && (Hits(Loc(k, i), size, Loc(q, r)) <==> covered)
            && (Hits(Loc(kNext, i + STRIPE), size, Loc(qNext, r + STRIPE)) <==> covered)
            && !Hits(Loc(k, i), size, Loc(qNext, r + STRIPE)) && !Hits(Loc(kNext, i + STRIPE), size, Loc(q, r))
            && (covered ==> k == q)
  {
    assert k == 0 || k == 1 || k == 2;
    assert q == 0 || q == 1 || q == 2;
  }

  /** The two copies of a request occupy exactly the copies of the bytes it covers. */
  lemma RequestHits(off: nat, size: nat, o: nat)
    requires InStripe(off, size) && o < CAPACITY
    ensures off + size <= CAPACITY
    ensures var p, b := OffsetToProxy(off)[0], OffsetToProxy(off)[1];
            var po, bo := OffsetToProxy(o)[0], OffsetToProxy(o)[1];
            && p.minion < MINIONS && p.at + size <= STRIPE
            && b.minion < MINIONS && STRIPE <= b.at && b.at + size <= DISK
            && po.minion < MINIONS && po.at < STRIPE
            && bo.minion < MINIONS && STRIPE <= bo.at < DISK
            && (Hits(p, size, po) <==> Covers(off, size, o))
            && (Hits(b, size, bo) <==> Covers(off, size, o))
            && !Hits(p, size, bo) && !Hits(b, size, po)
            && (Covers(off, size, o) ==> po.at - p.at == o - off == bo.at - b.at)
  {
    DeployedMap(off);
    DeployedMap(o);
    var k, i, q, r := off / 0x40_0000, off % 0x40_0000, o / 0x40_0000, o % 0x40_0000;
    var kNext, qNext := (k + 1) % 3, (q + 1) % 3;
    assert off == k * 0x40_0000 + i && o == q * 0x40_0000 + r;
    StripeHits(k, i, size, q, r, kNext, qNext);
    hide OffsetToProxy, Hits;
  }
}
