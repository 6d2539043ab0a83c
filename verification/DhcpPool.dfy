/** The address pool of the DHCP server: the mask test, the pool that
    `dhcps_poll_set` keeps or computes when the server starts, and the check a
    configured pool passes in the option setter. Addresses and masks are given
    by their host-order values; `max` is the largest number of leases a pool may have. */
module DhcpPool {
  import opened Words
  import opened Bits
  import opened DhcpLeases
  import opened DhcpExact

  /** `dhcps_lease_t`. */
  datatype Pool = Pool(enable: bool, start: u32, end: u32)

  // ----- the mask test ------------------------------------------------------

  /** `IS_INVALID_SUBNET_MASK` is false. */
  predicate MaskAccepted(mask: u32) { Or(Wrap32(mask - 1), mask) == TWO32 - 1 }

  /** A run of 32 - k ones from the top, 0 < k <= 32 standing for fewer. */
  predicate IsPrefix(mask: u32, k: nat) { k <= 32 && mask == PrefixMask(32, k) }

  lemma PrefixMaskIs(k: nat)
    requires k <= 32
    ensures PrefixMask(32, k) == TWO32 - Pow2(k) && Pow2(32) == TWO32
  {
    Pow2At32();
    hide Pow2;
  }

  /** The mask test accepts exactly zero and the contiguous left-aligned masks. */
  lemma MaskAcceptedIff(mask: u32)
    ensures MaskAccepted(mask) <==> exists k: nat :: IsPrefix(mask, k)
  {
    hide Pow2, Or, PrefixMask;
    PrefixMaskIs(32);
    if mask == 0 {
      OrZero(TWO32 - 1);
      assert IsPrefix(mask, 32);
    } else {
      OrPred(32, mask);
      assert Wrap32(mask - 1) == mask - 1;
      if k: nat :| k < 32 && mask == Pow2(32) - Pow2(k) {
        PrefixMaskIs(k);
        assert IsPrefix(mask, k);
      }
      if k: nat :| IsPrefix(mask, k) {
        PrefixMaskIs(k);
        assert k < 32 && mask == Pow2(32) - Pow2(k);
      }
    }
  }

  /** Network and broadcast address of a prefix mask: the address rounded down to
      a multiple of 2^k, and 2^k - 1 above that. */
  lemma SubnetBounds(ip: u32, mask: u32, k: nat)
    requires IsPrefix(mask, k)
    ensures var n := Network(ip, mask);
            n <= ip <= n + Pow2(k) - 1 == Broadcast(ip, mask)
  {
    hide And, Or, Pow2, PrefixMask;
    PrefixMaskIs(k);
    AndMask(32, k, ip);
    OrMask(32, k, ip);
  }

  /** Masked comparison of the stored words is membership in the subnet's interval. */
  lemma NetcmpIsInterval(a: u32, ip: u32, mask: u32, k: nat)
    requires IsPrefix(mask, k)
    ensures And(Raw(a), Raw(mask)) == And(Raw(ip), Raw(mask)) <==> Network(ip, mask) <= a <= Broadcast(ip, mask)
  {
    hide And, Or, Pow2, PrefixMask, Broadcast, Raw;
    PrefixMaskIs(k);
    SubnetBounds(ip, mask, k);
    SameBlock(32, k, ip, a);
    AndRaw(a, mask);
    AndRaw(ip, mask);
    RawInvolution(And(a, mask));
    RawInvolution(And(ip, mask));
  }

  // ----- dhcps_poll_set -----------------------------------------------------

  predicate SameNet(a: u32, ip: u32, mask: u32) { And(Raw(a), Raw(mask)) == And(Raw(ip), Raw(mask)) }

  /** The checks a configured pool has to pass when the server starts. */
  predicate Kept(p: Pool, ip: u32, mask: u32, max: positive) {
    && p.enable && !(p.start <= ip <= p.end)
    && SameNet(p.start, ip, mask) && SameNet(p.end, ip, mask)
    && Wrap32(p.end - p.start + 1) <= max
  }

  /** The larger side of a subnet around the server's address, at most `max` addresses of it. */
  function AutoRange(first: u32, ip: u32, last: u32, max: positive): Pool {
    var before := Wrap32(ip - first) > Wrap32(last - ip);
    var lo := if before then Wrap32(first + 1) else Wrap32(ip + 1);
    var hi := if before then Wrap32(ip - 1) else Wrap32(last - 1);
    Pool(true, lo, if Wrap32(hi - lo + 1) > max then Wrap32(lo + max - 1) else hi)
  }

  /** The pool computed from the server's address. */
  function AutoPool(ip: u32, mask: u32, max: positive): Pool
  {
    AutoRange(Network(ip, mask), ip, Broadcast(ip, mask), max)
  }

  function PollSet(p: Pool, ip: u32, mask: u32, max: positive): Pool {
    if Kept(p, ip, mask, max) then p else AutoPool(ip, mask, max)
  }

  /** `dhcps_poll_set`, on the fields it updates. */
  method PollSetSteps(p: Pool, ip: u32, mask: u32, max: positive) returns (r: Pool)
    ensures r == PollSet(p, ip, mask, max)
  {
    hide Network, Broadcast, SameNet, Wrap32;
    r := p;
    if r.enable {
      if ip >= r.start && ip <= r.end {
        r := r.(enable := false);
      } else if !SameNet(r.start, ip, mask) || !SameNet(r.end, ip, mask) || Wrap32(r.end - r.start + 1) > max {
        r := r.(enable := false);
      }
    }
    if !r.enable {
      var lo := Network(ip, mask);
      var hi := Broadcast(ip, mask);
      if Wrap32(ip - lo) > Wrap32(hi - ip) {
        lo := Wrap32(lo + 1);
        hi := Wrap32(ip - 1);
      } else {
        lo := Wrap32(ip + 1);
        hi := Wrap32(hi - 1);
      }
      if Wrap32(hi - lo + 1) > max {
        hi := Wrap32(lo + max - 1);
      }
      r := Pool(true, lo, hi);
    }
  }

  /** For every accepted mask and every address that is neither the network nor
      the broadcast address, the computed pool is not empty, lies strictly
      inside the subnet, does not contain the server and has at most `max`
      addresses; it has exactly `max`, or reaches the server or the end of the subnet. */
  lemma AutoPoolGood(ip: u32, mask: u32, max: positive)
    requires MaskAccepted(mask) && ip != Network(ip, mask) && ip != Broadcast(ip, mask)
    ensures var p := AutoPool(ip, mask, max);
            && p.enable && Network(ip, mask) < p.start <= p.end < Broadcast(ip, mask)
            && !(p.start <= ip <= p.end)
            && p.end - p.start + 1 <= max
            && (p.end - p.start + 1 == max || p.end + 1 == ip || p.end + 1 == Broadcast(ip, mask))
  {
    hide Network, Broadcast, IsPrefix, MaskAccepted, Pow2;
    MaskAcceptedIff(mask);
    var k: nat :| IsPrefix(mask, k);
    SubnetBounds(ip, mask, k);
    Pow2Odd(k);
    AutoRangeGood(Network(ip, mask), ip, Broadcast(ip, mask), max);
  }

  lemma Pow2Odd(k: nat)
    ensures k > 0 ==> (Pow2(k) - 1) % 2 == 1
    ensures k == 0 ==> Pow2(k) == 1
  {}

  lemma WrapId(x: int)
    requires 0 <= x < TWO32
    ensures Wrap32(x) == x
  {}

  lemma AutoRangeGood(first: u32, ip: u32, last: u32, max: positive)
    requires first < ip < last && (last - first) % 2 == 1
    ensures var p := AutoRange(first, ip, last, max);
            && p.enable && first < p.start <= p.end < last && !(p.start <= ip <= p.end)
            && p.end - p.start + 1 <= max
            && (p.end - p.start + 1 == max || p.end + 1 == ip || p.end + 1 == last)
  {
    hide Wrap32;
    WrapId(ip - first); WrapId(last - ip); WrapId(first + 1); WrapId(ip + 1); WrapId(ip - 1); WrapId(last - 1);
    var lo := if ip - first > last - ip then first + 1 else ip + 1;
    var hi := if ip - first > last - ip then ip - 1 else last - 1;
    assert lo <= hi;
    WrapId(hi - lo + 1);
    if hi - lo + 1 > max { WrapId(lo + max - 1); }
  }

  /** An enabled pool within the subnet, without the server's address and within the limit. */
  predicate Fitting(p: Pool, ip: u32, mask: u32, max: positive) {
    && p.enable
    && Network(ip, mask) <= p.start <= Broadcast(ip, mask) && Network(ip, mask) <= p.end <= Broadcast(ip, mask)
    && !(p.start <= ip <= p.end) && Wrap32(p.end - p.start + 1) <= max
  }

  /** A configured pool passes the checks of a start exactly when it is fitting. */
  lemma KeptIff(p: Pool, ip: u32, mask: u32, max: positive)
    requires MaskAccepted(mask)
    ensures Kept(p, ip, mask, max) <==> Fitting(p, ip, mask, max)
  {
    MaskAcceptedIff(mask);
    hide Network, Broadcast, IsPrefix, MaskAccepted, And, Raw, Wrap32;
    var k: nat :| IsPrefix(mask, k);
    NetcmpIsInterval(p.start, ip, mask, k);
    NetcmpIsInterval(p.end, ip, mask, k);
  }

  /** A start with an accepted mask and an address inside its subnet keeps the configured pool
      exactly when the pool is enabled, begins and ends in the subnet, does not contain the
      server and respects the limit; otherwise it computes one. Whatever was configured, the
      server then has an enabled pool that begins and ends in its own subnet, without its
      address. The pool is not empty, unless an empty one was configured and is fitting. */
  lemma PollSetExact(p: Pool, ip: u32, mask: u32, max: positive)
    requires MaskAccepted(mask) && ip != Network(ip, mask) && ip != Broadcast(ip, mask)
    ensures var r := PollSet(p, ip, mask, max);
            && Fitting(r, ip, mask, max)
            && (Fitting(p, ip, mask, max) ==> r == p)
            && (!Fitting(p, ip, mask, max) ==>
                  && Network(ip, mask) < r.start <= r.end < Broadcast(ip, mask) && r.end - r.start + 1 <= max
                  && (r.end - r.start + 1 == max || r.end + 1 == ip || r.end + 1 == Broadcast(ip, mask)))
            && (r.start > r.end <==> Fitting(p, ip, mask, max) && p.start > p.end)
  {
    hide Network, Broadcast, MaskAccepted, AutoPool, Wrap32, Kept;
    KeptIff(p, ip, mask, max);
    AutoPoolGood(ip, mask, max);
    var a := AutoPool(ip, mask, max);
    WrapId(a.end - a.start + 1);
  }

  /** A configured pool that ends right before it begins counts as one of no addresses, which is
      within every limit: it is kept, and the server has nothing to give. */
  lemma EmptyPoolKept(max: positive)
    ensures var p := Pool(true, Quad(192, 168, 4, 10), Quad(192, 168, 4, 9));
            PollSet(p, Quad(192, 168, 4, 1), Quad(255, 255, 255, 0), max) == p && p.start > p.end
  {
    var p := Pool(true, Quad(192, 168, 4, 10), Quad(192, 168, 4, 9));
    var ip, mask := Quad(192, 168, 4, 1), Quad(255, 255, 255, 0);
    PrefixMaskIs(8);
    ClassC();
    assert IsPrefix(mask, 8);
    hide Network, Broadcast, PrefixMask, And, Or;
    NetcmpIsInterval(p.start, ip, mask, 8);
    NetcmpIsInterval(p.end, ip, mask, 8);
    hide SameNet, Raw, IsPrefix;
    assert Wrap32(p.end - p.start + 1) == 0;
  }

  lemma ClassC()
    ensures Pow2(8) == 256
    ensures Network(Quad(192, 168, 4, 1), Quad(255, 255, 255, 0)) == Quad(192, 168, 4, 0)
    ensures Broadcast(Quad(192, 168, 4, 1), Quad(255, 255, 255, 0)) == Quad(192, 168, 4, 255)
  {
    assert Pow2(4) == 16;
    assert Pow2(8) == 256;
    PrefixMaskIs(8);
    AndByte(192);
    AndByte(168);
    AndByte(4);
    AndOctets(192, 168, 4, 1, 255, 255, 255, 0);
    hide And, Or, PrefixMask, Pow2, Broadcast;
    SubnetBounds(Quad(192, 168, 4, 1), Quad(255, 255, 255, 0), 8);
    assert And(1, 0) == 0 by { SmallAnds(); }
  }

  lemma AndByte(x: byte)
    ensures And(x, 255) == x
  {
    assert Pow2(4) == 16;
    assert Pow2(8) == 256;
    AndOnes(8, x);
  }

  lemma AutoRangeSide(first: u32, ip: u32, last: u32, max: positive)
    requires first < ip < last
    ensures AutoRange(first, ip, last, max).start == if ip - first > last - ip then first + 1 else ip + 1
  {
    hide Wrap32;
    WrapId(ip - first); WrapId(last - ip); WrapId(first + 1); WrapId(ip + 1);
  }

  /** The computed pool is on the side of the server where the subnet has more room, and begins
      right behind the network address or right behind the server. */
  lemma AutoPoolSide(ip: u32, mask: u32, max: positive)
    requires MaskAccepted(mask) && ip != Network(ip, mask) && ip != Broadcast(ip, mask)
    ensures var p, below, above := AutoPool(ip, mask, max), ip - Network(ip, mask), Broadcast(ip, mask) - ip;
            && (below > above ==> p.start == Network(ip, mask) + 1 && p.end < ip)
            && (below <= above ==> p.start == ip + 1 && p.end < Broadcast(ip, mask))
  {
    MaskAcceptedIff(mask);
    hide Network, Broadcast, IsPrefix, MaskAccepted, Pow2, AutoRange;
    var k: nat :| IsPrefix(mask, k);
    SubnetBounds(ip, mask, k);
    AutoRangeSide(Network(ip, mask), ip, Broadcast(ip, mask), max);
    AutoPoolGood(ip, mask, max);
  }

  /** A pool of another network, left over from an earlier start, is replaced. */
  lemma ForeignPoolReplaced(p: Pool, ip: u32, mask: u32, max: positive)
    requires MaskAccepted(mask) && ip != Network(ip, mask) && ip != Broadcast(ip, mask)
    requires !(Network(ip, mask) <= p.start <= Broadcast(ip, mask) && Network(ip, mask) <= p.end <= Broadcast(ip, mask))
    ensures PollSet(p, ip, mask, max) != p
  {
    hide Network, Broadcast, MaskAccepted, PollSet;
    PollSetExact(p, ip, mask, max);
  }

  // ----- the option setter --------------------------------------------------

  /** The test `esp_netif_dhcps_option` puts to an enabled pool, for the
      interface's current address and mask. */
  predicate SetterAccepts(p: Pool, ip: u32, mask: u32, max: positive) {
    var first, last := Network(ip, mask), Broadcast(ip, mask);
    && ip != first && ip != last
    && !(ip >= p.start && ip <= p.end)
    && !(p.start <= first || p.start >= last)
    && !(p.end <= first || p.end >= last)
    && !(Wrap32(p.end - p.start + 1) > max || p.start >= p.end)
  }

  /** The setter accepts exactly the pools of at least two and at most `max` addresses strictly
      inside the subnet of an address that is neither its network nor its broadcast address,
      and that is not in the pool. */
  lemma SetterAcceptsIff(p: Pool, ip: u32, mask: u32, max: positive)
    ensures SetterAccepts(p, ip, mask, max) <==>
            && ip != Network(ip, mask) && ip != Broadcast(ip, mask) && !(p.start <= ip <= p.end)
            && Network(ip, mask) < p.start < p.end < Broadcast(ip, mask) && p.end - p.start + 1 <= max
  {
    hide Network, Broadcast, Wrap32;
    if 0 < p.start < p.end { WrapId(p.end - p.start + 1); }
  }

  /** The pool check of the option setter, test by test. */
  method CheckPool(p: Pool, ip: u32, mask: u32, max: positive) returns (ok: bool)
    ensures ok <==> SetterAccepts(p, ip, mask, max)
  {
    hide Network, Broadcast, Wrap32;
    var first, last := Network(ip, mask), Broadcast(ip, mask);
    if ip == first || ip == last { return false; }
    if ip >= p.start && ip <= p.end { return false; }
    if p.start <= first || p.start >= last { return false; }
    if p.end <= first || p.end >= last { return false; }
    if Wrap32(p.end - p.start + 1) > max || p.start >= p.end { return false; }
    return true;
  }

  /** A pool the setter accepts is kept unchanged when the server starts with the same address and mask. */
  lemma AcceptedPoolIsKept(p: Pool, ip: u32, mask: u32, max: positive)
    requires p.enable && MaskAccepted(mask) && SetterAccepts(p, ip, mask, max)
    ensures PollSet(p, ip, mask, max) == p
  {
    hide Network, Broadcast, MaskAccepted, Wrap32, Kept, SetterAccepts;
    KeptIff(p, ip, mask, max);
    SetterAcceptsIff(p, ip, mask, max);
    WrapId(p.end - p.start + 1);
  }

  // ----- pools and the allocator --------------------------------------------

  function Shift(x: nat, j: nat): nat { if j == 0 then x else Shift(x / 2, j - 1) }

  lemma Shift2(x: nat, j: nat)
    requires j >= 2
    ensures Shift(x, j) == Shift(x / 4, j - 2)
  {
    assert Shift(x, j) == Shift(x / 2, j - 1);
    assert x / 2 / 2 == x / 4;
  }

  lemma Shift8(x: nat)
    ensures Shift(x, 8) == x / 256
  {
    hide Shift;
    Shift2(x, 8);
    Shift2(x / 4, 6);
    Shift2(x / 4 / 4, 4);
    Shift2(x / 4 / 4 / 4, 2);
    ShiftZero(x / 4 / 4 / 4 / 4);
    assert x / 4 / 4 == x / 16 && x / 16 / 4 / 4 == x / 256;
  }

  lemma ShiftZero(x: nat)
    ensures Shift(x, 0) == x
  {}

  /** The lowest and the highest address of a block of 2^k agree above bit k. */
  lemma {:induction false} BlockShift(w: nat, k: nat, x: nat, j: nat)
    requires k <= w && k <= j && x < Pow2(w)
    ensures var n := And(x, PrefixMask(w, k)); Shift(n, j) == Shift(n + Pow2(k) - 1, j)
  {
    hide And, Pow2, PrefixMask;
    if k == 0 {
      PrefixMaskZero(w);
    } else {
      PrefixMaskDouble(w, k);
      AndEven(x, PrefixMask(w - 1, k - 1));
      var n := And(x / 2, PrefixMask(w - 1, k - 1));
      assert (2 * n) / 2 == n && (2 * n + 2 * Pow2(k - 1) - 1) / 2 == n + Pow2(k - 1) - 1;
      BlockShift(w - 1, k - 1, x / 2, j - 1);
    }
  }

  /** A non-empty pool strictly inside a subnet whose mask has at least 24 bits
      is one the allocator is correct for. */
  lemma LongMaskIsGood(cfg: Config, ip: u32, mask: u32, k: nat)
    requires IsPrefix(mask, k) && k <= 8
    requires Network(ip, mask) < cfg.start <= cfg.end < Broadcast(ip, mask)
    ensures GoodPool(cfg)
  {
    hide And, Or, Pow2, PrefixMask, Broadcast;
    PrefixMaskIs(k);
    SubnetBounds(ip, mask, k);
    BlockShift(32, k, ip, 8);
    Shift8(Network(ip, mask));
    Shift8(Broadcast(ip, mask));
  }

  /** The pools the server is meant to run with: computed, or accepted by the
      setter for the address and mask the server is started with. */
  predicate Intended(p: Pool, ip: u32, mask: u32, max: positive) {
    (p.enable && SetterAccepts(p, ip, mask, max)) || !Fitting(p, ip, mask, max)
  }

  /** `dhcps_start` with an accepted mask of at least 24 bits and such a pool:
      the allocator runs over a pool for which it is correct. */
  lemma StartedPoolIsGood(p: Pool, ip: u32, mask: u32, k: nat, max: positive, cfg: Config)
    requires IsPrefix(mask, k) && k <= 8 && ip != Network(ip, mask) && ip != Broadcast(ip, mask)
    requires Intended(p, ip, mask, max)
    requires cfg.start == PollSet(p, ip, mask, max).start && cfg.end == PollSet(p, ip, mask, max).end
    ensures GoodPool(cfg)
  {
    hide Network, Broadcast, IsPrefix, Kept, AutoPool, MaskAccepted, Wrap32, Fitting;
    MaskAcceptedIff(mask);
    AutoPoolGood(ip, mask, max);
    KeptIff(p, ip, mask, max);
    if p.enable && SetterAccepts(p, ip, mask, max) { AcceptedPoolIsKept(p, ip, mask, max); }
    LongMaskIsGood(cfg, ip, mask, k);
  }

  /** Addresses of a subnet whose mask has at least 24 bits share their first three octets. */
  lemma LongMaskBlock(a: u32, ip: u32, mask: u32, k: nat)
    requires IsPrefix(mask, k) && k <= 8 && Network(ip, mask) <= a <= Broadcast(ip, mask)
    ensures a / 256 == Network(ip, mask) / 256
  {
    hide And, Or, Pow2, PrefixMask, Broadcast;
    PrefixMaskIs(k);
    SubnetBounds(ip, mask, k);
    BlockShift(32, k, ip, 8);
    Shift8(Network(ip, mask));
    Shift8(Broadcast(ip, mask));
  }

  /** Started with a mask of at least 24 bits, the server has a pool for which the allocator is
      correct, unless a fitting pool was configured that is empty, begins at 0.0.0.0 or ends in 255. */
  lemma StartedPoolIff(p: Pool, ip: u32, mask: u32, k: nat, max: positive, cfg: Config)
    requires IsPrefix(mask, k) && k <= 8 && ip != Network(ip, mask) && ip != Broadcast(ip, mask)
    requires cfg.start == PollSet(p, ip, mask, max).start && cfg.end == PollSet(p, ip, mask, max).end
    ensures GoodPool(cfg) <==>
            !(Fitting(p, ip, mask, max) && (p.start > p.end || p.start == 0 || p.end % 256 == 255))
  {
    hide Network, Broadcast, IsPrefix, PollSet, MaskAccepted, Wrap32;
    MaskAcceptedIff(mask);
    PollSetExact(p, ip, mask, max);
    if Fitting(p, ip, mask, max) {
      LongMaskBlock(p.start, ip, mask, k);
      LongMaskBlock(p.end, ip, mask, k);
      assert p.start / 256 == p.end / 256;
    } else {
      LongMaskIsGood(cfg, ip, mask, k);
    }
  }

  /** Shorter masks: with address 10.0.1.200 and a 16-bit mask the computed pool
      begins at 10.0.1.201, and the allocator is correct for it exactly when the
      limit is below the 55 leases with which it reaches the end of its block of 256 addresses. */
  lemma ShortMaskFails(cfg: Config, max: positive)
    requires var p := AutoPool(Quad(10, 0, 1, 200), Quad(255, 255, 0, 0), max); cfg.start == p.start && cfg.end == p.end
    ensures AllocatorCorrect(cfg) <==> max < 55
  {
    hide And, Or, Pow2, PrefixMask, Broadcast;
    var ip, mask := Quad(10, 0, 1, 200), Quad(255, 255, 0, 0);
    SmallAnds();
    PrefixMaskIs(16);
    AndOctets(10, 0, 1, 200, 255, 255, 0, 0);
    SubnetBounds(ip, mask, 16);
    ExampleRange(max);
    assert AutoPool(ip, mask, max) == AutoRange(167772160, 167772616, 167837695, max);
    hide AutoPool, AllocatorCorrect, AutoRange;
    AllocatorCorrectIff(cfg);
  }

  lemma ExampleRange(max: positive)
    ensures AutoRange(167772160, 167772616, 167837695, max) ==
            Pool(true, 167772617, if max < 65078 then 167772616 + max else 167837694)
  {}

  lemma SmallAnds()
    ensures And(10, 255) == 10 && And(0, 255) == 0 && And(1, 0) == 0 && And(200, 0) == 0 && Pow2(16) == 0x1_0000
  {
    assert And(10, 255) == 2 * And(5, 127) && And(5, 127) == 2 * And(2, 63) + 1 && And(2, 63) == 2;
    assert Pow2(4) == 16;
    assert Pow2(8) == 256;
    assert Pow2(12) == 4096;
  }
}
