/** For exactly which pools the allocator works. `dhcps_poll_set` lets through
    pools for which it does not: the raw comparison of stored words goes wrong
    when the pool, or the address after it, crosses into another block of 256
    addresses. Every failing pool comes with a run that shows it fail. */
module DhcpExact {
  import opened Words
  import opened DhcpOptions
  import opened DhcpLeases
  import opened DhcpSafety

  /** All leases in the pool and no address leased twice. */
  predicate Sound(cfg: Config, s: State) { InPool(cfg, s.leases) && DistinctAddresses(s.leases) }

  /** No new client is refused while the pool has a free address. */
  ghost predicate Fair(cfg: Config, s: State) {
    forall m: Message :: m.cookie && Stranger(s.leases, m) && Refused(cfg, s, m) ==> Full(cfg, s.leases)
  }

  /** Every state of every run is sound and fair. */
  ghost predicate AllocatorCorrect(cfg: Config) {
    forall es: seq<Event> :: Sound(cfg, Run(cfg, Fresh(cfg), es)) && Fair(cfg, Run(cfg, Fresh(cfg), es))
  }

  lemma GoodIsCorrect(cfg: Config)
    requires GoodPool(cfg)
    ensures AllocatorCorrect(cfg)
  {
    forall es: seq<Event>
      ensures Sound(cfg, Run(cfg, Fresh(cfg), es)) && Fair(cfg, Run(cfg, Fresh(cfg), es))
    {
      var s := Run(cfg, Fresh(cfg), es);
      RunInv(cfg, Fresh(cfg), es);
      forall m: Message | m.cookie && Stranger(s.leases, m) && Refused(cfg, s, m) ensures Full(cfg, s.leases) {
        RefusedIffFull(cfg, s, m);
      }
    }
  }

  // ----- the failing pools --------------------------------------------------

  /** A DHCPDISCOVER from client number `i`. */
  function Discover(i: Mac): Message { Message(true, 0, i, [MSG_TYPE, 1, 1, END], 4) }

  lemma DiscoverOffers(i: Mac, client: u32, renew: bool)
    ensures ParseOptions(Discover(i).opts, Discover(i).len, client, renew) == STATE_OFFER
  {
    var mem := Discover(i).opts;
    assert At(mem, 0) == MSG_TYPE && At(mem, 2) == 1 && Next(mem, 0) == 3 && At(mem, 3) == END;
    assert Walk(mem, 3, 4, client, Seen(1, STATE_IDLE)) == Seen(1, STATE_IDLE);
  }

  lemma {:induction false} RunSnoc(cfg: Config, s: State, es: seq<Event>, e: Event)
    ensures Run(cfg, s, es + [e]) == Step(cfg, Run(cfg, s, es), e)
    decreases |es|
  {
    hide Step;
    if es == [] {
      assert es + [e] == [e] && [e][1..] == [];
      assert Run(cfg, Step(cfg, s, e), []) == Step(cfg, s, e);
    } else {
      assert (es + [e])[1..] == es[1..] + [e];
      RunSnoc(cfg, Step(cfg, s, es[0]), es[1..], e);
    }
  }

  /** A refused first client contradicts correctness: the pool has free addresses. */
  lemma EmptyRefusal(cfg: Config)
    requires cfg.start <= cfg.end && Refused(cfg, Fresh(cfg), Discover(0))
    ensures !AllocatorCorrect(cfg)
  {
    var s := Run(cfg, Fresh(cfg), []);
    assert s == Fresh(cfg);
    assert !Leased(s.leases, cfg.start);
    assert Stranger(s.leases, Discover(0));
    assert !Fair(cfg, s);
  }

  /** A pool that starts at 0.0.0.0: the first client is refused. */
  lemma ZeroStartFails(cfg: Config)
    requires 0 == cfg.start <= cfg.end
    ensures Refused(cfg, Fresh(cfg), Discover(0)) && !AllocatorCorrect(cfg)
  {
    EmptyRefusal(cfg);
  }

  /** A pool of at most 256 addresses that straddles two blocks: its start
      compares above its end, so the first client is refused. */
  lemma StraddleFails(cfg: Config)
    requires cfg.start <= cfg.end < cfg.start + 256 && cfg.start / 256 != cfg.end / 256
    ensures Refused(cfg, Fresh(cfg), Discover(0)) && !AllocatorCorrect(cfg)
  {
    RawStraddle(cfg.start, cfg.end);
    EmptyRefusal(cfg);
  }

  // ----- serving one client after the other ---------------------------------

  /** The number of addresses of a pool. */
  function Size(cfg: Config): nat
    requires cfg.start <= cfg.end
  {
    cfg.end - cfg.start + 1
  }

  predicate RawSorted(leases: seq<Lease>) {
    forall i, j :: 0 <= i < j < |leases| ==> Raw(leases[i].ip) < Raw(leases[j].ip)
  }

  /** Clients 0 to k - 1 hold the first `k` addresses, one each and in this
      order, and the list is ordered by stored words. */
  predicate Laid(cfg: Config, leases: seq<Lease>, k: nat) {
    && |leases| == k
    && (forall j :: 0 <= j < k ==> cfg.start <= leases[j].ip < cfg.start + k
                                   && leases[j].mac == leases[j].ip - cfg.start && leases[j].timer == cfg.leaseTimer)
    && (forall a :: cfg.start <= a < cfg.start + k ==> Leased(leases, a))
    && RawSorted(leases)
  }

  predicate Serving(cfg: Config, s: State, k: nat)
    requires cfg.start <= cfg.end
  {
    && !s.declined && k <= Size(cfg) && Laid(cfg, s.leases, k)
    && s.cursor == if k == Size(cfg) then cfg.start else cfg.start + k
  }

  /** The address number `i` of the pool does not compare above its end. */
  predicate Reachable(cfg: Config, i: nat)
    requires cfg.start <= cfg.end && i < Size(cfg)
  {
    !Above(cfg.start + i, cfg.end)
  }

  lemma RawDistinct(a: u32, b: u32)
    requires Raw(a) <= Raw(b) && a != b
    ensures Raw(a) < Raw(b)
  {
    hide Raw;
    RawInvolution(a);
    RawInvolution(b);
  }

  /** The candidate of a new client: the cursor, or the first unused address when the cursor has run out. */
  function Candidate(cfg: Config, s: State, m: Message): u32 {
    var (t, first) := Before(cfg, s, m);
    if Above(t.cursor, cfg.end) then first else t.client
  }

  /** A new client whose candidate is not above the end gets an entry there,
      unless the candidate is 0.0.0.0. */
  lemma Served(cfg: Config, s: State, i: Mac, a: u32)
    requires Stranger(s.leases, Discover(i)) && a == Candidate(cfg, s, Discover(i)) && !Above(a, cfg.end)
    ensures var g := Grant(cfg, s.(renew := false, declined := false), Discover(i), a);
            var t := Receive(cfg, s, Discover(i)).state;
            if a != 0 then t == g else t == g.(leases := s.leases)
  {
    hide Above, Search, InsertPos, ParseOptions, Discover, Answer, Receive;
    var (t, first) := Before(cfg, s, Discover(i));
    var g := Grant(cfg, t, Discover(i), a);
    DiscoverIs(i);
    ReceiveStranger(cfg, s, Discover(i));
    AllocateIs(cfg, t, first, Discover(i));
    AnswerDiscover(cfg, g, InsertPos(s.leases, 0, a), i);
    RemoveInserted(s.leases, InsertPos(s.leases, 0, a), Lease(i, a, cfg.leaseTimer));
  }

  lemma DiscoverIs(i: Mac)
    ensures Discover(i).cookie && Discover(i).chaddr == i
  {}

  lemma ReceiveStranger(cfg: Config, s: State, m: Message)
    requires m.cookie && Stranger(s.leases, m)
    ensures var (t, first) := Before(cfg, s, m);
            Receive(cfg, s, m) == Allocate(cfg, t, first, m) && t.leases == s.leases && !t.renew && !t.declined
  {
    hide Allocate, Above;
  }

  lemma AnswerDiscover(cfg: Config, s: State, p: nat, i: Mac)
    requires p < |s.leases| && !Above(s.client, cfg.end) && !s.renew
    ensures Answer(cfg, s, Some(p), Discover(i)).state ==
            if s.client != 0 then s else s.(leases := RemoveAt(s.leases, p))
  {
    DiscoverOffers(i, s.client, false);
    hide Above, ParseOptions, RemoveAt, Discover;
  }

  lemma RemoveInserted(leases: seq<Lease>, p: nat, l: Lease)
    requires p <= |leases|
    ensures RemoveAt(InsertAt(leases, p, l), p) == leases
  {}

  /** With no entry for the client and none at the cursor, the loop leaves the cursor alone. */
  lemma {:induction false} SearchSkips(leases: seq<Lease>, i: nat, mac: Mac, cursor: u32, first: u32, passed: bool)
    requires i <= |leases|
    requires forall k :: i <= k < |leases| ==> leases[k].mac != mac && leases[k].ip != cursor
    ensures var r := Search(leases, i, mac, cursor, first, passed); r.Unknown? && r.cursor == cursor
    decreases |leases| - i
  {
    hide Above, Succ;
    if i < |leases| {
      if passed || Above(leases[i].ip, first) {
        SearchSkips(leases, i + 1, mac, cursor, first, true);
      } else {
        SearchSkips(leases, i + 1, mac, cursor, Succ(first), false);
      }
    }
  }

  /** What the search makes of the cursor is what the client is due. */
  lemma CandidateIs(cfg: Config, s: State, m: Message, c: u32)
    requires if s.leases == [] then c == s.cursor == cfg.start && !s.declined
             else var r := Search(s.leases, 0, m.chaddr, s.cursor, cfg.start, false); r.Unknown? && r.cursor == c
    ensures Candidate(cfg, s, m) ==
            if !Above(c, cfg.end) then c
            else if s.leases == [] then cfg.start else Search(s.leases, 0, m.chaddr, s.cursor, cfg.start, false).first
  {
    hide Above, Search;
  }

  /** A new client whom the loop sends to an address that is not above the end. */
  lemma SentTo(cfg: Config, s: State, i: Mac, a: u32)
    requires s.leases != [] && Stranger(s.leases, Discover(i)) && !Above(a, cfg.end)
    requires var r := Search(s.leases, 0, i, s.cursor, cfg.start, false); r.Unknown? && r.cursor == a
    ensures var g := Grant(cfg, s.(renew := false, declined := false), Discover(i), a);
            Receive(cfg, s, Discover(i)).state == if a != 0 then g else g.(leases := s.leases)
  {
    hide Above, Search, Candidate, Discover, Receive, Grant, Stranger;
    DiscoverIs(i);
    CandidateIs(cfg, s, Discover(i), a);
    Served(cfg, s, i, a);
  }

  lemma LaidAt(cfg: Config, leases: seq<Lease>, k: nat)
    requires Laid(cfg, leases, k)
    ensures |leases| == k && RawSorted(leases)
    ensures forall j :: 0 <= j < k ==> cfg.start <= leases[j].ip < cfg.start + k && leases[j].mac < k
    ensures forall a :: cfg.start <= a < cfg.start + k ==> Leased(leases, a)
    ensures !Leased(leases, cfg.start + k)
  {
    hide Raw;
  }

  lemma LaidStranger(cfg: Config, leases: seq<Lease>, k: nat, i: Mac)
    requires Laid(cfg, leases, k) && k <= i
    ensures Stranger(leases, Discover(i))
  {
    hide RawSorted;
  }

  /** While the pool is not full the loop leaves the cursor on the next address. */
  lemma NextCursor(cfg: Config, s: State, k: nat)
    requires cfg.start <= cfg.end && Serving(cfg, s, k) && 0 < k < Size(cfg)
    ensures var r := Search(s.leases, 0, k, s.cursor, cfg.start, false); r.Unknown? && r.cursor == cfg.start + k
  {
    hide Search, Laid;
    LaidAt(cfg, s.leases, k);
    SearchSkips(s.leases, 0, k, cfg.start + k, cfg.start, false);
  }

  lemma NextCandidate(cfg: Config, s: State, k: nat)
    requires cfg.start <= cfg.end && Serving(cfg, s, k) && k < Size(cfg)
    ensures Stranger(s.leases, Discover(k))
    ensures Candidate(cfg, s, Discover(k)) ==
            if Reachable(cfg, k) then cfg.start + k
            else if k == 0 then cfg.start else Search(s.leases, 0, k, s.cursor, cfg.start, false).first
  {
    hide Search, Laid, Above, Candidate;
    LaidAt(cfg, s.leases, k);
    LaidStranger(cfg, s.leases, k, k);
    if k > 0 { NextCursor(cfg, s, k); }
    CandidateIs(cfg, s, Discover(k), cfg.start + k);
  }

  lemma InsertLaid(cfg: Config, leases: seq<Lease>, k: nat, a: u32)
    requires a == cfg.start + k && Laid(cfg, leases, k) && k < 0x1_0000_0000_0000
    ensures Laid(cfg, InsertAt(leases, InsertPos(leases, 0, a), Lease(k, a, cfg.leaseTimer)), k + 1)
  {
    hide Raw, InsertPos;
    var p := InsertPos(leases, 0, a);
    var l := Lease(k, a, cfg.leaseTimer);
    var r := InsertAt(leases, p, l);
    forall j | 0 <= j < p ensures Raw(leases[j].ip) < Raw(a) { RawDistinct(leases[j].ip, a); }
    assert forall j :: 0 <= j < p ==> r[j] == leases[j];
    assert r[p] == l;
    assert forall j :: p < j <= k ==> r[j] == leases[j - 1];
    forall b | cfg.start <= b < cfg.start + k + 1 ensures Leased(r, b) {
      if b < a {
        assert Leased(leases, b);
        var j :| 0 <= j < |leases| && leases[j].ip == b;
        assert r[if j < p then j else j + 1].ip == b;
      } else {
        assert r[p].ip == b;
      }
    }
    InsertRawSorted(leases, p, l);
  }

  lemma InsertRawSorted(leases: seq<Lease>, p: nat, l: Lease)
    requires RawSorted(leases) && p <= |leases|
    requires forall j :: 0 <= j < p ==> Raw(leases[j].ip) < Raw(l.ip)
    requires p < |leases| ==> Raw(l.ip) < Raw(leases[p].ip)
    ensures RawSorted(InsertAt(leases, p, l))
  {
    hide Raw;
    var r := InsertAt(leases, p, l);
    forall j | p <= j < |leases| ensures Raw(l.ip) < Raw(leases[j].ip) {}
  }

  /** Serving client `k` when its address does not compare above the end. */
  lemma ServeStep(cfg: Config, s: State, k: nat)
    requires 0 < cfg.start <= cfg.end && Serving(cfg, s, k) && k < Size(cfg) && Reachable(cfg, k)
    ensures Serving(cfg, Receive(cfg, s, Discover(k)).state, k + 1)
  {
    hide Receive, Candidate, Laid, Above, Grant, Stranger;
    var a := cfg.start + k;
    NextCandidate(cfg, s, k);
    Served(cfg, s, k, a);
    InsertLaid(cfg, s.leases, k, a);
    GrantIs(cfg, s.(renew := false, declined := false), k, a);
    SuccInside(cfg, a);
  }

  lemma GrantIs(cfg: Config, s: State, i: Mac, a: u32)
    ensures var g := Grant(cfg, s, Discover(i), a);
            && g.leases == InsertAt(s.leases, InsertPos(s.leases, 0, a), Lease(i, a, cfg.leaseTimer))
            && g.cursor == (if a == cfg.end then cfg.start else Succ(a)) && g.declined == s.declined
  {}

  lemma SuccInside(cfg: Config, a: u32)
    requires a <= cfg.end
    ensures a != cfg.end ==> Succ(a) == a + 1
  {}

  function Discovers(k: nat): seq<Event>
    requires k < 0x1_0000_0000_0000
  {
    seq(k, i requires 0 <= i < k => Arrives(Discover(i)))
  }

  lemma DiscoversSnoc(cfg: Config, k: nat)
    requires k < 0x1_0000_0000_0000 - 1
    ensures Run(cfg, Fresh(cfg), Discovers(k + 1))
        == Receive(cfg, Run(cfg, Fresh(cfg), Discovers(k)), Discover(k)).state
  {
    assert Discovers(k + 1) == Discovers(k) + [Arrives(Discover(k))];
    hide Run, Receive;
    RunSnoc(cfg, Fresh(cfg), Discovers(k), Arrives(Discover(k)));
  }

  /** As long as their addresses do not compare above the end, new clients get the
      addresses of the pool in ascending order, and when all are given out the
      cursor is back at the start. */
  lemma {:induction false} FillRun(cfg: Config, k: nat)
    requires 0 < cfg.start <= cfg.end && k <= Size(cfg) && forall i :: 0 <= i < k ==> Reachable(cfg, i)
    ensures Serving(cfg, Run(cfg, Fresh(cfg), Discovers(k)), k)
  {
    if k == 0 {
      assert Discovers(0) == [];
    } else {
      FillRun(cfg, k - 1);
      var s := Run(cfg, Fresh(cfg), Discovers(k - 1));
      DiscoversSnoc(cfg, k - 1);
      hide Run, Receive, Serving;
      ServeStep(cfg, s, k - 1);
    }
  }

  lemma GrantedHolds(cfg: Config, s: State, m: Message, a: u32)
    ensures a < cfg.start || cfg.end < a ==> !InPool(cfg, Grant(cfg, s, m, a).leases)
    ensures Leased(s.leases, a) ==> !DistinctAddresses(Grant(cfg, s, m, a).leases)
  {
    var p := InsertPos(s.leases, 0, a);
    var r := Grant(cfg, s, m, a).leases;
    hide InsertPos;
    assert r[p].ip == a;
    if Leased(s.leases, a) {
      var j :| 0 <= j < |s.leases| && s.leases[j].ip == a;
      assert r[if j < p then j else j + 1].ip == a;
    }
  }

  // ----- an address that compares above the end -----------------------------

  /** The first unused address moves by at most one per entry. */
  lemma {:induction false} FirstBound(leases: seq<Lease>, i: nat, mac: Mac, cursor: u32, first: u32, passed: bool)
    requires i <= |leases| && first + |leases| - i < TWO32
    ensures var r := Search(leases, i, mac, cursor, first, passed);
            r.Unknown? ==> first <= r.first <= first + |leases| - i
    decreases |leases| - i
  {
    hide Above;
    if i < |leases| && leases[i].mac != mac {
      var cursor' := if leases[i].ip == cursor then Succ(cursor) else cursor;
      if passed || Above(leases[i].ip, first) {
        FirstBound(leases, i + 1, mac, cursor', first, true);
      } else {
        FirstBound(leases, i + 1, mac, cursor', Succ(first), false);
      }
    }
  }

  /** The first pool address that compares above the end: the client due for it is
      refused although it is free, or is given an address that is leased already. */
  lemma BlockedFails(cfg: Config, k: nat)
    requires 0 < cfg.start <= cfg.end && k < Size(cfg)
    requires !Reachable(cfg, k) && forall i :: 0 <= i < k ==> Reachable(cfg, i)
    ensures var s, t := Run(cfg, Fresh(cfg), Discovers(k)), Run(cfg, Fresh(cfg), Discovers(k + 1));
            || (Stranger(s.leases, Discover(k)) && Refused(cfg, s, Discover(k)) && !Leased(s.leases, cfg.start + k))
            || !DistinctAddresses(t.leases)
    ensures !AllocatorCorrect(cfg)
  {
    FillRun(cfg, k);
    var s := Run(cfg, Fresh(cfg), Discovers(k));
    DiscoversSnoc(cfg, k);
    hide Run, Receive, AllocatorCorrect, Refused, DistinctAddresses, Leased, Stranger, Sound;
    BlockedStep(cfg, s, k);
    if DistinctAddresses(Receive(cfg, s, Discover(k)).state.leases) {
      Unfair(cfg, Discovers(k), Discover(k), cfg.start + k);
    } else {
      Repeats(cfg, Discovers(k + 1));
    }
  }

  lemma BlockedStep(cfg: Config, s: State, k: nat)
    requires 0 < cfg.start <= cfg.end && k < Size(cfg)
    requires !Reachable(cfg, k) && forall i :: 0 <= i < k ==> Reachable(cfg, i)
    requires Serving(cfg, s, k)
    ensures Stranger(s.leases, Discover(k)) && !Leased(s.leases, cfg.start + k)
    ensures Refused(cfg, s, Discover(k)) || !DistinctAddresses(Receive(cfg, s, Discover(k)).state.leases)
  {
    hide Receive, Search, Above, Laid, Candidate, Reachable, Stranger, Leased, DistinctAddresses;
    LaidAt(cfg, s.leases, k);
    NextCandidate(cfg, s, k);
    RefusedIs(cfg, s, Discover(k));
    var a := Candidate(cfg, s, Discover(k));
    if k > 0 {
      NextCursor(cfg, s, k);
      FirstBound(s.leases, 0, k, s.cursor, cfg.start, false);
    }
    assert cfg.start <= a <= cfg.start + k;
    ReachableIs(cfg, a - cfg.start);
    if a < cfg.start + k {
      assert Reachable(cfg, a - cfg.start) && Leased(s.leases, a);
      Served(cfg, s, k, a);
      GrantedHolds(cfg, s.(renew := false, declined := false), Discover(k), a);
    }
  }

  lemma ReachableIs(cfg: Config, i: nat)
    requires cfg.start <= cfg.end && i < Size(cfg)
    ensures Reachable(cfg, i) <==> !Above(cfg.start + i, cfg.end)
  {}

  lemma RefusedIs(cfg: Config, s: State, m: Message)
    ensures Refused(cfg, s, m) <==> Above(Candidate(cfg, s, m), cfg.end) || Candidate(cfg, s, m) == 0
  {
    hide Above, Before;
  }

  lemma Unfair(cfg: Config, es: seq<Event>, m: Message, a: u32)
    requires cfg.start <= a <= cfg.end && m.cookie
    ensures var s := Run(cfg, Fresh(cfg), es);
            Stranger(s.leases, m) && Refused(cfg, s, m) && !Leased(s.leases, a) ==> !AllocatorCorrect(cfg)
  {
    hide Run, Refused, Stranger;
    var s := Run(cfg, Fresh(cfg), es);
    if Stranger(s.leases, m) && Refused(cfg, s, m) && !Leased(s.leases, a) { assert !Fair(cfg, s); }
  }

  lemma Unsound(cfg: Config, es: seq<Event>)
    ensures var s := Run(cfg, Fresh(cfg), es); !Sound(cfg, s) ==> !AllocatorCorrect(cfg)
  {
    hide Run, Sound;
  }

  lemma Misplaces(cfg: Config, es: seq<Event>)
    requires !InPool(cfg, Run(cfg, Fresh(cfg), es).leases)
    ensures !AllocatorCorrect(cfg)
  {
    hide Run, DistinctAddresses, InPool, AllocatorCorrect;
    Unsound(cfg, es);
  }

  lemma Repeats(cfg: Config, es: seq<Event>)
    requires !DistinctAddresses(Run(cfg, Fresh(cfg), es).leases)
    ensures !AllocatorCorrect(cfg)
  {
    hide Run, DistinctAddresses, InPool, AllocatorCorrect;
    Unsound(cfg, es);
  }

  // ----- a pool that can be filled ------------------------------------------

  /** What the cursor has passed: its last address lies behind, and the stored
      words of what it passed are in ascending order. */
  predicate Passed(cfg: Config, leases: seq<Lease>, i: nat, c: int) {
    && i <= |leases| && cfg.start <= c <= cfg.end + 1
    && (c > cfg.start ==> exists j :: 0 <= j < i && leases[j].ip == c - 1)
    && (forall a: u32 :: cfg.start <= a && a + 1 < c ==> Raw(a) < Raw(a + 1))
  }

  lemma PassedStep(cfg: Config, leases: seq<Lease>, i: nat, c: u32)
    requires RawSorted(leases) && i < |leases| && leases[i].ip == c <= cfg.end && Passed(cfg, leases, i, c)
    ensures Passed(cfg, leases, i + 1, c + 1)
  {
    hide Raw;
    if c > cfg.start {
      var j :| 0 <= j < i && leases[j].ip == c - 1;
      assert Raw(leases[j].ip) < Raw(leases[i].ip);
    }
  }

  /** Where the loop leaves the cursor when it started at the start of the pool. */
  lemma {:induction false} SearchPasses(cfg: Config, leases: seq<Lease>, i: nat, mac: Mac,
                                        c: int, first: u32, passed: bool)
    requires 0 < cfg.start && InPool(cfg, leases) && RawSorted(leases) && Passed(cfg, leases, i, c)
    requires forall k :: i <= k < |leases| ==> leases[k].mac != mac
    ensures var r := Search(leases, i, mac, Wrap32(c), first, passed);
            r.Unknown? && exists c' :: Passed(cfg, leases, |leases|, c') && r.cursor == Wrap32(c')
    decreases |leases| - i
  {
    hide Above, RawSorted, InPool, Raw;
    if i < |leases| {
      var cursor := Wrap32(c);
      var c' := if leases[i].ip == cursor then c + 1 else c;
      assert cfg.start <= leases[i].ip <= cfg.end by { InPoolAt(cfg, leases, i); }
      if leases[i].ip == cursor {
        PassedStep(cfg, leases, i, c);
        assert Succ(cursor) == Wrap32(c');
      }
      assert Passed(cfg, leases, i + 1, c');
      hide Passed, Succ, Wrap32;
      if passed || Above(leases[i].ip, first) {
        SearchPasses(cfg, leases, i + 1, mac, c', first, true);
      } else {
        SearchPasses(cfg, leases, i + 1, mac, c', Succ(first), false);
      }
    }
  }

  lemma InPoolAt(cfg: Config, leases: seq<Lease>, i: nat)
    requires InPool(cfg, leases) && i < |leases|
    ensures cfg.start <= leases[i].ip <= cfg.end
  {}

  /** One client more than a pool of several blocks has addresses: the cursor
      stops on an address of the pool. */
  lemma FullCandidate(cfg: Config, s: State)
    requires 0 < cfg.start <= cfg.end && Serving(cfg, s, Size(cfg)) && cfg.start / 256 != cfg.end / 256
    ensures Stranger(s.leases, Discover(Size(cfg)))
    ensures var r := Search(s.leases, 0, Size(cfg), s.cursor, cfg.start, false);
            r.Unknown? && cfg.start <= r.cursor <= cfg.end
  {
    var n := Size(cfg);
    hide Search, Laid, RawSorted, Passed, Raw;
    LaidAt(cfg, s.leases, n);
    LaidStranger(cfg, s.leases, n, n);
    PassedNone(cfg, s.leases);
    SearchPasses(cfg, s.leases, 0, n, cfg.start, cfg.start, false);
    var r := Search(s.leases, 0, n, cfg.start, cfg.start, false);
    var c :| Passed(cfg, s.leases, n, c) && r.cursor == Wrap32(c);
    PassedInside(cfg, s.leases, c);
  }

  lemma PassedNone(cfg: Config, leases: seq<Lease>)
    requires cfg.start <= cfg.end
    ensures Passed(cfg, leases, 0, cfg.start) && Wrap32(cfg.start) == cfg.start
  {}

  /** The cursor cannot pass the end of a block. */
  lemma PassedInside(cfg: Config, leases: seq<Lease>, c: int)
    requires cfg.start <= cfg.end && cfg.start / 256 != cfg.end / 256 && Passed(cfg, leases, |leases|, c)
    ensures cfg.start <= c <= cfg.end && Wrap32(c) == c
  {
    hide Raw;
    var a := BlockEnd(cfg);
    var b: u32 := a + 1;
    assert b < c ==> Raw(a) < Raw(b);
  }

  /** Where a pool leaves its first block the stored words descend. */
  lemma BlockEnd(cfg: Config) returns (a: u32)
    requires cfg.start <= cfg.end && cfg.start / 256 != cfg.end / 256
    ensures cfg.start <= a < cfg.end && Raw(a + 1) < Raw(a)
  {
    hide Raw;
    a := cfg.start / 256 * 256 + 255;
    RawByLastOctet(a + 1, a);
  }

  /** A pool of several blocks that can be filled: once it is full the next
      client is given an address that is leased already. */
  lemma RepeatFails(cfg: Config)
    requires 0 < cfg.start <= cfg.end && cfg.start / 256 != cfg.end / 256
    requires forall i :: 0 <= i < Size(cfg) ==> Reachable(cfg, i)
    ensures !DistinctAddresses(Run(cfg, Fresh(cfg), Discovers(Size(cfg) + 1)).leases)
    ensures !AllocatorCorrect(cfg)
  {
    var n := Size(cfg);
    var s := Run(cfg, Fresh(cfg), Discovers(n));
    FillRun(cfg, n);
    DiscoversSnoc(cfg, n);
    hide Run, Receive, DistinctAddresses, AllocatorCorrect, Serving, Reachable;
    RepeatStep(cfg, s);
    Repeats(cfg, Discovers(n + 1));
  }

  lemma RepeatStep(cfg: Config, s: State)
    requires 0 < cfg.start <= cfg.end && Serving(cfg, s, Size(cfg)) && cfg.start / 256 != cfg.end / 256
    requires forall i :: 0 <= i < Size(cfg) ==> Reachable(cfg, i)
    ensures !DistinctAddresses(Receive(cfg, s, Discover(Size(cfg))).state.leases)
  {
    hide Search, Serving, Receive, DistinctAddresses, Discover, Stranger, Reachable;
    FullCandidate(cfg, s);
    RepeatAt(cfg, s, Search(s.leases, 0, Size(cfg), s.cursor, cfg.start, false).cursor);
  }

  lemma RepeatAt(cfg: Config, s: State, a: u32)
    requires 0 < cfg.start <= a <= cfg.end && Serving(cfg, s, Size(cfg)) && Reachable(cfg, a - cfg.start)
    requires Stranger(s.leases, Discover(Size(cfg)))
    requires var r := Search(s.leases, 0, Size(cfg), s.cursor, cfg.start, false); r.Unknown? && r.cursor == a
    ensures !DistinctAddresses(Receive(cfg, s, Discover(Size(cfg))).state.leases)
  {
    hide Search, Laid, Receive, DistinctAddresses, Discover, Stranger, Above, Grant, Leased, RawSorted;
    LaidAt(cfg, s.leases, Size(cfg));
    SentTo(cfg, s, Size(cfg), a);
    GrantedHolds(cfg, s.(renew := false, declined := false), Discover(Size(cfg)), a);
  }

  // ----- a pool that ends at the end of its block ---------------------------

  /** A pool within one block that ends at the last address of the block. */
  predicate EndsAt255(cfg: Config) {
    0 < cfg.start <= cfg.end && cfg.start / 256 == cfg.end / 256 && cfg.end % 256 == 255
  }

  lemma EndFacts(cfg: Config)
    requires EndsAt255(cfg)
    ensures 0 < cfg.start <= cfg.end
    ensures cfg.end == TWO32 - 1 ==> Succ(cfg.end) == 0 && 1 < cfg.start
    ensures cfg.end != TWO32 - 1 ==> Succ(cfg.end) == cfg.end + 1
    ensures forall i :: 0 <= i < Size(cfg) ==> Reachable(cfg, i)
  {
    hide Raw;
    forall i | 0 <= i < Size(cfg) ensures Reachable(cfg, i) { RawOrder(cfg.end, cfg.start + i); }
  }

  /** Addresses with another last octet never compare above the end. */
  lemma BelowEnd(cfg: Config, a: u32)
    requires EndsAt255(cfg) && a % 256 != 255
    ensures !Above(a, cfg.end)
  {
    hide Raw;
    RawByLastOctet(a, cfg.end);
  }

  lemma EndBelow(cfg: Config)
    requires EndsAt255(cfg)
    ensures !Above(Succ(cfg.end), cfg.end)
  {
    assert Succ(cfg.end) % 256 == 0;
    BelowEnd(cfg, Succ(cfg.end));
  }

  /** Within one block the list holds the pool in numeric order. */
  lemma {:induction false} InOrder(cfg: Config, leases: seq<Lease>, j: nat)
    requires EndsAt255(cfg) && Laid(cfg, leases, Size(cfg)) && j < Size(cfg)
    ensures cfg.start + j <= leases[j].ip
    decreases j
  {
    hide Raw;
    if j > 0 {
      InOrder(cfg, leases, j - 1);
      RawOrder(leases[j - 1].ip, leases[j].ip);
    }
  }

  lemma {:induction false} InOrderFromEnd(cfg: Config, leases: seq<Lease>, j: nat)
    requires EndsAt255(cfg) && Laid(cfg, leases, Size(cfg)) && j < Size(cfg)
    ensures leases[j].ip <= cfg.start + j
    decreases Size(cfg) - j
  {
    hide Raw;
    if j + 1 < Size(cfg) {
      InOrderFromEnd(cfg, leases, j + 1);
      RawOrder(leases[j].ip, leases[j + 1].ip);
    }
  }

  /** Over a completely leased pool in numeric order the loop runs the cursor past its end. */
  lemma {:induction false} SearchRuns(cfg: Config, leases: seq<Lease>, i: nat, mac: Mac, first: u32, passed: bool)
    requires cfg.start <= cfg.end && |leases| == Size(cfg) && i < |leases|
    requires forall j :: 0 <= j < |leases| ==> leases[j].ip == cfg.start + j && leases[j].mac != mac
    ensures var r := Search(leases, i, mac, cfg.start + i, first, passed);
            r.Unknown? && r.cursor == Succ(cfg.end)
    decreases |leases| - i
  {
    hide Above;
    if i + 1 < |leases| {
      assert Succ(cfg.start + i) == cfg.start + (i + 1);
      hide Succ;
      if passed || Above(leases[i].ip, first) {
        SearchRuns(cfg, leases, i + 1, mac, first, true);
      } else {
        SearchRuns(cfg, leases, i + 1, mac, Succ(first), false);
      }
    }
  }

  /** One client more than the pool has addresses is sent to the address after the pool. */
  lemma Overflow(cfg: Config, s: State)
    requires EndsAt255(cfg) && Serving(cfg, s, Size(cfg))
    ensures var n, a := Size(cfg), Succ(cfg.end);
            var g := Grant(cfg, s.(renew := false, declined := false), Discover(n), a);
            Receive(cfg, s, Discover(n)).state == if a != 0 then g else g.(leases := s.leases)
  {
    var n, a := Size(cfg), Succ(cfg.end);
    hide EndsAt255, Above, Receive, Grant, Search, Stranger, Succ, Reachable, Discover, Serving;
    EndFacts(cfg);
    EndBelow(cfg);
    FullCursor(cfg, s);
    SentTo(cfg, s, n, a);
  }

  lemma FullCursor(cfg: Config, s: State)
    requires EndsAt255(cfg) && Serving(cfg, s, Size(cfg))
    ensures s.leases != [] && Stranger(s.leases, Discover(Size(cfg)))
    ensures var r := Search(s.leases, 0, Size(cfg), s.cursor, cfg.start, false); r.Unknown? && r.cursor == Succ(cfg.end)
  {
    hide Search, Stranger, Succ, Reachable, Discover, Serving;
    FullInOrder(cfg, s);
    assert cfg.start <= cfg.end;
    hide EndsAt255;
    SearchRuns(cfg, s.leases, 0, Size(cfg), cfg.start, false);
  }

  lemma FullInOrder(cfg: Config, s: State)
    requires EndsAt255(cfg) && Serving(cfg, s, Size(cfg))
    ensures |s.leases| == Size(cfg) && Stranger(s.leases, Discover(Size(cfg))) && s.cursor == cfg.start
    ensures forall j :: 0 <= j < |s.leases| ==> s.leases[j].ip == cfg.start + j && s.leases[j].mac != Size(cfg)
  {
    hide Laid, Stranger, RawSorted, Leased, Discover;
    LaidAt(cfg, s.leases, Size(cfg));
    LaidStranger(cfg, s.leases, Size(cfg), Size(cfg));
    forall j | 0 <= j < |s.leases| ensures s.leases[j].ip == cfg.start + j {
      InOrder(cfg, s.leases, j);
      InOrderFromEnd(cfg, s.leases, j);
    }
  }

  /** The run after which a pool that ends at the end of its block has given out an address outside itself. */
  function OverflowRun(cfg: Config): seq<Event>
    requires cfg.start <= cfg.end
  {
    Discovers(Size(cfg) + (if cfg.end == TWO32 - 1 then 2 else 1))
  }

  /** When the address after the pool is 0.0.0.0 it is refused; the cursor moves
      on, and the client after that is sent to 0.0.0.1. */
  lemma OverflowPastZero(cfg: Config, s: State)
    requires EndsAt255(cfg) && cfg.end == TWO32 - 1 && Serving(cfg, s, Size(cfg))
    ensures var t := Receive(cfg, s, Discover(Size(cfg))).state;
            !InPool(cfg, Receive(cfg, t, Discover(Size(cfg) + 1)).state.leases)
  {
    var n := Size(cfg);
    var t := Receive(cfg, s, Discover(n)).state;
    hide EndsAt255, Above, Receive, Laid, Search, Stranger, Grant, InPool, Reachable, Succ, Discover;
    EndFacts(cfg);
    ZeroRefused(cfg, s);
    LaidStranger(cfg, s.leases, n, n + 1);
    OneBelow(cfg);
    OneIsFree(cfg, s.leases, n);
    SentTo(cfg, t, n + 1, 1);
    GrantedHolds(cfg, t.(renew := false, declined := false), Discover(n + 1), 1);
  }

  lemma OneIsFree(cfg: Config, leases: seq<Lease>, n: nat)
    requires Laid(cfg, leases, n) && 1 < cfg.start && 0 < n < 0x1_0000_0000_0000 - 1
    ensures leases != [] && var r := Search(leases, 0, n + 1, 1, cfg.start, false); r.Unknown? && r.cursor == 1
  {
    hide Laid, Search, RawSorted, Leased;
    LaidAt(cfg, leases, n);
    SearchSkips(leases, 0, n + 1, 1, cfg.start, false);
  }

  lemma OneBelow(cfg: Config)
    requires EndsAt255(cfg)
    ensures !Above(1, cfg.end)
  {
    hide Above;
    BelowEnd(cfg, 1);
  }

  /** The client that is sent to 0.0.0.0 gets no entry, and the cursor moves on to 0.0.0.1. */
  lemma ZeroRefused(cfg: Config, s: State)
    requires EndsAt255(cfg) && cfg.end == TWO32 - 1 && Serving(cfg, s, Size(cfg))
    ensures var t := Receive(cfg, s, Discover(Size(cfg))).state; t.cursor == 1 && t.leases == s.leases
  {
    hide EndsAt255, Serving, Receive, Grant, Succ, Discover, Reachable;
    EndFacts(cfg);
    Overflow(cfg, s);
    GrantIs(cfg, s.(renew := false, declined := false), Size(cfg), 0);
    SuccZero();
  }

  lemma SuccZero()
    ensures Succ(0) == 1
  {}

  /** A pool that ends at the last address of its block: once it is full the next
      client, or the one after it, is given an address outside the pool. */
  lemma EndsAt255Fails(cfg: Config)
    requires EndsAt255(cfg)
    ensures !InPool(cfg, Run(cfg, Fresh(cfg), OverflowRun(cfg)).leases)
    ensures !AllocatorCorrect(cfg)
  {
    EndFacts(cfg);
    var n := Size(cfg);
    FillRun(cfg, n);
    var s := Run(cfg, Fresh(cfg), Discovers(n));
    DiscoversSnoc(cfg, n);
    DiscoversSnoc(cfg, n + 1);
    hide Run, Receive, EndsAt255, Serving, Succ, Grant, Reachable, Discover, InPool, AllocatorCorrect, Discovers;
    if cfg.end == TWO32 - 1 {
      OverflowPastZero(cfg, s);
    } else {
      Overflow(cfg, s);
      GrantedHolds(cfg, s.(renew := false, declined := false), Discover(n), Succ(cfg.end));
    }
    Misplaces(cfg, OverflowRun(cfg));
  }

  /** The first pool address that compares above the end, if there is one. */
  lemma {:induction false} FirstBlocked(cfg: Config, n: nat) returns (k: nat)
    requires cfg.start <= cfg.end && n <= Size(cfg)
    ensures k <= n && (forall i :: 0 <= i < k ==> Reachable(cfg, i)) && (k < n ==> !Reachable(cfg, k))
    decreases n
  {
    hide Reachable;
    if n == 0 {
      k := 0;
    } else {
      k := FirstBlocked(cfg, n - 1);
      if k == n - 1 && Reachable(cfg, n - 1) { k := n; }
    }
  }

  /** For every non-empty pool: the allocator is correct over all runs exactly
      when the pool does not start at 0.0.0.0 and its addresses and the one after
      it share their first three octets. */
  lemma AllocatorCorrectIff(cfg: Config)
    requires cfg.start <= cfg.end
    ensures AllocatorCorrect(cfg) <==> GoodPool(cfg)
  {
    hide AllocatorCorrect, Reachable;
    if GoodPool(cfg) {
      GoodIsCorrect(cfg);
    } else if cfg.start == 0 {
      ZeroStartFails(cfg);
    } else {
      var k := FirstBlocked(cfg, Size(cfg));
      if k < Size(cfg) {
        BlockedFails(cfg, k);
      } else if cfg.start / 256 != cfg.end / 256 {
        RepeatFails(cfg);
      } else {
        EndsAt255Fails(cfg);
      }
    }
  }
}
