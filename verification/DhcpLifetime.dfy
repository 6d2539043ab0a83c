/** What happens to one client's lease over a run: nobody else's messages touch
    it, its own messages are answered with its address, and without messages
    of its own it is gone when its timer has run down. */
module DhcpLifetime {
  import opened Words
  import opened DhcpOptions
  import opened DhcpLeases
  import opened DhcpSafety
  import opened DhcpExact

  lemma {:induction false} LeaseOfEntry(leases: seq<Lease>, k: nat)
    requires DistinctMacs(leases) && k < |leases|
    ensures LeaseOf(leases, leases[k].mac) == Some(leases[k])
  {
    if k > 0 {
      assert leases[0].mac != leases[k].mac;
      LeaseOfEntry(leases[1..], k - 1);
    }
  }

  /** Two lists with the same entries for a client give the same answer. */
  lemma LeaseOfSame(a: seq<Lease>, b: seq<Lease>, mac: Mac)
    requires DistinctMacs(a) && DistinctMacs(b)
    requires forall l: Lease :: l.mac == mac ==> (l in a <==> l in b)
    ensures LeaseOf(a, mac) == LeaseOf(b, mac)
  {
    if LeaseOf(a, mac).Some? {
      var l := LeaseOf(a, mac).value;
      assert l in b;
      var k :| 0 <= k < |b| && b[k] == l;
      LeaseOfEntry(b, k);
    }
  }

  // ----- other clients' messages --------------------------------------------

  lemma RemoveMembers<T>(s: seq<T>, p: nat, x: T)
    requires p < |s| && x != s[p]
    ensures x in RemoveAt(s, p) <==> x in s
  {
    if x in s {
      var k :| 0 <= k < |s| && s[k] == x;
      assert x in s[..p] || x in s[p + 1..];
    }
  }

  lemma AnswerOthers(cfg: Config, s: State, node: Option<nat>, m: Message, l: Lease)
    requires node.Some? ==> node.value < |s.leases| && s.leases[node.value].mac == m.chaddr
    requires l.mac != m.chaddr
    ensures l in Answer(cfg, s, node, m).state.leases <==> l in s.leases
  {
    hide Above, ParseOptions, RemoveAt;
    if node.Some? { RemoveMembers(s.leases, node.value, l); }
  }

  lemma AllocateOthers(cfg: Config, s: State, first: u32, m: Message, l: Lease)
    requires l.mac != m.chaddr
    ensures l in Allocate(cfg, s, first, m).state.leases <==> l in s.leases
  {
    var ca := if Above(s.cursor, cfg.end) then first else s.client;
    var g := Grant(cfg, s, m, ca);
    AnswerOthers(cfg, s.(client := ca, cursor := cfg.start), None, m, l);
    AnswerOthers(cfg, g, Some(InsertPos(s.leases, 0, ca)), m, l);
    assert l in g.leases <==> l in s.leases;
    hide Answer, Grant, InsertPos, Above;
  }

  lemma ReceiveOthers(cfg: Config, s: State, m: Message, l: Lease)
    requires l.mac != m.chaddr
    ensures l in Receive(cfg, s, m).state.leases <==> l in s.leases
  {
    if m.cookie {
      var s0 := s.(client := s.cursor, renew := false, declined := false);
      var r := Search(s.leases, 0, m.chaddr, s.cursor, cfg.start, false);
      if s.leases == [] {
        AllocateOthers(cfg, s0.(client := if s.declined then s.cursor else cfg.start), cfg.start, m, l);
      } else if r.Unknown? {
        AllocateOthers(cfg, s0.(client := r.cursor, cursor := r.cursor), r.first, m, l);
      } else {
        var e := s.leases[r.index];
        var t := s.leases[r.index := e.(timer := cfg.leaseTimer)];
        UpdateOthers(s.leases, r.index, e.(timer := cfg.leaseTimer), l);
        AnswerOthers(cfg, s0.(leases := t, client := e.ip, cursor := r.cursor, renew := e.ip == m.ciaddr),
                     Some(r.index), m, l);
      }
      hide Answer, Allocate, Search;
    }
  }

  lemma UpdateOthers(leases: seq<Lease>, i: nat, e: Lease, l: Lease)
    requires i < |leases| && leases[i].mac == e.mac != l.mac
    ensures l in leases[i := e] <==> l in leases
  {
    var t := leases[i := e];
    if l in leases {
      var k :| 0 <= k < |leases| && leases[k] == l;
      assert t[k] == l;
    }
    if l in t {
      var k :| 0 <= k < |t| && t[k] == l;
      assert leases[k] == l;
    }
  }

  /** A message from one client leaves every other client's entry as it was. */
  lemma OthersUntouched(cfg: Config, s: State, m: Message, mac: Mac)
    requires Inv(cfg, s) && mac != m.chaddr
    ensures LeaseOf(Receive(cfg, s, m).state.leases, mac) == LeaseOf(s.leases, mac)
  {
    ReceiveInv(cfg, s, m);
    var r := Receive(cfg, s, m).state.leases;
    forall l: Lease | l.mac == mac ensures l in r <==> l in s.leases { ReceiveOthers(cfg, s, m, l); }
    hide Receive;
    LeaseOfSame(r, s.leases, mac);
  }

  // ----- a client's own messages --------------------------------------------

  /** A client with an entry: either its message is answered for the entry's
      address and the timer is set anew, or the entry is gone and the reply
      state is a release, a refusal or a decline. */
  lemma OwnMessage(cfg: Config, s: State, m: Message)
    requires Inv(cfg, s) && m.cookie && LeaseOf(s.leases, m.chaddr).Some?
    ensures var l := LeaseOf(s.leases, m.chaddr).value;
            var o := Receive(cfg, s, m);
            var renewing := l.ip == m.ciaddr;
            && o.ret == ParseOptions(m.opts, m.len, l.ip, renewing)
            && (if o.ret == STATE_RELEASE || o.ret == STATE_NAK || o.ret == STATE_DECLINE then
                  LeaseOf(o.state.leases, m.chaddr).None? && o.state.client == 0
                else
                  LeaseOf(o.state.leases, m.chaddr) == Some(l.(timer := cfg.leaseTimer)) && o.state.client == l.ip)
  {
    ReceiveInv(cfg, s, m);
    var r := Search(s.leases, 0, m.chaddr, s.cursor, cfg.start, false);
    var o := Receive(cfg, s, m);
    var i := r.index;
    LeaseOfEntry(s.leases, i);
    var l := s.leases[i];
    PoolOrder(cfg, l.ip, cfg.end);
    var t := s.leases[i := l.(timer := cfg.leaseTimer)];
    hide Above, ParseOptions, Search, LeaseOf;
    if o.ret == STATE_RELEASE || o.ret == STATE_NAK || o.ret == STATE_DECLINE {
      assert o.state.leases == RemoveAt(t, i);
      NoneLeft(t, i);
    } else {
      assert o.state.leases == t && t[i] == l.(timer := cfg.leaseTimer);
      LeaseOfEntry(t, i);
    }
  }

  lemma NoneLeft(leases: seq<Lease>, i: nat)
    requires i < |leases|
    requires forall j :: 0 <= j < |leases| && j != i ==> leases[j].mac != leases[i].mac
    ensures LeaseOf(RemoveAt(leases, i), leases[i].mac).None?
  {
    var r := RemoveAt(leases, i);
    forall l | l in r ensures l.mac != leases[i].mac {
      var k :| 0 <= k < |r| && r[k] == l;
    }
  }

  // ----- ticks --------------------------------------------------------------

  /** An entry one tick older, or none when that ends it. */
  function Older(e: Option<Lease>): Option<Lease> {
    if e.None? || Aged(e.value).timer == 0 then None else Some(Aged(e.value))
  }

  lemma {:induction false} ExpireLeaseOf(leases: seq<Lease>, mac: Mac)
    requires DistinctMacs(leases)
    ensures LeaseOf(Expire(leases), mac) == Older(LeaseOf(leases, mac))
  {
    if leases != [] {
      ExpireLeaseOf(leases[1..], mac);
      var rest := Expire(leases[1..]);
      var head := Aged(leases[0]);
      assert head.mac == leases[0].mac;
      if leases[0].mac == mac {
        assert LeaseOf(leases[1..], mac).None?;
      }
      if head.timer != 0 {
        assert ([head] + rest)[1..] == rest;
      } else {
        assert Expire(leases) == [] + rest == rest;
      }
    }
  }

  lemma {:induction false} SortedCount(cfg: Config, leases: seq<Lease>, k: nat)
    requires Sorted(leases) && InPool(cfg, leases) && k < |leases|
    ensures cfg.start + k <= leases[k].ip
  {
    if k > 0 { SortedCount(cfg, leases, k - 1); }
  }

  /** The list is never longer than the pool, and fits the eight-bit counter. */
  lemma CounterFits(cfg: Config, s: State)
    requires Inv(cfg, s)
    ensures |s.leases| <= cfg.end - cfg.start + 1 <= 255
  {
    if s.leases != [] { SortedCount(cfg, s.leases, |s.leases| - 1); }
  }

  /** `v` is the first entry with the smallest timer. */
  predicate FirstOldest(leases: seq<Lease>, v: nat) {
    && v < |leases|
    && (forall k :: 0 <= k < |leases| ==> leases[v].timer <= leases[k].timer)
    && (forall k :: 0 <= k < v ==> leases[v].timer < leases[k].timer)
  }

  /** One tick: every client's timer goes down by one, an entry reaching zero
      goes away, and if more than the allowed number of stations remain, exactly
      the first entry with the smallest timer goes too. */
  lemma TickExact(cfg: Config, s: State)
    requires Inv(cfg, s)
    ensures var e, r := Expire(s.leases), Tick(cfg, s).leases;
            && (forall mac: Mac :: LeaseOf(e, mac) == Older(LeaseOf(s.leases, mac)))
            && (if |e| <= cfg.maxStations then r == e else exists v: nat :: FirstOldest(e, v) && r == RemoveAt(e, v))
  {
    var e := Expire(s.leases);
    forall mac: Mac ensures LeaseOf(e, mac) == Older(LeaseOf(s.leases, mac)) { ExpireLeaseOf(s.leases, mac); }
    CounterFits(cfg, s);
    if |e| > cfg.maxStations {
      var v := Oldest(e, 1, 0);
      assert FirstOldest(e, v);
    }
  }

  lemma TickLeaseOf(cfg: Config, s: State, mac: Mac)
    requires Inv(cfg, s)
    ensures var r := LeaseOf(Tick(cfg, s).leases, mac); r.None? || r == Older(LeaseOf(s.leases, mac))
  {
    TickExact(cfg, s);
    TickInv(cfg, s);
    ExpireKeeps(cfg, s.leases);
    var e, r := Expire(s.leases), Tick(cfg, s).leases;
    hide Tick, Expire, Oldest;
    if LeaseOf(r, mac).Some? {
      var l := LeaseOf(r, mac).value;
      assert l in e;
      var k :| 0 <= k < |e| && e[k] == l;
      LeaseOfEntry(e, k);
    }
  }

  // ----- runs ---------------------------------------------------------------

  /** The client sends nothing the server looks at. */
  predicate Silent(es: seq<Event>, mac: Mac) {
    forall e :: e in es ==> e.Arrives? ==> e.m.chaddr != mac || !e.m.cookie
  }

  function TicksIn(es: seq<Event>): nat
    decreases |es|
  {
    if es == [] then 0 else (if es[0].Ticks? then 1 else 0) + TicksIn(es[1..])
  }

  /** The ticks an entry has left. A timer of zero is lowered to 2^32 - 1 first. */
  function Life(timer: u32): nat { if timer == 0 then TWO32 else timer }

  lemma AgedLife(timer: u32)
    ensures var t := Wrap32(timer - 1);
            && (t == 0 <==> Life(timer) == 1)
            && (t != 0 ==> Life(t) == Life(timer) - 1)
  {}

  lemma WrapTwice(t: int, a: int, b: int)
    ensures Wrap32(Wrap32(t - a) - b) == Wrap32(t - a - b)
  {}

  lemma WrapNone(t: u32)
    ensures Wrap32(t - 0) == t
  {}

  lemma SilentStep(cfg: Config, s: State, e: Event, mac: Mac)
    requires Inv(cfg, s) && Silent([e], mac)
    ensures var r := LeaseOf(Step(cfg, s, e).leases, mac);
            var l := LeaseOf(s.leases, mac);
            r.Some? ==> l.Some? && r.value == l.value.(timer := Wrap32(l.value.timer - TicksIn([e])))
                        && Life(r.value.timer) == Life(l.value.timer) - TicksIn([e])
  {
    assert Silent([e], mac) ==> (e.Arrives? ==> e.m.chaddr != mac || !e.m.cookie) by { assert e in [e]; }
    TicksInOne(e);
    hide Receive, Tick, LeaseOf, Inv, TicksIn, Silent, Wrap32, Life;
    var l := LeaseOf(s.leases, mac);
    if l.Some? {
      AgedLife(l.value.timer);
      WrapNone(l.value.timer);
    }
    match e
    case Arrives(m) => if m.cookie { OthersUntouched(cfg, s, m, mac); } else { NoCookie(cfg, s, m); }
    case Ticks => TickLeaseOf(cfg, s, mac);
    case Restarts => NoLeases(mac);
  }

  lemma NoCookie(cfg: Config, s: State, m: Message)
    requires !m.cookie
    ensures Receive(cfg, s, m).state == s
  {}

  lemma NoLeases(mac: Mac)
    ensures LeaseOf([], mac).None?
  {}

  lemma TicksInOne(e: Event)
    ensures TicksIn([e]) == if e.Ticks? then 1 else 0
  {
    assert TicksIn([e][1..]) == 0;
  }

  lemma TicksInCons(es: seq<Event>)
    requires es != []
    ensures TicksIn(es) == TicksIn([es[0]]) + TicksIn(es[1..])
  {
    TicksInOne(es[0]);
  }

  lemma SilentTail(es: seq<Event>, mac: Mac)
    requires Silent(es, mac) && es != []
    ensures Silent(es[1..], mac) && Silent([es[0]], mac)
  {}

  /** Over any run in which a client stays silent, whatever the others do, its
      entry is either gone or older by exactly the ticks of the run; so an entry
      is gone when its life has run out, and a silent stranger never gets an entry. */
  lemma {:induction false} LeaseLifetime(cfg: Config, s: State, es: seq<Event>, mac: Mac)
    requires Inv(cfg, s) && Silent(es, mac)
    ensures var l := LeaseOf(s.leases, mac);
            var r := LeaseOf(Run(cfg, s, es).leases, mac);
            r.Some? ==> l.Some? && TicksIn(es) < Life(l.value.timer)
                        && r.value == l.value.(timer := Wrap32(l.value.timer - TicksIn(es)))
    decreases |es|
  {
    hide Step, Inv, LeaseOf, TicksIn, Silent, Wrap32, Life;
    var l := LeaseOf(s.leases, mac);
    if es == [] {
      if l.Some? { WrapNone(l.value.timer); LifePositive(l.value.timer); }
      NoTicks();
    } else {
      SilentTail(es, mac);
      SilentStep(cfg, s, es[0], mac);
      StepInv(cfg, s, es[0]);
      TicksInCons(es);
      var t := Step(cfg, s, es[0]);
      LeaseLifetime(cfg, t, es[1..], mac);
      if l.Some? { WrapTwice(l.value.timer, TicksIn([es[0]]), TicksIn(es[1..])); }
    }
  }

  lemma LifePositive(timer: u32)
    ensures 0 < Life(timer)
  {}

  lemma NoTicks()
    ensures TicksIn([]) == 0
  {}

  // ----- a single client ----------------------------------------------------

  function Ticking(n: nat): seq<Event> { seq(n, _ => Ticks) }

  lemma LoneTick(cfg: Config, s: State, l: Lease)
    requires s.leases == [l]
    ensures Tick(cfg, s).leases == if Life(l.timer) == 1 then [] else [Aged(l)]
  {
    AgedLife(l.timer);
    assert [l][1..] == [];
    assert Expire([]) == [];
    assert Expire([l]) == if Aged(l).timer == 0 then [] else [Aged(l)];
  }

  lemma {:induction false} LoneRun(cfg: Config, s: State, l: Lease, n: nat)
    requires s.leases == [l]
    ensures Run(cfg, s, Ticking(n)).leases == if n < Life(l.timer) then [l.(timer := Wrap32(l.timer - n))] else []
    decreases n
  {
    hide Tick, Wrap32, Life;
    LifePositive(l.timer);
    if n == 0 {
      WrapNone(l.timer);
      assert Ticking(0) == [];
    } else {
      LoneTick(cfg, s, l);
      AgedLife(l.timer);
      assert Ticking(n)[1..] == Ticking(n - 1) && Ticking(n)[0] == Ticks;
      var t := Tick(cfg, s);
      if Life(l.timer) == 1 {
        EmptyRun(cfg, t, n - 1);
      } else {
        LoneRun(cfg, t, Aged(l), n - 1);
        WrapTwice(l.timer, 1, n - 1);
      }
    }
  }

  lemma {:induction false} EmptyRun(cfg: Config, s: State, n: nat)
    requires s.leases == []
    ensures Run(cfg, s, Ticking(n)).leases == []
    decreases n
  {
    if n == 0 {
      assert Ticking(0) == [];
    } else {
      assert Ticking(n)[1..] == Ticking(n - 1) && Ticking(n)[0] == Ticks;
      EmptyRun(cfg, Tick(cfg, s), n - 1);
    }
  }

  /** A single client that is served and then falls silent keeps its entry for
      exactly the life of a fresh timer: `leaseTimer` ticks, but 2^32 ticks if the
      lease time comes to a timer of zero. */
  lemma LoneClientLife(cfg: Config, n: nat)
    requires GoodPool(cfg)
    ensures Run(cfg, Fresh(cfg), [Arrives(Discover(0))] + Ticking(n)).leases ==
            if n < Life(cfg.leaseTimer) then [Lease(0, cfg.start, Wrap32(cfg.leaseTimer - n))] else []
  {
    hide GoodPool, Step, Wrap32, Life, Discover;
    var e := Arrives(Discover(0));
    assert ([e] + Ticking(n))[1..] == Ticking(n);
    FirstServed(cfg);
    LoneRun(cfg, Step(cfg, Fresh(cfg), e), Lease(0, cfg.start, cfg.leaseTimer), n);
  }

  lemma FirstServed(cfg: Config)
    requires GoodPool(cfg)
    ensures Step(cfg, Fresh(cfg), Arrives(Discover(0))).leases == [Lease(0, cfg.start, cfg.leaseTimer)]
  {
    hide Raw, Receive, Above;
    PoolOrder(cfg, cfg.start, cfg.end);
    assert 0 < cfg.start <= cfg.end;
    hide GoodPool;
    assert Serving(cfg, Fresh(cfg), 0);
    ReachableIs(cfg, 0);
    ServeStep(cfg, Fresh(cfg), 0);
  }

  // ----- a client's address over a run --------------------------------------

  /** The client's entry is there throughout the run. */
  predicate KeepsLease(cfg: Config, s: State, es: seq<Event>, mac: Mac)
    decreases |es|
  {
    LeaseOf(s.leases, mac).Some? && (es != [] ==> KeepsLease(cfg, Step(cfg, s, es[0]), es[1..], mac))
  }

  /** Every message of the client in the run is answered for address `ip`. */
  predicate AnsweredWith(cfg: Config, s: State, es: seq<Event>, mac: Mac, ip: u32)
    decreases |es|
  {
    es != [] ==>
      && (es[0].Arrives? && es[0].m.chaddr == mac && es[0].m.cookie ==> Step(cfg, s, es[0]).client == ip)
      && AnsweredWith(cfg, Step(cfg, s, es[0]), es[1..], mac, ip)
  }

  lemma StepAddress(cfg: Config, s: State, e: Event, mac: Mac)
    requires Inv(cfg, s) && LeaseOf(s.leases, mac).Some? && LeaseOf(Step(cfg, s, e).leases, mac).Some?
    ensures LeaseOf(Step(cfg, s, e).leases, mac).value.ip == LeaseOf(s.leases, mac).value.ip
    ensures e.Arrives? && e.m.chaddr == mac && e.m.cookie ==>
              Step(cfg, s, e).client == LeaseOf(s.leases, mac).value.ip
  {
    assert LeaseOf([], mac).None?;
    hide Receive, Tick, LeaseOf, Inv;
    match e
    case Arrives(m) =>
      if m.chaddr != mac { OthersUntouched(cfg, s, m, mac); } else if m.cookie { OwnMessage(cfg, s, m); }
    case Ticks => TickLeaseOf(cfg, s, mac);
    case Restarts =>
  }

  /** As long as a client's entry stays in the list its address is the same, and
      every message it sends is answered for that address, whatever the interleaving. */
  lemma {:induction false} AddressStable(cfg: Config, s: State, es: seq<Event>, mac: Mac)
    requires Inv(cfg, s) && KeepsLease(cfg, s, es, mac)
    ensures var ip := LeaseOf(s.leases, mac).value.ip;
            var r := LeaseOf(Run(cfg, s, es).leases, mac);
            r.Some? && r.value.ip == ip && AnsweredWith(cfg, s, es, mac, ip)
    decreases |es|
  {
    if es != [] {
      var t := Step(cfg, s, es[0]);
      StepInv(cfg, s, es[0]);
      assert KeepsLease(cfg, t, es[1..], mac);
      StepAddress(cfg, s, es[0], mac);
      hide Step, Inv, LeaseOf;
      AddressStable(cfg, t, es[1..], mac);
    }
  }
}
