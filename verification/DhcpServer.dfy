/** The DHCP server object: the fields of `dhcps_t` that the allocator works on,
    updated in place by the server's entry points. Each method is proved to do
    what the corresponding function of `DhcpLeases` and `DhcpPool` says. The
    lease list is held as the sequence of its entries. */
module DhcpServer {
  import opened Words
  import opened Bits
  import opened DhcpOptions
  import opened DhcpLeases
  import opened DhcpPool

  /** What the timer loop has left of the list: the entries it has passed, and the rest expired. */
  function Expiring(s: seq<Lease>, i: nat): seq<Lease>
    requires i <= |s|
  {
    s[..i] + Expire(s[i..])
  }

  lemma ExpiringDrop(s: seq<Lease>, i: nat)
    requires i < |s| && Aged(s[i]).timer == 0
    ensures Expiring(s[..i] + s[i + 1..], i) == Expiring(s, i)
  {
    var t := s[..i] + s[i + 1..];
    assert t[..i] == s[..i] && t[i..] == s[i + 1..] == s[i..][1..];
    assert Expire(s[i..]) == [] + Expire(s[i + 1..]) == Expire(s[i + 1..]);
  }

  lemma ExpiringKeep(s: seq<Lease>, i: nat)
    requires i < |s| && Aged(s[i]).timer != 0
    ensures Expiring(s[i := Aged(s[i])], i + 1) == Expiring(s, i)
  {
    var t := s[i := Aged(s[i])];
    assert t[..i + 1] == s[..i] + [Aged(s[i])] && t[i + 1..] == s[i + 1..] == s[i..][1..];
    assert Expire(s[i..]) == [Aged(s[i])] + Expire(s[i + 1..]);
  }

  lemma ExpiringEnds(s: seq<Lease>)
    ensures Expiring(s, 0) == Expire(s) && Expiring(s, |s|) == s
  {
    assert s[0..] == s && s[..|s|] == s && s[|s|..] == [];
  }

  /** A lease time in seconds, which C keeps in 32 bits, in whole periods of the timer. */
  function FreshTimer(product: int, seconds: positive): u32 { Wrap32(product) / seconds }

  /** Unless the lease time overflows, the timer counts its whole periods. */
  lemma FreshTimerExact(product: u32, seconds: positive)
    ensures var t := FreshTimer(product, seconds); t * seconds <= product < t * seconds + seconds
  {
    hide Wrap32;
    WrapId(product);
    DivBounds(product, seconds);
  }

  lemma DivBounds(x: nat, d: positive)
    ensures x / d * d <= x < x / d * d + d
  {}

  class Server {
    var pool: Pool
    var mask: u32
    var address: u32
    var leaseTime: u32
    const leaseUnit: u32
    const timerSeconds: positive
    const maxLeases: positive
    const maxStations: positive

    var leases: seq<Lease>
    var client: u32
    var cursor: u32
    var renew: bool
    var declined: bool

    function LeaseTimer(): u32
      reads this
    {
      FreshTimer(leaseTime * leaseUnit, timerSeconds)
    }

    function Cfg(): Config
      reads this
    {
      Config(pool.start, pool.end, LeaseTimer(), maxStations)
    }

    function View(): State
      reads this
    {
      State(leases, client, cursor, renew, declined)
    }

    /** `dhcps_new`. */
    constructor (leaseUnit: u32, timerSeconds: positive, maxLeases: positive, maxStations: positive)
      ensures leases == [] && !declined && !pool.enable && mask == Quad(255, 255, 255, 0) && leaseTime == 120
    {
      this.leaseUnit, this.timerSeconds, this.maxLeases, this.maxStations
        := leaseUnit, timerSeconds, maxLeases, maxStations;
      pool := Pool(false, 0, 0);
      mask := Quad(255, 255, 255, 0);
      address, client, cursor := 0, 0, 0;
      leaseTime := 120;
      leases := [];
      renew, declined := false, false;
    }

    /** `dhcps_start`: refuses the zero address, a mask that is not contiguous and
        an address that is the network or the broadcast address; otherwise sets
        the pool and puts the cursor at its start. A server without leases is
        then in a state from which, over a good pool, every run is safe. */
    method Start(ip: u32) returns (ok: bool)
      modifies this`address, this`pool, this`cursor
      ensures ok <==> ip != 0 && MaskAccepted(mask) && ip != Network(ip, mask) && ip != Broadcast(ip, mask)
      ensures ok ==> address == ip && pool == PollSet(old(pool), ip, mask, maxLeases) && cursor == pool.start
      ensures !ok ==> pool == old(pool) && cursor == old(cursor)
      ensures ok && leases == [] && GoodPool(Cfg()) ==> Inv(Cfg(), View())
    {
      hide Network, Broadcast, MaskAccepted, PollSet;
      if ip == 0 { return false; }
      address := ip;
      if !MaskAccepted(mask) { return false; }
      if ip == Broadcast(ip, mask) || ip == Network(ip, mask) { return false; }
      pool := PollSetSteps(pool, ip, mask, maxLeases);
      cursor := pool.start;
      ok := true;
    }

    /** `dhcps_stop`: the entries are unlinked one by one from the head. */
    method Stop()
      modifies this`leases
      ensures leases == []
    {
      while leases != []
        decreases |leases|
      {
        leases := leases[1..];
      }
    }

    /** A stop and a start with the same address: without leases, and with the cursor at the
        start of the pool, which is the same pool if it passes the checks of a start. */
    method StopAndStart() returns (ok: bool)
      modifies this`leases, this`address, this`pool, this`cursor
      ensures leases == [] && pool == if ok then PollSet(old(pool), old(address), mask, maxLeases) else old(pool)
      ensures ok && pool == old(pool) ==> View() == Restart(Cfg(), old(View()))
    {
      Stop();
      ok := Start(address);
    }

    /** `node_insert_to_list`: the new entry goes before the first larger one. */
    method InsertNode(l: Lease) returns (p: nat)
      modifies this`leases
      ensures p == InsertPos(old(leases), 0, l.ip) && leases == InsertAt(old(leases), p, l)
      ensures p < |leases|
    {
      hide Above;
      p := 0;
      while p < |leases| && !Above(leases[p].ip, l.ip)
        invariant p <= |leases|
        invariant InsertPos(leases, p, l.ip) == InsertPos(leases, 0, l.ip)
      {
        p := p + 1;
      }
      leases := InsertAt(leases, p, l);
    }

    /** The part of `parse_msg` from POOL_CHECK on. */
    method PoolCheck(node: Option<nat>, m: Message) returns (ret: int)
      requires node.Some? ==> node.value < |leases|
      modifies this`leases, this`client, this`declined
      ensures Outcome(View(), ret) == Answer(Cfg(), old(View()), node, m)
    {
      hide Above, ParseOptions;
      if Above(client, pool.end) || client == 0 {
        if node.Some? { leases := RemoveAt(leases, node.value); }
        return STATE_NAK;
      }
      ret := ParseOptionsLoop(m.opts, m.len, client, renew);
      if ret == STATE_RELEASE || ret == STATE_NAK || ret == STATE_DECLINE {
        if node.Some? { leases := RemoveAt(leases, node.value); }
        if ret == STATE_DECLINE { declined := true; }
        client := 0;
      }
    }

    /** `parse_msg`. */
    method ParseMsg(m: Message) returns (ret: int)
      modifies this`leases, this`client, this`cursor, this`renew, this`declined
      ensures Outcome(View(), ret) == Receive(Cfg(), old(View()), m)
    {
      hide Above, Succ, Answer, InsertPos, InsertAt;
      if !m.cookie { return 0; }
      var first := pool.start;
      var node: Option<nat> := None;
      client := cursor;
      renew := false;
      if leases != [] {
        declined := false;
        var i, passed := 0, false;
        while i < |leases|
          invariant i <= |leases| && leases == old(leases) && client == cursor && !renew && !declined
          invariant Search(leases, i, m.chaddr, cursor, first, passed)
                    == Search(leases, 0, m.chaddr, old(cursor), pool.start, false)
        {
          if leases[i].mac == m.chaddr {
            if leases[i].ip == m.ciaddr { renew := true; }
            client := leases[i].ip;
            leases := leases[i := leases[i].(timer := LeaseTimer())];
            ret := PoolCheck(Some(i), m);
            return;
          } else if leases[i].ip == cursor {
            cursor := Succ(cursor);
            client := cursor;
          }
          if !passed {
            if Above(leases[i].ip, first) { passed := true; } else { first := Succ(first); }
          }
          i := i + 1;
        }
      } else if declined {
        declined := false;
      } else {
        client := pool.start;
      }
      if Above(cursor, pool.end) { client := first; }
      if Above(client, pool.end) {
        cursor := pool.start;
      } else {
        var p := InsertNode(Lease(m.chaddr, client, LeaseTimer()));
        node := Some(p);
        cursor := if client == pool.end then pool.start else Succ(client);
      }
      ret := PoolCheck(node, m);
    }

    /** `kill_oldest_dhcps_pool`. */
    method KillOldest()
      requires |leases| >= 2
      modifies this`leases
      ensures leases == RemoveAt(old(leases), Oldest(old(leases), 1, 0))
    {
      var p, oldest := 1, 0;
      while p < |leases|
        invariant 0 <= oldest < p <= |leases|
        invariant Oldest(leases, p, oldest) == Oldest(leases, 1, 0)
      {
        if leases[p].timer < leases[oldest].timer { oldest := p; }
        p := p + 1;
      }
      leases := RemoveAt(leases, oldest);
    }

    /** The loop of `dhcps_tmr`: lowers the timers and unlinks what has expired,
        counting the rest in eight bits. */
    method ExpireLeases() returns (count: int)
      modifies this`leases
      ensures leases == Expire(old(leases)) && count == |leases| % 256
    {
      hide Expire, Expiring;
      var i := 0;
      count := 0;
      ExpiringEnds(leases);
      while i < |leases|
        invariant i <= |leases| && count == i % 256
        invariant Expiring(leases, i) == Expire(old(leases))
        decreases |leases| - i
      {
        var l := leases[i].(timer := Wrap32(leases[i].timer - 1));
        if l.timer == 0 {
          ExpiringDrop(leases, i);
          leases := leases[..i] + leases[i + 1..];
        } else {
          ExpiringKeep(leases, i);
          leases := leases[i := l];
          i := i + 1;
          count := (count + 1) % 256;
        }
      }
      ExpiringEnds(leases);
    }

    /** `dhcps_tmr` of a started server. */
    method Tmr()
      modifies this`leases
      ensures View() == Tick(Cfg(), old(View()))
    {
      var count := ExpireLeases();
      if count > maxStations {
        KillOldest();
      }
    }

    /** `dhcp_search_ip_on_mac`. */
    method SearchIpOnMac(mac: Mac) returns (r: Option<u32>)
      ensures r == (match LeaseOf(leases, mac) case Some(l) => Some(l.ip) case None => None)
    {
      var i := 0;
      assert leases[0..] == leases;
      while i < |leases|
        invariant i <= |leases| && LeaseOf(leases[i..], mac) == LeaseOf(leases, mac)
      {
        assert leases[i..][1..] == leases[i + 1..];
        if leases[i].mac == mac { return Some(leases[i].ip); }
        i := i + 1;
      }
      return None;
    }
  }
}
