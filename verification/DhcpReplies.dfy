/** What the server answers: the reply state told from the options of a message,
    the exchange of section 4.3 of RFC 2131 as a client sees it, and what each
    option of a reply carries. */
module DhcpReplies {
  import opened Words
  import opened Bits
  import opened DhcpOptions
  import opened DhcpLeases
  import opened DhcpSafety
  import opened DhcpExact
  import opened DhcpLifetime

  // ----- the reply state ----------------------------------------------------

  /** The data of the last option with a code. */
  function LastOf(opts: seq<Opt>, code: byte): (r: Option<seq<byte>>)
    ensures r.Some? ==> Opt(code, r.value) in opts
  {
    if opts == [] then None
    else
      var last := opts[|opts| - 1];
      if last.code == code then Some(last.data) else LastOf(opts[..|opts| - 1], code)
  }

  /** The message type of a block. */
  function TypeOf(opts: seq<Opt>): Option<byte> {
    match LastOf(opts, MSG_TYPE)
    case Some(d) => if |d| == 1 then Some(d[0]) else None
    case None => None
  }

  /** The address a block asks for. */
  function RequestedIn(opts: seq<Opt>): Option<u32> {
    match LastOf(opts, REQ_IPADDR)
    case Some(d) => if |d| == 4 then Some(Quad(d[0], d[1], d[2], d[3])) else None
    case None => None
  }

  predicate WellTypedAll(opts: seq<Opt>) { forall o :: o in opts ==> WellTyped(o) }

  lemma {:induction false} MeaningSnoc(opts: seq<Opt>, o: Opt, client: u32, seen: Seen)
    ensures Meaning(opts + [o], client, seen) == Told(o, client, Meaning(opts, client, seen))
    decreases |opts|
  {
    hide Told;
    if opts == [] {
      assert opts + [o] == [o] && [o][1..] == [];
      assert Meaning([], client, Told(o, client, seen)) == Told(o, client, seen);
    } else {
      assert (opts + [o])[1..] == opts[1..] + [o];
      MeaningSnoc(opts[1..], o, client, Told(opts[0], client, seen));
    }
  }

  lemma {:induction false} MeaningIsLast(opts: seq<Opt>, client: u32)
    requires WellTypedAll(opts)
    ensures var r := Meaning(opts, client, Seen(0, STATE_IDLE));
            && r.msgType == (if TypeOf(opts).Some? then TypeOf(opts).value else 0)
            && r.state == (if RequestedIn(opts).None? then STATE_IDLE
                           else if RequestedIn(opts).value == client then STATE_ACK else STATE_NAK)
    decreases |opts|
  {
    if opts != [] {
      var front, o := opts[..|opts| - 1], opts[|opts| - 1];
      assert opts == front + [o] && o in opts;
      MeaningIsLast(front, client);
      MeaningSnoc(front, o, client, Seen(0, STATE_IDLE));
    }
  }

  /** The message's option area is a well-formed block of these options. */
  predicate Carries(m: Message, opts: seq<Opt>) {
    && NoEnd(opts) && Fits(opts) && WellTypedAll(opts)
    && Holds(m.opts, 0, EncodeOpts(opts)) && At(m.opts, |EncodeOpts(opts)|) == END && m.len > |EncodeOpts(opts)|
  }

  /** The reply state of a well-formed block: a discover is offered, a request is
      acknowledged exactly when it asks for the client's address or, asking for none,
      renews it, a decline and a release are taken as such, and any other type leaves
      the verdict on the requested address. */
  lemma ReplyState(m: Message, opts: seq<Opt>, client: u32, renew: bool)
    requires Carries(m, opts)
    ensures var t, a, r := TypeOf(opts), RequestedIn(opts), ParseOptions(m.opts, m.len, client, renew);
            && (t == Some(1) ==> r == STATE_OFFER)
            && (t == Some(3) && a.Some? ==> r == if a.value == client then STATE_ACK else STATE_NAK)
            && (t == Some(3) && a.None? ==> r == if renew then STATE_ACK else STATE_NAK)
            && (t == Some(4) ==> r == STATE_DECLINE)
            && (t == Some(7) ==> r == STATE_RELEASE)
            && (t.None? || t.value !in {1, 3, 4, 7} ==>
                  r == if a.None? then STATE_IDLE else if a.value == client then STATE_ACK else STATE_NAK)
  {
    ParseEncoded(m.opts, 0, opts, m.len, client, Seen(0, STATE_IDLE));
    MeaningIsLast(opts, client);
    hide Walk, Meaning, TypeOf, RequestedIn, EncodeOpts, Holds, At;
  }

  /** A DHCPREQUEST for 192.168.4.2, byte by byte. */
  const REQUEST_BLOCK: seq<byte> := [53, 1, 3, 50, 4, 192, 168, 4, 2, 255]

  /** It is acknowledged for that address and refused for any other. */
  lemma RequestBlock(client: u32, renew: bool)
    ensures ParseOptions(REQUEST_BLOCK, 10, client, renew) ==
            if client == Quad(192, 168, 4, 2) then STATE_ACK else STATE_NAK
  {
    var mem, start := REQUEST_BLOCK, Seen(0, STATE_IDLE);
    assert At(mem, 0) == 53 && At(mem, 1) == 1 && At(mem, 2) == 3 && At(mem, 3) == 50 && At(mem, 4) == 4;
    assert At(mem, 5) == 192 && At(mem, 6) == 168 && At(mem, 7) == 4 && At(mem, 8) == 2 && At(mem, 9) == 255;
    assert Next(mem, 0) == 3 && Next(mem, 3) == 9;
    var seen := Seen(3, if client == Quad(192, 168, 4, 2) then STATE_ACK else STATE_NAK);
    assert Walk(mem, 9, 10, client, seen) == seen;
    assert Walk(mem, 3, 10, client, Seen(3, STATE_IDLE)) == seen;
    assert Walk(mem, 0, 10, client, start) == seen;
  }

  // ----- a client with a lease ----------------------------------------------

  predicate Drops(ret: int) { ret == STATE_RELEASE || ret == STATE_NAK || ret == STATE_DECLINE }

  /** A request from a client with a lease: asking for the leased address, or renewing it
      without asking, is acknowledged and refreshes the entry; asking for another address, or
      renewing another, is refused and ends it. */
  lemma RequestAnswered(cfg: Config, s: State, m: Message, opts: seq<Opt>)
    requires Inv(cfg, s) && m.cookie && LeaseOf(s.leases, m.chaddr).Some?
    requires Carries(m, opts) && TypeOf(opts) == Some(3)
    ensures var l := LeaseOf(s.leases, m.chaddr).value;
            var o := Receive(cfg, s, m);
            var wanted := if RequestedIn(opts).Some? then RequestedIn(opts).value else m.ciaddr;
            && (wanted == l.ip ==> && o.ret == STATE_ACK && o.state.client == l.ip
                                   && LeaseOf(o.state.leases, m.chaddr) == Some(l.(timer := cfg.leaseTimer)))
            && (wanted != l.ip ==> o.ret == STATE_NAK && LeaseOf(o.state.leases, m.chaddr).None?)
  {
    var l := LeaseOf(s.leases, m.chaddr).value;
    OwnMessage(cfg, s, m);
    ReplyState(m, opts, l.ip, l.ip == m.ciaddr);
    hide Receive, ParseOptions, LeaseOf, Inv, Carries, TypeOf, RequestedIn;
  }

  /** A release and a decline end the client's entry; a decline is remembered. */
  lemma ReleaseEnds(cfg: Config, s: State, m: Message, opts: seq<Opt>)
    requires Inv(cfg, s) && m.cookie && LeaseOf(s.leases, m.chaddr).Some?
    requires Carries(m, opts) && (TypeOf(opts) == Some(4) || TypeOf(opts) == Some(7))
    ensures var o := Receive(cfg, s, m);
            && LeaseOf(o.state.leases, m.chaddr).None? && (o.state.declined <==> TypeOf(opts) == Some(4))
            && o.ret == if TypeOf(opts) == Some(4) then STATE_DECLINE else STATE_RELEASE
  {
    var l := LeaseOf(s.leases, m.chaddr).value;
    OwnMessage(cfg, s, m);
    ReplyState(m, opts, l.ip, l.ip == m.ciaddr);
    DeclinedIff(cfg, s, m);
    hide Receive, ParseOptions, LeaseOf, Inv, Carries, TypeOf, RequestedIn;
  }

  lemma AnswerDeclined(cfg: Config, s: State, node: Option<nat>, m: Message)
    requires !s.declined && (node.Some? ==> node.value < |s.leases|)
    ensures var o := Answer(cfg, s, node, m); o.state.declined <==> o.ret == STATE_DECLINE
  {
    hide Above, ParseOptions, RemoveAt;
  }

  /** The server remembers a declined address exactly after a message that it took as a decline. */
  lemma DeclinedIff(cfg: Config, s: State, m: Message)
    requires m.cookie
    ensures var o := Receive(cfg, s, m); o.state.declined <==> o.ret == STATE_DECLINE
  {
    hide Above, InsertPos, ParseOptions, Answer, Grant;
    var s0 := s.(client := s.cursor, renew := false, declined := false);
    if s.leases == [] {
      AllocateDeclined(cfg, s0.(client := if s.declined then s.cursor else cfg.start), cfg.start, m);
    } else {
      var r := Search(s.leases, 0, m.chaddr, s.cursor, cfg.start, false);
      hide Search, Allocate;
      match r
      case Known(i, cursor) =>
        var l := s.leases[i];
        var s1 := s0.(leases := s.leases[i := l.(timer := cfg.leaseTimer)],
                      client := l.ip, cursor := cursor, renew := l.ip == m.ciaddr);
        AnswerDeclined(cfg, s1, Some(i), m);
      case Unknown(cursor, first) =>
        AllocateDeclined(cfg, s0.(client := cursor, cursor := cursor), first, m);
    }
  }

  lemma AllocateDeclined(cfg: Config, s: State, first: u32, m: Message)
    requires !s.declined
    ensures var o := Allocate(cfg, s, first, m); o.state.declined <==> o.ret == STATE_DECLINE
  {
    hide Above, InsertPos, ParseOptions, Answer;
    var ca := if Above(s.cursor, cfg.end) then first else s.client;
    AnswerDeclined(cfg, s.(client := ca, cursor := cfg.start), None, m);
    var g := Grant(cfg, s, m, ca);
    assert !g.declined;
    AnswerDeclined(cfg, g, Some(InsertPos(s.leases, 0, ca)), m);
  }

  // ----- a new client -------------------------------------------------------

  /** A message of a new client while the pool has a free address: it gets an entry
      with a fresh timer at a free pool address, unless the message itself is a release,
      a refused request or a decline, and then the list is as it was. */
  lemma StrangerAnswered(cfg: Config, s: State, m: Message) returns (a: u32)
    requires Inv(cfg, s) && m.cookie && Stranger(s.leases, m) && !Full(cfg, s.leases)
    ensures cfg.start <= a <= cfg.end && !Leased(s.leases, a) && Chosen(cfg, s, a)
    ensures var o := Receive(cfg, s, m);
            && o.ret == ParseOptions(m.opts, m.len, a, false)
            && (if Drops(o.ret) then o.state.leases == s.leases && o.state.client == 0
                else && LeaseOf(o.state.leases, m.chaddr) == Some(Lease(m.chaddr, a, cfg.leaseTimer))
                     && o.state.client == a)
  {
    hide Receive, Full, Chosen, Refused, Leased, LeaseOf, ParseOptions, Above, InsertPos, Inv, Grant, Answer, InsertAt;
    RefusedIffFull(cfg, s, m);
    ReceiveInv(cfg, s, m);
    a :| && cfg.start <= a <= cfg.end && !Leased(s.leases, a) && Chosen(cfg, s, a)
         && Receive(cfg, s, m) == Answer(cfg, Grant(cfg, s.(renew := false, declined := false), m, a),
                                         Some(InsertPos(s.leases, 0, a)), m);
    InPoolIsServed(cfg, s, a);
    GrantAnswered(cfg, s.(renew := false, declined := false), m, a);
    var o := Receive(cfg, s, m);
    if !Drops(o.ret) {
      InsertedIsFound(cfg, o.state, s.leases, InsertPos(s.leases, 0, a), Lease(m.chaddr, a, cfg.leaseTimer));
    }
  }

  lemma InPoolIsServed(cfg: Config, s: State, a: u32)
    requires Inv(cfg, s) && cfg.start <= a <= cfg.end
    ensures a != 0 && !Above(a, cfg.end)
  {
    PoolOrder(cfg, a, cfg.end);
    hide Above;
  }

  lemma InsertedIsFound(cfg: Config, t: State, leases: seq<Lease>, p: nat, l: Lease)
    requires Inv(cfg, t) && p <= |leases| && t.leases == InsertAt(leases, p, l)
    ensures LeaseOf(t.leases, l.mac) == Some(l)
  {
    hide Sorted, LeaseOf;
    assert t.leases[p] == l;
    LeaseOfEntry(t.leases, p);
  }

  lemma GrantAnswered(cfg: Config, s: State, m: Message, a: u32)
    requires a != 0 && !Above(a, cfg.end) && !s.renew
    ensures var p, l := InsertPos(s.leases, 0, a), Lease(m.chaddr, a, cfg.leaseTimer);
            var o := Answer(cfg, Grant(cfg, s, m, a), Some(p), m);
            && p <= |s.leases| && o.ret == ParseOptions(m.opts, m.len, a, false)
            && (if Drops(o.ret) then o.state.leases == s.leases && o.state.client == 0
                else o.state.leases == InsertAt(s.leases, p, l) && o.state.client == a)
  {
    hide Above, ParseOptions, InsertPos;
    RemoveInserted(s.leases, InsertPos(s.leases, 0, a), Lease(m.chaddr, a, cfg.leaseTimer));
  }

  /** The exchange: a discover of a new client is offered a free address while there is one,
      and the request for that address that follows is acknowledged and leaves the client
      with the lease. */
  lemma ExchangeCompletes(cfg: Config, s: State, m: Message, opts: seq<Opt>, m': Message, opts': seq<Opt>)
    requires Inv(cfg, s) && m.cookie && Stranger(s.leases, m) && !Full(cfg, s.leases)
    requires Carries(m, opts) && TypeOf(opts) == Some(1)
    requires m'.cookie && m'.chaddr == m.chaddr && Carries(m', opts') && TypeOf(opts') == Some(3)
    requires RequestedIn(opts') == Some(Receive(cfg, s, m).state.client)
    ensures var o := Receive(cfg, s, m);
            var o' := Receive(cfg, o.state, m');
            && o.ret == STATE_OFFER && cfg.start <= o.state.client <= cfg.end && !Leased(s.leases, o.state.client)
            && o'.ret == STATE_ACK && o'.state.client == o.state.client
            && LeaseOf(o'.state.leases, m.chaddr) == Some(Lease(m.chaddr, o.state.client, cfg.leaseTimer))
  {
    hide Receive, Full, Inv, LeaseOf, ParseOptions, Carries, TypeOf, RequestedIn, Stranger, Leased;
    var a := StrangerAnswered(cfg, s, m);
    ReplyState(m, opts, a, false);
    ReceiveInv(cfg, s, m);
    RequestAnswered(cfg, Receive(cfg, s, m).state, m', opts');
  }

  // ----- what a reply carries -----------------------------------------------

  /** The number in four bytes of data. */
  function Word(d: Option<seq<byte>>): Option<u32> {
    if d.Some? && |d.value| == 4 then Some(Quad(d.value[0], d.value[1], d.value[2], d.value[3])) else None
  }

  lemma {:induction false} LastConcat(a: seq<Opt>, b: seq<Opt>, code: byte)
    ensures LastOf(a + b, code) == if LastOf(b, code).Some? then LastOf(b, code) else LastOf(a, code)
    decreases |b|
  {
    if b == [] {
      assert a + b == a;
    } else {
      var front := b[..|b| - 1];
      assert (a + b)[..|a + b| - 1] == a + front;
      LastConcat(a, front, code);
    }
  }

  lemma LastOne(o: Opt, code: byte)
    ensures LastOf([o], code) == if o.code == code then Some(o.data) else None
  {
    assert [o][..0] == [];
  }

  lemma LastTwo(o: Opt, p: Opt, code: byte)
    ensures LastOf([o, p], code) ==
            if p.code == code then Some(p.data) else if o.code == code then Some(o.data) else None
  {
    LastOne(o, code);
    assert [o, p][..1] == [o];
  }

  lemma LastThree(o: Opt, p: Opt, q: Opt, code: byte)
    ensures LastOf([o, p, q], code) == if q.code == code then Some(q.data) else LastOf([o, p], code)
  {
    assert [o, p, q][..2] == [o, p];
  }

  lemma LastNone(code: byte)
    ensures LastOf([], code) == None
  {}

  /** Which option of a reply has a code, part by part. */
  lemma ReplyParts(t: byte, c: Offer, code: byte)
    ensures var head := [Opt(1, Octets(c.mask)), Opt(51, Octets(c.leaseSeconds)), Opt(54, Octets(c.server))];
            var tail := [Opt(28, Octets(Broadcast(c.server, c.mask))), Opt(26, [5, 220])];
            LastOf(ReplyOptions(t, c), code) ==
              if LastOf(TRAILING, code).Some? then LastOf(TRAILING, code)
              else if LastOf(UriOption(c), code).Some? then LastOf(UriOption(c), code)
              else if LastOf(tail, code).Some? then LastOf(tail, code)
              else if LastOf(DnsOption(c), code).Some? then LastOf(DnsOption(c), code)
              else if LastOf(RouterOption(c), code).Some? then LastOf(RouterOption(c), code)
              else if LastOf(head, code).Some? then LastOf(head, code)
              else LastOf([Opt(MSG_TYPE, [t])], code)
  {
    hide LastOf, DnsOption, RouterOption, UriOption, Octets, Broadcast;
    var head := [Opt(1, Octets(c.mask)), Opt(51, Octets(c.leaseSeconds)), Opt(54, Octets(c.server))];
    var tail := [Opt(28, Octets(Broadcast(c.server, c.mask))), Opt(26, [5, 220])];
    var first := [Opt(MSG_TYPE, [t])];
    LastConcat(first + Leading(c) + UriOption(c), TRAILING, code);
    LastConcat(first + Leading(c), UriOption(c), code);
    LastConcat(first, Leading(c), code);
    LastConcat(head + RouterOption(c) + DnsOption(c), tail, code);
    LastConcat(head + RouterOption(c), DnsOption(c), code);
    LastConcat(head, RouterOption(c), code);
  }

  lemma LastFixed(t: byte, c: Offer, code: byte)
    ensures LastOf(TRAILING, code) ==
            if code == 43 then Some([1, 4, 0, 0, 0, 2]) else if code == 31 then Some([0]) else None
    ensures LastOf(UriOption(c), code) == if code == 114 then c.uri else None
    ensures LastOf([Opt(28, Octets(Broadcast(c.server, c.mask))), Opt(26, [5, 220])], code) ==
            if code == 26 then Some([5, 220])
            else if code == 28 then Some(Octets(Broadcast(c.server, c.mask))) else None
    ensures code != 6 ==> LastOf(DnsOption(c), code).None?
    ensures code != 3 ==> LastOf(RouterOption(c), code).None?
    ensures LastOf([Opt(1, Octets(c.mask)), Opt(51, Octets(c.leaseSeconds)), Opt(54, Octets(c.server))], code) ==
            if code == 54 then Some(Octets(c.server)) else if code == 51 then Some(Octets(c.leaseSeconds))
            else if code == 1 then Some(Octets(c.mask)) else None
    ensures LastOf([Opt(MSG_TYPE, [t])], code) == if code == MSG_TYPE then Some([t]) else None
  {
    hide Octets, Broadcast, LastOf;
    LastNone(code);
    LastTwo(Opt(31, [0]), Opt(43, [1, 4, 0, 0, 0, 2]), code);
    LastTwo(Opt(28, Octets(Broadcast(c.server, c.mask))), Opt(26, [5, 220]), code);
    LastThree(Opt(1, Octets(c.mask)), Opt(51, Octets(c.leaseSeconds)), Opt(54, Octets(c.server)), code);
    LastTwo(Opt(1, Octets(c.mask)), Opt(51, Octets(c.leaseSeconds)), code);
    LastOne(Opt(MSG_TYPE, [t]), code);
    if c.uri.Some? { LastOne(Opt(114, c.uri.value), code); }
    if RouterOption(c) != [] { LastOne(RouterOption(c)[0], code); }
    if DnsOption(c) != [] { LastOne(DnsOption(c)[0], code); }
  }

  lemma WordOctets(a: u32)
    ensures Word(Some(Octets(a))) == Some(a)
  {
    QuadOctets(a);
  }

  /** A client that reads the options of a reply finds the message type, the mask, the
      lease time, the server and the broadcast address under their codes, the router
      exactly when one is offered and configured, and the captive-portal URI if there is one. */
  lemma ReplyCarries(t: byte, c: Offer)
    ensures var v := (code: byte) => LastOf(ReplyOptions(t, c), code);
            && v(53) == Some([t]) && Word(v(1)) == Some(c.mask) && Word(v(51)) == Some(c.leaseSeconds)
            && Word(v(54)) == Some(c.server) && Word(v(28)) == Some(Broadcast(c.server, c.mask))
            && v(26) == Some([5, 220]) && v(114) == c.uri && v(31) == Some([0])
            && (if c.routerOffered && c.gateway != 0 then Word(v(3)) == Some(c.gateway) else v(3) == None)
  {
    hide LastOf, Octets, Broadcast, ReplyOptions, UriOption, DnsOption, Word;
    WordOctets(c.mask);
    WordOctets(c.leaseSeconds);
    WordOctets(c.server);
    WordOctets(Broadcast(c.server, c.mask));
    WordOctets(c.gateway);
    forall code: byte | code in {53, 1, 51, 54, 28, 26, 114, 31, 3}
      ensures LastOf(ReplyOptions(t, c), code) ==
        (if code == 53 then Some([t]) else if code == 1 then Some(Octets(c.mask))
         else if code == 51 then Some(Octets(c.leaseSeconds)) else if code == 54 then Some(Octets(c.server))
         else if code == 28 then Some(Octets(Broadcast(c.server, c.mask))) else if code == 26 then Some([5, 220])
         else if code == 114 then c.uri else if code == 31 then Some([0]) else LastOf(RouterOption(c), 3))
    {
      ReplyParts(t, c, code);
      LastFixed(t, c, code);
    }
    if c.routerOffered && c.gateway != 0 { LastOne(Opt(3, Octets(c.gateway)), 3); } else { LastNone(3); }
  }

  /** The DNS servers a client reads: the offered main server, followed by the backup if
      there is one; without an offer the server itself or none, as configured. */
  lemma ReplyDns(t: byte, c: Offer)
    ensures LastOf(ReplyOptions(t, c), 6) ==
            if c.dnsOffered then
              Some(if c.dnsBackup == 0 then Octets(c.dnsMain) else Octets(c.dnsMain) + Octets(c.dnsBackup))
            else if c.addDns then Some(Octets(c.server)) else None
  {
    hide LastOf, Octets, Broadcast, ReplyOptions, RouterOption;
    ReplyParts(t, c, 6);
    LastFixed(t, c, 6);
    if DnsOption(c) != [] { LastOne(DnsOption(c)[0], 6); } else { LastNone(6); }
  }
}
