/** DHCP option blocks (the layout of section 2 of RFC 2132): the walk that
    `parse_options` makes over a received block, and the block that
    `add_msg_type`, `add_offer_options` and `add_end` write into a reply. */
module DhcpOptions {
  import opened Words
  import opened Bits

  const MSG_TYPE: byte := 53
  const REQ_IPADDR: byte := 50
  const END: byte := 255

  const STATE_OFFER := 1
  const STATE_DECLINE := 2
  const STATE_ACK := 3
  const STATE_NAK := 4
  const STATE_IDLE := 5
  const STATE_RELEASE := 6

  // ----- the received block -------------------------------------------------

  function QuadAt(mem: seq<byte>, i: nat): u32 {
    Quad(At(mem, i), At(mem, i + 1), At(mem, i + 2), At(mem, i + 3))
  }

  datatype Seen = Seen(msgType: byte, state: int)

  /** The effect of one option on what the walk remembers. */
  function Note(mem: seq<byte>, pos: nat, client: u32, seen: Seen): Seen {
    if At(mem, pos) == MSG_TYPE then seen.(msgType := At(mem, pos + 2))
    else if At(mem, pos) == REQ_IPADDR then
      seen.(state := if QuadAt(mem, pos + 2) == client then STATE_ACK else STATE_NAK)
    else seen
  }

  function Next(mem: seq<byte>, pos: nat): nat { pos + At(mem, pos + 1) + 2 }

  function Walk(mem: seq<byte>, pos: nat, len: int, client: u32, seen: Seen): Seen
    decreases len - pos
  {
    if pos >= len || At(mem, pos) == END then seen
    else Walk(mem, Next(mem, pos), len, client, Note(mem, pos, client, seen))
  }

  /** The reply state chosen from the message type and the requested address. */
  function Classify(seen: Seen, renew: bool): int {
    if seen.msgType == 1 then STATE_OFFER
    else if seen.msgType == 3 then
      if seen.state == STATE_ACK || seen.state == STATE_NAK then seen.state
      else if renew then STATE_ACK else STATE_NAK
    else if seen.msgType == 4 then STATE_DECLINE
    else if seen.msgType == 7 then STATE_RELEASE
    else seen.state
  }

  function ParseOptions(mem: seq<byte>, len: int, client: u32, renew: bool): int {
    Classify(Walk(mem, 0, len, client, Seen(0, STATE_IDLE)), renew)
  }

  /** `parse_options`: the loop over the block. */
  method ParseOptionsLoop(mem: seq<byte>, len: int, client: u32, renew: bool) returns (state: int)
    ensures state == ParseOptions(mem, len, client, renew)
  {
    var optptr := 0;
    var msgType: byte := 0;
    state := STATE_IDLE;
    while optptr < len
      invariant 0 <= optptr
      invariant Walk(mem, optptr, len, client, Seen(msgType, state)) == Walk(mem, 0, len, client, Seen(0, STATE_IDLE))
      decreases len - optptr
    {
      if At(mem, optptr) == MSG_TYPE {
        msgType := At(mem, optptr + 2);
      } else if At(mem, optptr) == REQ_IPADDR {
        if QuadAt(mem, optptr + 2) == client { state := STATE_ACK; } else { state := STATE_NAK; }
      } else if At(mem, optptr) == END {
        break;
      }
      optptr := optptr + At(mem, optptr + 1) + 2;
    }
    if msgType == 1 {
      state := STATE_OFFER;
    } else if msgType == 3 {
      if state != STATE_ACK && state != STATE_NAK {
        if renew { state := STATE_ACK; } else { state := STATE_NAK; }
      }
    } else if msgType == 4 {
      state := STATE_DECLINE;
    } else if msgType == 7 {
      state := STATE_RELEASE;
    }
  }

  /** The positions the walk stops at, the one of END included when it is reached. */
  function Visit(mem: seq<byte>, pos: nat, len: int): seq<nat>
    decreases len - pos
  {
    if pos >= len then []
    else if At(mem, pos) == END then [pos]
    else [pos] + Visit(mem, Next(mem, pos), len)
  }

  /** On any input at all, the walk moves forward by at least two bytes at every step. */
  lemma {:induction false} WalkAdvances(mem: seq<byte>, pos: nat, len: int, i: nat)
    requires i + 1 < |Visit(mem, pos, len)|
    ensures Visit(mem, pos, len)[i] + 2 <= Visit(mem, pos, len)[i + 1] < len
    decreases len - pos
  {
    var rest := Visit(mem, Next(mem, pos), len);
    assert Visit(mem, pos, len) == [pos] + rest;
    if i == 0 {
      assert rest[0] == Next(mem, pos);
    } else {
      WalkAdvances(mem, Next(mem, pos), len, i - 1);
    }
  }

  // ----- pad options --------------------------------------------------------

  const PAD: byte := 0

  /** The walk of section 3.1 of RFC 2132, where a pad is one byte without a
      length: the positions of the other options, END included. */
  function RfcVisit(mem: seq<byte>, pos: nat, len: int): seq<nat>
    decreases len - pos
  {
    if pos >= len then []
    else if At(mem, pos) == PAD then RfcVisit(mem, pos + 1, len)
    else if At(mem, pos) == END then [pos]
    else [pos] + RfcVisit(mem, Next(mem, pos), len)
  }

  /** The positions that do not hold a pad. */
  function WithoutPads(mem: seq<byte>, ps: seq<nat>): seq<nat> {
    if ps == [] then []
    else (if At(mem, ps[0]) == PAD then [] else [ps[0]]) + WithoutPads(mem, ps[1..])
  }

  /** The number of pads in a row. */
  function PadRun(mem: seq<byte>, pos: nat, len: int): nat
    decreases len - pos
  {
    if pos >= len || At(mem, pos) != PAD then 0 else 1 + PadRun(mem, pos + 1, len)
  }

  /** Every run of pads that the block has between its options is even or reaches the end of the block. */
  predicate PadsPaired(mem: seq<byte>, pos: nat, len: int)
    decreases len - pos
  {
    if pos >= len || At(mem, pos) == END then true
    else if At(mem, pos) == PAD then
      var r := PadRun(mem, pos, len);
      pos + r >= len || (r % 2 == 0 && PadsPaired(mem, pos + r, len))
    else PadsPaired(mem, Next(mem, pos), len)
  }

  lemma {:induction false} VisitFrom(mem: seq<byte>, pos: nat, len: int)
    ensures forall p :: p in WithoutPads(mem, Visit(mem, pos, len)) ==> pos <= p
    decreases len - pos
  {
    hide At;
    if pos < len && At(mem, pos) != END {
      var rest := Visit(mem, Next(mem, pos), len);
      VisitFrom(mem, Next(mem, pos), len);
      assert ([pos] + rest)[1..] == rest;
    }
  }

  /** Two pads in a row are passed over by both walks. */
  lemma PadPair(mem: seq<byte>, pos: nat, len: int)
    requires pos + 1 < len && At(mem, pos) == At(mem, pos + 1) == PAD
    ensures PadsPaired(mem, pos, len) <==> PadsPaired(mem, pos + 2, len)
  {
    hide At;
    assert PadRun(mem, pos, len) == 1 + PadRun(mem, pos + 1, len) == 2 + PadRun(mem, pos + 2, len);
    if pos + 2 < len && At(mem, pos + 2) == PAD {
      var r := PadRun(mem, pos + 2, len);
      assert pos + (r + 2) == pos + 2 + r;
    }
  }

  /** What the first visited option adds to the positions without pads. */
  lemma FirstVisited(mem: seq<byte>, pos: nat, len: int)
    requires pos < len && At(mem, pos) != END
    ensures var rest := WithoutPads(mem, Visit(mem, Next(mem, pos), len));
            WithoutPads(mem, Visit(mem, pos, len)) == if At(mem, pos) == PAD then rest else [pos] + rest
  {
    hide At;
    var rest := Visit(mem, Next(mem, pos), len);
    assert Visit(mem, pos, len) == [pos] + rest && ([pos] + rest)[1..] == rest;
    assert [] + WithoutPads(mem, rest) == WithoutPads(mem, rest);
  }

  /** Behind a single pad the code takes the next code for a length, and misses it. */
  lemma OddPad(mem: seq<byte>, pos: nat, len: int)
    requires pos + 1 < len && At(mem, pos) == PAD != At(mem, pos + 1)
    ensures !PadsPaired(mem, pos, len) && WithoutPads(mem, Visit(mem, pos, len)) != RfcVisit(mem, pos, len)
  {
    hide At;
    FirstVisited(mem, pos, len);
    VisitFrom(mem, Next(mem, pos), len);
    assert RfcVisit(mem, pos, len) == RfcVisit(mem, pos + 1, len) && pos + 1 in RfcVisit(mem, pos + 1, len);
    assert PadRun(mem, pos, len) == 1 + PadRun(mem, pos + 1, len) == 1;
  }

  lemma {:induction false} PadsVisited(mem: seq<byte>, pos: nat, len: int)
    ensures WithoutPads(mem, Visit(mem, pos, len)) == RfcVisit(mem, pos, len) <==> PadsPaired(mem, pos, len)
    decreases len - pos
  {
    hide At, WithoutPads, Visit, PadRun;
    if pos >= len || At(mem, pos) == END {
      NothingVisited(mem, pos, len);
    } else {
      var next := Next(mem, pos);
      FirstVisited(mem, pos, len);
      if At(mem, pos) != PAD {
        PadsVisited(mem, next, len);
        var x, y := WithoutPads(mem, Visit(mem, next, len)), RfcVisit(mem, next, len);
        assert ([pos] + x)[1..] == x && ([pos] + y)[1..] == y;
      } else if pos + 1 >= len {
        NothingVisited(mem, next, len);
        LastPad(mem, pos, len);
      } else if At(mem, pos + 1) == PAD {
        PadPair(mem, pos, len);
        PadsVisited(mem, pos + 2, len);
        assert RfcVisit(mem, pos, len) == RfcVisit(mem, pos + 1, len) == RfcVisit(mem, pos + 2, len);
      } else {
        OddPad(mem, pos, len);
      }
    }
  }

  lemma NothingVisited(mem: seq<byte>, pos: nat, len: int)
    requires pos >= len || At(mem, pos) == END
    ensures WithoutPads(mem, Visit(mem, pos, len)) == RfcVisit(mem, pos, len)
  {}

  lemma LastPad(mem: seq<byte>, pos: nat, len: int)
    requires pos < len <= pos + 1 && At(mem, pos) == PAD
    ensures PadsPaired(mem, pos, len) && RfcVisit(mem, pos, len) == []
  {
    assert PadRun(mem, pos, len) == 1 + PadRun(mem, pos + 1, len) == 1;
  }

  /** The walk of the code and the walk of the standard meet the same options, pads
      aside, exactly when every run of pads is even or reaches the end of the block. */
  lemma PadsExact(mem: seq<byte>, len: int)
    ensures WithoutPads(mem, Visit(mem, 0, len)) == RfcVisit(mem, 0, len) <==> PadsPaired(mem, 0, len)
  {
    PadsVisited(mem, 0, len);
  }

  /** A DHCPDISCOVER behind a single pad: the code jumps over its message type and does not answer it. */
  lemma OddPadLosesType(client: u32, renew: bool)
    ensures var mem := [PAD, MSG_TYPE, 1, 1, END];
            && RfcVisit(mem, 0, 5) == [1, 4] && Visit(mem, 0, 5) == [0] && !PadsPaired(mem, 0, 5)
            && ParseOptions(mem, 5, client, renew) == STATE_IDLE
            && ParseOptions(mem[1..], 4, client, renew) == STATE_OFFER
  {
    var mem := [PAD, MSG_TYPE, 1, 1, END];
    assert At(mem, 0) == PAD && At(mem, 1) == MSG_TYPE && At(mem, 2) == 1 && At(mem, 4) == END && Next(mem, 0) == 55;
    assert Next(mem, 1) == 4 && RfcVisit(mem, 4, 5) == [4] && RfcVisit(mem, 1, 5) == [1, 4];
    assert PadRun(mem, 1, 5) == 0 && PadRun(mem, 0, 5) == 1;
    assert Walk(mem, 55, 5, client, Seen(0, STATE_IDLE)) == Seen(0, STATE_IDLE);
    var tail := mem[1..];
    assert At(tail, 0) == MSG_TYPE && At(tail, 1) == 1 && At(tail, 2) == 1 && At(tail, 3) == END && Next(tail, 0) == 3;
    assert Walk(tail, 3, 4, client, Seen(1, STATE_IDLE)) == Seen(1, STATE_IDLE);
  }

  // ----- well-formed blocks -------------------------------------------------

  /** One option: a code and its data. */
  datatype Opt = Opt(code: byte, data: seq<byte>)

  /** Code, length byte (truncated to eight bits by C), data. */
  function EncodeOpt(o: Opt): seq<byte> { [o.code, |o.data| % 256] + o.data }

  function EncodeOpts(opts: seq<Opt>): seq<byte> {
    if opts == [] then [] else EncodeOpt(opts[0]) + EncodeOpts(opts[1..])
  }

  /** Where each option of a block starts. */
  function Starts(opts: seq<Opt>, pos: nat): seq<nat> {
    if opts == [] then [] else [pos] + Starts(opts[1..], pos + 2 + |opts[0].data|)
  }

  predicate NoEnd(opts: seq<Opt>) { forall o :: o in opts ==> o.code != END }

  predicate Fits(opts: seq<Opt>) { forall o :: o in opts ==> |o.data| <= 255 }

  lemma HoldsAt(mem: seq<byte>, pos: nat, o: Opt)
    requires Holds(mem, pos, EncodeOpt(o))
    ensures At(mem, pos) == o.code && At(mem, pos + 1) == |o.data| % 256
    ensures forall i :: 0 <= i < |o.data| ==> At(mem, pos + 2 + i) == o.data[i]
  {
    var e := EncodeOpt(o);
    assert mem[pos + 0] == e[0] && mem[pos + 1] == e[1];
    forall i | 0 <= i < |o.data| ensures At(mem, pos + 2 + i) == o.data[i] {
      assert mem[pos + (2 + i)] == e[2 + i];
    }
  }

  /** The bytes of the first option of a block, and the rest of the block. */
  lemma FirstOption(mem: seq<byte>, pos: nat, opts: seq<Opt>)
    requires opts != [] && Holds(mem, pos, EncodeOpts(opts))
    ensures Holds(mem, pos, EncodeOpt(opts[0]))
    ensures At(mem, pos) == opts[0].code && At(mem, pos + 1) == |opts[0].data| % 256
    ensures Holds(mem, pos + 2 + |opts[0].data|, EncodeOpts(opts[1..]))
    ensures |EncodeOpts(opts)| == 2 + |opts[0].data| + |EncodeOpts(opts[1..])|
  {
    HoldsSplit(mem, pos, EncodeOpt(opts[0]), EncodeOpts(opts[1..]));
    hide Holds;
    HoldsAt(mem, pos, opts[0]);
  }

  /** The walk over a block whose data all fit in a length byte visits exactly
      the written options in order, then END, and looks at nothing after it. */
  lemma {:induction false} VisitEncoded(mem: seq<byte>, pos: nat, opts: seq<Opt>, len: int)
    requires NoEnd(opts) && Fits(opts)
    requires Holds(mem, pos, EncodeOpts(opts)) && At(mem, pos + |EncodeOpts(opts)|) == END
    requires len > pos + |EncodeOpts(opts)|
    ensures Visit(mem, pos, len) == Starts(opts, pos) + [pos + |EncodeOpts(opts)|]
    decreases |opts|
  {
    hide Holds, At;
    if opts == [] {
      assert EncodeOpts(opts) == [];
    } else {
      FirstOption(mem, pos, opts);
      hide EncodeOpts;
      assert opts[0] in opts;
      VisitEncoded(mem, pos + 2 + |opts[0].data|, opts[1..], len);
    }
  }

  /** What a well-formed block says: the last message type and whether the last
      requested address is the client's. */
  function Meaning(opts: seq<Opt>, client: u32, seen: Seen): Seen {
    if opts == [] then seen else Meaning(opts[1..], client, Told(opts[0], client, seen))
  }

  /** What one option adds. */
  function Told(o: Opt, client: u32, seen: Seen): Seen {
    if o.code == MSG_TYPE && |o.data| == 1 then seen.(msgType := o.data[0])
    else if o.code == REQ_IPADDR && |o.data| == 4 then
      seen.(state := if Quad(o.data[0], o.data[1], o.data[2], o.data[3]) == client then STATE_ACK else STATE_NAK)
    else seen
  }

  predicate WellTyped(o: Opt) {
    (o.code == MSG_TYPE ==> |o.data| == 1) && (o.code == REQ_IPADDR ==> |o.data| == 4)
  }

  /** `parse_options` reads back the meaning of every well-formed block, whatever follows END. */
  lemma {:induction false} ParseEncoded(mem: seq<byte>, pos: nat, opts: seq<Opt>, len: int, client: u32, seen: Seen)
    requires NoEnd(opts) && Fits(opts) && forall o :: o in opts ==> WellTyped(o)
    requires Holds(mem, pos, EncodeOpts(opts)) && At(mem, pos + |EncodeOpts(opts)|) == END
    requires len > pos + |EncodeOpts(opts)|
    ensures Walk(mem, pos, len, client, seen) == Meaning(opts, client, seen)
    decreases |opts|
  {
    hide Holds, At;
    if opts == [] {
      assert EncodeOpts(opts) == [];
    } else {
      var o := opts[0];
      FirstOption(mem, pos, opts);
      HoldsAt(mem, pos, o);
      hide EncodeOpts;
      assert o in opts;
      if o.code == REQ_IPADDR {
        assert At(mem, pos + 2 + 0) == o.data[0] && At(mem, pos + 2 + 1) == o.data[1];
        assert At(mem, pos + 2 + 2) == o.data[2] && At(mem, pos + 2 + 3) == o.data[3];
      } else if o.code == MSG_TYPE {
        assert At(mem, pos + 2 + 0) == o.data[0];
      }
      ParseEncoded(mem, pos + 2 + |o.data|, opts[1..], len, client, Note(mem, pos, client, seen));
    }
  }

  // ----- the block of a reply -----------------------------------------------

  /** What `add_offer_options` reads: the server's mask and address, the lease
      time in seconds, the router and DNS settings, and the captive-portal URI. */
  datatype Offer = Offer(
    mask: u32, server: u32, leaseSeconds: u32,
    routerOffered: bool, gateway: u32,
    dnsOffered: bool, dnsMain: u32, dnsBackup: u32, addDns: bool,
    uri: Option<seq<byte>>)

  function Octets(a: u32): (r: seq<byte>)
    ensures |r| == 4
  {
    [Octet1(a), Octet2(a), Octet3(a), Octet4(a)]
  }

  function DnsOption(c: Offer): seq<Opt> {
    if c.dnsOffered then
      [Opt(6, if c.dnsBackup != 0 then Octets(c.dnsMain) + Octets(c.dnsBackup) else Octets(c.dnsMain))]
    else if c.addDns then [Opt(6, Octets(c.server))]
    else []
  }

  function RouterOption(c: Offer): seq<Opt> {
    if c.routerOffered && c.gateway != 0 then [Opt(3, Octets(c.gateway))] else []
  }

  function UriOption(c: Offer): seq<Opt> {
    if c.uri.Some? then [Opt(114, c.uri.value)] else []
  }

  /** What precedes the captive-portal option. */
  function Leading(c: Offer): seq<Opt> {
    [Opt(1, Octets(c.mask)), Opt(51, Octets(c.leaseSeconds)), Opt(54, Octets(c.server))]
    + RouterOption(c) + DnsOption(c)
    + [Opt(28, Octets(Broadcast(c.server, c.mask))), Opt(26, [5, 220])]
  }

  const TRAILING: seq<Opt> := [Opt(31, [0]), Opt(43, [1, 4, 0, 0, 0, 2])]

  /** The options of a reply of the given type, in the order they are written. */
  function ReplyOptions(msgType: byte, c: Offer): seq<Opt> {
    [Opt(MSG_TYPE, [msgType])] + Leading(c) + UriOption(c) + TRAILING
  }

  /** The option area of a complete reply. */
  function ReplyBlock(msgType: byte, c: Offer): seq<byte> {
    EncodeOpts(ReplyOptions(msgType, c)) + [END]
  }

  function UriLength(c: Offer): nat { if c.uri.Some? then |c.uri.value| else 0 }

  lemma {:induction false} EncodeSnoc(a: seq<Opt>, o: Opt)
    ensures EncodeOpts(a + [o]) == EncodeOpts(a) + EncodeOpt(o)
    decreases |a|
  {
    if a == [] {
      assert a + [o] == [o] && EncodeOpts([o][1..]) == [];
    } else {
      assert (a + [o])[1..] == a[1..] + [o];
      EncodeSnoc(a[1..], o);
    }
  }

  /** The option area is written from `start` up to a moving cursor: after each
      call the area holds one option more, and nothing else has changed. */
  method PutOption(buf: array<byte>, start: nat, pos: nat, ghost done: seq<Opt>, code: byte, data: seq<byte>)
    returns (r: nat)
    requires start <= pos && pos + 2 + |data| <= buf.Length
    requires buf[start..pos] == EncodeOpts(done)
    modifies buf
    ensures r == pos + 2 + |data| && buf[start..r] == EncodeOpts(done + [Opt(code, data)])
    ensures buf[..start] == old(buf[..start]) && forall j :: r <= j < buf.Length ==> buf[j] == old(buf[j])
  {
    buf[pos] := code;
    buf[pos + 1] := |data| % 256;
    r := pos + 2;
    for i := 0 to |data|
      invariant r == pos + 2 + i
      invariant buf[start..pos] == EncodeOpts(done)
      invariant buf[pos] == code && buf[pos + 1] == |data| % 256 && buf[pos + 2..r] == data[..i]
      invariant buf[..start] == old(buf[..start])
      invariant forall j :: r <= j < buf.Length ==> buf[j] == old(buf[j])
    {
      buf[r] := data[i];
      r := r + 1;
      assert buf[pos + 2..r] == data[..i] + [data[i]] == data[..i + 1];
    }
    assert buf[start..r] == buf[start..pos] + ([buf[pos], buf[pos + 1]] + buf[pos + 2..r]);
    EncodeSnoc(done, Opt(code, data));
  }

  method AddRouterAndDns(buf: array<byte>, start: nat, pos: nat, ghost done: seq<Opt>, c: Offer) returns (r: nat)
    requires start <= pos && pos + 16 <= buf.Length && buf[start..pos] == EncodeOpts(done)
    modifies buf
    ensures pos <= r <= pos + 16 && buf[start..r] == EncodeOpts(done + RouterOption(c) + DnsOption(c))
    ensures buf[..start] == old(buf[..start]) && forall j :: r <= j < buf.Length ==> buf[j] == old(buf[j])
  {
    hide EncodeOpts, Octets;
    r := pos;
    ghost var w := done;
    if c.routerOffered {
      if c.gateway != 0 {
        r := PutOption(buf, start, r, w, 3, Octets(c.gateway));
        w := w + [Opt(3, Octets(c.gateway))];
      }
    }
    assert w == done + RouterOption(c);
    if c.dnsOffered {
      var servers := Octets(c.dnsMain);
      if c.dnsBackup != 0 {
        servers := servers + Octets(c.dnsBackup);
      }
      r := PutOption(buf, start, r, w, 6, servers);
      w := w + [Opt(6, servers)];
    } else if c.addDns {
      r := PutOption(buf, start, r, w, 6, Octets(c.server));
      w := w + [Opt(6, Octets(c.server))];
    }
    assert w == done + RouterOption(c) + DnsOption(c);
  }

  /** The part of `add_offer_options` up to the captive-portal option. */
  method AddLeading(buf: array<byte>, start: nat, pos: nat, ghost done: seq<Opt>, c: Offer) returns (r: nat)
    requires start <= pos && pos + 44 <= buf.Length && buf[start..pos] == EncodeOpts(done)
    modifies buf
    ensures pos <= r <= pos + 44 && buf[start..r] == EncodeOpts(done + Leading(c))
    ensures buf[..start] == old(buf[..start]) && forall j :: r <= j < buf.Length ==> buf[j] == old(buf[j])
  {
    hide EncodeOpts, Broadcast, Octets, RouterOption, DnsOption;
    r := PutOption(buf, start, pos, done, 1, Octets(c.mask));
    ghost var w := done + [Opt(1, Octets(c.mask))];
    r := PutOption(buf, start, r, w, 51, Octets(c.leaseSeconds));
    w := w + [Opt(51, Octets(c.leaseSeconds))];
    r := PutOption(buf, start, r, w, 54, Octets(c.server));
    w := w + [Opt(54, Octets(c.server))];
    r := AddRouterAndDns(buf, start, r, w, c);
    w := w + RouterOption(c) + DnsOption(c);
    r := PutOption(buf, start, r, w, 28, Octets(Broadcast(c.server, c.mask)));
    w := w + [Opt(28, Octets(Broadcast(c.server, c.mask)))];
    r := PutOption(buf, start, r, w, 26, [5, 220]);
    assert w + [Opt(26, [5, 220])] == done + Leading(c);
  }

  /** The whole option area of a reply: `add_msg_type`, `add_offer_options`, `add_end`.
      The area is assumed to be large enough, as the code assumes it. */
  method WriteReply(buf: array<byte>, start: nat, msgType: byte, c: Offer) returns (r: nat)
    requires start + 61 + UriLength(c) <= buf.Length
    modifies buf
    ensures start <= r <= buf.Length && buf[start..r] == ReplyBlock(msgType, c)
    ensures buf[..start] == old(buf[..start]) && forall j :: r <= j < buf.Length ==> buf[j] == old(buf[j])
  {
    assert buf[start..start] == EncodeOpts([]);
    hide EncodeOpts, Leading, ReplyOptions;
    r := PutOption(buf, start, start, [], MSG_TYPE, [msgType]);
    ghost var w := [Opt(MSG_TYPE, [msgType])];
    assert [] + w == w;
    r := AddLeading(buf, start, r, w, c);
    w := w + Leading(c);
    if c.uri.Some? {
      r := PutOption(buf, start, r, w, 114, c.uri.value);
      w := w + [Opt(114, c.uri.value)];
    }
    r := PutOption(buf, start, r, w, 31, [0]);
    w := w + [Opt(31, [0])];
    r := PutOption(buf, start, r, w, 43, [1, 4, 0, 0, 0, 2]);
    w := w + [Opt(43, [1, 4, 0, 0, 0, 2])];
    WrittenOptions(msgType, c, w);
    ghost var block := buf[start..r];
    buf[r] := END;
    assert buf[start..r + 1] == block + [END];
    r := r + 1;
  }

  lemma WrittenOptions(msgType: byte, c: Offer, w: seq<Opt>)
    requires var first := [Opt(MSG_TYPE, [msgType])] + Leading(c);
             var more := if c.uri.Some? then first + [Opt(114, c.uri.value)] else first;
             w == more + [Opt(31, [0])] + [Opt(43, [1, 4, 0, 0, 0, 2])]
    ensures w == ReplyOptions(msgType, c)
  {
    hide Leading;
  }

  // ----- the reply block, walked --------------------------------------------

  /** Codes and data sizes of a list of options are as required. */
  predicate Plain(opts: seq<Opt>) { NoEnd(opts) && Fits(opts) }

  lemma PlainConcat(a: seq<Opt>, b: seq<Opt>)
    requires Plain(a) && Plain(b)
    ensures Plain(a + b)
  {}

  lemma LeadingPlain(c: Offer)
    ensures Plain(Leading(c))
  {
    hide Broadcast;
    PlainConcat([Opt(1, Octets(c.mask)), Opt(51, Octets(c.leaseSeconds)), Opt(54, Octets(c.server))], RouterOption(c));
  }

  /** Up to the first option that does not fit in its length byte the walk is
      right, and then it lands short of the next option. */
  lemma {:induction false} VisitOversized(mem: seq<byte>, pos: nat, opts: seq<Opt>, k: nat, len: int)
    requires NoEnd(opts) && k + 1 < |opts| && Fits(opts[..k]) && |opts[k].data| > 255
    requires Holds(mem, pos, EncodeOpts(opts)) && len > pos + |EncodeOpts(opts)|
    ensures |Visit(mem, pos, len)| > k + 1
    ensures |Starts(opts, pos)| > k + 1
    ensures Visit(mem, pos, len)[k + 1] < Starts(opts, pos)[k + 1]
    decreases k
  {
    hide Holds, At;
    FirstOption(mem, pos, opts);
    assert opts[0] in opts;
    hide EncodeOpts;
    var next := pos + 2 + |opts[0].data|;
    if k == 0 {
      var rest := Visit(mem, Next(mem, pos), len);
      FirstOption(mem, next, opts[1..]);
      assert rest[0] == Next(mem, pos);
      assert Starts(opts[1..], next)[0] == next;
    } else {
      assert opts[0] in opts[..k];
      assert opts[1..][..k - 1] == opts[..k][1..];
      VisitOversized(mem, next, opts[1..], k - 1, len);
    }
  }

  lemma {:induction false} StartsLength(opts: seq<Opt>, pos: nat)
    ensures |Starts(opts, pos)| == |opts|
    decreases |opts|
  {
    if opts != [] { StartsLength(opts[1..], pos + 2 + |opts[0].data|); }
  }

  /** The walk over a written reply visits exactly the written options, in
      order, and stops at END if and only if the captive-portal URI has at most 255 bytes. */
  lemma ReplyWalkExact(mem: seq<byte>, msgType: byte, c: Offer, len: int)
    requires Holds(mem, 0, ReplyBlock(msgType, c)) && len >= |ReplyBlock(msgType, c)|
    ensures var opts := ReplyOptions(msgType, c);
            Visit(mem, 0, len) == Starts(opts, 0) + [|EncodeOpts(opts)|] <==> UriLength(c) <= 255
  {
    var opts := ReplyOptions(msgType, c);
    var head := [Opt(MSG_TYPE, [msgType])] + Leading(c);
    HoldsSplit(mem, 0, EncodeOpts(opts), [END]);
    assert mem[|EncodeOpts(opts)| + 0] == [END][0];
    LeadingPlain(c);
    hide Holds, EncodeOpts, Leading, Visit, Starts;
    PlainConcat([Opt(MSG_TYPE, [msgType])], Leading(c));
    StartsLength(opts, 0);
    if UriLength(c) <= 255 {
      PlainConcat(head, UriOption(c));
      PlainConcat(head + UriOption(c), TRAILING);
      VisitEncoded(mem, 0, opts, len);
    } else {
      var k := |head|;
      assert opts[k] == UriOption(c)[0] && opts[k + 1] == TRAILING[0];
      assert opts[..k] == head;
      assert opts == head + (UriOption(c) + TRAILING);
      VisitOversized(mem, 0, opts, k, len);
    }
  }
}
