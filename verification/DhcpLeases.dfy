/** The lease allocator of the DHCP server: what one received message, one timer
    tick and one restart do to the lease list and the address cursor.

    Addresses are held as their host-order value. Where the C code compares two
    stored words, the comparison is made on `Raw`, the byte-swapped value. */
module DhcpLeases {
  import opened Words
  import opened DhcpOptions

  type Mac = x: int | 0 <= x < 0x1_0000_0000_0000

  datatype Lease = Lease(mac: Mac, ip: u32, timer: u32)

  type positive = x: int | 0 < x witness 1

  /** The address pool, the timer value of a fresh lease, and the station limit. */
  datatype Config = Config(start: u32, end: u32, leaseTimer: u32, maxStations: positive)

  /** What `parse_msg` reads of a message: whether the magic cookie is right,
      the client's address, its hardware address, and the option bytes. */
  datatype Message = Message(cookie: bool, ciaddr: u32, chaddr: Mac, opts: seq<byte>, len: int)

  /** `plist`, `client_address`, `client_address_plus`, `renew` and `has_declined_ip`. */
  datatype State = State(leases: seq<Lease>, client: u32, cursor: u32, renew: bool, declined: bool)

  /** The state after a message, and the value `parse_msg` returns. */
  datatype Outcome = Outcome(state: State, ret: int)

  /** The comparison `a > b` of two stored words. */
  predicate Above(a: u32, b: u32) { Raw(b) < Raw(a) }

  function Succ(a: u32): u32 { Wrap32(a + 1) }

  // ----- one message --------------------------------------------------------

  /** The result of the loop over the list: the entry of this client, or the
      advanced cursor and the first unused address. */
  datatype Found = Known(index: nat, cursor: u32) | Unknown(cursor: u32, first: u32)

  function Search(leases: seq<Lease>, i: nat, mac: Mac, cursor: u32, first: u32, passed: bool): (r: Found)
    requires i <= |leases|
    ensures r.Known? ==> i <= r.index < |leases| && leases[r.index].mac == mac
    ensures r.Unknown? ==> forall k :: i <= k < |leases| ==> leases[k].mac != mac
    decreases |leases| - i
  {
    if i == |leases| then Unknown(cursor, first)
    else if leases[i].mac == mac then Known(i, cursor)
    else
      var cursor' := if leases[i].ip == cursor then Succ(cursor) else cursor;
      if passed then Search(leases, i + 1, mac, cursor', first, true)
      else if Above(leases[i].ip, first) then Search(leases, i + 1, mac, cursor', first, true)
      else Search(leases, i + 1, mac, cursor', Succ(first), false)
  }

  /** Where `node_insert_to_list` links a node: before the first entry with a larger word. */
  function InsertPos(leases: seq<Lease>, i: nat, ip: u32): (p: nat)
    requires i <= |leases|
    ensures i <= p <= |leases|
    ensures p < |leases| ==> Above(leases[p].ip, ip)
    ensures forall k :: i <= k < p ==> !Above(leases[k].ip, ip)
    decreases |leases| - i
  {
    if i == |leases| || Above(leases[i].ip, ip) then i else InsertPos(leases, i + 1, ip)
  }

  function InsertAt<T>(s: seq<T>, p: nat, x: T): seq<T>
    requires p <= |s|
  {
    s[..p] + [x] + s[p..]
  }

  function RemoveAt<T>(s: seq<T>, p: nat): seq<T>
    requires p < |s|
  {
    s[..p] + s[p + 1..]
  }

  function Drop(s: State, node: Option<nat>): State
    requires node.Some? ==> node.value < |s.leases|
  {
    if node.Some? then s.(leases := RemoveAt(s.leases, node.value)) else s
  }

  /** From POOL_CHECK on: refuse an address outside the pool, otherwise let the
      options decide, and drop the entry on a release, a refusal or a decline. */
  function Answer(cfg: Config, s: State, node: Option<nat>, m: Message): Outcome
    requires node.Some? ==> node.value < |s.leases|
  {
    if Above(s.client, cfg.end) || s.client == 0 then Outcome(Drop(s, node), STATE_NAK)
    else
      var ret := ParseOptions(m.opts, m.len, s.client, s.renew);
      if ret == STATE_RELEASE || ret == STATE_NAK || ret == STATE_DECLINE then
        Outcome(Drop(s, node).(client := 0, declined := s.declined || ret == STATE_DECLINE), ret)
      else Outcome(s, ret)
  }

  /** A new entry for the client at address `a`, and the cursor moved past it. */
  function Grant(cfg: Config, s: State, m: Message, a: u32): (r: State)
    ensures InsertPos(s.leases, 0, a) < |r.leases|
  {
    s.(leases := InsertAt(s.leases, InsertPos(s.leases, 0, a), Lease(m.chaddr, a, cfg.leaseTimer)),
       client := a,
       cursor := if a == cfg.end then cfg.start else Succ(a))
  }

  /** No entry for this client: take the cursor, or the first unused address if the cursor has run out. */
  function Allocate(cfg: Config, s: State, first: u32, m: Message): Outcome {
    var ca := if Above(s.cursor, cfg.end) then first else s.client;
    if Above(ca, cfg.end) then Answer(cfg, s.(client := ca, cursor := cfg.start), None, m)
    else Answer(cfg, Grant(cfg, s, m, ca), Some(InsertPos(s.leases, 0, ca)), m)
  }

  /** `parse_msg`. */
  function Receive(cfg: Config, s: State, m: Message): Outcome {
    if !m.cookie then Outcome(s, 0)
    else
      var s0 := s.(client := s.cursor, renew := false, declined := false);
      if s.leases == [] then
        Allocate(cfg, s0.(client := if s.declined then s.cursor else cfg.start), cfg.start, m)
      else
        match Search(s.leases, 0, m.chaddr, s.cursor, cfg.start, false)
        case Known(i, cursor) =>
          var l := s.leases[i];
          var s1 := s0.(leases := s.leases[i := l.(timer := cfg.leaseTimer)],
                        client := l.ip, cursor := cursor, renew := l.ip == m.ciaddr);
          Answer(cfg, s1, Some(i), m)
        case Unknown(cursor, first) =>
          Allocate(cfg, s0.(client := cursor, cursor := cursor), first, m)
  }

  // ----- one tick, one restart ----------------------------------------------

  function Aged(l: Lease): Lease { l.(timer := Wrap32(l.timer - 1)) }

  /** All timers lowered by one, the entries that reach zero removed. */
  function Expire(leases: seq<Lease>): (r: seq<Lease>)
    ensures |r| <= |leases|
  {
    if leases == [] then []
    else (if Aged(leases[0]).timer == 0 then [] else [Aged(leases[0])]) + Expire(leases[1..])
  }

  /** The first entry with the smallest timer, from `i` on, given the best so far. */
  function Oldest(leases: seq<Lease>, i: nat, best: nat): (r: nat)
    requires best < i <= |leases|
    ensures r < |leases| && (r == best || i <= r)
    ensures leases[r].timer <= leases[best].timer
    ensures r != best ==> leases[r].timer < leases[best].timer
    ensures forall k :: i <= k < |leases| ==> leases[r].timer <= leases[k].timer
    ensures forall k :: i <= k < r ==> leases[r].timer < leases[k].timer
    decreases |leases| - i
  {
    if i == |leases| then best
    else if leases[i].timer < leases[best].timer then Oldest(leases, i + 1, i)
    else Oldest(leases, i + 1, best)
  }

  /** `dhcps_tmr` while the server is started; the entry count is kept in eight bits. */
  function Tick(cfg: Config, s: State): State {
    var e := Expire(s.leases);
    if |e| % 256 > cfg.maxStations then s.(leases := RemoveAt(e, Oldest(e, 1, 0))) else s.(leases := e)
  }

  /** `dhcps_stop` followed by `dhcps_start` with the same pool. */
  function Restart(cfg: Config, s: State): State { s.(leases := [], cursor := cfg.start) }

  // ----- runs ---------------------------------------------------------------

  datatype Event = Arrives(m: Message) | Ticks | Restarts

  function Step(cfg: Config, s: State, e: Event): State {
    match e
    case Arrives(m) => Receive(cfg, s, m).state
    case Ticks => Tick(cfg, s)
    case Restarts => Restart(cfg, s)
  }

  function Run(cfg: Config, s: State, es: seq<Event>): State
    decreases |es|
  {
    if es == [] then s else Run(cfg, Step(cfg, s, es[0]), es[1..])
  }

  /** The state `dhcps_new` and `dhcps_start` leave behind. */
  function Fresh(cfg: Config): State { State([], 0, cfg.start, false, false) }

  // ----- what is promised ---------------------------------------------------

  predicate Leased(leases: seq<Lease>, a: int) { exists k :: 0 <= k < |leases| && leases[k].ip == a }

  predicate InPool(cfg: Config, leases: seq<Lease>) {
    forall k :: 0 <= k < |leases| ==> cfg.start <= leases[k].ip <= cfg.end
  }

  predicate Sorted(leases: seq<Lease>) {
    forall i, j :: 0 <= i < j < |leases| ==> leases[i].ip < leases[j].ip
  }

  predicate DistinctMacs(leases: seq<Lease>) {
    forall i, j :: 0 <= i < j < |leases| ==> leases[i].mac != leases[j].mac
  }

  predicate DistinctAddresses(leases: seq<Lease>) {
    forall i, j :: 0 <= i < j < |leases| ==> leases[i].ip != leases[j].ip
  }

  /** Every address of the pool is leased. */
  predicate Full(cfg: Config, leases: seq<Lease>) {
    forall a :: cfg.start <= a <= cfg.end ==> Leased(leases, a)
  }

  /** The pool is not empty, does not contain 0.0.0.0, and its addresses and the
      one after it share their first three octets. */
  predicate GoodPool(cfg: Config) {
    0 < cfg.start <= cfg.end && cfg.start / 256 == (cfg.end + 1) / 256
  }

  /** The invariant of every run over a good pool. */
  predicate Inv(cfg: Config, s: State) {
    && GoodPool(cfg)
    && Sorted(s.leases) && InPool(cfg, s.leases) && DistinctMacs(s.leases)
    && cfg.start <= s.cursor <= cfg.end + 1
  }

  /** The entry of a client, the first one in the list. */
  function LeaseOf(leases: seq<Lease>, mac: Mac): (r: Option<Lease>)
    ensures r.Some? ==> r.value in leases && r.value.mac == mac
    ensures r.None? ==> forall l :: l in leases ==> l.mac != mac
  {
    if leases == [] then None
    else if leases[0].mac == mac then Some(leases[0])
    else LeaseOf(leases[1..], mac)
  }
}
