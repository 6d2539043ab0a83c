/** Safety and completeness of the lease allocator over a good pool: in every
    run no address is leased twice or outside the pool, and a new client is
    refused only when the pool is full. */
module DhcpSafety {
  import opened Words
  import opened DhcpOptions
  import opened DhcpLeases

  /** Over a good pool the comparison of stored words is the comparison of addresses. */
  lemma PoolOrder(cfg: Config, a: u32, b: u32)
    requires GoodPool(cfg) && cfg.start <= a <= cfg.end + 1 && cfg.start <= b <= cfg.end + 1
    ensures Above(a, b) <==> a > b
  {
    assert a / 256 == cfg.start / 256 == b / 256;
    hide Raw;
    RawOrder(b, a);
  }

  lemma SuccInPool(cfg: Config, a: u32)
    requires GoodPool(cfg) && a <= cfg.end
    ensures Succ(a) == a + 1
  {
    assert cfg.start / 256 * 256 <= cfg.start < TWO32;
    assert cfg.end + 1 < cfg.start / 256 * 256 + 256 <= TWO32;
  }

  // ----- the search loop ----------------------------------------------------

  /** What is known of the cursor when the loop has passed the first `i` entries. */
  predicate CursorAt(cfg: Config, leases: seq<Lease>, i: nat, from: int, cursor: int) {
    && i <= |leases| && cfg.start <= from <= cursor <= cfg.end + 1
    && (forall a :: from <= a < cursor ==> Leased(leases, a))
    && (forall k :: 0 <= k < i ==> leases[k].ip != cursor)
  }

  /** What is known of the first unused address: the first `j` entries hold the
      first `j` addresses of the pool, and no entry after them holds the next. */
  predicate FirstAt(cfg: Config, leases: seq<Lease>, i: nat, j: nat, first: int, passed: bool) {
    && j <= i <= |leases| && first == cfg.start + j
    && (forall k :: 0 <= k < j ==> leases[k].ip == cfg.start + k)
    && (if passed then j < i && leases[j].ip > first else j == i)
  }

  /** `a` is the lowest unleased address from `from` on. */
  predicate LowestFree(leases: seq<Lease>, from: int, a: int) {
    from <= a && !Leased(leases, a) && forall b :: from <= b < a ==> Leased(leases, b)
  }

  lemma CursorStep(cfg: Config, leases: seq<Lease>, i: nat, from: int, cursor: u32)
    requires GoodPool(cfg) && Sorted(leases) && InPool(cfg, leases)
    requires i < |leases| && CursorAt(cfg, leases, i, from, cursor)
    ensures CursorAt(cfg, leases, i + 1, from, if leases[i].ip == cursor then Succ(cursor) else cursor)
  {
    if leases[i].ip == cursor {
      assert Leased(leases, cursor);
    }
  }

  lemma CursorEnd(cfg: Config, leases: seq<Lease>, i: nat, from: int, cursor: u32)
    requires CursorAt(cfg, leases, i, from, cursor)
    ensures cfg.start <= cursor <= cfg.end + 1
    ensures i == |leases| ==> LowestFree(leases, from, cursor)
  {}

  lemma FirstNumeric(cfg: Config, leases: seq<Lease>, i: nat, first: int)
    requires Sorted(leases) && InPool(cfg, leases)
    requires i < |leases| && FirstAt(cfg, leases, i, i, first, false)
    ensures cfg.start <= first <= leases[i].ip <= cfg.end
    ensures if leases[i].ip > first then FirstAt(cfg, leases, i + 1, i, first, true)
            else FirstAt(cfg, leases, i + 1, i + 1, first + 1, false)
  {
    if i > 0 { assert leases[i - 1].ip < leases[i].ip; }
  }

  lemma FirstStep(cfg: Config, leases: seq<Lease>, i: nat, first: u32)
    requires GoodPool(cfg) && Sorted(leases) && InPool(cfg, leases)
    requires i < |leases| && FirstAt(cfg, leases, i, i, first, false)
    ensures if Above(leases[i].ip, first) then FirstAt(cfg, leases, i + 1, i, first, true)
            else FirstAt(cfg, leases, i + 1, i + 1, Succ(first), false)
  {
    hide Above, FirstAt, GoodPool, Sorted, InPool;
    FirstNumeric(cfg, leases, i, first);
    PoolOrder(cfg, leases[i].ip, first);
    SuccInPool(cfg, leases[i].ip);
  }

  lemma FirstPassed(cfg: Config, leases: seq<Lease>, i: nat, j: nat, first: int)
    requires i < |leases| && FirstAt(cfg, leases, i, j, first, true)
    ensures FirstAt(cfg, leases, i + 1, j, first, true)
  {}

  lemma FirstCount(cfg: Config, leases: seq<Lease>, i: nat, j: nat, first: int)
    requires FirstAt(cfg, leases, i, j, first, false)
    ensures j == i
  {}

  lemma FirstEnd(cfg: Config, leases: seq<Lease>, j: nat, first: int, passed: bool)
    requires GoodPool(cfg) && Sorted(leases) && InPool(cfg, leases)
    requires FirstAt(cfg, leases, |leases|, j, first, passed)
    ensures LowestFree(leases, cfg.start, first) && first <= cfg.end + 1
  {
    forall b | cfg.start <= b < first ensures Leased(leases, b) {
      assert leases[b - cfg.start].ip == b;
    }
    if j > 0 { assert leases[j - 1].ip == first - 1; }
  }

  /** The loop finds the lowest free address from the cursor on and the lowest
      free address of the pool, unless it finds the client's own entry. */
  lemma {:induction false} SearchFacts(cfg: Config, leases: seq<Lease>, i: nat, mac: Mac, from: int,
                                       cursor: u32, j: nat, first: u32, passed: bool)
    requires GoodPool(cfg) && Sorted(leases) && InPool(cfg, leases)
    requires CursorAt(cfg, leases, i, from, cursor) && FirstAt(cfg, leases, i, j, first, passed)
    ensures var r := Search(leases, i, mac, cursor, first, passed);
            && cfg.start <= r.cursor <= cfg.end + 1
            && (r.Unknown? ==> LowestFree(leases, from, r.cursor) && LowestFree(leases, cfg.start, r.first)
                               && r.first <= cfg.end + 1)
    decreases |leases| - i
  {
    CursorEnd(cfg, leases, i, from, cursor);
    hide CursorAt, FirstAt, LowestFree, Sorted, InPool, GoodPool, Above, Succ;
    if i == |leases| {
      FirstEnd(cfg, leases, j, first, passed);
    } else if leases[i].mac != mac {
      CursorStep(cfg, leases, i, from, cursor);
      var cursor' := if leases[i].ip == cursor then Succ(cursor) else cursor;
      if passed {
        FirstPassed(cfg, leases, i, j, first);
        SearchFacts(cfg, leases, i + 1, mac, from, cursor', j, first, true);
      } else {
        FirstCount(cfg, leases, i, j, first);
        FirstStep(cfg, leases, i, first);
        if Above(leases[i].ip, first) {
          SearchFacts(cfg, leases, i + 1, mac, from, cursor', i, first, true);
        } else {
          SearchFacts(cfg, leases, i + 1, mac, from, cursor', i + 1, Succ(first), false);
        }
      }
    }
  }

  lemma SearchFromStart(cfg: Config, s: State, mac: Mac)
    requires Inv(cfg, s)
    ensures var r := Search(s.leases, 0, mac, s.cursor, cfg.start, false);
            && cfg.start <= r.cursor <= cfg.end + 1
            && (r.Unknown? ==> LowestFree(s.leases, s.cursor, r.cursor) && LowestFree(s.leases, cfg.start, r.first)
                               && r.first <= cfg.end + 1)
  {
    SearchFacts(cfg, s.leases, 0, mac, s.cursor, s.cursor, 0, cfg.start, false);
  }

  // ----- the list operations ------------------------------------------------

  /** Inserting a free pool address keeps the list sorted. */
  lemma InsertSorted(cfg: Config, leases: seq<Lease>, l: Lease)
    requires GoodPool(cfg) && Sorted(leases) && InPool(cfg, leases)
    requires cfg.start <= l.ip <= cfg.end && !Leased(leases, l.ip)
    ensures var r := InsertAt(leases, InsertPos(leases, 0, l.ip), l); Sorted(r) && InPool(cfg, r)
  {
    hide Above, InsertPos;
    var p := InsertPos(leases, 0, l.ip);
    forall k | 0 <= k < p ensures leases[k].ip < l.ip {
      PoolOrder(cfg, leases[k].ip, l.ip);
    }
    if p < |leases| { PoolOrder(cfg, leases[p].ip, l.ip); }
    InsertBetween(cfg, leases, p, l);
  }

  lemma InsertBetween(cfg: Config, leases: seq<Lease>, p: nat, l: Lease)
    requires Sorted(leases) && InPool(cfg, leases) && p <= |leases| && cfg.start <= l.ip <= cfg.end
    requires (forall k :: 0 <= k < p ==> leases[k].ip < l.ip) && (p < |leases| ==> l.ip < leases[p].ip)
    ensures Sorted(InsertAt(leases, p, l)) && InPool(cfg, InsertAt(leases, p, l))
  {}

  lemma InsertMacs(leases: seq<Lease>, p: nat, l: Lease)
    requires DistinctMacs(leases) && p <= |leases|
    requires forall k :: 0 <= k < |leases| ==> leases[k].mac != l.mac
    ensures DistinctMacs(InsertAt(leases, p, l))
  {}

  lemma RemoveKeeps(cfg: Config, leases: seq<Lease>, p: nat)
    requires Sorted(leases) && InPool(cfg, leases) && DistinctMacs(leases) && p < |leases|
    ensures var r := RemoveAt(leases, p); Sorted(r) && InPool(cfg, r) && DistinctMacs(r)
  {}

  lemma AnswerInv(cfg: Config, s: State, node: Option<nat>, m: Message)
    requires Inv(cfg, s) && (node.Some? ==> node.value < |s.leases|)
    ensures Inv(cfg, Answer(cfg, s, node, m).state)
  {
    hide Above, ParseOptions;
    if node.Some? { RemoveKeeps(cfg, s.leases, node.value); }
  }

  // ----- allocation ---------------------------------------------------------

  /** The facts about cursor, candidate and first unused address with which
      `Allocate` is entered. */
  predicate Ready(cfg: Config, s: State, first: u32, m: Message) {
    && Inv(cfg, s) && (forall k :: 0 <= k < |s.leases| ==> s.leases[k].mac != m.chaddr)
    && LowestFree(s.leases, cfg.start, first) && first <= cfg.end + 1
    && cfg.start <= s.client <= cfg.end + 1 && !Leased(s.leases, s.client)
    && (s.cursor <= cfg.end ==> s.client <= cfg.end)
  }

  /** The address `Allocate` picks. */
  function Pick(cfg: Config, s: State, first: u32): u32 {
    if s.cursor > cfg.end then first else s.client
  }

  lemma AllocateFacts(cfg: Config, s: State, first: u32, m: Message)
    requires Ready(cfg, s, first, m)
    ensures var a := Pick(cfg, s, first);
            var o := Allocate(cfg, s, first, m);
            && Inv(cfg, o.state)
            && (if a > cfg.end then o == Outcome(s.(client := a, cursor := cfg.start), STATE_NAK)
                else o == Answer(cfg, Grant(cfg, s, m, a), Some(InsertPos(s.leases, 0, a)), m))
  {
    var a := Pick(cfg, s, first);
    ReadyPick(cfg, s, first, m);
    hide Above, Allocate, Answer, Grant, InsertPos, Inv, LowestFree, GoodPool, Leased;
    PoolOrder(cfg, s.cursor, cfg.end);
    PoolOrder(cfg, a, cfg.end);
    AllocateIs(cfg, s, first, m);
    if a <= cfg.end {
      GrantInv(cfg, s, a, m);
      AnswerInv(cfg, Grant(cfg, s, m, a), Some(InsertPos(s.leases, 0, a)), m);
    }
  }

  lemma ReadyPick(cfg: Config, s: State, first: u32, m: Message)
    requires Ready(cfg, s, first, m)
    ensures Inv(cfg, s) && GoodPool(cfg) && cfg.start <= s.cursor <= cfg.end + 1 && cfg.start <= cfg.end
    ensures forall k :: 0 <= k < |s.leases| ==> s.leases[k].mac != m.chaddr
    ensures cfg.start <= Pick(cfg, s, first) <= cfg.end + 1 && !Leased(s.leases, Pick(cfg, s, first))
    ensures Inv(cfg, s.(client := Pick(cfg, s, first), cursor := cfg.start))
  {}

  lemma AllocateIs(cfg: Config, s: State, first: u32, m: Message)
    ensures var ca := if Above(s.cursor, cfg.end) then first else s.client;
            var o := Allocate(cfg, s, first, m);
            if Above(ca, cfg.end) then o == Outcome(s.(client := ca, cursor := cfg.start), STATE_NAK)
            else o == Answer(cfg, Grant(cfg, s, m, ca), Some(InsertPos(s.leases, 0, ca)), m)
  {
    hide Above, Grant, InsertPos, ParseOptions;
  }

  lemma GrantInv(cfg: Config, s: State, a: u32, m: Message)
    requires Inv(cfg, s) && (forall k :: 0 <= k < |s.leases| ==> s.leases[k].mac != m.chaddr)
    requires cfg.start <= a <= cfg.end && !Leased(s.leases, a)
    ensures Inv(cfg, Grant(cfg, s, m, a))
  {
    var l := Lease(m.chaddr, a, cfg.leaseTimer);
    SuccInPool(cfg, a);
    InsertSorted(cfg, s.leases, l);
    InsertMacs(s.leases, InsertPos(s.leases, 0, a), l);
    hide InsertPos, InsertAt, Sorted, InPool, DistinctMacs, Succ;
  }

  /** The state in which `Allocate` is entered for a message from an unknown client. */
  function Before(cfg: Config, s: State, m: Message): (State, u32) {
    var s0 := s.(client := s.cursor, renew := false, declined := false);
    if s.leases == [] then (s0.(client := if s.declined then s.cursor else cfg.start), cfg.start)
    else
      match Search(s.leases, 0, m.chaddr, s.cursor, cfg.start, false)
      case Known(_, cursor) => (s0.(client := cursor, cursor := cursor), cfg.start)
      case Unknown(cursor, first) => (s0.(client := cursor, cursor := cursor), first)
  }

  predicate Stranger(leases: seq<Lease>, m: Message) {
    forall k :: 0 <= k < |leases| ==> leases[k].mac != m.chaddr
  }

  lemma StrangerReady(cfg: Config, s: State, m: Message)
    requires Inv(cfg, s) && m.cookie && Stranger(s.leases, m)
    ensures var (t, first) := Before(cfg, s, m);
            && Ready(cfg, t, first, m) && t.leases == s.leases && !t.renew && !t.declined
            && Receive(cfg, s, m) == Allocate(cfg, t, first, m)
            && LowestFree(s.leases, s.cursor, t.cursor)
            && (s.leases == [] ==> first == cfg.start && t.cursor == s.cursor
                                   && t.client == if s.declined then s.cursor else cfg.start)
            && (s.leases != [] ==> t.client == t.cursor)
  {
    SearchFromStart(cfg, s, m.chaddr);
    hide Allocate;
  }

  lemma KnownInv(cfg: Config, s: State, m: Message, i: nat, cursor: u32)
    requires Inv(cfg, s) && i < |s.leases| && cfg.start <= cursor <= cfg.end + 1
    ensures Inv(cfg, s.(leases := s.leases[i := s.leases[i].(timer := cfg.leaseTimer)], client := s.leases[i].ip,
                        cursor := cursor, renew := s.leases[i].ip == m.ciaddr, declined := false))
  {}

  lemma ReceiveInv(cfg: Config, s: State, m: Message)
    requires Inv(cfg, s)
    ensures Inv(cfg, Receive(cfg, s, m).state)
  {
    if m.cookie {
      if Stranger(s.leases, m) {
        StrangerReady(cfg, s, m);
        var (t, first) := Before(cfg, s, m);
        AllocateFacts(cfg, t, first, m);
      } else {
        SearchFromStart(cfg, s, m.chaddr);
        var r := Search(s.leases, 0, m.chaddr, s.cursor, cfg.start, false);
        KnownInv(cfg, s, m, r.index, r.cursor);
        var l := s.leases[r.index];
        var s1 := s.(leases := s.leases[r.index := l.(timer := cfg.leaseTimer)], client := l.ip,
                     cursor := r.cursor, renew := l.ip == m.ciaddr, declined := false);
        AnswerInv(cfg, s1, Some(r.index), m);
        hide Answer;
      }
    }
  }

  // ----- ticks --------------------------------------------------------------

  lemma {:induction false} ExpireMembers(leases: seq<Lease>, l: Lease)
    ensures l in Expire(leases) <==> exists k :: 0 <= k < |leases| && l == Aged(leases[k]) && l.timer != 0
  {
    if leases != [] {
      ExpireMembers(leases[1..], l);
      if l in Expire(leases[1..]) {
        var k :| 0 <= k < |leases[1..]| && l == Aged(leases[1..][k]) && l.timer != 0;
        assert l == Aged(leases[k + 1]);
      }
      if k :| 0 < k < |leases| && l == Aged(leases[k]) && l.timer != 0 {
        assert l == Aged(leases[1..][k - 1]);
      }
    }
  }

  lemma {:induction false} ExpireKeeps(cfg: Config, leases: seq<Lease>)
    requires Sorted(leases) && InPool(cfg, leases) && DistinctMacs(leases)
    ensures var r := Expire(leases); Sorted(r) && InPool(cfg, r) && DistinctMacs(r)
  {
    if leases != [] {
      ExpireKeeps(cfg, leases[1..]);
      var rest := Expire(leases[1..]);
      forall k | 0 <= k < |rest| ensures leases[0].ip < rest[k].ip && leases[0].mac != rest[k].mac {
        ExpireMembers(leases[1..], rest[k]);
      }
      ConsKeeps(cfg, Aged(leases[0]), rest);
    }
  }

  lemma ConsKeeps(cfg: Config, l: Lease, rest: seq<Lease>)
    requires Sorted(rest) && InPool(cfg, rest) && DistinctMacs(rest) && cfg.start <= l.ip <= cfg.end
    requires forall k :: 0 <= k < |rest| ==> l.ip < rest[k].ip && l.mac != rest[k].mac
    ensures var r := [l] + rest; Sorted(r) && InPool(cfg, r) && DistinctMacs(r)
  {}

  lemma TickInv(cfg: Config, s: State)
    requires Inv(cfg, s)
    ensures Inv(cfg, Tick(cfg, s))
  {
    ExpireKeeps(cfg, s.leases);
    var e := Expire(s.leases);
    if |e| % 256 > cfg.maxStations { RemoveKeeps(cfg, e, Oldest(e, 1, 0)); }
  }

  // ----- the run theorems ---------------------------------------------------

  lemma StepInv(cfg: Config, s: State, e: Event)
    requires Inv(cfg, s)
    ensures Inv(cfg, Step(cfg, s, e))
  {
    match e
    case Arrives(m) => ReceiveInv(cfg, s, m);
    case Ticks => TickInv(cfg, s);
    case Restarts =>
  }

  /** Every run of messages, ticks and restarts keeps the invariant. */
  lemma {:induction false} RunInv(cfg: Config, s: State, es: seq<Event>)
    requires Inv(cfg, s)
    ensures Inv(cfg, Run(cfg, s, es))
    decreases |es|
  {
    if es != [] {
      StepInv(cfg, s, es[0]);
      RunInv(cfg, Step(cfg, s, es[0]), es[1..]);
    }
  }

  /** In every run from a started server over a good pool: the list is strictly
      sorted by address (so no address is leased twice), every address is in
      the pool, no client has two leases, and the cursor is in the pool or just after it. */
  lemma AllocatorSafe(cfg: Config, es: seq<Event>)
    requires GoodPool(cfg)
    ensures var s := Run(cfg, Fresh(cfg), es);
            && Sorted(s.leases) && DistinctAddresses(s.leases) && DistinctMacs(s.leases)
            && InPool(cfg, s.leases) && cfg.start <= s.cursor <= cfg.end + 1
  {
    RunInv(cfg, Fresh(cfg), es);
  }

  /** `parse_msg` turns a new client away before it even looks at the options. */
  predicate Refused(cfg: Config, s: State, m: Message) {
    var (t, first) := Before(cfg, s, m);
    var ca := if Above(t.cursor, cfg.end) then first else t.client;
    Above(ca, cfg.end) || ca == 0
  }

  lemma FullIff(cfg: Config, leases: seq<Lease>, first: int)
    requires GoodPool(cfg) && InPool(cfg, leases) && LowestFree(leases, cfg.start, first) && first <= cfg.end + 1
    ensures Full(cfg, leases) <==> first > cfg.end
  {}

  /** A new client is refused for lack of an address exactly when every address
      of the pool is leased. Otherwise it is offered a free pool address: the
      start of the pool if there are no leases, or the lowest free address from
      the cursor on, or, when there is none, the lowest free address of all. */
  lemma RefusedIffFull(cfg: Config, s: State, m: Message)
    requires Inv(cfg, s) && m.cookie && Stranger(s.leases, m)
    ensures Refused(cfg, s, m) <==> Full(cfg, s.leases)
    ensures Full(cfg, s.leases) ==> Receive(cfg, s, m).ret == STATE_NAK && Receive(cfg, s, m).state.leases == s.leases
    ensures !Full(cfg, s.leases) ==>
              exists a: u32 ::
                && cfg.start <= a <= cfg.end && !Leased(s.leases, a) && Chosen(cfg, s, a)
                && Receive(cfg, s, m) == Answer(cfg, Grant(cfg, s.(renew := false, declined := false), m, a),
                                                Some(InsertPos(s.leases, 0, a)), m)
  {
    RefusedFull(cfg, s, m);
    hide Refused, Receive, Full, Inv, Chosen;
    if !Full(cfg, s.leases) { GrantedChosen(cfg, s, m); }
  }

  lemma RefusedFull(cfg: Config, s: State, m: Message)
    requires Inv(cfg, s) && m.cookie && Stranger(s.leases, m)
    ensures Refused(cfg, s, m) <==> Full(cfg, s.leases)
    ensures Full(cfg, s.leases) ==> Receive(cfg, s, m).ret == STATE_NAK && Receive(cfg, s, m).state.leases == s.leases
  {
    StrangerReady(cfg, s, m);
    var (t, first) := Before(cfg, s, m);
    AllocateFacts(cfg, t, first, m);
    FullIff(cfg, s.leases, first);
    var a := Pick(cfg, t, first);
    PoolOrder(cfg, t.cursor, cfg.end);
    PoolOrder(cfg, a, cfg.end);
    hide Above, Answer, Allocate, Search, InsertPos, Full, Sorted, DistinctMacs;
  }

  lemma GrantedChosen(cfg: Config, s: State, m: Message)
    requires Inv(cfg, s) && m.cookie && Stranger(s.leases, m) && !Full(cfg, s.leases)
    ensures exists a: u32 ::
              && cfg.start <= a <= cfg.end && !Leased(s.leases, a) && Chosen(cfg, s, a)
              && Receive(cfg, s, m) == Answer(cfg, Grant(cfg, s.(renew := false, declined := false), m, a),
                                              Some(InsertPos(s.leases, 0, a)), m)
  {
    StrangerReady(cfg, s, m);
    var (t, first) := Before(cfg, s, m);
    AllocateFacts(cfg, t, first, m);
    FullIff(cfg, s.leases, first);
    var a := Pick(cfg, t, first);
    PoolOrder(cfg, t.cursor, cfg.end);
    hide Above, Answer, Allocate, Search, InsertPos, Full, Sorted, DistinctMacs;
    assert a <= cfg.end;
    assert Chosen(cfg, s, a);
    assert Grant(cfg, t, m, a) == Grant(cfg, s.(renew := false, declined := false), m, a);
  }

  /** The address a new client is due. */
  predicate Chosen(cfg: Config, s: State, a: int) {
    if s.leases == [] && !(s.declined && s.cursor <= cfg.end) then a == cfg.start
    else LowestFree(s.leases, s.cursor, a)
         || (LowestFree(s.leases, cfg.start, a) && forall b :: s.cursor <= b <= cfg.end ==> Leased(s.leases, b))
  }
}
