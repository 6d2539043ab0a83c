/** Whole runs of opens, closes and time-outs from the initial state. */
module IoRuns {
  import opened Words
  import opened IoConnections
  import opened IoSafety
  import opened IoSelection

  // ----- opening ------------------------------------------------------------

  lemma PutIdle(st: Stack, s: Slot, c: Conn)
    requires Inv(st) && s !in st.active && c.phase == NonExistent && Quiet(c)
    ensures Inv(Put(st, s, c))
  {
    PutIdleSettles(st, s, c);
    SettlesInv(st, Put(st, s, c));
  }

  lemma PutIdleSettles(st: Stack, s: Slot, c: Conn)
    requires Inv(st) && s !in st.active && c.phase == NonExistent && Quiet(c)
    ensures Settles(st, Put(st, s, c))
  {
    hide Of, Sub, NoDup, OwnersLead, Placed;
    forall u ensures Of(Put(st, s, c), u) == if u == s then c else Of(st, u) { OfPut(st, s, c, u); }
    SubRefl(st.active);
  }

  /** Slot `s` can take a new connection; for an exclusive owner, no other one is established. */
  ghost predicate Ready(st: Stack, s: Slot, x: nat) {
    Inv(st) && s !in st.active && (s.Owner? ==> !Owned(st, x))
  }

  lemma CloseReady(st: Stack, s: Slot, x: nat)
    requires Inv(st) && Of(st, s).closable && (s.Owner? ==> !Owned(st, x))
    ensures Ready(CloseIo(st, s), s, x)
  {
    CloseIoInv(st, s);
    CloseIoSettles(st, s);
    hide CloseIo, Inv, Sub, Of, OneSender, Quiet;
    var st' := CloseIo(st, s);
    SubMembers(st'.active, st.active);
    if Owned(st', x) {
      var e :| e in st'.active && Owns(st', e, x) && Of(st', e).phase == Established;
      assert Alike(Of(st, e), Of(st', e));
      assert Inv(st);
      ActiveExists(st, e);
      assert Owns(st, e, x);
    }
  }

  lemma ActiveExists(st: Stack, e: Slot)
    requires Inv(st) && e in st.active
    ensures Of(st, e).phase != NonExistent
  {}

  lemma UnusedIdle(st: Stack, s: Slot)
    requires Inv(st)
    ensures Unused(st, s) <==> s !in st.active
    ensures Of(st, s).phase == TimedOut ==> Of(st, s).closable
  {}

  /** The slot of an owner point is idle when the point's input has no owner, established or timed out. */
  lemma OwnerIdle(st: Stack, i: nat)
    requires Inv(st) && i < |st.cfg.owners|
    requires !Owned(st, st.cfg.owners[i].input) && !Haunted(st, st.cfg.owners[i].input)
    ensures Owner(i) !in st.active
  {
    hide NoDup, OwnersLead, OneSender;
    var x := st.cfg.owners[i].input;
    assert forall e :: e in st.active ==> !Owns(st, e, x);
    assert Owner(i) in st.active ==> Placed(st.cfg, Owner(i), Of(st, Owner(i)));
  }

  lemma OwnerReady(st: Stack, r: Request)
    requires Inv(st)
    ensures var o := OwnerSearch(st, r); o.Granted? ==> Ready(o.st, o.slot, r.produced)
  {
    var f := FirstMatch(st.cfg.owners, r, 0);
    FirstMatchExact(st.cfg.owners, r, 0);
    if f.Some? {
      var i := f.value;
      OwnerSearchExact(st, r, i);
      hide Inv, OwnerSearch, FirstMatch, CloseIo, Owned, Haunted;
      if !Owned(st, r.produced) {
        if !Haunted(st, r.produced) {
          OwnerIdle(st, i);
        } else if Of(st, Owner(i)).closable {
          CloseReady(st, Owner(i), r.produced);
        }
      }
    }
  }

  lemma RowReady(st: Stack, row: seq<Slot>, r: Request)
    requires Inv(st) && forall s :: s in row ==> !s.Owner?
    ensures var o := RowSearch(st, row, r); o.Granted? ==> Ready(o.st, o.slot, r.produced)
  {
    RowExact(st, row, r);
    hide Inv, RowSearch, CloseIo;
    var o := RowSearch(st, row, r);
    if o.Granted? {
      UnusedIdle(st, o.slot);
      if Stale(st, o.slot, r) { CloseReady(st, o.slot, r.produced); }
    }
  }

  lemma SearchReady(st: Stack, r: Request)
    requires Inv(st)
    ensures var o := InputSearch(st, r); o.Granted? ==> Ready(o.st, o.slot, r.produced)
    ensures var o := ListenSearch(st, r); o.Granted? ==> Ready(o.st, o.slot, r.produced)
  {
    hide Inv, RowSearch, FindPoint;
    match FindPoint(st.cfg.inputs, r, 0, 0) { case Miss(_) => case Hit(i) => RowReady(st, InputRow(st.cfg, i), r); }
    match FindPoint(st.cfg.listens, r, 0, 0) { case Miss(_) => case Hit(i) => RowReady(st, ListenRow(st.cfg, i), r); }
  }

  lemma FilledReady(o: Outcome, r: Request, kind: Kind)
    requires o.Granted? && Ready(o.st, o.slot, r.produced)
    ensures Ready(Filled(o, r, kind).st, o.slot, r.produced)
  {
    var st, s := o.st, o.slot;
    var st' := Put(st, s, Copied(r, kind));
    PutIdle(st, s, Copied(r, kind));
    hide Inv, Of;
    forall u ensures Of(st', u) == if u == s then Copied(r, kind) else Of(st, u) { OfPut(st, s, Copied(r, kind), u); }
  }

  /** A slot handed out is ready, in every reachable state. */
  lemma SelectReady(st: Stack, r: Request)
    requires Inv(st) && Select(st, r).Granted?
    ensures var Granted(s, st') := Select(st, r); Ready(st', s, r.produced)
  {
    hide Select, OwnerSearch, InputSearch, ListenSearch, Ready, Inv, Filled;
    SelectCases(st, r);
    OwnerReady(st, r);
    SearchReady(st, r);
    var own, input, listen := OwnerSearch(st, r), InputSearch(st, r), ListenSearch(st, r);
    if own.Granted? { FilledReady(own, r, ExclusiveOwner); }
    if input.Granted? { FilledReady(input, r, InputOnly); }
    if listen.Granted? { FilledReady(listen, r, ListenOnly); }
    FilledGranted(own, r, ExclusiveOwner);
    FilledGranted(input, r, InputOnly);
    FilledGranted(listen, r, ListenOnly);
  }

  lemma FilledGranted(o: Outcome, r: Request, kind: Kind)
    ensures Filled(o, r, kind).Granted? <==> o.Granted?
    ensures o.Granted? ==> Filled(o, r, kind).slot == o.slot
  {}

  /** What `Activate` does to each connection. */
  lemma ActivateOf(st: Stack, s: Slot, u: Slot)
    requires s !in st.active
    ensures var c := Of(st, s);
            var producer := Producer(st, st.active, true, c.produced);
            var takes := c.flow == Multicast && c.kind == ExclusiveOwner && producer.Some?;
            var sends := c.flow == PointToPoint ||
                  (c.flow == Multicast && (producer.None? || c.kind == ExclusiveOwner));
            Of(Activate(st, s), u) ==
              if u == s then c.(closable := true, phase := Established, sending := sends)
              else if takes && u == producer.value then Of(st, u).(sending := false)
              else Of(st, u)
  {}

  lemma ProducerFacts(st: Stack, x: nat)
    ensures var p := Producer(st, st.active, true, x);
            && (p.Some? ==> p.value in st.active && Sends(Of(st, p.value)) && Of(st, p.value).produced == x)
            && (p.None? ==> forall u :: u in st.active && Of(st, u).produced == x ==> !Sends(Of(st, u)))
  {
    var p := Producer(st, st.active, true, x);
    if p.None? {
      forall u | u in st.active && Of(st, u).produced == x ensures !Sends(Of(st, u)) {
        assert !Produces(st, u, true, x);
      }
    }
  }

  lemma ActivateOneSender(st: Stack, st': Stack, s: Slot, producer: Option<Slot>)
    requires OneSender(st) && s !in st.active && st'.active == [s] + st.active
    requires var c, c' := Of(st, s), Of(st', s); c'.produced == c.produced && c'.kind == c.kind && c'.flow == c.flow
    requires producer == Producer(st, st.active, true, Of(st, s).produced)
    requires var c := Of(st, s);
             var takes := c.flow == Multicast && c.kind == ExclusiveOwner && producer.Some?;
             && (Sends(Of(st', s)) ==> producer.None? || takes)
             && forall u :: u in st.active ==>
                  Of(st', u) == if takes && u == producer.value then Of(st, u).(sending := false) else Of(st, u)
    ensures OneSender(st')
  {
    ProducerFacts(st, Of(st, s).produced);
    hide Of, Producer;
    assert forall u :: u in st'.active <==> u == s || u in st.active;
  }

  /** A new owner at the head of the list, when no other one of its input is established. */
  lemma LeadAtHead(st: Stack, st': Stack, s: Slot)
    requires OwnersLead(st, st.active) && st'.active == [s] + st.active
    requires forall t :: t in st.active ==> Alike(Of(st, t), Of(st', t)) && Of(st', t).phase == Of(st, t).phase
    requires Of(st', s).kind == ExclusiveOwner ==> !Owned(st, Of(st', s).produced)
    ensures OwnersLead(st', st'.active)
  {
    hide Of, Sub, OwnersLead;
    SubRefl(st.active);
    LeadKept(st, st', st.active, st.active);
    assert st'.active[1..] == st.active;
    forall t | t in st.active && Rivals(Of(st', s), Of(st', t)) ensures Of(st', t).phase == TimedOut {
      assert Owns(st, t, Of(st', s).produced);
    }
    LeadCons(st', st'.active);
  }

  lemma LeadCons(st: Stack, list: seq<Slot>)
    requires list != [] && OwnersLead(st, list[1..])
    requires forall t :: t in list[1..] && Rivals(Of(st, list[0]), Of(st, t)) ==> Of(st, t).phase == TimedOut
    ensures OwnersLead(st, list)
  {}

  lemma ActivateInv(st: Stack, s: Slot)
    requires Ready(st, s, Of(st, s).produced) && Placed(st.cfg, s, Of(st, s)) && !s.Explicit?
    ensures Inv(Activate(st, s))
  {
    hide Of, Producer, OneSender, OwnersLead, Owned;
    var st', c := Activate(st, s), Of(st, s);
    var x := c.produced;
    var producer := Producer(st, st.active, true, x);
    forall u ensures
        var takes := c.flow == Multicast && c.kind == ExclusiveOwner && producer.Some?;
        var sends := c.flow == PointToPoint || (c.flow == Multicast && (producer.None? || c.kind == ExclusiveOwner));
        Of(st', u) ==
          if u == s then c.(closable := true, phase := Established, sending := sends)
          else if takes && u == producer.value then Of(st, u).(sending := false)
          else Of(st, u)
    { ActivateOf(st, s, u); }
    ProducerFacts(st, x);
    assert st'.active == [s] + st.active && st'.active[1..] == st.active && st'.cfg == st.cfg;
    ActivateOneSender(st, st', s, producer);
    hide Activate, Sends;
    LeadAtHead(st, st', s);
    assert forall u :: u in st'.active <==> u == s || u in st.active;
  }

  /** An explicit connection is put at the head of the list. */
  lemma ExplicitInv(st: Stack, k: nat)
    requires Inv(st) && Of(st, Explicit(k)).phase == NonExistent
    ensures Inv(Step(st, OpenExplicit(k)).value)
  {
    hide Of, Sub;
    var s := Explicit(k);
    var c := EMPTY.(phase := Established, closable := true);
    var st' := Put(st, s, c).(active := [s] + st.active);
    forall u ensures Of(st', u) == if u == s then c else Of(st, u) {
      OfPut(st, s, c, u);
      OfActive(Put(st, s, c), [s] + st.active, u);
    }
    assert st'.active[1..] == st.active;
    assert forall u :: u in st'.active <==> u == s || u in st.active;
    SubRefl(st.active);
    LeadKept(st, st', st.active, st.active);
  }

  lemma OfActive(st: Stack, list: seq<Slot>, u: Slot)
    ensures Of(st.(active := list), u) == Of(st, u)
  {}

  lemma EstablishInv(st: Stack, r: Request, setup: Setup)
    requires Inv(st)
    ensures Establish(st, r, setup).Some? ==> Inv(Establish(st, r, setup).value)
  {
    if Select(st, r).Granted? {
      SelectReady(st, r);
      GrantedSlot(st, r);
      SelectConfig(st, r);
      var Granted(s, st') := Select(st, r);
      hide Select, Inv, Activate;
      var c := Of(st', s);
      PutIdle(st', s, c.(closable := true, sending := false));
      ActivateInv(st', s);
    }
  }

  lemma SelectConfig(st: Stack, r: Request)
    requires Inv(st)
    ensures Select(st, r).Granted? ==> Select(st, r).st.cfg == st.cfg
  {
    hide OwnerSearch, InputSearch, ListenSearch, Inv;
    SelectCases(st, r);
    OwnerConfig(st, r);
    RowsConfig(st, r);
  }

  lemma CloseAndGrantConfig(st: Stack, s: Slot)
    requires Inv(st)
    ensures var o := CloseAndGrant(st, s); o.Granted? ==> o.st.cfg == st.cfg
  {
    if Of(st, s).closable { CloseIoSettles(st, s); }
    hide CloseIo;
  }

  lemma OwnerConfig(st: Stack, r: Request)
    requires Inv(st)
    ensures var o := OwnerSearch(st, r); o.Granted? ==> o.st.cfg == st.cfg
  {
    hide Inv, CloseAndGrant, FirstMatch, ConnectedOwner;
    var f := FirstMatch(st.cfg.owners, r, 0);
    if f.Some? { CloseAndGrantConfig(st, Owner(f.value)); }
  }

  lemma RowConfig(st: Stack, row: seq<Slot>, r: Request)
    requires Inv(st)
    ensures var o := RowSearch(st, row, r); o.Granted? ==> o.st.cfg == st.cfg
  {
    hide Inv, CloseAndGrant, Stale;
    var stale := Find(row, s => Stale(st, s, r));
    if stale.Some? { CloseAndGrantConfig(st, stale.value); }
  }

  lemma RowsConfig(st: Stack, r: Request)
    requires Inv(st)
    ensures var o := InputSearch(st, r); o.Granted? ==> o.st.cfg == st.cfg
    ensures var o := ListenSearch(st, r); o.Granted? ==> o.st.cfg == st.cfg
  {
    hide Inv, RowSearch, FindPoint;
    match FindPoint(st.cfg.inputs, r, 0, 0) { case Miss(_) => case Hit(i) => RowConfig(st, InputRow(st.cfg, i), r); }
    match FindPoint(st.cfg.listens, r, 0, 0) { case Miss(_) => case Hit(i) => RowConfig(st, ListenRow(st.cfg, i), r); }
  }

  // ----- runs ---------------------------------------------------------------

  /** Every event keeps the invariant. */
  lemma StepInv(st: Stack, e: Event)
    requires Inv(st)
    ensures Step(st, e).Some? ==> Inv(Step(st, e).value)
  {
    match e
    case Open(r, setup) => hide Inv, Establish; EstablishInv(st, r, setup);
    case OpenExplicit(k) => if Of(st, Explicit(k)).phase == NonExistent { ExplicitInv(st, k); }
    case Close(s) => if s in st.active { assert Of(st, s).closable; CloseIoInv(st, s); }
    case TimeOut(s) => if s in st.active { ExpireInv(st, s); }
    case CloseEach => CloseAllEmpties(st);
  }

  lemma InitialInv(cfg: Config)
    ensures Inv(Initial(cfg))
  {}

  lemma {:induction false} RunFromInv(st: Stack, es: seq<Event>)
    requires Inv(st)
    ensures Run(st, es).Some? ==> Inv(Run(st, es).value)
    decreases |es|
  {
    hide Inv, Step;
    if es != [] {
      StepInv(st, es[0]);
      var next := Step(st, es[0]);
      if next.Some? { RunFromInv(next.value, es[1..]); }
    }
  }

  /** After every run: the list holds exactly the connections that exist, none
      twice, each on its own connection point; an input assembly has at most one
      established exclusive owner and at most one multicast producer. */
  lemma RunInv(cfg: Config, es: seq<Event>)
    requires Run(Initial(cfg), es).Some?
    ensures var st := Run(Initial(cfg), es).value;
            && Inv(st)
            && (forall x, a, b :: (&& a in st.active && b in st.active && Owns(st, a, x) && Owns(st, b, x)
                                   && Of(st, a).phase == Established && Of(st, b).phase == Established) ==> a == b)
            && (forall a, b :: (&& a in st.active && b in st.active && Sends(Of(st, a)) && Sends(Of(st, b))
                                && Of(st, a).produced == Of(st, b).produced) ==> a == b)
  {
    InitialInv(cfg);
    RunFromInv(Initial(cfg), es);
    var st := Run(Initial(cfg), es).value;
    hide Run;
    forall x, a, b | (&& a in st.active && b in st.active && Owns(st, a, x) && Owns(st, b, x)
                      && Of(st, a).phase == Established && Of(st, b).phase == Established)
      ensures a == b
    {
      LeadFound(st, st.active, x, a);
      LeadFound(st, st.active, x, b);
    }
  }

  /** After every run, a request never gets a slot that is established, gets a
      conflict if its owner point's input is owned, and a listener gets in only beside a producer. */
  lemma RunSelect(cfg: Config, es: seq<Event>, r: Request)
    requires Run(Initial(cfg), es).Some?
    ensures var st := Run(Initial(cfg), es).value; var o := Select(st, r);
            && (o.Granted? ==> Of(st, o.slot).phase != Established && o.slot !in o.st.active)
            && (FirstMatch(st.cfg.owners, r, 0).Some? ==> (o == Refused(OWNERSHIP_CONFLICT) <==> Owned(st, r.produced)))
            && (o.Granted? && o.slot.Listen? ==> exists p :: p in st.active && Produces(st, p, false, r.produced))
            && (DistinctInputs(st.cfg.owners) ==> !o.Crash?)
  {
    RunInv(cfg, es);
    var st := Run(Initial(cfg), es).value;
    hide Run, Select, Inv, FirstMatch, Owned;
    var o := Select(st, r);
    if o.Granted? {
      GrantedNotEstablished(st, r);
      GrantedSlot(st, r);
      SelectReady(st, r);
    }
    var f := FirstMatch(st.cfg.owners, r, 0);
    if f.Some? { OwnerDecision(st, r, f.value); }
    if DistinctInputs(st.cfg.owners) { DistinctNeverCrashes(st, r); }
  }
}
