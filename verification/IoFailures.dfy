/** Two reachable situations in which the connection code does not do what it
    promises, matching the exact conditions proved for them. */
module IoFailures {
  import opened Words
  import opened IoConnections
  import opened IoSafety
  import opened IoRuns
  import opened IoClosing

  function Live(kind: Kind, r: Request, sending: bool): Conn {
    Copied(r, kind).(phase := Established, sending := sending, closable := true)
  }

  lemma RunCons(st: Stack, e: Event, rest: seq<Event>)
    requires Step(st, e).Some?
    ensures Run(st, [e] + rest) == Run(Step(st, e).value, rest)
  {
    hide Step;
    assert ([e] + rest)[1..] == rest;
  }

  lemma ThreeSteps(st: Stack, a: Event, b: Event, c: Event, rest: seq<Event>)
    requires Step(st, a).Some? && Step(Step(st, a).value, b).Some? && Step(Step(Step(st, a).value, b).value, c).Some?
    ensures Run(st, [a, b, c] + rest) == Run(Step(Step(Step(st, a).value, b).value, c).value, rest)
  {
    hide Step, Run;
    var st1 := Step(st, a).value;
    var st2 := Step(st1, b).value;
    assert [a, b, c] + rest == [a] + ([b] + ([c] + rest));
    RunCons(st, a, [b] + ([c] + rest));
    RunCons(st1, b, [c] + rest);
    RunCons(st2, c, rest);
  }

  // ----- a missing close function -------------------------------------------

  const PLC := Originator(1, 7)

  /** Two owner points with the same input assembly, and an input-only point. */
  const SHARED := Config([Point(1, 100, 0), Point(2, 100, 0)], [Point(3, 100, 0)], [], 1, 0)

  const FIRST := Request(1, 100, 0, PLC, Multicast, false)
  const WATCH := Request(3, 100, 0, PLC, Multicast, false)
  const SECOND := Request(2, 100, 0, PLC, Multicast, false)

  predicate OwnerUp(st: Stack) {
    && st.cfg == SHARED && st.active == [Owner(0)]
    && Of(st, Owner(0)) == Live(ExclusiveOwner, FIRST, true)
    && Of(st, Input(0, 0)) == EMPTY && Of(st, Owner(1)) == EMPTY
  }

  predicate BothUp(st: Stack) {
    && st.cfg == SHARED && st.active == [Input(0, 0), Owner(0)]
    && Of(st, Owner(0)) == Live(ExclusiveOwner, FIRST, true)
    && Of(st, Input(0, 0)) == Live(InputOnly, WATCH, false) && Of(st, Owner(1)) == EMPTY
  }

  predicate Ghostly(st: Stack) {
    && st.cfg == SHARED && st.active == [Input(0, 0), Owner(0)]
    && Of(st, Owner(0)) == Live(ExclusiveOwner, FIRST, false).(phase := TimedOut)
    && Of(st, Input(0, 0)) == Live(InputOnly, WATCH, true) && Of(st, Owner(1)) == EMPTY
  }

  lemma OpenFirst()
    ensures var r := Step(Initial(SHARED), Open(FIRST, Opened)); r.Some? && OwnerUp(r.value)
  {
    assert FirstMatch(SHARED.owners, FIRST, 0) == Some(0);
  }

  lemma OpenWatch(st: Stack)
    requires OwnerUp(st)
    ensures var r := Step(st, Open(WATCH, Opened)); r.Some? && BothUp(r.value)
  {
    var r := WATCH;
    assert FirstMatch(SHARED.owners, r, 2) == None;
    assert FirstMatch(SHARED.owners, r, 1) == None;
    assert FirstMatch(SHARED.owners, r, 0) == None;
    assert FindPoint(SHARED.inputs, r, 0, 0) == Hit(0);
    var row := InputRow(SHARED, 0);
    assert row == [Input(0, 0)];
    var stale := Find(row, s => Stale(st, s, r));
    assert stale.None?;
    var free := Find(row, s => Unused(st, s));
    assert free == Some(Input(0, 0));
    var st' := Put(st, Input(0, 0), Copied(r, InputOnly));
    assert Select(st, r) == Granted(Input(0, 0), st');
    assert Produces(st', Owner(0), true, 100);
    assert Producer(st', [Owner(0)], true, 100) == Some(Owner(0));
  }

  lemma HandOver(st: Stack)
    requires BothUp(st)
    ensures var r := Step(st, TimeOut(Owner(0))); r.Some? && Ghostly(r.value)
  {
    var st1 := Put(st, Owner(0), Of(st, Owner(0)).(phase := TimedOut));
    assert Heir(st1, Input(0, 0), 100);
    assert NextMaster(st1, st1.active, 100) == Some(Input(0, 0));
  }

  lemma SecondCrashes(st: Stack)
    requires Ghostly(st)
    ensures Select(st, SECOND) == Crash
  {
    assert FirstMatch(SHARED.owners, SECOND, 1) == Some(1);
    assert FirstMatch(SHARED.owners, SECOND, 0) == Some(1);
    assert !Owns(st, Input(0, 0), 100) && Owns(st, Owner(0), 100);
    assert st.active[1..] == [Owner(0)];
    assert Find([Owner(0)], s => Owns(st, s, 100)) == Some(Owner(0));
    assert ConnectedOwner(st, st.active, 100) == Some(Owner(0));
  }

  /** With two owner points on one input assembly, an owner that times out while an
      input-only connection takes over leaves the other point in a state in which
      the next request for it calls a missing close function. */
  lemma SharedInputCrashes()
    ensures var st := Run(Initial(SHARED), [Open(FIRST, Opened), Open(WATCH, Opened), TimeOut(Owner(0))]);
            st.Some? && Select(st.value, SECOND) == Crash
  {
    var a, b, c := Open(FIRST, Opened), Open(WATCH, Opened), TimeOut(Owner(0));
    hide Step, Select, OwnerUp, BothUp, Ghostly;
    OpenFirst();
    var st1 := Step(Initial(SHARED), a).value;
    OpenWatch(st1);
    var st2 := Step(st1, b).value;
    HandOver(st2);
    var st3 := Step(st2, c).value;
    SecondCrashes(st3);
    ThreeSteps(Initial(SHARED), a, b, c, []);
    assert [a, b, c] + [] == [a, b, c];
  }

  // ----- a lost walk --------------------------------------------------------

  /** One point of each kind, all with the same input assembly. */
  const MIXED := Config([Point(1, 100, 0)], [Point(3, 100, 0)], [Point(4, 100, 0)], 1, 1)

  const LEAD := Request(1, 100, 0, PLC, PointToPoint, false)
  const EAR := Request(4, 100, 0, PLC, PointToPoint, false)

  predicate LeadUp(st: Stack) {
    && st.cfg == MIXED && st.active == [Owner(0)]
    && Of(st, Owner(0)) == Live(ExclusiveOwner, LEAD, true)
    && Of(st, Listen(0, 0)) == EMPTY && Of(st, Input(0, 0)) == EMPTY
  }

  predicate EarUp(st: Stack) {
    && st.cfg == MIXED && st.active == [Listen(0, 0), Owner(0)]
    && Of(st, Owner(0)) == Live(ExclusiveOwner, LEAD, true)
    && Of(st, Listen(0, 0)) == Live(ListenOnly, EAR, true) && Of(st, Input(0, 0)) == EMPTY
  }

  predicate AllUp(st: Stack) {
    && st.cfg == MIXED && st.active == [Input(0, 0), Listen(0, 0), Owner(0)]
    && Of(st, Owner(0)) == Live(ExclusiveOwner, LEAD, true)
    && Of(st, Listen(0, 0)) == Live(ListenOnly, EAR, true) && Of(st, Input(0, 0)) == Live(InputOnly, WATCH, true)
  }

  lemma OpenLead()
    ensures var r := Step(Initial(MIXED), Open(LEAD, Opened)); r.Some? && LeadUp(r.value)
  {
    assert FirstMatch(MIXED.owners, LEAD, 0) == Some(0);
  }

  lemma OpenEar(st: Stack)
    requires LeadUp(st)
    ensures var r := Step(st, Open(EAR, Opened)); r.Some? && EarUp(r.value)
  {
    var r := EAR;
    assert FirstMatch(MIXED.owners, r, 1) == None;
    assert FirstMatch(MIXED.owners, r, 0) == None;
    assert FindPoint(MIXED.inputs, r, 1, 0) == Miss(0);
    assert FindPoint(MIXED.inputs, r, 0, 0) == Miss(0);
    assert FindPoint(MIXED.listens, r, 0, 0) == Hit(0);
    assert Produces(st, Owner(0), false, 100);
    assert Producer(st, st.active, false, 100) == Some(Owner(0));
    var row := ListenRow(MIXED, 0);
    assert row == [Listen(0, 0)];
    var stale := Find(row, s => Stale(st, s, r));
    assert stale.None?;
    var free := Find(row, s => Unused(st, s));
    assert free == Some(Listen(0, 0));
    assert Select(st, r) == Granted(Listen(0, 0), Put(st, Listen(0, 0), Copied(r, ListenOnly)));
  }

  lemma OpenMulticast(st: Stack)
    requires EarUp(st)
    ensures var r := Step(st, Open(WATCH, Opened)); r.Some? && AllUp(r.value)
  {
    var r := WATCH;
    assert FirstMatch(MIXED.owners, r, 1) == None;
    assert FirstMatch(MIXED.owners, r, 0) == None;
    assert FindPoint(MIXED.inputs, r, 0, 0) == Hit(0);
    var row := InputRow(MIXED, 0);
    assert row == [Input(0, 0)];
    var stale := Find(row, s => Stale(st, s, r));
    assert stale.None?;
    var free := Find(row, s => Unused(st, s));
    assert free == Some(Input(0, 0));
    var st' := Put(st, Input(0, 0), Copied(r, InputOnly));
    assert Select(st, r) == Granted(Input(0, 0), st');
    forall u | u in st'.active ensures !Produces(st', u, true, 100) { assert u == Listen(0, 0) || u == Owner(0); }
    assert Producer(st', st'.active, true, 100).None?;
  }

  lemma LeadLost(st: Stack)
    requires AllUp(st) && Inv(st)
    ensures Step(st, TimeOut(Owner(0))).None?
  {
    hide Inv, Expire;
    assert Carrier(st, st.active[0], 100) && Listener(st, st.active[0 + 1], 100);
    assert LastCarrier(st, st.active, 100, 0);
    assert Input(0, 0) in st.active && Sending(st, st.active, 100);
    assert Owner(0) in st.active;
    TimeOutLostIff(st, Owner(0));
  }

  /** A point-to-point owner times out while an input-only connection multicasts
      the input and a listener stands behind it in the list: the walk is lost. */
  lemma TimeOutLoses()
    ensures Run(Initial(MIXED), [Open(LEAD, Opened), Open(EAR, Opened), Open(WATCH, Opened)]).Some?
    ensures Run(Initial(MIXED), [Open(LEAD, Opened), Open(EAR, Opened), Open(WATCH, Opened)] +
            [TimeOut(Owner(0))]).None?
  {
    var a, b, c := Open(LEAD, Opened), Open(EAR, Opened), Open(WATCH, Opened);
    hide Step, LeadUp, EarUp, AllUp, Inv;
    OpenLead();
    var st1 := Step(Initial(MIXED), a).value;
    OpenEar(st1);
    var st2 := Step(st1, b).value;
    OpenMulticast(st2);
    var st3 := Step(st2, c).value;
    InitialInv(MIXED);
    StepInv(Initial(MIXED), a);
    StepInv(st1, b);
    StepInv(st2, c);
    LeadLost(st3);
    ThreeSteps(Initial(MIXED), a, b, c, []);
    assert [a, b, c] + [] == [a, b, c];
    ThreeSteps(Initial(MIXED), a, b, c, [TimeOut(Owner(0))]);
  }
}
