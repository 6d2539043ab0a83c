/** Exclusive owners of an output assembly. The owner search compares produced
    assemblies; what that means for the assemblies an owner consumes, over every run. */
module IoOwnership {
  import opened Words
  import opened IoConnections
  import opened IoSafety
  import opened IoSelection
  import opened IoRuns

  // ----- runs keep the configuration ----------------------------------------

  lemma SettledConfig(st: Stack, n: Slot)
    requires Inv(st) && Of(st, n).closable
    ensures CloseIo(st, n).cfg == st.cfg && Inv(CloseIo(st, n))
  {
    CloseIoSettles(st, n);
    CloseIoInv(st, n);
    hide CloseIo, Inv;
  }

  lemma {:induction false} CloseSameConfig(st: Stack, todo: seq<Slot>, x: nat, kind: Kind)
    requires Inv(st)
    ensures CloseSame(st, todo, x, kind).Some? ==> CloseSame(st, todo, x, kind).value.cfg == st.cfg
    decreases |todo|
  {
    hide Inv, CloseIo, Of;
    if todo != [] && todo[0] in st.active {
      var rest := Keep(todo[1..], st.active);
      var c := Of(st, todo[0]);
      if c.kind == kind && c.produced == x {
        if c.closable {
          SettledConfig(st, todo[0]);
          CloseSameConfig(CloseIo(st, todo[0]), rest, x, kind);
        }
      } else {
        CloseSameConfig(st, rest, x, kind);
      }
    }
  }

  lemma {:induction false} CloseAllConfig(st: Stack)
    requires Inv(st)
    ensures CloseAll(st).Some? ==> CloseAll(st).value.cfg == st.cfg
    decreases |st.active|
  {
    hide Inv, CloseIo, Of;
    if st.active != [] && Of(st, st.active[0]).closable {
      SettledConfig(st, st.active[0]);
      CloseAllConfig(CloseIo(st, st.active[0]));
    }
  }

  lemma ExpireConfig(st: Stack, s: Slot)
    requires Inv(st) && s in st.active
    ensures Expire(st, s).Some? ==> Expire(st, s).value.cfg == st.cfg
  {
    hide CloseSame, PassOn, NextMaster;
    var c := Of(st, s);
    var st1 := Put(st, s, c.(phase := TimedOut));
    TimedOutSettles(st, s);
    SettlesInv(st, st1);
    OfPut(st, s, c.(phase := TimedOut), s);
    hide Of, Inv;
    var st2 := if Masters(c) then PassOn(st1, s, c.produced) else st1;
    if Masters(c) {
      PassOnSettles(st1, s);
      SettlesInv(st1, st2);
    }
    CloseSameInv(st2, st2.active, c.produced, InputOnly);
    CloseSameConfig(st2, st2.active, c.produced, InputOnly);
    var st3 := CloseSame(st2, st2.active, c.produced, InputOnly);
    if st3.Some? { CloseSameConfig(st3.value, st3.value.active, c.produced, ListenOnly); }
  }

  lemma StepConfig(st: Stack, e: Event)
    requires Inv(st)
    ensures Step(st, e).Some? ==> Step(st, e).value.cfg == st.cfg
  {
    hide Expire, CloseAll, Select;
    match e
    case Open(r, setup) => SelectConfig(st, r);
    case OpenExplicit(k) =>
    case Close(s) => if s in st.active { SettledConfig(st, s); }
    case TimeOut(s) => if s in st.active { ExpireConfig(st, s); }
    case CloseEach => CloseAllConfig(st);
  }

  lemma {:induction false} RunConfig(st: Stack, es: seq<Event>)
    requires Inv(st)
    ensures Run(st, es).Some? ==> Run(st, es).value.cfg == st.cfg
    decreases |es|
  {
    hide Inv, Step;
    if es != [] {
      StepInv(st, es[0]);
      StepConfig(st, es[0]);
      var next := Step(st, es[0]);
      if next.Some? { RunConfig(next.value, es[1..]); }
    }
  }

  // ----- owners of an output assembly ---------------------------------------

  /** An established exclusive owner that consumes output assembly `y`. */
  predicate Drives(st: Stack, s: Slot, y: nat) {
    s in st.active && Of(st, s).kind == ExclusiveOwner && Of(st, s).phase == Established && Of(st, s).consumed == y
  }

  ghost predicate OneDriver(st: Stack) {
    forall y, a, b :: Drives(st, a, y) && Drives(st, b, y) ==> a == b
  }

  /** After every run an output assembly has at most one established exclusive owner. */
  ghost predicate OutputsExclusive(cfg: Config) {
    forall es: seq<Event> :: Run(Initial(cfg), es).Some? ==> OneDriver(Run(Initial(cfg), es).value)
  }

  /** Owner points with the same output assembly have the same input assembly. */
  predicate OutputsFixInputs(points: seq<Point>) {
    forall i, j :: 0 <= i < |points| && 0 <= j < |points| && points[i].output == points[j].output ==>
                     points[i].input == points[j].input
  }

  lemma DriversShareInput(st: Stack, a: Slot, b: Slot, y: nat)
    requires Inv(st) && OutputsFixInputs(st.cfg.owners) && Drives(st, a, y) && Drives(st, b, y)
    ensures Of(st, a).produced == Of(st, b).produced
  {
    hide NoDup, OwnersLead, OneSender, Listed;
    assert Placed(st.cfg, a, Of(st, a)) && Placed(st.cfg, b, Of(st, b));
  }

  lemma OneDriverKept(cfg: Config, es: seq<Event>)
    requires OutputsFixInputs(cfg.owners) && Run(Initial(cfg), es).Some?
    ensures OneDriver(Run(Initial(cfg), es).value)
  {
    InitialInv(cfg);
    RunConfig(Initial(cfg), es);
    RunInv(cfg, es);
    var st := Run(Initial(cfg), es).value;
    hide Run, Inv, OutputsFixInputs;
    forall y, a, b | Drives(st, a, y) && Drives(st, b, y) ensures a == b {
      DriversShareInput(st, a, b, y);
      var x := Of(st, a).produced;
      assert Owns(st, a, x) && Owns(st, b, x);
    }
  }

  /** A request for an owner point, without data to the originator. */
  function Ask(p: Point): Request { Request(p.output, p.input, 0, Originator(1, 1), NoFlow, false) }

  lemma AskMatches(points: seq<Point>, i: nat)
    requires i < |points|
    ensures var f := FirstMatch(points, Ask(points[i]), 0);
            && f.Some? && f.value < |points|
            && points[f.value].output == points[i].output && points[f.value].input == points[i].input
  {
    assert Matches(points[i], Ask(points[i]));
    FirstMatchExact(points, Ask(points[i]), 0);
    hide FirstMatch;
  }

  /** Opening an owner point whose input has no owner at all: the connection joins the list, and the others stay. */
  lemma OpenOwner(st: Stack, i: nat) returns (k: nat)
    requires Inv(st) && i < |st.cfg.owners|
    requires var x := st.cfg.owners[i].input; !Owned(st, x) && !Haunted(st, x)
    ensures var r := Step(st, Open(Ask(st.cfg.owners[i]), Opened));
            && r.Some? && Drives(r.value, Owner(k), st.cfg.owners[i].output)
            && k < |st.cfg.owners| && st.cfg.owners[k].input == st.cfg.owners[i].input
            && Of(r.value, Owner(k)).produced == st.cfg.owners[i].input && r.value.active == [Owner(k)] + st.active
            && forall u :: u != Owner(k) ==> Of(r.value, u) == Of(st, u)
  {
    var r := Ask(st.cfg.owners[i]);
    AskMatches(st.cfg.owners, i);
    var f := FirstMatch(st.cfg.owners, r, 0);
    k := f.value;
    OwnerSearchExact(st, r, k);
    var st1 := Put(st, Owner(k), Copied(r, ExclusiveOwner));
    OwnerReady(st, r);
    assert Select(st, r) == Granted(Owner(k), st1);
    hide OwnerSearch, InputSearch, ListenSearch, FirstMatch, Inv, Owned, Haunted, Select, Producer;
    assert Step(st, Open(r, Opened)) == Some(Activate(st1, Owner(k)));
    hide Activate, Of, Step;
    forall u ensures Of(st1, u) == if u == Owner(k) then Copied(r, ExclusiveOwner) else Of(st, u) {
      OfPut(st, Owner(k), Copied(r, ExclusiveOwner), u);
    }
    forall u ensures Of(Activate(st1, Owner(k)), u) ==
      if u == Owner(k) then Of(st1, u).(closable := true, phase := Established, sending := false) else Of(st1, u)
    { ActivateOf(st1, Owner(k), u); }
    ActivateList(st1, Owner(k));
  }

  lemma ActivateList(st: Stack, s: Slot)
    ensures Activate(st, s).active == [s] + st.active
  {}

  /** Two owner points with one output assembly and different input assemblies: asked for
      one after the other, both are established. */
  lemma TwoDrivers(cfg: Config, i: nat, j: nat)
    requires i < |cfg.owners| && j < |cfg.owners|
    requires cfg.owners[i].output == cfg.owners[j].output && cfg.owners[i].input != cfg.owners[j].input
    ensures var st := Run(Initial(cfg), [Open(Ask(cfg.owners[i]), Opened), Open(Ask(cfg.owners[j]), Opened)]);
            && st.Some?
            && exists a, b :: a != b &&
                 Drives(st.value, a, cfg.owners[i].output) && Drives(st.value, b, cfg.owners[i].output)
    ensures !OutputsExclusive(cfg)
  {
    var e, e' := Open(Ask(cfg.owners[i]), Opened), Open(Ask(cfg.owners[j]), Opened);
    InitialInv(cfg);
    var k := OpenOwner(Initial(cfg), i);
    var st1 := Step(Initial(cfg), e).value;
    StepInv(Initial(cfg), e);
    StepConfig(Initial(cfg), e);
    assert st1.active == [Owner(k)];
    hide Step, Inv;
    var k' := OpenOwner(st1, j);
    var st2 := Step(st1, e').value;
    assert Drives(st2, Owner(k), cfg.owners[i].output) && Drives(st2, Owner(k'), cfg.owners[i].output) && k != k';
    hide Drives;
    assert [e, e'][1..] == [e'] && [e'][1..] == [];
    assert Run(st2, []) == Some(st2) && Run(st1, [e']) == Some(st2);
    assert Run(Initial(cfg), [e, e']) == Some(st2);
  }

  /** Over every run an output assembly has at most one established exclusive owner,
      exactly when owner points with the same output assembly have the same input assembly. */
  lemma OutputsExclusiveIff(cfg: Config)
    ensures OutputsExclusive(cfg) <==> OutputsFixInputs(cfg.owners)
  {
    hide Run, OneDriver;
    if OutputsFixInputs(cfg.owners) {
      forall es: seq<Event> | Run(Initial(cfg), es).Some? ensures OneDriver(Run(Initial(cfg), es).value) {
        OneDriverKept(cfg, es);
      }
    } else {
      var i, j :| 0 <= i < |cfg.owners| && 0 <= j < |cfg.owners| && cfg.owners[i].output == cfg.owners[j].output
                  && cfg.owners[i].input != cfg.owners[j].input;
      TwoDrivers(cfg, i, j);
    }
  }
}
