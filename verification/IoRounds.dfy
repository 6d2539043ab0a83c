/** One round of the connection manager over the active list: which connections
    it closes or times out, and that no close takes away the node it goes on with. */
module IoRounds {
  import opened Words
  import opened IoConnections
  import opened IoSafety
  import opened IoSelection
  import opened IoRuns
  import opened IoClosing

  // ----- timed-out connections do not send ----------------------------------

  /** Every timed-out connection, but for `x`, has handed its socket on. */
  ghost predicate HandedBut(st: Stack, x: Option<Slot>) {
    forall t :: t in st.active && x != Some(t) && Of(st, t).phase == TimedOut ==> !Of(st, t).sending
  }

  ghost predicate Handed(st: Stack) { HandedBut(st, None) }

  lemma ReleasedHanded(st: Stack, s: Slot, x: Option<Slot>)
    requires NoDup(st.active) && HandedBut(st, x)
    ensures HandedBut(Released(st, s), x)
    ensures x == Some(s) ==> Handed(Released(st, s))
  {
    hide Of, Without;
    WithoutFacts(st.active, s);
    forall t ensures Of(Released(st, s), t) == if t == s then EMPTY else Of(st, t) { OfReleased(st, s, t); }
  }

  lemma InvNoDup(st: Stack)
    requires Inv(st)
    ensures NoDup(st.active)
  {}

  lemma CloseHanded(st: Stack, n: Slot, x: Option<Slot>)
    requires Inv(st) && Of(st, n).closable && HandedBut(st, x)
    ensures HandedBut(CloseIo(st, n), x)
  {
    if Masters(Of(st, n)) {
      assert n in st.active;
      hide CloseIo, Of, Inv;
      var heir := CloseMaster(st, n);
    } else {
      ClosePlain(st, n);
      ReleasedHanded(st, n, x);
    }
  }

  lemma {:induction false} CloseSameHanded(st: Stack, todo: seq<Slot>, y: nat, kind: Kind, x: Option<Slot>)
    requires Inv(st) && HandedBut(st, x)
    ensures CloseSame(st, todo, y, kind).Some? ==> HandedBut(CloseSame(st, todo, y, kind).value, x)
    decreases |todo|
  {
    hide Inv, CloseIo, Of, HandedBut;
    if todo != [] && todo[0] in st.active {
      var rest := Keep(todo[1..], st.active);
      var c := Of(st, todo[0]);
      if c.kind == kind && c.produced == y {
        if c.closable {
          CloseIoInv(st, todo[0]);
          CloseHanded(st, todo[0], x);
          CloseSameHanded(CloseIo(st, todo[0]), rest, y, kind, x);
        }
      } else {
        CloseSameHanded(st, rest, y, kind, x);
      }
    }
  }

  lemma {:induction false} CloseAllHanded(st: Stack)
    requires Inv(st) && Handed(st)
    ensures CloseAll(st).Some? ==> Handed(CloseAll(st).value)
    decreases |st.active|
  {
    hide Inv, CloseIo, Of, HandedBut;
    if st.active != [] && Of(st, st.active[0]).closable {
      CloseIoInv(st, st.active[0]);
      CloseHanded(st, st.active[0], None);
      CloseAllHanded(CloseIo(st, st.active[0]));
    }
  }

  lemma PassOnHanded(st: Stack, s: Slot, x: nat)
    requires NoDup(st.active) && Masters(Of(st, s)) && HandedBut(st, Some(s))
    ensures HandedBut(PassOn(st, s, x), Some(s))
    ensures NextMaster(st, st.active, x).Some? ==> Handed(PassOn(st, s, x))
  {
    hide Of, PassOn, NextMaster, Sub, NoDup;
    HeirFacts(st, x);
    var st', heir := PassOn(st, s, x), NextMaster(st, st.active, x);
    forall u ensures
      && (u in st'.active <==> u in st.active && !(heir.None? && Listener(st, u, x)))
      && Of(st', u) ==
         (if heir.None? then (if u in st.active && Listener(st, u, x) then EMPTY else Of(st, u))
          else if u == s then Of(st, s).(sending := false)
          else if u == heir.value then Of(st, u).(sending := true)
          else Of(st, u))
    { PassOnOf(st, s, x, u); }
  }

  lemma ExpireHanded(st: Stack, s: Slot)
    requires Inv(st) && s in st.active && Handed(st)
    ensures Expire(st, s).Some? ==> Handed(Expire(st, s).value)
  {
    hide Settles, CloseSame, PassOn, Released, NextMaster;
    var c := Of(st, s);
    var st1 := Put(st, s, c.(phase := TimedOut));
    TimedOutSettles(st, s);
    SettlesInv(st, st1);
    PutHanded(st, s, c.(phase := TimedOut));
    OfPut(st, s, c.(phase := TimedOut), s);
    hide Of, Inv, HandedBut;
    var st2 := if Masters(c) then PassOn(st1, s, c.produced) else st1;
    InvNoDup(st1);
    if Masters(c) {
      PassOnHanded(st1, s, c.produced);
      PassOnSettles(st1, s);
      SettlesInv(st1, st2);
    }
    InvNoDup(st2);
    ReleasedHanded(st2, s, Some(s));
    CloseSameInv(st2, st2.active, c.produced, InputOnly);
    CloseSameHanded(st2, st2.active, c.produced, InputOnly, Some(s));
    var st3 := CloseSame(st2, st2.active, c.produced, InputOnly);
    if st3.Some? {
      CloseSameInv(st3.value, st3.value.active, c.produced, ListenOnly);
      CloseSameHanded(st3.value, st3.value.active, c.produced, ListenOnly, Some(s));
      var st4 := CloseSame(st3.value, st3.value.active, c.produced, ListenOnly);
      if st4.Some? {
        InvNoDup(st4.value);
        ReleasedHanded(st4.value, s, Some(s));
      }
    }
  }

  lemma PutHanded(st: Stack, s: Slot, c: Conn)
    requires HandedBut(st, None) || HandedBut(st, Some(s))
    ensures HandedBut(Put(st, s, c), Some(s))
    ensures s !in st.active || c.phase != TimedOut || !c.sending ==> Handed(Put(st, s, c))
  {
    hide Of;
    forall u ensures Of(Put(st, s, c), u) == if u == s then c else Of(st, u) { OfPut(st, s, c, u); }
  }

  lemma ActivateHanded(st: Stack, s: Slot)
    requires s !in st.active && Handed(st)
    ensures Handed(Activate(st, s))
  {
    hide Of, Producer;
    var st' := Activate(st, s);
    forall u | u in st'.active && Of(st', u).phase == TimedOut ensures !Of(st', u).sending { ActivateOf(st, s, u); }
  }

  lemma SelectHanded(st: Stack, r: Request)
    requires Inv(st) && Handed(st) && Select(st, r).Granted?
    ensures Handed(Select(st, r).st)
  {
    hide OwnerSearch, InputSearch, ListenSearch, Inv, HandedBut, Select;
    SelectCases(st, r);
    SearchHanded(st, r);
    SearchReady(st, r);
    OwnerReady(st, r);
    var own, input, listen := OwnerSearch(st, r), InputSearch(st, r), ListenSearch(st, r);
    if own.Granted? { PutHanded(own.st, own.slot, Copied(r, ExclusiveOwner)); }
    if input.Granted? { PutHanded(input.st, input.slot, Copied(r, InputOnly)); }
    if listen.Granted? { PutHanded(listen.st, listen.slot, Copied(r, ListenOnly)); }
  }

  lemma CloseAndGrantHanded(st: Stack, s: Slot)
    requires Inv(st) && Handed(st)
    ensures CloseAndGrant(st, s).Granted? ==> Handed(CloseAndGrant(st, s).st)
  {
    hide CloseIo, Inv, HandedBut;
    if Of(st, s).closable { CloseHanded(st, s, None); }
  }

  lemma RowHanded(st: Stack, row: seq<Slot>, r: Request)
    requires Inv(st) && Handed(st)
    ensures RowSearch(st, row, r).Granted? ==> Handed(RowSearch(st, row, r).st)
  {
    hide Inv, CloseAndGrant, Stale, HandedBut;
    var stale := Find(row, s => Stale(st, s, r));
    if stale.Some? { CloseAndGrantHanded(st, stale.value); }
  }

  lemma SearchHanded(st: Stack, r: Request)
    requires Inv(st) && Handed(st)
    ensures OwnerSearch(st, r).Granted? ==> Handed(OwnerSearch(st, r).st)
    ensures InputSearch(st, r).Granted? ==> Handed(InputSearch(st, r).st)
    ensures ListenSearch(st, r).Granted? ==> Handed(ListenSearch(st, r).st)
  {
    hide Inv, CloseAndGrant, FirstMatch, ConnectedOwner, RowSearch, FindPoint, HandedBut;
    var f := FirstMatch(st.cfg.owners, r, 0);
    if f.Some? { CloseAndGrantHanded(st, Owner(f.value)); }
    match FindPoint(st.cfg.inputs, r, 0, 0) { case Miss(_) => case Hit(i) => RowHanded(st, InputRow(st.cfg, i), r); }
    match FindPoint(st.cfg.listens, r, 0, 0) { case Miss(_) => case Hit(i) => RowHanded(st, ListenRow(st.cfg, i), r); }
  }

  lemma EstablishHanded(st: Stack, r: Request, setup: Setup)
    requires Inv(st) && Handed(st)
    ensures Establish(st, r, setup).Some? ==> Handed(Establish(st, r, setup).value)
  {
    if Select(st, r).Granted? {
      SelectHanded(st, r);
      SelectReady(st, r);
      GrantedSlot(st, r);
      var Granted(s, st') := Select(st, r);
      hide Select, Inv, Activate, HandedBut;
      PutHanded(st', s, Of(st', s).(closable := true, sending := false));
      ActivateHanded(st', s);
    }
  }

  lemma StepHanded(st: Stack, e: Event)
    requires Inv(st) && Handed(st)
    ensures Step(st, e).Some? ==> Handed(Step(st, e).value)
  {
    match e
    case Open(r, setup) => hide Inv, Establish, HandedBut; EstablishHanded(st, r, setup);
    case OpenExplicit(k) =>
      hide HandedBut;
      var c := EMPTY.(phase := Established, closable := true);
      PutHanded(st, Explicit(k), c);
      HeadHanded(Put(st, Explicit(k), c), Explicit(k));
    case Close(s) => if s in st.active { assert Of(st, s).closable; CloseHanded(st, s, None); }
    case TimeOut(s) => if s in st.active { ExpireHanded(st, s); }
    case CloseEach => CloseAllHanded(st);
  }

  lemma HeadHanded(st: Stack, s: Slot)
    requires Handed(st) && (Of(st, s).phase == TimedOut ==> !Of(st, s).sending)
    ensures Handed(st.(active := [s] + st.active))
  {
    forall u ensures Of(st.(active := [s] + st.active), u) == Of(st, u) { OfActive(st, [s] + st.active, u); }
  }

  lemma {:induction false} RunFromHanded(st: Stack, es: seq<Event>)
    requires Inv(st) && Handed(st)
    ensures Run(st, es).Some? ==> Handed(Run(st, es).value)
    decreases |es|
  {
    hide Inv, Step, HandedBut;
    if es != [] {
      StepInv(st, es[0]);
      StepHanded(st, es[0]);
      var next := Step(st, es[0]);
      if next.Some? { RunFromHanded(next.value, es[1..]); }
    }
  }

  /** After every run no timed-out connection in the list sends: it has handed its socket on. */
  lemma RunHanded(cfg: Config, es: seq<Event>)
    requires Run(Initial(cfg), es).Some?
    ensures Handed(Run(Initial(cfg), es).value)
  {
    InitialInv(cfg);
    assert Handed(Initial(cfg));
    RunFromHanded(Initial(cfg), es);
  }

  // ----- one round ----------------------------------------------------------

  datatype Round = Finished(st: Stack) | LostInTimeOut | LostInClose

  /** The list walk of `ManageConnections`, from the node that `todo` begins with;
      `due` are the connections whose watchdog or grace period has run out. A
      timed-out connection is closed with the next node fetched before; after a
      time-out the next node is read from the node itself, which is empty and
      ends the walk if the connection was dropped. */
  function Manage(st: Stack, todo: seq<Slot>, due: set<Slot>): Round
    decreases |todo|
  {
    if todo == [] then Finished(st)
    else if todo[0] !in st.active then LostInClose
    else
      var n := todo[0];
      var rest := Keep(todo[1..], st.active);
      var c := Of(st, n);
      if n !in due || c.phase == NonExistent then Manage(st, rest, due)
      else if c.phase == TimedOut then Manage(if c.closable then CloseIo(st, n) else st, rest, due)
      else
        var next := Expire(st, n);
        if next.None? then LostInTimeOut
        else if n in next.value.active then Manage(next.value, Keep(todo[1..], next.value.active), due)
        else Finished(next.value)
  }

  /** The closes and time-outs of a round, in order. */
  function Deeds(st: Stack, todo: seq<Slot>, due: set<Slot>): (es: seq<Event>)
    ensures forall e :: e in es ==> e.Close? || e.TimeOut?
    decreases |todo|
  {
    if todo == [] || todo[0] !in st.active then []
    else
      var n := todo[0];
      var rest := Keep(todo[1..], st.active);
      var c := Of(st, n);
      if n !in due || c.phase == NonExistent then Deeds(st, rest, due)
      else if c.phase == TimedOut then [Close(n)] + Deeds(if c.closable then CloseIo(st, n) else st, rest, due)
      else
        var next := Expire(st, n);
        if next.Some? && n in next.value.active then
          [TimeOut(n)] + Deeds(next.value, Keep(todo[1..], next.value.active), due)
        else [TimeOut(n)]
  }

  /** What a round amounts to as a run. */
  predicate SameAs(m: Round, r: Option<Stack>) {
    match m
    case Finished(st) => r == Some(st)
    case LostInTimeOut => r == None
    case LostInClose => false
  }

  lemma RunFirst(st: Stack, e: Event, es: seq<Event>)
    ensures Run(st, [e] + es) == if Step(st, e).None? then None else Run(Step(st, e).value, es)
  {
    hide Step;
    assert ([e] + es)[1..] == es;
  }

  lemma RunNone(st: Stack)
    ensures Run(st, []) == Some(st)
  {}

  lemma CloseSilent(st: Stack, n: Slot)
    requires Inv(st) && Handed(st) && n in st.active && Of(st, n).phase == TimedOut
    ensures Of(st, n).closable && Step(st, Close(n)) == Some(CloseIo(st, n))
    ensures forall u :: u in CloseIo(st, n).active <==> u in st.active && u != n
  {
    ClosePlain(st, n);
    WithoutFacts(st.active, n);
  }

  lemma StepTimeOut(st: Stack, n: Slot)
    requires Inv(st) && n in st.active && Of(st, n).phase != TimedOut
    ensures Of(st, n).phase == Established && Step(st, TimeOut(n)) == Expire(st, n)
  {
    hide Expire;
  }

  /** A round comes to the run of its closes and time-outs. It is never lost in a
      close, and lost in a time-out exactly when that run is. */
  lemma {:induction false} RoundIsRun(st: Stack, todo: seq<Slot>, due: set<Slot>)
    requires Inv(st) && Handed(st) && NoDup(todo) && forall s :: s in todo ==> s in st.active
    ensures SameAs(Manage(st, todo, due), Run(st, Deeds(st, todo, due)))
    decreases |todo|
  {
    hide Inv, HandedBut, CloseIo, Expire, Step, Of, Run;
    RunNone(st);
    if todo != [] {
      var n, rest := todo[0], todo[1..];
      assert forall s :: s in todo <==> s == n || s in rest;
      KeepAll(rest, st.active);
      ActiveExists(st, n);
      if n !in due {
        RoundIsRun(st, rest, due);
      } else if Of(st, n).phase == TimedOut {
        CloseSilent(st, n);
        StepInv(st, Close(n));
        StepHanded(st, Close(n));
        RoundIsRun(CloseIo(st, n), rest, due);
        RunFirst(st, Close(n), Deeds(CloseIo(st, n), rest, due));
      } else {
        StepTimeOut(st, n);
        StepInv(st, TimeOut(n));
        StepHanded(st, TimeOut(n));
        var next := Expire(st, n);
        RunFirst(st, TimeOut(n), []);
        assert [TimeOut(n)] + [] == [TimeOut(n)];
        if next.Some? {
          RunNone(next.value);
          if n in next.value.active {
            var live := Keep(rest, next.value.active);
            KeepNoDup(rest, next.value.active);
            RoundIsRun(next.value, live, due);
            RunFirst(st, TimeOut(n), Deeds(next.value, live, due));
          }
        }
      }
    }
  }

  /** In every reachable state a round of the connection manager does what a run of
      closes and time-outs does, so everything proved of runs holds of it. */
  lemma RoundAfterRun(cfg: Config, es: seq<Event>, due: set<Slot>)
    requires Run(Initial(cfg), es).Some?
    ensures var st := Run(Initial(cfg), es).value;
            SameAs(Manage(st, st.active, due), Run(st, Deeds(st, st.active, due)))
  {
    RunInv(cfg, es);
    RunHanded(cfg, es);
    var st := Run(Initial(cfg), es).value;
    InvNoDup(st);
    hide Run, Inv, HandedBut, Manage, Deeds;
    RoundIsRun(st, st.active, due);
  }
}
