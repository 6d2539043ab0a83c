/** Which due connections a round of the connection manager deals with. A
    time-out that drops its connection empties the list node the walk stands on,
    and the round ends there; the connections behind it wait for the next one. */
module IoReach {
  import opened Words
  import opened IoConnections
  import opened IoSafety
  import opened IoRuns
  import opened IoClosing
  import opened IoRounds

  // ----- phases of the other connections ------------------------------------

  /** What is left was there before and, but for `x`, in the same phase. */
  ghost predicate Steady(st: Stack, st': Stack, x: Option<Slot>) {
    forall u :: u in st'.active ==> u in st.active && (x == Some(u) || Of(st', u).phase == Of(st, u).phase)
  }

  lemma SteadyTrans(a: Stack, b: Stack, c: Stack, x: Option<Slot>)
    requires Steady(a, b, x) && Steady(b, c, None)
    ensures Steady(a, c, x)
  {
    hide Of;
  }

  lemma ReleasedSteady(st: Stack, s: Slot)
    requires NoDup(st.active)
    ensures Steady(st, Released(st, s), None) && s !in Released(st, s).active
  {
    hide Of, Without;
    WithoutFacts(st.active, s);
    forall t ensures Of(Released(st, s), t) == if t == s then EMPTY else Of(st, t) { OfReleased(st, s, t); }
  }

  lemma CloseSteady(st: Stack, n: Slot)
    requires Inv(st) && Of(st, n).closable
    ensures Steady(st, CloseIo(st, n), None)
  {
    if Masters(Of(st, n)) {
      assert n in st.active;
      hide CloseIo, Of, Inv;
      var _ := CloseMaster(st, n);
    } else {
      ClosePlain(st, n);
      ReleasedSteady(st, n);
    }
  }

  lemma {:induction false} CloseSameSteady(st: Stack, todo: seq<Slot>, x: nat, kind: Kind)
    requires Inv(st)
    ensures CloseSame(st, todo, x, kind).Some? ==> Steady(st, CloseSame(st, todo, x, kind).value, None)
    decreases |todo|
  {
    hide Inv, CloseIo, Of;
    if todo != [] && todo[0] in st.active {
      var rest := Keep(todo[1..], st.active);
      var c := Of(st, todo[0]);
      if c.kind == kind && c.produced == x {
        if c.closable {
          var st' := CloseIo(st, todo[0]);
          CloseIoInv(st, todo[0]);
          CloseSteady(st, todo[0]);
          CloseSameSteady(st', rest, x, kind);
          hide Steady;
          var r := CloseSame(st', rest, x, kind);
          if r.Some? { SteadyTrans(st, st', r.value, None); }
        }
      } else {
        CloseSameSteady(st, rest, x, kind);
      }
    }
  }

  lemma PassOnSteady(st: Stack, s: Slot, x: nat)
    requires NoDup(st.active) && Masters(Of(st, s))
    ensures Steady(st, PassOn(st, s, x), None)
    ensures NextMaster(st, st.active, x).Some? ==> PassOn(st, s, x).active == st.active
  {
    hide Of, NextMaster, Sub, NoDup, Sweep;
    var st', heir := PassOn(st, s, x), NextMaster(st, st.active, x);
    forall u ensures
      && (u in st'.active <==> u in st.active && !(heir.None? && Listener(st, u, x)))
      && Of(st', u) ==
         (if heir.None? then (if u in st.active && Listener(st, u, x) then EMPTY else Of(st, u))
          else if u == s then Of(st, s).(sending := false)
          else if u == heir.value then Of(st, u).(sending := true)
          else Of(st, u))
    { PassOnOf(st, s, x, u); }
  }

  // ----- one time-out -------------------------------------------------------

  /** The connection produces multicast data and another connection can take that over. */
  predicate HandsOver(st: Stack, s: Slot) {
    Masters(Of(st, s)) && exists u :: u in st.active && u != s && Heir(st, u, Of(st, s).produced)
  }

  lemma HeirsOfTimedOut(st: Stack, s: Slot)
    ensures var st1 := Put(st, s, Of(st, s).(phase := TimedOut));
            NextMaster(st1, st1.active, Of(st, s).produced).Some? <==>
              exists u :: u in st.active && u != s && Heir(st, u, Of(st, s).produced)
  {
    var c := Of(st, s);
    var st1 := Put(st, s, c.(phase := TimedOut));
    HeirFacts(st1, c.produced);
    NoHeirFacts(st1, c.produced);
    hide NextMaster, Of;
    forall u ensures Of(st1, u) == if u == s then c.(phase := TimedOut) else Of(st, u) {
      OfPut(st, s, c.(phase := TimedOut), u);
    }
    assert forall u :: Heir(st1, u, c.produced) <==> u != s && Heir(st, u, c.produced);
  }

  /** A time-out leaves the others that stay in their phases, and its own connection
      stays, timed out, exactly when it hands its socket over. */
  lemma ExpireEffect(st: Stack, s: Slot)
    requires Inv(st) && s in st.active && Expire(st, s).Some?
    ensures var r := Expire(st, s).value;
            && Steady(st, r, Some(s)) && (s in r.active <==> HandsOver(st, s))
            && (s in r.active ==> Of(r, s).phase == TimedOut)
  {
    HeirsOfTimedOut(st, s);
    var c := Of(st, s);
    var x := c.produced;
    var st1 := Put(st, s, c.(phase := TimedOut));
    TimedOutSettles(st, s);
    SettlesInv(st, st1);
    TimedOutSteady(st, s);
    InvNoDup(st1);
    OfPut(st, s, c.(phase := TimedOut), s);
    hide Of, Inv, Steady, CloseSame, PassOn, NextMaster, Released, Settles;
    var st2 := if Masters(c) then PassOn(st1, s, x) else st1;
    if Masters(c) {
      PassOnSteady(st1, s, x);
      PassOnSettles(st1, s);
      SettlesInv(st1, st2);
      SteadyTrans(st, st1, st2, Some(s));
      StillTimedOut(st1, st2, s);
    }
    InvNoDup(st2);
    if !HandsOver(st, s) {
      if c.kind != ExclusiveOwner {
        DroppedSteady(st, st2, s);
      } else {
        var st3 := CloseSame(st2, st2.active, x, InputOnly).value;
        CloseSameInv(st2, st2.active, x, InputOnly);
        CloseSameSteady(st2, st2.active, x, InputOnly);
        SteadyTrans(st, st2, st3, Some(s));
        var st4 := CloseSame(st3, st3.active, x, ListenOnly).value;
        CloseSameInv(st3, st3.active, x, ListenOnly);
        CloseSameSteady(st3, st3.active, x, ListenOnly);
        SteadyTrans(st, st3, st4, Some(s));
        InvNoDup(st4);
        DroppedSteady(st, st4, s);
      }
    }
  }

  lemma TimedOutSteady(st: Stack, s: Slot)
    ensures Steady(st, Put(st, s, Of(st, s).(phase := TimedOut)), Some(s))
  {
    hide Of;
    var c := Of(st, s).(phase := TimedOut);
    forall u ensures Of(Put(st, s, c), u) == if u == s then c else Of(st, u) { OfPut(st, s, c, u); }
  }

  lemma StillTimedOut(st: Stack, st': Stack, s: Slot)
    requires Steady(st, st', None) && Of(st, s).phase == TimedOut
    ensures s in st'.active ==> Of(st', s).phase == TimedOut
  {}

  lemma DroppedSteady(st: Stack, st': Stack, s: Slot)
    requires Steady(st, st', Some(s)) && NoDup(st'.active)
    ensures Steady(st, Released(st', s), Some(s)) && s !in Released(st', s).active
  {
    hide Steady, Released, NoDup;
    ReleasedSteady(st', s);
    SteadyTrans(st, st', Released(st', s), Some(s));
  }

  // ----- a whole round ------------------------------------------------------

  lemma {:induction false} ManageFrame(st: Stack, todo: seq<Slot>, due: set<Slot>)
    requires Inv(st) && Handed(st) && Manage(st, todo, due).Finished?
    ensures var r := Manage(st, todo, due).st;
            forall u :: u in r.active ==>
                          u in st.active && (Of(r, u).phase == Of(st, u).phase || Of(r, u).phase == TimedOut)
    decreases |todo|
  {
    hide Inv, HandedBut, CloseIo, Expire, Of, Step;
    if todo != [] && todo[0] in st.active {
      var n := todo[0];
      var rest := Keep(todo[1..], st.active);
      var c := Of(st, n);
      if n !in due || c.phase == NonExistent {
        ManageFrame(st, rest, due);
      } else if c.phase == TimedOut {
        if c.closable {
          CloseIoInv(st, n);
          CloseHanded(st, n, None);
          CloseSteady(st, n);
          ManageFrame(CloseIo(st, n), rest, due);
        } else {
          ManageFrame(st, rest, due);
        }
      } else {
        ExpireEffect(st, n);
        ExpireInv(st, n);
        ExpireHanded(st, n);
        var next := Expire(st, n).value;
        if n in next.active { ManageFrame(next, Keep(todo[1..], next.active), due); }
      }
    }
  }

  /** The connection is gone, or has timed out in this round and stays for its grace period. */
  predicate Dealt(st: Stack, r: Stack, s: Slot) {
    s !in r.active || (Of(st, s).phase == Established && Of(r, s).phase == TimedOut)
  }

  /** No connection that times out without handing over leaves a due connection behind it. */
  predicate Unbroken(st: Stack, todo: seq<Slot>, due: set<Slot>)
    decreases |todo|
  {
    if todo == [] || todo[0] !in st.active then true
    else
      var n := todo[0];
      var c := Of(st, n);
      if n !in due || c.phase == NonExistent then Unbroken(st, Keep(todo[1..], st.active), due)
      else if c.phase == TimedOut then
        Unbroken(if c.closable then CloseIo(st, n) else st, Keep(todo[1..], st.active), due)
      else
        var next := Expire(st, n);
        if next.None? then true
        else
          var live := Keep(todo[1..], next.value.active);
          if HandsOver(st, n) then Unbroken(next.value, live, due) else forall s :: s in live ==> s !in due
  }

  predicate AllDealt(st: Stack, r: Stack, todo: seq<Slot>, due: set<Slot>) {
    forall s :: s in todo && s in due ==> Dealt(st, r, s)
  }

  /** What was dealt with after the first connection of the walk. */
  lemma DealtOnward(st: Stack, st': Stack, r: Stack, n: Slot, rest: seq<Slot>, due: set<Slot>)
    requires Steady(st, st', Some(n)) && n !in rest
    requires forall u :: u in r.active ==> u in st'.active
    requires Dealt(st, r, n)
    ensures AllDealt(st, r, [n] + rest, due) <==> AllDealt(st', r, Keep(rest, st'.active), due)
  {
    hide Of;
    var live := Keep(rest, st'.active);
    assert forall s :: s in [n] + rest <==> s == n || s in rest;
  }

  /** A dropped connection: what is due behind it has not been dealt with. */
  lemma DealtAtDrop(st: Stack, r: Stack, n: Slot, rest: seq<Slot>, due: set<Slot>)
    requires Steady(st, r, Some(n)) && n !in r.active && n !in rest
    ensures AllDealt(st, r, [n] + rest, due) <==> forall s :: s in Keep(rest, r.active) ==> s !in due
  {
    hide Of;
    assert forall s :: s in [n] + rest <==> s == n || s in rest;
  }

  lemma Weaker(st: Stack, st': Stack, n: Slot)
    requires Steady(st, st', None)
    ensures Steady(st, st', Some(n))
  {}

  lemma PassedBy(st: Stack, r: Stack, n: Slot, rest: seq<Slot>, due: set<Slot>)
    requires n !in due
    ensures AllDealt(st, r, [n] + rest, due) <==> AllDealt(st, r, rest, due)
  {
    assert forall s :: s in [n] + rest <==> s == n || s in rest;
  }

  /** A round that finishes has dealt with every due connection of the list exactly when no
      connection that it drops leaves a due one behind. */
  lemma {:induction false} RoundReachesIff(st: Stack, todo: seq<Slot>, due: set<Slot>)
    requires Inv(st) && Handed(st) && NoDup(todo) && (forall s :: s in todo ==> s in st.active)
    requires Manage(st, todo, due).Finished?
    ensures AllDealt(st, Manage(st, todo, due).st, todo, due) <==> Unbroken(st, todo, due)
    decreases |todo|
  {
    hide Inv, HandedBut, CloseIo, Expire, Of, Step, Steady, Dealt, AllDealt, HandsOver;
    var r := Manage(st, todo, due).st;
    if todo == [] {
      NoneDealt(st, r, due);
    } else {
      var n, rest := todo[0], todo[1..];
      assert todo == [n] + rest && forall s :: s in todo <==> s == n || s in rest;
      KeepAll(rest, st.active);
      ActiveExists(st, n);
      if n !in due {
        RoundReachesIff(st, rest, due);
        PassedBy(st, r, n, rest, due);
      } else if Of(st, n).phase == TimedOut {
        var st' := CloseIo(st, n);
        CloseSilent(st, n);
        CloseIoInv(st, n);
        CloseHanded(st, n, None);
        CloseSteady(st, n);
        Weaker(st, st', n);
        RoundReachesIff(st', rest, due);
        ManageFrame(st', rest, due);
        GoneIsDealt(st, r, n);
        KeepAll(rest, st'.active);
        DealtOnward(st, st', r, n, rest, due);
      } else {
        ExpireEffect(st, n);
        ExpireInv(st, n);
        ExpireHanded(st, n);
        var next := Expire(st, n).value;
        if n in next.active {
          var live := Keep(rest, next.active);
          KeepNoDup(rest, next.active);
          RoundReachesIff(next, live, due);
          ManageFrame(next, live, due);
          StepTimeOut(st, n);
          ExpiredIsDealt(st, r, n);
          DealtOnward(st, next, r, n, rest, due);
        } else {
          DealtAtDrop(st, next, n, rest, due);
        }
      }
    }
  }

  lemma NoneDealt(st: Stack, r: Stack, due: set<Slot>)
    ensures AllDealt(st, r, [], due)
  {}

  lemma GoneIsDealt(st: Stack, r: Stack, n: Slot)
    requires n !in r.active
    ensures Dealt(st, r, n)
  {}

  lemma ExpiredIsDealt(st: Stack, r: Stack, n: Slot)
    requires Of(st, n).phase == Established && (n in r.active ==> Of(r, n).phase == TimedOut)
    ensures Dealt(st, r, n)
  {}

  /** In every reachable state. */
  lemma RoundReaches(cfg: Config, es: seq<Event>, due: set<Slot>)
    requires Run(Initial(cfg), es).Some?
    ensures var st := Run(Initial(cfg), es).value;
            var m := Manage(st, st.active, due);
            m.Finished? ==> (AllDealt(st, m.st, st.active, due) <==> Unbroken(st, st.active, due))
  {
    RunInv(cfg, es);
    RunHanded(cfg, es);
    var st := Run(Initial(cfg), es).value;
    InvNoDup(st);
    hide Run, Inv, HandedBut, Manage, Unbroken, AllDealt;
    if Manage(st, st.active, due).Finished? { RoundReachesIff(st, st.active, due); }
  }

  // ----- enough, and not enough ---------------------------------------------

  lemma {:induction false} NoneDue(st: Stack, todo: seq<Slot>, due: set<Slot>)
    requires forall s :: s in todo ==> s !in due
    ensures Unbroken(st, todo, due)
    decreases |todo|
  {
    hide CloseIo, Expire, HandsOver, Of;
    if todo != [] && todo[0] in st.active {
      assert todo[0] in todo;
      NoneDue(st, Keep(todo[1..], st.active), due);
    }
  }

  /** Behind a due connection that is established no other one is due. */
  predicate DueLast(st: Stack, todo: seq<Slot>, due: set<Slot>) {
    forall j, k :: 0 <= j < k < |todo| && todo[j] in due && Of(st, todo[j]).phase == Established ==> todo[k] !in due
  }

  lemma DueLastTail(st: Stack, st': Stack, todo: seq<Slot>, due: set<Slot>)
    requires todo != [] && DueLast(st, todo, due)
    requires forall s :: s in todo[1..] ==> Of(st', s).phase == Of(st, s).phase
    ensures DueLast(st', todo[1..], due)
    ensures todo[0] in due && Of(st, todo[0]).phase == Established ==> forall s :: s in todo[1..] ==> s !in due
  {
    hide Of;
    var rest := todo[1..];
    assert forall j :: 0 <= j < |rest| ==> rest[j] == todo[j + 1];
    if todo[0] in due && Of(st, todo[0]).phase == Established {
      forall s | s in rest ensures s !in due {
        var j :| 0 <= j < |rest| && rest[j] == s;
        assert todo[j + 1] == s;
      }
    }
  }

  /** A round with at most one time-out, and nothing due behind it, deals with all that is due. */
  lemma {:induction false} DueLastReaches(st: Stack, todo: seq<Slot>, due: set<Slot>)
    requires Inv(st) && Handed(st) && NoDup(todo) && (forall s :: s in todo ==> s in st.active)
      && DueLast(st, todo, due)
    ensures Unbroken(st, todo, due)
    decreases |todo|
  {
    hide Inv, HandedBut, CloseIo, Expire, Of, Step, DueLast, HandsOver;
    if todo != [] {
      var n, rest := todo[0], todo[1..];
      assert forall s :: s in todo <==> s == n || s in rest;
      KeepAll(rest, st.active);
      ActiveExists(st, n);
      DueLastTail(st, st, todo, due);
      if n !in due {
        DueLastReaches(st, rest, due);
      } else if Of(st, n).phase == TimedOut {
        CloseSilent(st, n);
        CloseIoInv(st, n);
        CloseHanded(st, n, None);
        CloseSteady(st, n);
        DueLastTail(st, CloseIo(st, n), todo, due);
        DueLastReaches(CloseIo(st, n), rest, due);
      } else {
        StepTimeOut(st, n);
        var next := Expire(st, n);
        if next.Some? { NoneDue(next.value, Keep(rest, next.value.active), due); }
      }
    }
  }

  /** Two explicit connections are due at once: the round drops the newer one and ends,
      and the older one is still established. */
  lemma SecondIsSkipped(cfg: Config)
    ensures var st := Run(Initial(cfg), [OpenExplicit(0), OpenExplicit(1)]);
            && st.Some?
            && (var m := Manage(st.value, st.value.active, {Explicit(0), Explicit(1)});
                && m.Finished? && m.st.active == [Explicit(0)] && Of(m.st, Explicit(0)).phase == Established)
  {
    var a, b := OpenExplicit(0), OpenExplicit(1);
    var c := EMPTY.(phase := Established, closable := true);
    var st1 := Step(Initial(cfg), a).value;
    assert Of(Initial(cfg), Explicit(0)) == EMPTY && st1.active == [Explicit(0)];
    assert Of(st1, Explicit(0)) == c && Of(st1, Explicit(1)) == EMPTY;
    var st2 := Step(st1, b).value;
    assert st2.active == [Explicit(1), Explicit(0)] && Of(st2, Explicit(1)) == c && Of(st2, Explicit(0)) == c;
    RunFirst(Initial(cfg), a, [b]);
    RunFirst(st1, b, []);
    RunNone(st2);
    assert [a] + [b] == [a, b] && [b] + [] == [b];
    hide Run, Step;
    DropExplicit(st2);
  }

  lemma DropExplicit(st: Stack)
    requires st.active == [Explicit(1), Explicit(0)]
    requires Of(st, Explicit(0)) == Of(st, Explicit(1)) == EMPTY.(phase := Established, closable := true)
    ensures var m := Manage(st, st.active, {Explicit(0), Explicit(1)});
            m.Finished? && m.st.active == [Explicit(0)] && Of(m.st, Explicit(0)).phase == Established
  {
    var s := Explicit(1);
    var st1 := Put(st, s, Of(st, s).(phase := TimedOut));
    assert Expire(st, s) == Some(Released(st1, s));
    assert Without(st1.active, s) == [Explicit(0)];
    OfReleased(st1, s, Explicit(0));
    OfPut(st, s, Of(st, s).(phase := TimedOut), Explicit(0));
  }
}
