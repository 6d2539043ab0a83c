/** What opening, closing and timing out do, connection by connection. */
module IoEffects {
  import opened Words
  import opened IoConnections
  import opened IoSafety
  import opened IoSelection
  import opened IoRuns
  import opened IoClosing
  import opened IoRounds
  import opened IoReach

  // ----- opening ------------------------------------------------------------

  /** A slot that is handed out was closed first if it was in use, and nothing else happens to the list. */
  lemma SelectBase(st: Stack, r: Request)
    requires Inv(st) && Select(st, r).Granted?
    ensures var Granted(s, st') := Select(st, r);
            var base := if s in st.active || (s.Owner? && Haunted(st, r.produced)) then CloseIo(st, s) else st;
            st' == Put(base, s, Copied(r, KindOf(s)))
  {
    hide Select, OwnerSearch, InputSearch, ListenSearch, CloseIo, Inv, Haunted;
    SelectCases(st, r);
    OwnerSlot(st, r);
    InputSlot(st, r);
    ListenSlot(st, r);
    OwnerBase(st, r);
    RowsBase(st, r);
  }

  lemma OwnerBase(st: Stack, r: Request)
    requires Inv(st)
    ensures var o := OwnerSearch(st, r);
            o.Granted? ==> o.st == if o.slot in st.active || Haunted(st, r.produced) then CloseIo(st, o.slot) else st
  {
    var f := FirstMatch(st.cfg.owners, r, 0);
    FirstMatchExact(st.cfg.owners, r, 0);
    if f.Some? {
      OwnerSearchExact(st, r, f.value);
      hide OwnerSearch, CloseIo, Inv, FirstMatch, Owned, Haunted;
      if !Owned(st, r.produced) && !Haunted(st, r.produced) { OwnerIdle(st, f.value); }
    }
  }

  lemma RowBase(st: Stack, row: seq<Slot>, r: Request)
    requires Inv(st)
    ensures var o := RowSearch(st, row, r);
            o.Granted? ==> o.st == if o.slot in st.active then CloseIo(st, o.slot) else st
  {
    RowExact(st, row, r);
    var o := RowSearch(st, row, r);
    hide RowSearch, CloseIo, Inv;
    if o.Granted? {
      UnusedIdle(st, o.slot);
      assert Stale(st, o.slot, r) ==> !Unused(st, o.slot);
    }
  }

  lemma RowsBase(st: Stack, r: Request)
    requires Inv(st)
    ensures var o := InputSearch(st, r); o.Granted? ==> o.st == if o.slot in st.active then CloseIo(st, o.slot) else st
    ensures var o := ListenSearch(st, r); o.Granted? ==> o.st == if o.slot in st.active then CloseIo(st, o.slot) else st
  {
    hide Inv, RowSearch, FindPoint, CloseIo;
    match FindPoint(st.cfg.inputs, r, 0, 0) { case Miss(_) => case Hit(i) => RowBase(st, InputRow(st.cfg, i), r); }
    match FindPoint(st.cfg.listens, r, 0, 0) { case Miss(_) => case Hit(i) => RowBase(st, ListenRow(st.cfg, i), r); }
  }

  /** A request that is granted a slot: if its setup succeeds the connection is established at the
      head of the list; if it fails the connection does not exist and is not in the list.
      A refused request changes nothing. */
  lemma EstablishExact(st: Stack, r: Request, setup: Setup)
    requires Inv(st) && !Select(st, r).Crash?
    ensures var o, t := Select(st, r), Establish(st, r, setup);
            && t.Some? && (o.Refused? ==> t.value == st)
            && (o.Granted? && setup == Opened ==>
                  t.value.active == [o.slot] + o.st.active && Of(t.value, o.slot).phase == Established)
            && (o.Granted? && setup != Opened ==>
                  && t.value.active == o.st.active && o.slot !in t.value.active
                  && Of(t.value, o.slot).phase == NonExistent
                  && forall u :: u != o.slot ==> Of(t.value, u) == Of(o.st, u))
  {
    var o := Select(st, r);
    if o.Granted? {
      GrantedSlot(st, r);
      SelectReady(st, r);
      ActivateOf(o.st, o.slot, o.slot);
      ActivateActive(o.st, o.slot);
      hide Select, Inv, Of, Activate;
      var c := Of(o.st, o.slot);
      forall u ensures Of(Put(o.st, o.slot, c.(closable := true, sending := false)), u) ==
        if u == o.slot then c.(closable := true, sending := false) else Of(o.st, u)
      { OfPut(o.st, o.slot, c.(closable := true, sending := false), u); }
    }
  }

  lemma ActivateActive(st: Stack, s: Slot)
    ensures Activate(st, s).active == [s] + st.active
  {}

  /** The multicast sender of an input. */
  predicate SendsOn(st: Stack, s: Slot, x: nat) { s in st.active && Sends(Of(st, s)) && Of(st, s).produced == x }

  /** An established connection with data to the originator produces them: point to point by itself;
      as multicast itself if it is an exclusive owner or the input has no sender yet, and
      otherwise through the sender there is. Only an exclusive owner takes the socket from
      another connection, and nothing else changes. */
  lemma OpenEffect(st: Stack, s: Slot)
    requires Inv(st) && s !in st.active && Of(st, s).kind != ExplicitMessaging
    ensures var c, t := Of(st, s), Activate(st, s);
            var x := c.produced;
            && Of(t, s).phase == Established && Of(t, s).closable
            && (c.flow == NoFlow ==> !Of(t, s).sending)
            && (c.flow == PointToPoint ==> Of(t, s).sending)
            && (c.flow == Multicast ==>
                  && (exists p :: SendsOn(t, p, x))
                  && (Of(t, s).sending <==> c.kind == ExclusiveOwner || !exists p :: SendsOn(st, p, x)))
            && (forall u :: u != s ==>
                  Of(t, u) == if c.flow == Multicast && c.kind == ExclusiveOwner && SendsOn(st, u, x)
                              then Of(st, u).(sending := false) else Of(st, u))
  {
    var c, t := Of(st, s), Activate(st, s);
    var x := c.produced;
    ProducerFacts(st, x);
    var p := Producer(st, st.active, true, x);
    ActivateActive(st, s);
    hide Of, Producer, Activate;
    forall u ensures
      var takes := c.flow == Multicast && c.kind == ExclusiveOwner && p.Some?;
      var sends := c.flow == PointToPoint || (c.flow == Multicast && (p.None? || c.kind == ExclusiveOwner));
      Of(t, u) == if u == s then c.(closable := true, phase := Established, sending := sends)
                  else if takes && u == p.value then Of(st, u).(sending := false)
                  else Of(st, u)
    { ActivateOf(st, s, u); }
    hide NoDup, OwnersLead, Listed, Placed, Quiet;
    assert p.Some? ==> SendsOn(st, p.value, x);
    forall u | SendsOn(st, u, x) ensures p == Some(u) { assert Sends(Of(st, u)); }
    if c.flow == Multicast {
      if Of(t, s).sending { assert SendsOn(t, s, x); } else { assert SendsOn(t, p.value, x); }
    }
  }

  // ----- closing ------------------------------------------------------------

  /** The connections that go with `n` when it ends without an heir. */
  predicate Follows(st: Stack, n: Slot, u: Slot) {
    Masters(Of(st, n)) && !HandsOver(st, n) && Listener(st, u, Of(st, n).produced)
  }

  /** Closing a connection takes exactly it off the list and, if it sent multicast data that no
      other connection can take over, the listeners of its input. The first connection that can
      take over does, and every other connection stays as it is. */
  lemma CloseExact(st: Stack, n: Slot)
    requires Inv(st) && n in st.active
    ensures var r := CloseIo(st, n);
            && (forall u :: u in r.active <==> u in st.active && u != n && !Follows(st, n, u))
            && (HandsOver(st, n) ==>
                  exists k :: && 0 <= k < |st.active| && Heir(st, st.active[k], Of(st, n).produced)
                              && (forall j :: 0 <= j < k ==> !Heir(st, st.active[j], Of(st, n).produced))
                              && forall u :: u in r.active ==>
                                   Of(r, u) == if u == st.active[k] then Of(st, u).(sending := true) else Of(st, u))
            && (!HandsOver(st, n) ==> forall u :: u in r.active ==> Of(r, u) == Of(st, u))
  {
    hide CloseIo, Of, Inv, Listener, Heir;
    if Masters(Of(st, n)) {
      CloseMasterExact(st, n);
    } else {
      hide Masters;
      ClosePlain(st, n);
      ReleasedExact(st, n);
    }
  }

  lemma CloseMasterExact(st: Stack, n: Slot)
    requires Inv(st) && n in st.active && Masters(Of(st, n))
    ensures var r := CloseIo(st, n);
            && (forall u :: u in r.active <==> u in st.active && u != n && !Follows(st, n, u))
            && (HandsOver(st, n) ==>
                  exists k :: && 0 <= k < |st.active| && Heir(st, st.active[k], Of(st, n).produced)
                              && (forall j :: 0 <= j < k ==> !Heir(st, st.active[j], Of(st, n).produced))
                              && forall u :: u in r.active ==>
                                   Of(r, u) == if u == st.active[k] then Of(st, u).(sending := true) else Of(st, u))
            && (!HandsOver(st, n) ==> forall u :: u in r.active ==> Of(r, u) == Of(st, u))
  {
    hide CloseIo, Of, Inv, Masters, Listener, Heir, HandsOver;
    var heir := CloseMaster(st, n);
    HandsOverIff(st, n, heir);
    if heir.Some? {
      var k :| && 0 <= k < |st.active| && st.active[k] == heir.value
               && forall j :: 0 <= j < k ==> !Heir(st, st.active[j], Of(st, n).produced);
      assert Heir(st, st.active[k], Of(st, n).produced);
    }
  }

  lemma HandsOverIff(st: Stack, n: Slot, heir: Option<Slot>)
    requires Masters(Of(st, n))
    requires heir.Some? ==> heir.value in st.active && heir.value != n && Heir(st, heir.value, Of(st, n).produced)
    requires heir.None? ==> forall u :: u in st.active ==> !Heir(st, u, Of(st, n).produced)
    ensures HandsOver(st, n) <==> heir.Some?
  {
    hide Of, Heir, Masters;
  }

  lemma ReleasedExact(st: Stack, n: Slot)
    requires Inv(st)
    ensures forall u :: u in Released(st, n).active <==> u in st.active && u != n
    ensures forall u :: Of(Released(st, n), u) == if u == n then EMPTY else Of(st, u)
  {
    InvNoDup(st);
    hide Without, Of, Inv;
    WithoutFacts(st.active, n);
    forall u ensures Of(Released(st, n), u) == if u == n then EMPTY else Of(st, u) { OfReleased(st, n, u); }
  }

  // ----- timing out ---------------------------------------------------------

  /** The connections that a time-out of `s` closes: without a hand-over, an exclusive owner takes
      the input-only and the listen-only connections of its input with it, and another sender
      of multicast data the listen-only ones. */
  predicate TakenAlong(st: Stack, s: Slot, u: Slot) {
    && !HandsOver(st, s)
    && (|| (Of(st, s).kind == ExclusiveOwner
            && (OfKind(st, u, Of(st, s).produced, InputOnly) || Listener(st, u, Of(st, s).produced)))
        || (Masters(Of(st, s)) && Listener(st, u, Of(st, s).produced)))
  }

  lemma PassOnMembers(st: Stack, s: Slot, x: nat)
    requires NoDup(st.active) && Masters(Of(st, s))
    ensures forall u :: u in PassOn(st, s, x).active <==>
              u in st.active && !(NextMaster(st, st.active, x).None? && Listener(st, u, x))
    ensures forall u :: u in PassOn(st, s, x).active ==>
              Of(PassOn(st, s, x), u).kind == Of(st, u).kind && Of(PassOn(st, s, x), u).produced == Of(st, u).produced
  {
    hide PassOn, NextMaster, NoDup, Sub, Of;
    forall u ensures (u in PassOn(st, s, x).active <==>
                        u in st.active && !(NextMaster(st, st.active, x).None? && Listener(st, u, x)))
      && (u in PassOn(st, s, x).active ==>
            Of(PassOn(st, s, x), u).kind == Of(st, u).kind && Of(PassOn(st, s, x), u).produced == Of(st, u).produced)
    { PassOnOf(st, s, x, u); }
  }

  /** The two walks of an owner's time-out. */
  lemma OwnerWalks(st: Stack, x: nat)
    requires Inv(st) && CloseSame(st, st.active, x, InputOnly).Some?
    ensures var a := CloseSame(st, st.active, x, InputOnly).value;
            var b := CloseSame(a, a.active, x, ListenOnly);
            && b.Some? && Inv(b.value)
            && forall u :: u in b.value.active <==>
                 u in st.active && !OfKind(st, u, x, InputOnly) && !Listener(st, u, x)
  {
    var a := CloseSame(st, st.active, x, InputOnly).value;
    WalkEffect(st, st.active, x, InputOnly);
    CloseSameInv(st, st.active, x, InputOnly);
    hide CloseSame, Inv, Of;
    ListenersClosed(a, x);
    CloseSameInv(a, a.active, x, ListenOnly);
  }

  /** A time-out after the hand-over or the sweep of the listeners. */
  function AfterPass(st: Stack, s: Slot): Stack {
    var c := Of(st, s);
    var st1 := Put(st, s, c.(phase := TimedOut));
    if Masters(c) then PassOn(st1, s, c.produced) else st1
  }

  lemma AfterPassFacts(st: Stack, s: Slot)
    requires Inv(st) && s in st.active
    ensures var t, x := AfterPass(st, s), Of(st, s).produced;
            && Inv(t)
            && (forall u :: u in t.active <==> u in st.active && !Follows(st, s, u))
            && (forall u :: u in t.active ==>
                  Of(t, u).kind == Of(st, u).kind && Of(t, u).produced == Of(st, u).produced)
  {
    HeirsOfTimedOut(st, s);
    var c := Of(st, s);
    var st1 := Put(st, s, c.(phase := TimedOut));
    TimedOutSettles(st, s);
    SettlesInv(st, st1);
    InvNoDup(st1);
    hide Of, Inv, PassOn, NextMaster, NoDup;
    forall u ensures Of(st1, u) == if u == s then c.(phase := TimedOut) else Of(st, u) {
      OfPut(st, s, c.(phase := TimedOut), u);
    }
    if Masters(c) {
      PassOnMembers(st1, s, c.produced);
      PassOnSettles(st1, s);
      SettlesInv(st1, PassOn(st1, s, c.produced));
    }
  }

  /** A time-out in terms of that state. */
  lemma ExpireIs(st: Stack, s: Slot)
    ensures var c, t := Of(st, s), AfterPass(st, s);
            var a := CloseSame(t, t.active, c.produced, InputOnly);
            Expire(st, s) ==
              if HandsOver(st, s) then Some(t)
              else if c.kind != ExclusiveOwner then Some(Released(t, s))
              else if a.None? then None
              else var b := CloseSame(a.value, a.value.active, c.produced, ListenOnly);
                   if b.None? then None else Some(Released(b.value, s))
  {
    HeirsOfTimedOut(st, s);
    hide CloseSame, PassOn, NextMaster, Released, Heir;
  }

  /** Exactly the connections that stay when one times out and the time-out completes. */
  lemma ExpireExact(st: Stack, s: Slot)
    requires Inv(st) && s in st.active && Expire(st, s).Some?
    ensures var r := Expire(st, s).value;
            && (s in r.active <==> HandsOver(st, s))
            && forall u :: u != s ==> (u in r.active <==> u in st.active && !TakenAlong(st, s, u))
  {
    ExpireEffect(st, s);
    ExpireIs(st, s);
    AfterPassFacts(st, s);
    hide Expire, Of, Inv, CloseSame, AfterPass, Without, Steady, HandsOver;
    var c, t := Of(st, s), AfterPass(st, s);
    InvNoDup(t);
    if !HandsOver(st, s) {
      if c.kind != ExclusiveOwner {
        WithoutFacts(t.active, s);
      } else {
        OwnerWalks(t, c.produced);
        var a := CloseSame(t, t.active, c.produced, InputOnly).value;
        var b := CloseSame(a, a.active, c.produced, ListenOnly).value;
        InvNoDup(b);
        WithoutFacts(b.active, s);
      }
    }
  }
}
