/** What every run of opens, closes and time-outs keeps: one established owner and
    one multicast producer per input assembly, and an active list that holds
    exactly the connections that exist. */
module IoSafety {
  import opened Words
  import opened IoConnections

  // ----- lists --------------------------------------------------------------

  predicate NoDup(list: seq<Slot>) {
    list == [] || (list[0] !in list[1..] && NoDup(list[1..]))
  }

  /** `b` comes from `a` by leaving elements out. */
  predicate Sub(b: seq<Slot>, a: seq<Slot>) {
    b == [] || (a != [] && if b[0] == a[0] then Sub(b[1..], a[1..]) else Sub(b, a[1..]))
  }

  lemma {:induction false} SubRefl(a: seq<Slot>)
    ensures Sub(a, a)
  {
    if a != [] { SubRefl(a[1..]); }
  }

  lemma {:induction false} SubMembers(b: seq<Slot>, a: seq<Slot>)
    requires Sub(b, a)
    ensures forall s :: s in b ==> s in a
    decreases |a|
  {
    if b != [] {
      if b[0] == a[0] { SubMembers(b[1..], a[1..]); } else { SubMembers(b, a[1..]); }
      assert forall s :: s in b <==> s == b[0] || s in b[1..];
    }
  }

  lemma {:induction false} SubNoDup(b: seq<Slot>, a: seq<Slot>)
    requires Sub(b, a) && NoDup(a)
    ensures NoDup(b)
    decreases |a|
  {
    if b != [] {
      if b[0] == a[0] {
        SubNoDup(b[1..], a[1..]);
        SubMembers(b[1..], a[1..]);
      } else {
        SubNoDup(b, a[1..]);
      }
    }
  }

  lemma {:induction false} SubSkip(b: seq<Slot>, a: seq<Slot>)
    requires b != [] && Sub(b, a)
    ensures Sub(b[1..], a)
    decreases |a|, 0
  {
    if b[0] == a[0] {
      SubWider(b[1..], a[1..], a);
    } else {
      SubSkip(b, a[1..]);
      SubWider(b[1..], a[1..], a);
    }
  }

  lemma {:induction false} SubWider(b: seq<Slot>, a: seq<Slot>, wider: seq<Slot>)
    requires wider != [] && wider[1..] == a && Sub(b, a)
    ensures Sub(b, wider)
    decreases |a|, 1
  {
    if b != [] && b[0] == wider[0] { SubSkip(b, a); }
  }

  lemma {:induction false} SubTrans(c: seq<Slot>, b: seq<Slot>, a: seq<Slot>)
    requires Sub(c, b) && Sub(b, a)
    ensures Sub(c, a)
    decreases |a|
  {
    if c != [] {
      if b[0] == a[0] {
        if c[0] == b[0] { SubTrans(c[1..], b[1..], a[1..]); } else { SubTrans(c, b[1..], a[1..]); }
      } else {
        SubTrans(c, b, a[1..]);
        SubWider(c, a[1..], a);
      }
    }
  }

  lemma {:induction false} WithoutFacts(list: seq<Slot>, s: Slot)
    requires NoDup(list)
    ensures Sub(Without(list, s), list)
    ensures forall t :: t in Without(list, s) <==> t in list && t != s
  {
    if list != [] {
      assert forall t :: t in list <==> t == list[0] || t in list[1..];
      if list[0] == s {
        SubRefl(list[1..]);
        SubWider(list[1..], list[1..], list);
      } else {
        WithoutFacts(list[1..], s);
        var r := [list[0]] + Without(list[1..], s);
        assert r[1..] == Without(list[1..], s);
        assert forall t :: t in r <==> t == list[0] || t in r[1..];
      }
    }
  }

  // ----- the invariant ------------------------------------------------------

  /** The connection in a slot belongs to the slot's connection point. */
  predicate Placed(cfg: Config, s: Slot, c: Conn) {
    match s
    case Owner(i) => c.kind == ExclusiveOwner && i < |cfg.owners| && OnPoint(cfg.owners[i], c)
    case Input(i, k) => c.kind == InputOnly && i < |cfg.inputs| && k < cfg.perInput && OnPoint(cfg.inputs[i], c)
    case Listen(i, k) => c.kind == ListenOnly && i < |cfg.listens| && k < cfg.perListen && OnPoint(cfg.listens[i], c)
    case Explicit(k) => c.kind == ExplicitMessaging
  }

  predicate OnPoint(p: Point, c: Conn) { c.consumed == p.output && c.produced == p.input }

  /** Behind an exclusive owner in the list, all others of the same input have timed out. */
  predicate OwnersLead(st: Stack, list: seq<Slot>) {
    list == [] ||
    (&& OwnersLead(st, list[1..])
     && forall t :: t in list[1..] && Rivals(Of(st, list[0]), Of(st, t)) ==> Of(st, t).phase == TimedOut)
  }

  predicate Rivals(c: Conn, d: Conn) {
    c.kind == ExclusiveOwner && d.kind == ExclusiveOwner && c.produced == d.produced
  }

  /** The connection sends multicast data itself. */
  predicate Sends(c: Conn) { c.kind != ExplicitMessaging && c.flow == Multicast && c.sending }

  ghost predicate OneSender(st: Stack) {
    forall s, t :: (&& s in st.active && t in st.active && Sends(Of(st, s)) && Sends(Of(st, t))
                    && Of(st, s).produced == Of(st, t).produced) ==> s == t
  }

  ghost predicate Listed(st: Stack) {
    forall s :: s in st.active <==> Of(st, s).phase != NonExistent
  }

  /** A connection that does not exist has no close function, or does not send. */
  predicate Quiet(c: Conn) { c.closable ==> !c.sending }

  ghost predicate Inv(st: Stack) {
    && NoDup(st.active) && Listed(st) && OwnersLead(st, st.active) && OneSender(st)
    && (forall s :: s in st.active ==> Placed(st.cfg, s, Of(st, s)) && Of(st, s).closable)
    && (forall s :: s !in st.active ==> Quiet(Of(st, s)))
  }

  // ----- connections that go, and what stays of the others ------------------

  /** The same connection, which may have timed out and may have passed its socket on or received one. */
  predicate Alike(c: Conn, d: Conn) {
    && d == c.(phase := d.phase, sending := d.sending)
    && d.phase != NonExistent && (c.phase == TimedOut ==> d.phase == TimedOut)
  }

  /** Some connections are gone, and the remaining ones are the same. */
  ghost predicate Settles(st: Stack, st': Stack) {
    && st'.cfg == st.cfg && Sub(st'.active, st.active)
    && (forall t :: t in st'.active ==> Alike(Of(st, t), Of(st', t)))
    && (forall t :: t !in st'.active ==> Of(st', t).phase == NonExistent && Quiet(Of(st', t)))
    && OneSender(st')
  }

  lemma {:induction false} LeadKept(st: Stack, st': Stack, b: seq<Slot>, a: seq<Slot>)
    requires Sub(b, a) && OwnersLead(st, a)
    requires forall t :: t in b ==> Alike(Of(st, t), Of(st', t))
    ensures OwnersLead(st', b)
    decreases |a|
  {
    if b != [] {
      assert forall t :: t in b <==> t == b[0] || t in b[1..];
      if b[0] == a[0] {
        LeadKept(st, st', b[1..], a[1..]);
        SubMembers(b[1..], a[1..]);
      } else {
        LeadKept(st, st', b, a[1..]);
      }
    }
  }

  lemma SettlesInv(st: Stack, st': Stack)
    requires Inv(st) && Settles(st, st')
    ensures Inv(st')
  {
    hide Of, Sub, NoDup, OneSender, OwnersLead, Quiet;
    SubMembers(st'.active, st.active);
    SubNoDup(st'.active, st.active);
    LeadKept(st, st', st'.active, st.active);
    forall s | s in st'.active ensures Placed(st'.cfg, s, Of(st', s)) && Of(st', s).closable {
      assert Placed(st.cfg, s, Of(st, s));
    }
  }

  lemma OfPut(st: Stack, s: Slot, c: Conn, t: Slot)
    ensures Of(Put(st, s, c), t) == if t == s then c else Of(st, t)
  {}

  lemma OfReleased(st: Stack, s: Slot, t: Slot)
    ensures Of(Released(st, s), t) == if t == s then EMPTY else Of(st, t)
  {}

  lemma ReleasedSettles(st: Stack, s: Slot)
    requires Inv(st)
    ensures Settles(st, Released(st, s)) && s !in Released(st, s).active
  {
    hide Sub, NoDup, OwnersLead, Without, Placed, Of;
    WithoutFacts(st.active, s);
    forall t ensures Of(Released(st, s), t) == if t == s then EMPTY else Of(st, t) { OfReleased(st, s, t); }
  }

  lemma ReleasedInv(st: Stack, s: Slot)
    requires Inv(st)
    ensures Inv(Released(st, s))
  {
    ReleasedSettles(st, s);
    SettlesInv(st, Released(st, s));
  }

  /** What a sweep does: the listeners among `todo` are gone, everything else is untouched. */
  ghost predicate Swept(st: Stack, st': Stack, todo: seq<Slot>, x: nat) {
    && st'.cfg == st.cfg && Sub(st'.active, st.active)
    && (forall t :: t in st'.active <==> t in st.active && !(t in todo && Listener(st, t, x)))
    && (forall t :: Of(st', t) == if t in todo && Listener(st, t, x) then EMPTY else Of(st, t))
  }

  lemma {:induction false} SweepExact(st: Stack, todo: seq<Slot>, x: nat)
    requires NoDup(st.active) && NoDup(todo)
    ensures Swept(st, Sweep(st, todo, x), todo, x)
    decreases |todo|
  {
    hide Of, Sub, Without;
    if todo == [] {
      SubRefl(st.active);
    } else {
      var n, rest := todo[0], todo[1..];
      assert forall t :: t in todo <==> t == n || t in rest;
      var next := if Listener(st, n, x) then Released(st, n) else st;
      WithoutFacts(st.active, n);
      SubNoDup(Without(st.active, n), st.active);
      SubRefl(st.active);
      forall t ensures Of(Released(st, n), t) == if t == n then EMPTY else Of(st, t) { OfReleased(st, n, t); }
      SweepExact(next, rest, x);
      SubTrans(Sweep(next, rest, x).active, next.active, st.active);
    }
  }

  /** The list of `Swept` over the whole active list, in settled terms. */
  lemma SweptSettles(st: Stack, st': Stack, x: nat)
    requires Inv(st) && Swept(st, st', st.active, x)
    ensures Settles(st, st')
  {
    hide Sub, NoDup, OwnersLead, Placed, Of;
  }

  lemma TransferOf(st: Stack, s: Slot, t: Slot, u: Slot)
    requires s != t
    ensures Of(Transfer(st, s, t), u) ==
            if u == s then Of(st, s).(sending := false)
            else if u == t then Of(st, t).(sending := Of(st, s).sending) else Of(st, u)
  {}

  /** A socket passed from the one sender of an input to an heir. */
  lemma TransferOneSender(st: Stack, s: Slot, t: Slot)
    requires OneSender(st) && s in st.active && Masters(Of(st, s))
    requires t in st.active && Heir(st, t, Of(st, s).produced)
    ensures OneSender(Transfer(st, s, t))
  {
    hide Of;
    assert s != t;
    forall u ensures Of(Transfer(st, s, t), u) ==
            if u == s then Of(st, s).(sending := false)
            else if u == t then Of(st, t).(sending := Of(st, s).sending) else Of(st, u)
    { TransferOf(st, s, t, u); }
  }

  /** `PassOn` for a master that has just left its phase: what it does to every connection. */
  lemma PassOnOf(st: Stack, s: Slot, x: nat, u: Slot)
    requires NoDup(st.active)
    requires Masters(Of(st, s))
    ensures var st' := PassOn(st, s, x); var heir := NextMaster(st, st.active, x);
            && st'.cfg == st.cfg && Sub(st'.active, st.active)
            && (u in st'.active <==> u in st.active && !(heir.None? && Listener(st, u, x)))
            && Of(st', u) ==
               (if heir.None? then (if u in st.active && Listener(st, u, x) then EMPTY else Of(st, u))
                else if u == s then Of(st, s).(sending := false)
                else if u == heir.value then Of(st, u).(sending := true)
                else Of(st, u))
  {
    hide Of, Sub;
    var heir := NextMaster(st, st.active, x);
    if heir.Some? {
      assert heir.value != s;
      TransferOf(st, s, heir.value, u);
      SubRefl(st.active);
    } else {
      SweepExact(st, st.active, x);
    }
  }

  /** The end of `OneSender` reasoning about a connection that is closed: its heir is the only sender left. */
  lemma CloseOneSender(st: Stack, st': Stack, s: Slot, heir: Option<Slot>)
    requires OneSender(st) && s in st.active && Masters(Of(st, s))
    requires forall u :: u in st'.active ==> u in st.active && u != s
    requires forall u :: u in st'.active ==>
                           Of(st', u) == if heir == Some(u) then Of(st, u).(sending := true) else Of(st, u)
    requires heir.Some? ==> Of(st, heir.value).produced == Of(st, s).produced
    ensures OneSender(st')
  {
    hide Of;
  }

  lemma CloseMasterSettles(st: Stack, s: Slot)
    requires Inv(st) && s in st.active && Masters(Of(st, s))
    ensures Settles(st, CloseIo(st, s)) && s !in CloseIo(st, s).active
  {
    hide Of, Sub, NoDup, OwnersLead, OneSender, PassOn, Without, NextMaster, Placed;
    var c := Of(st, s);
    var x := c.produced;
    var st1 := Put(st, s, c.(phase := NonExistent));
    forall u ensures Of(st1, u) == if u == s then c.(phase := NonExistent) else Of(st, u) {
      OfPut(st, s, c.(phase := NonExistent), u);
    }
    var heir := NextMaster(st1, st1.active, x);
    var st2 := PassOn(st1, s, x);
    forall u ensures
      && st2.cfg == st1.cfg && Sub(st2.active, st1.active)
      && (u in st2.active <==> u in st1.active && !(heir.None? && Listener(st1, u, x)))
      && Of(st2, u) ==
         (if heir.None? then (if u in st1.active && Listener(st1, u, x) then EMPTY else Of(st1, u))
          else if u == s then Of(st1, s).(sending := false)
          else if u == heir.value then Of(st1, u).(sending := true)
          else Of(st1, u))
    { PassOnOf(st1, s, x, u); }
    HeirFacts(st1, x);
    SubNoDup(st2.active, st.active);
    var r := Released(st2, s);
    forall u ensures Of(r, u) == if u == s then EMPTY else Of(st2, u) { OfReleased(st2, s, u); }
    WithoutFacts(st2.active, s);
    SubTrans(r.active, st2.active, st.active);
    CloseOneSender(st, r, s, heir);
    hide Listener, Masters;
  }

  lemma HeirFacts(st: Stack, x: nat)
    ensures var heir := NextMaster(st, st.active, x);
            heir.Some? ==> heir.value in st.active && Heir(st, heir.value, x)
  {}

  /** Closing a connection settles: it is gone, and the others are what they were. */
  lemma CloseIoSettles(st: Stack, s: Slot)
    requires Inv(st) && Of(st, s).closable
    ensures Settles(st, CloseIo(st, s)) && s !in CloseIo(st, s).active
  {
    if Masters(Of(st, s)) {
      CloseMasterSettles(st, s);
    } else {
      hide Sub, NoDup, OwnersLead, Without, Placed;
      assert CloseIo(st, s).conns == Released(st, s).conns;
      assert CloseIo(st, s) == Released(st, s);
      ReleasedSettles(st, s);
    }
  }

  lemma CloseIoInv(st: Stack, s: Slot)
    requires Inv(st) && Of(st, s).closable
    ensures Inv(CloseIo(st, s))
  {
    CloseIoSettles(st, s);
    SettlesInv(st, CloseIo(st, s));
  }

  lemma {:induction false} CloseSameInv(st: Stack, todo: seq<Slot>, x: nat, kind: Kind)
    requires Inv(st)
    ensures CloseSame(st, todo, x, kind).Some? ==> Inv(CloseSame(st, todo, x, kind).value)
    decreases |todo|
  {
    hide Inv, CloseIo, Of;
    if todo != [] && todo[0] in st.active {
      var rest := Keep(todo[1..], st.active);
      var c := Of(st, todo[0]);
      if c.kind == kind && c.produced == x {
        if c.closable {
          CloseIoInv(st, todo[0]);
          CloseSameInv(CloseIo(st, todo[0]), rest, x, kind);
        }
      } else {
        CloseSameInv(st, rest, x, kind);
      }
    }
  }

  /** Closing all connections always works and leaves none. */
  lemma {:induction false} CloseAllEmpties(st: Stack)
    requires Inv(st)
    ensures CloseAll(st).Some? && CloseAll(st).value.active == [] && Inv(CloseAll(st).value)
    decreases |st.active|
  {
    if st.active != [] {
      var s := st.active[0];
      assert s in st.active && Of(st, s).closable;
      CloseIoInv(st, s);
      hide CloseIo, Inv;
      CloseAllEmpties(CloseIo(st, s));
    }
  }

  lemma TimedOutSettles(st: Stack, s: Slot)
    requires Inv(st) && s in st.active
    ensures Settles(st, Put(st, s, Of(st, s).(phase := TimedOut)))
  {
    hide Of, Sub, NoDup, OwnersLead, Placed;
    var c := Of(st, s).(phase := TimedOut);
    forall u ensures Of(Put(st, s, c), u) == if u == s then c else Of(st, u) { OfPut(st, s, c, u); }
    SubRefl(st.active);
  }

  lemma PassOnSettles(st: Stack, s: Slot)
    requires Inv(st) && s in st.active && Masters(Of(st, s))
    ensures Settles(st, PassOn(st, s, Of(st, s).produced))
  {
    hide Of, Sub, NoDup, OwnersLead, Placed;
    var x := Of(st, s).produced;
    var heir := NextMaster(st, st.active, x);
    if heir.Some? {
      TransferOneSender(st, s, heir.value);
      forall u ensures Of(Transfer(st, s, heir.value), u) ==
              if u == s then Of(st, s).(sending := false)
              else if u == heir.value then Of(st, u).(sending := Of(st, s).sending) else Of(st, u)
      { TransferOf(st, s, heir.value, u); }
      hide OneSender;
      SubRefl(st.active);
    } else {
      SweepExact(st, st.active, x);
      SweptSettles(st, PassOn(st, s, x), x);
    }
  }

  lemma ExpireInv(st: Stack, s: Slot)
    requires Inv(st) && s in st.active
    ensures Expire(st, s).Some? ==> Inv(Expire(st, s).value)
  {
    hide Settles, CloseSame, PassOn, Released, NextMaster;
    var c := Of(st, s);
    var st1 := Put(st, s, c.(phase := TimedOut));
    TimedOutSettles(st, s);
    SettlesInv(st, st1);
    OfPut(st, s, c.(phase := TimedOut), s);
    hide Of, Inv;
    var st2 := if Masters(c) then PassOn(st1, s, c.produced) else st1;
    if Masters(c) {
      PassOnSettles(st1, s);
      SettlesInv(st1, st2);
    }
    ReleasedInv(st2, s);
    CloseSameInv(st2, st2.active, c.produced, InputOnly);
    var st3 := CloseSame(st2, st2.active, c.produced, InputOnly);
    if st3.Some? {
      CloseSameInv(st3.value, st3.value.active, c.produced, ListenOnly);
      var st4 := CloseSame(st3.value, st3.value.active, c.produced, ListenOnly);
      if st4.Some? { ReleasedInv(st4.value, s); }
    }
  }
}
