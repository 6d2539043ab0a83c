/** The connection objects and the active list as the stack changes them. */
module IoStack {
  import opened Words
  import opened IoConnections
  import opened IoSafety
  import opened IoSelection
  import opened IoClosing
  import opened IoRuns
  import opened IoRounds

  /** A list without repetitions, of connections that can all be closed. */
  ghost predicate Tidy(st: Stack) {
    NoDup(st.active) && forall s :: s in st.active ==> Of(st, s).closable
  }

  lemma InvTidy(st: Stack)
    requires Inv(st)
    ensures Tidy(st)
  {}

  lemma CloseIoTidy(st: Stack, s: Slot)
    requires Tidy(st)
    ensures Tidy(CloseIo(st, s))
  {
    hide Of, Sub, NoDup, Without, PassOn, NextMaster;
    var c := Of(st, s);
    var st1 := Put(st, s, c.(phase := NonExistent));
    forall u ensures Of(st1, u) == if u == s then c.(phase := NonExistent) else Of(st, u) {
      OfPut(st, s, c.(phase := NonExistent), u);
    }
    var st2 := if Masters(c) then PassOn(st1, s, c.produced) else st1;
    if Masters(c) {
      forall u ensures Sub(st2.active, st1.active) &&
              (u in st2.active ==> u in st1.active && Of(st2, u).closable == Of(st1, u).closable) {
        PassOnOf(st1, s, c.produced, u);
      }
      SubNoDup(st2.active, st1.active);
    }
    WithoutFacts(st2.active, s);
    SubNoDup(Without(st2.active, s), st2.active);
    forall u ensures Of(Released(st2, s), u) == if u == s then EMPTY else Of(st2, u) { OfReleased(st2, s, u); }
  }

  lemma {:induction false} WithoutAt(list: seq<Slot>, i: nat, s: Slot)
    requires i < |list| && list[i] == s && s !in list[..i]
    ensures Without(list, s) == list[..i] + list[i + 1..]
    decreases i
  {
    if i > 0 {
      var rest := list[1..];
      assert list[0] in list[..i] && list[..i] == [list[0]] + rest[..i - 1];
      WithoutAt(rest, i - 1, s);
      assert [list[0]] + (rest[..i - 1] + rest[i..]) == list[..i] + list[i + 1..];
    }
  }

  /** What a search returns: a slot or none, the extended error, and whether it
      called a missing close function. */
  predicate Reports(o: Outcome, slot: Option<Slot>, error: u16, crash: bool, before: Stack, after: Stack) {
    match o
    case Granted(s, st) => !crash && slot == Some(s) && error == 0 && after == st
    case Refused(e) => !crash && slot == None && error == e && after == before
    case Crash => crash
  }

  class Connections {
    const cfg: Config
    var conns: map<Slot, Conn>
    var active: seq<Slot>

    ghost function State(): Stack
      reads this
    {
      Stack(cfg, conns, active)
    }

    /** `InitializeIoConnectionData`. */
    constructor (cfg: Config)
      ensures State() == Initial(cfg) && Inv(State())
    {
      this.cfg := cfg;
      conns, active := map[], [];
    }

    function Get(s: Slot): (c: Conn)
      reads this
      ensures c == Of(State(), s)
    {
      if s in conns then conns[s] else EMPTY
    }

    /** `GetConnectedOutputAssembly`. */
    method GetConnectedOutputAssembly(x: nat) returns (r: Option<Slot>)
      ensures r == ConnectedOwner(State(), active, x)
    {
      var i := 0;
      assert active[0..] == active;
      while i < |active|
        invariant i <= |active| && ConnectedOwner(State(), active[i..], x) == ConnectedOwner(State(), active, x)
      {
        var c := Get(active[i]);
        assert active[i..][1..] == active[i + 1..];
        if c.kind == ExclusiveOwner && (c.phase == Established || c.phase == TimedOut) && c.produced == x {
          return Some(active[i]);
        }
        i := i + 1;
      }
      return None;
    }

    /** `GetExistingProducerIoConnection`. */
    method GetExistingProducer(multicastOnly: bool, x: nat) returns (r: Option<Slot>)
      ensures r == Producer(State(), active, multicastOnly, x)
    {
      var i := 0;
      assert active[0..] == active;
      while i < |active|
        invariant i <= |active|
          && Producer(State(), active[i..], multicastOnly, x) == Producer(State(), active, multicastOnly, x)
      {
        var c := Get(active[i]);
        assert active[i..][1..] == active[i + 1..];
        if c.kind != ExplicitMessaging && c.produced == x && c.sending {
          if c.flow == Multicast { return Some(active[i]); }
          if !multicastOnly && c.flow == PointToPoint { return Some(active[i]); }
        }
        i := i + 1;
      }
      return None;
    }

    /** `GetNextNonControlMasterConnection`. */
    method GetNextNonControlMaster(x: nat) returns (r: Option<Slot>)
      ensures r == NextMaster(State(), active, x)
    {
      var i := 0;
      assert active[0..] == active;
      while i < |active|
        invariant i <= |active| && NextMaster(State(), active[i..], x) == NextMaster(State(), active, x)
      {
        var c := Get(active[i]);
        assert active[i..][1..] == active[i + 1..];
        if (c.kind == ExclusiveOwner || c.kind == InputOnly) && c.phase == Established && c.produced == x
           && c.flow == Multicast && !c.sending {
          return Some(active[i]);
        }
        i := i + 1;
      }
      return None;
    }

    /** `RemoveFromActiveConnections`. */
    method RemoveFromActive(s: Slot)
      modifies this`active
      ensures active == Without(old(active), s)
    {
      hide Without;
      var i := 0;
      while i < |active|
        invariant i <= |active| && active == old(active) && s !in active[..i]
      {
        if active[i] == s {
          WithoutAt(active, i, s);
          active := active[..i] + active[i + 1..];
          return;
        }
        i := i + 1;
      }
    }

    /** `CloseCommunicationChannelsAndRemoveFromActiveConnectionsList`. */
    method CloseChannelsAndRemove(s: Slot)
      modifies this`conns, this`active
      ensures State() == Released(old(State()), s)
    {
      RemoveFromActive(s);
      conns := conns[s := EMPTY];
    }

    /** `CloseIoConnection`. */
    method CloseIoConnection(s: Slot)
      requires Tidy(State())
      modifies this`conns, this`active
      ensures State() == CloseIo(old(State()), s) && Tidy(State())
      decreases if Get(s).kind == ListenOnly then 0 else 2
    {
      CloseIoTidy(State(), s);
      var c := Get(s);
      conns := conns[s := c.(phase := NonExistent)];
      if (c.kind == ExclusiveOwner || c.kind == InputOnly) && c.flow == Multicast && c.sending {
        var heir := GetNextNonControlMaster(c.produced);
        if heir.Some? {
          conns := conns[heir.value := Get(heir.value).(sending := Get(s).sending)];
          conns := conns[s := Get(s).(sending := false)];
        } else {
          assert Tidy(State());
          WalkIsSweep(State(), active, c.produced);
          hide CloseSame, Sweep;
          var _ := CloseAllForInput(c.produced, ListenOnly);
        }
      }
      CloseChannelsAndRemove(s);
    }

    /** `CloseAllConnectionsForInputWithSameType`; the result says that the walk was not lost. */
    method CloseAllForInput(x: nat, kind: Kind) returns (ok: bool)
      requires Tidy(State())
      modifies this`conns, this`active
      ensures ok <==> CloseSame(old(State()), old(active), x, kind).Some?
      ensures ok ==> State() == CloseSame(old(State()), old(active), x, kind).value && Tidy(State())
      decreases if kind == ListenOnly then 1 else 3
    {
      hide CloseIo, Keep, NoDup;
      var node := active;
      while node != []
        invariant Tidy(State())
        invariant CloseSame(State(), node, x, kind) == CloseSame(old(State()), old(active), x, kind)
        decreases |node|
      {
        if node[0] !in active { return false; }
        var n := node[0];
        node := Keep(node[1..], active);
        if Get(n).kind == kind && Get(n).produced == x {
          CloseIoConnection(n);
        }
      }
      return true;
    }

    /** `CloseAllConnections`. */
    method CloseAllConnections()
      requires Inv(State())
      modifies this`conns, this`active
      ensures CloseAll(old(State())) == Some(State()) && active == [] && Inv(State())
    {
      CloseAllEmpties(State());
      hide CloseIo, Inv;
      while active != []
        invariant Inv(State()) && CloseAll(State()) == CloseAll(old(State()))
        decreases |active|
      {
        InvTidy(State());
        CloseIoInv(State(), active[0]);
        CloseIoConnection(active[0]);
      }
    }

    /** `HandleIoConnectionTimeOut`; the result says that no walk was lost. */
    method HandleTimeOut(s: Slot) returns (ok: bool)
      requires Inv(State()) && s in active && Get(s).phase == Established
      modifies this`conns, this`active
      ensures ok <==> Expire(old(State()), s).Some?
      ensures ok ==> State() == Expire(old(State()), s).value && Inv(State())
    {
      ExpireInv(State(), s);
      TimedOutSettles(State(), s);
      SettlesInv(State(), Put(State(), s, Of(State(), s).(phase := TimedOut)));
      hide CloseSame, Sweep, Inv, Transfer;
      ghost var st0 := State();
      var c := Get(s);
      var handover := false;
      conns := conns[s := c.(phase := TimedOut)];
      ghost var st1 := State();
      assert Of(st1, s).produced == c.produced && (Masters(c) <==> Masters(Of(st1, s)));
      if (c.kind == ExclusiveOwner || c.kind == InputOnly) && c.flow == Multicast && c.sending {
        handover := Relinquish(s, c.produced);
      }
      ghost var st2 := State();
      assert st2 == if Masters(c) then PassOn(st1, s, c.produced) else st1;
      if c.kind == ExclusiveOwner && !handover {
        ok := CloseAllForInput(c.produced, InputOnly);
        if !ok { return; }
        CloseSameInv(st2, st2.active, c.produced, InputOnly);
        ok := CloseAllForInput(c.produced, ListenOnly);
        if !ok { return; }
      }
      if !handover { CloseChannelsAndRemove(s); }
      ok := true;
    }

    /** `transfer_master_connection`, and the end of the listeners if there is no heir. */
    method Relinquish(s: Slot, x: nat) returns (handover: bool)
      requires Inv(State()) && s in active && Masters(Get(s)) && x == Get(s).produced
      modifies this`conns, this`active
      ensures State() == PassOn(old(State()), s, x) && Inv(State())
      ensures handover <==> NextMaster(old(State()), old(active), x).Some?
    {
      PassOnSettles(State(), s);
      SettlesInv(State(), PassOn(State(), s, x));
      InvTidy(State());
      hide CloseSame, Sweep, Inv, Settles;
      var heir := GetNextNonControlMaster(x);
      handover := heir.Some?;
      if handover {
        conns := conns[heir.value := Get(heir.value).(sending := Get(s).sending)];
        conns := conns[s := Get(s).(sending := false)];
      } else {
        WalkIsSweep(State(), active, x);
        var _ := CloseAllForInput(x, ListenOnly);
      }
    }

    /** The list walk of `ManageConnections`; the result says that it was not lost. */
    method ManageConnections(due: set<Slot>) returns (ok: bool)
      requires Inv(State()) && Handed(State())
      modifies this`conns, this`active
      ensures ok <==> Manage(old(State()), old(active), due).Finished?
      ensures ok ==> Manage(old(State()), old(active), due) == Finished(State())
    {
      hide Inv, HandedBut, CloseIo, Expire, Keep, Step;
      var node := active;
      while node != []
        invariant Inv(State()) && Handed(State())
        invariant Manage(State(), node, due) == Manage(old(State()), old(active), due)
        decreases |node|
      {
        if node[0] !in active { return false; }
        var n := node[0];
        var c := Get(n);
        ActiveExists(State(), n);
        if n in due && c.phase == TimedOut {
          node := Keep(node[1..], active);
          if c.closable {
            CloseHanded(State(), n, None);
            CloseIoInv(State(), n);
            InvTidy(State());
            CloseIoConnection(n);
          }
        } else if n in due && c.phase == Established {
          ExpireHanded(State(), n);
          ok := HandleTimeOut(n);
          if !ok { return; }
          node := if n in active then Keep(node[1..], active) else [];
        } else {
          node := Keep(node[1..], active);
        }
      }
      ok := true;
    }

    // ----- the search for a slot --------------------------------------------

    /** `GetExclusiveOwnerConnection`. */
    method GetExclusiveOwner(r: Request) returns (slot: Option<Slot>, error: u16, crash: bool)
      requires Tidy(State())
      modifies this`conns, this`active
      ensures Reports(OwnerSearch(old(State()), r), slot, error, crash, old(State()), State())
      ensures Tidy(State())
    {
      hide CloseIo, ConnectedOwner, Tidy;
      slot, error, crash := None, 0, false;
      var i := 0;
      while i < |cfg.owners|
        invariant i <= |cfg.owners| && State() == old(State())
        invariant FirstMatch(cfg.owners, r, i) == FirstMatch(cfg.owners, r, 0)
      {
        if cfg.owners[i].output == r.consumed && cfg.owners[i].input == r.produced
           && (cfg.owners[i].config == r.config || r.config == 0) {
          var owner := GetConnectedOutputAssembly(r.produced);
          if owner.Some? {
            if Get(owner.value).phase == Established {
              error := OWNERSHIP_CONFLICT;
              return;
            }
            if !Get(Owner(i)).closable { crash := true; return; }
            CloseIoConnection(Owner(i));
          }
          slot := Some(Owner(i));
          return;
        }
        i := i + 1;
      }
    }

    /** The two passes over the connection objects of one point. */
    method PickFromRow(row: seq<Slot>, r: Request) returns (slot: Option<Slot>, error: u16, crash: bool)
      requires Tidy(State())
      modifies this`conns, this`active
      ensures Reports(RowSearch(old(State()), row, r), slot, error, crash, old(State()), State())
      ensures Tidy(State())
    {
      hide CloseIo, Tidy;
      slot, error, crash := None, 0, false;
      ghost var st := State();
      var j := 0;
      assert row[0..] == row;
      while j < |row|
        invariant j <= |row| && State() == st
        invariant Find(row[j..], s => Stale(st, s, r)) == Find(row, s => Stale(st, s, r))
      {
        assert row[j..][1..] == row[j + 1..];
        if Get(row[j]).phase == TimedOut && Get(row[j]).originator == r.originator {
          if !Get(row[j]).closable { crash := true; return; }
          CloseIoConnection(row[j]);
          slot := Some(row[j]);
          return;
        }
        j := j + 1;
      }
      j := 0;
      while j < |row|
        invariant j <= |row| && State() == st
        invariant Find(row[j..], s => Unused(st, s)) == Find(row, s => Unused(st, s))
      {
        assert row[j..][1..] == row[j + 1..];
        if Get(row[j]).phase == NonExistent {
          slot := Some(row[j]);
          return;
        }
        j := j + 1;
      }
      error := OUT_OF_CONNECTIONS;
    }

    /** The loop over input-only or listen-only points, up to the first that matches. */
    method SeekPoint(points: seq<Point>, r: Request) returns (p: PointSearch)
      ensures p == FindPoint(points, r, 0, 0)
    {
      var error: u16 := 0;
      var i := 0;
      while i < |points|
        invariant i <= |points| && FindPoint(points, r, i, error) == FindPoint(points, r, 0, 0)
      {
        if points[i].output == r.consumed {
          if points[i].input != r.produced {
            error := INVALID_PRODUCING_PATH;
          } else if points[i].config != r.config && r.config != 0 {
            error := INCONSISTENT_PATHS;
          } else {
            return Hit(i);
          }
        }
        i := i + 1;
      }
      return Miss(error);
    }

    /** `GetInputOnlyConnection`. */
    method GetInputOnly(r: Request) returns (slot: Option<Slot>, error: u16, crash: bool)
      requires Tidy(State())
      modifies this`conns, this`active
      ensures Reports(InputSearch(old(State()), r), slot, error, crash, old(State()), State())
      ensures Tidy(State())
    {
      hide Tidy, RowSearch, FindPoint;
      var p := SeekPoint(cfg.inputs, r);
      match p
      case Miss(e) => slot, error, crash := None, e, false;
      case Hit(i) => slot, error, crash := PickFromRow(InputRow(cfg, i), r);
    }

    /** `GetListenOnlyConnection`. */
    method GetListenOnly(r: Request) returns (slot: Option<Slot>, error: u16, crash: bool)
      requires Tidy(State())
      modifies this`conns, this`active
      ensures Reports(ListenSearch(old(State()), r), slot, error, crash, old(State()), State())
      ensures Tidy(State())
    {
      hide Tidy, RowSearch, FindPoint, Producer;
      var p := SeekPoint(cfg.listens, r);
      match p
      case Miss(e) => slot, error, crash := None, e, false;
      case Hit(i) =>
        var producer := GetExistingProducer(false, r.produced);
        if producer.None? {
          slot, error, crash := None, NO_PRODUCER, false;
        } else {
          slot, error, crash := PickFromRow(ListenRow(cfg, i), r);
        }
    }

    /** `GetIoConnectionForConnectionData`: there is a slot exactly when there is no
        error, and then it holds the request. */
    method GetIoConnection(r: Request) returns (slot: Option<Slot>, error: u16, crash: bool)
      requires Tidy(State())
      modifies this`conns, this`active
      ensures Reports(Select(old(State()), r), slot, error, crash, old(State()), State())
      ensures !crash ==> (slot.Some? <==> error == 0)
    {
      hide Tidy, OwnerSearch, InputSearch, ListenSearch;
      RefusedHasError(State(), r);
      var kind := ExclusiveOwner;
      slot, error, crash := GetExclusiveOwner(r);
      if crash { return; }
      if slot.None? && error == 0 {
        slot, error, crash := GetInputOnly(r);
        kind := InputOnly;
        if crash { return; }
        if slot.None? && error == 0 {
          slot, error, crash := GetListenOnly(r);
          kind := ListenOnly;
          if crash { return; }
          if slot.None? && error == 0 { error := INCONSISTENT_PATHS; }
        }
      }
      if slot.Some? { conns := conns[slot.value := Copied(r, kind)]; }
    }

    /** The producing side of `OpenCommunicationChannels`, then `AddNewActiveConnection`. */
    method OpenAndAdd(s: Slot)
      requires s !in active
      modifies this`conns, this`active
      ensures State() == Activate(old(State()), s)
    {
      hide Producer;
      ProducerIn(State(), Get(s).produced);
      var c := Get(s).(closable := true, phase := Established);
      if c.flow == Multicast {
        var producer := GetExistingProducer(true, c.produced);
        if producer.None? {
          c := c.(sending := true);
        } else if c.kind == ExclusiveOwner {
          c := c.(sending := true);
          conns := conns[producer.value := Get(producer.value).(sending := false)];
        } else {
          c := c.(sending := false);
        }
      } else {
        c := c.(sending := c.flow == PointToPoint);
      }
      conns := conns[s := c];
      active := [s] + active;
    }
  }

  lemma ProducerIn(st: Stack, x: nat)
    ensures var p := Producer(st, st.active, true, x); p.Some? ==> p.value in st.active
  {}
}
