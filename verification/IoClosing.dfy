/** The loops that close all connections of one kind on an input, and when the
    walk along the list survives the closing. */
module IoClosing {
  import opened Words
  import opened IoConnections
  import opened IoSafety
  import opened IoSelection

  lemma {:induction false} KeepAll(list: seq<Slot>, live: seq<Slot>)
    requires forall s :: s in list ==> s in live
    ensures Keep(list, live) == list
  {
    if list != [] { KeepAll(list[1..], live); }
  }

  lemma {:induction false} KeepNoDup(list: seq<Slot>, live: seq<Slot>)
    requires NoDup(list)
    ensures NoDup(Keep(list, live))
  {
    if list != [] {
      KeepNoDup(list[1..], live);
      var tail := Keep(list[1..], live);
      if list[0] in live { assert ([list[0]] + tail)[1..] == tail; } else { assert [] + tail == tail; }
    }
  }

  // ----- listen-only connections --------------------------------------------

  lemma CloseListener(st: Stack, s: Slot)
    requires Of(st, s).kind == ListenOnly
    ensures CloseIo(st, s) == Released(st, s)
  {
    assert CloseIo(st, s).conns == Released(st, s).conns;
  }

  /** The walk over the listen-only connections of an input is never lost. */
  lemma {:induction false} WalkIsSweep(st: Stack, todo: seq<Slot>, x: nat)
    requires NoDup(st.active) && NoDup(todo)
    requires forall s :: s in todo ==> s in st.active && (Listener(st, s, x) ==> Of(st, s).closable)
    ensures CloseSame(st, todo, x, ListenOnly) == Some(Sweep(st, todo, x))
    decreases |todo|
  {
    hide Of, Without, CloseIo;
    if todo != [] {
      var n, rest := todo[0], todo[1..];
      assert forall t :: t in todo <==> t == n || t in rest;
      KeepAll(rest, st.active);
      if Listener(st, n, x) {
        CloseListener(st, n);
        WithoutFacts(st.active, n);
        SubNoDup(Without(st.active, n), st.active);
        forall t ensures Of(Released(st, n), t) == if t == n then EMPTY else Of(st, t) { OfReleased(st, n, t); }
        WalkIsSweep(Released(st, n), rest, x);
      } else {
        WalkIsSweep(st, rest, x);
      }
    }
  }

  /** Closing all listen-only connections of an input works in every reachable
      state, takes exactly those off the list and leaves all others as they were. */
  lemma ListenersClosed(st: Stack, x: nat)
    requires Inv(st)
    ensures var r := CloseSame(st, st.active, x, ListenOnly);
            && r.Some? && Sub(r.value.active, st.active)
            && (forall t :: t in r.value.active <==> t in st.active && !Listener(st, t, x))
            && (forall t :: t in r.value.active ==> Of(r.value, t) == Of(st, t))
  {
    WalkIsSweep(st, st.active, x);
    SweepExact(st, st.active, x);
    hide Sweep, CloseSame, Of, Sub;
  }

  // ----- input-only connections ---------------------------------------------

  predicate Carrier(st: Stack, s: Slot, x: nat) {
    var c := Of(st, s);
    c.kind == InputOnly && c.produced == x && c.flow == Multicast && (c.sending || c.phase == Established)
  }

  predicate Sending(st: Stack, list: seq<Slot>, x: nat) {
    exists s :: s in list && Carrier(st, s, x) && Of(st, s).sending
  }

  /** The last carrier in the list stands right before a listener. */
  predicate Followed(st: Stack, list: seq<Slot>, x: nat) {
    exists p :: 0 <= p < |list| - 1 && LastCarrier(st, list, x, p) && Listener(st, list[p + 1], x)
  }

  predicate LastCarrier(st: Stack, list: seq<Slot>, x: nat, p: nat) {
    p < |list| && Carrier(st, list[p], x) && forall k :: p < k < |list| ==> !Carrier(st, list[k], x)
  }

  /** An input-only connection produces the input as multicast, and the last such
      connection that could is followed by a listener. */
  predicate Peril(st: Stack, list: seq<Slot>, x: nat) { Sending(st, list, x) && Followed(st, list, x) }

  lemma FollowedCons(st: Stack, list: seq<Slot>, x: nat)
    requires list != []
    ensures (exists s :: s in list[1..] && Carrier(st, s, x))
        ==> (Followed(st, list, x) <==> Followed(st, list[1..], x))
    ensures !Carrier(st, list[0], x) ==> (Followed(st, list, x) <==> Followed(st, list[1..], x))
  {
    hide Carrier, Listener;
    var rest := list[1..];
    if Followed(st, rest, x) {
      var p :| 0 <= p < |rest| - 1 && LastCarrier(st, rest, x, p) && Listener(st, rest[p + 1], x);
      assert forall k :: 0 <= k < |rest| ==> rest[k] == list[k + 1];
      forall k | p + 1 < k < |list| ensures !Carrier(st, list[k], x) { assert list[k] == rest[k - 1]; }
      assert LastCarrier(st, list, x, p + 1) && Listener(st, list[p + 2], x);
    }
    if Followed(st, list, x) {
      var p :| 0 <= p < |list| - 1 && LastCarrier(st, list, x, p) && Listener(st, list[p + 1], x);
      if p == 0 {
        assert forall k :: 0 <= k < |rest| ==> rest[k] == list[k + 1] && !Carrier(st, list[k + 1], x);
      } else {
        forall k | p - 1 < k < |rest| ensures !Carrier(st, rest[k], x) { assert rest[k] == list[k + 1]; }
        assert LastCarrier(st, rest, x, p - 1) && Listener(st, rest[p], x);
      }
    }
  }

  lemma SendingCons(st: Stack, list: seq<Slot>, x: nat)
    requires list != []
    ensures Sending(st, list, x) <==>
            (Carrier(st, list[0], x) && Of(st, list[0]).sending) || Sending(st, list[1..], x)
  {
    assert forall s :: s in list <==> s == list[0] || s in list[1..];
  }

  /** `Followed` goes only by which members of the list are carriers and listeners. */
  lemma FollowedSame(st: Stack, st': Stack, list: seq<Slot>, x: nat)
    requires forall s :: s in list ==>
        (Carrier(st, s, x) <==> Carrier(st', s, x)) && (Listener(st, s, x) <==> Listener(st', s, x))
    ensures Followed(st, list, x) <==> Followed(st', list, x)
  {
    hide Carrier, Listener;
    assert forall k :: 0 <= k < |list| ==> list[k] in list;
    forall p: nat | p < |list| ensures LastCarrier(st, list, x, p) <==> LastCarrier(st', list, x, p) {
      assert forall k :: 0 <= k < |list| ==> list[k] in list;
    }
  }

  /** All heirs of an input are input-only connections still to be visited. */
  predicate HeirsAhead(st: Stack, todo: seq<Slot>, x: nat) {
    forall u :: u in st.active && Heir(st, u, x) ==> u in todo && Of(st, u).kind == InputOnly
  }

  /** What closing a master does to every connection. */
  lemma CloseMaster(st: Stack, n: Slot) returns (heir: Option<Slot>)
    requires Inv(st) && n in st.active && Masters(Of(st, n))
    ensures heir.Some? ==> heir.value in st.active && heir.value != n && Heir(st, heir.value, Of(st, n).produced)
    ensures heir.None? ==> forall u :: u in st.active ==> !Heir(st, u, Of(st, n).produced)
    ensures heir.Some? ==> exists k :: && 0 <= k < |st.active| && st.active[k] == heir.value
                                       && forall j :: 0 <= j < k ==> !Heir(st, st.active[j], Of(st, n).produced)
    ensures var r := CloseIo(st, n);
            && (forall u :: u in r.active <==>
                  u in st.active && u != n && !(heir.None? && Listener(st, u, Of(st, n).produced)))
            && (forall u :: u in r.active ==>
                  Of(r, u) == if heir == Some(u) then Of(st, u).(sending := true) else Of(st, u))
  {
    hide Of, Sub, NoDup, OwnersLead, OneSender, PassOn, Without, NextMaster, Placed;
    var c := Of(st, n);
    var x := c.produced;
    var st1 := Put(st, n, c.(phase := NonExistent));
    forall u ensures Of(st1, u) == if u == n then c.(phase := NonExistent) else Of(st, u) {
      OfPut(st, n, c.(phase := NonExistent), u);
    }
    heir := NextMaster(st1, st1.active, x);
    HeirFacts(st1, x);
    NoHeirFacts(st1, x);
    FirstHeir(st1, x);
    assert forall u :: Heir(st1, u, x) <==> Heir(st, u, x);
    var st2 := PassOn(st1, n, x);
    forall u ensures
      && Sub(st2.active, st1.active)
      && (u in st2.active <==> u in st1.active && !(heir.None? && Listener(st1, u, x)))
      && Of(st2, u) ==
         (if heir.None? then (if u in st1.active && Listener(st1, u, x) then EMPTY else Of(st1, u))
          else if u == n then Of(st1, n).(sending := false)
          else if u == heir.value then Of(st1, u).(sending := true)
          else Of(st1, u))
    { PassOnOf(st1, n, x, u); }
    SubNoDup(st2.active, st.active);
    WithoutFacts(st2.active, n);
    forall u ensures Of(Released(st2, n), u) == if u == n then EMPTY else Of(st2, u) { OfReleased(st2, n, u); }
    hide Listed;
  }

  lemma {:induction false} FindFirst(list: seq<Slot>, p: Slot -> bool)
    ensures var r := Find(list, p);
            r.Some? ==> exists k :: 0 <= k < |list| && list[k] == r.value && forall j :: 0 <= j < k ==> !p(list[j])
  {
    if list != [] {
      if p(list[0]) {
        assert list[0] == list[0];
      } else {
        FindFirst(list[1..], p);
        if Find(list[1..], p).Some? {
          var k :| 0 <= k < |list[1..]| && list[1..][k] == Find(list[1..], p).value
                   && forall j :: 0 <= j < k ==> !p(list[1..][j]);
          forall j | 0 <= j < k + 1 ensures !p(list[j]) { if j > 0 { assert list[j] == list[1..][j - 1]; } }
          assert list[k + 1] == list[1..][k];
        }
      }
    }
  }

  lemma FirstHeir(st: Stack, x: nat)
    ensures var heir := NextMaster(st, st.active, x);
            heir.Some? ==> exists k :: && 0 <= k < |st.active| && st.active[k] == heir.value
                                       && forall j :: 0 <= j < k ==> !Heir(st, st.active[j], x)
  {
    FindFirst(st.active, s => Heir(st, s, x));
    hide Heir;
  }

  lemma NoHeirFacts(st: Stack, x: nat)
    ensures NextMaster(st, st.active, x).None? ==> forall u :: u in st.active ==> !Heir(st, u, x)
  {}

  lemma ClosePlain(st: Stack, s: Slot)
    requires !Masters(Of(st, s))
    ensures CloseIo(st, s) == Released(st, s)
  {
    assert CloseIo(st, s).conns == Released(st, s).conns;
  }

  /** Visiting `n` leads to a state and a rest of the walk that are in the same danger. */
  ghost predicate Onward(st: Stack, n: Slot, rest: seq<Slot>, x: nat, st': Stack) {
    && Inv(st') && (forall s :: s in rest ==> s in st'.active) && HeirsAhead(st', rest, x)
    && (Peril(st', rest, x) <==> Peril(st, [n] + rest, x))
  }

  lemma PassBy(st: Stack, n: Slot, rest: seq<Slot>, x: nat)
    requires Inv(st) && NoDup([n] + rest) && (forall s :: s in [n] + rest ==> s in st.active)
      && HeirsAhead(st, [n] + rest, x)
    requires Of(st, n).kind != InputOnly || Of(st, n).produced != x
    ensures Onward(st, n, rest, x, st)
  {
    hide Of, Inv, Followed, NoDup;
    var todo := [n] + rest;
    assert todo[1..] == rest;
    assert forall s :: s in todo <==> s == n || s in rest;
    FollowedCons(st, todo, x);
    SendingCons(st, todo, x);
    hide Sending;
  }

  /** The danger stays the same if carriers and listeners do, and if somebody in
      the rest sends afterwards exactly when somebody in the list sent before. */
  lemma PerilOnward(st: Stack, st': Stack, n: Slot, rest: seq<Slot>, x: nat)
    requires forall s :: s in rest ==>
        (Carrier(st, s, x) <==> Carrier(st', s, x)) && (Listener(st, s, x) <==> Listener(st', s, x))
    requires Sending(st', rest, x) <==> Sending(st, [n] + rest, x)
    ensures Peril(st', rest, x) <==> Peril(st, [n] + rest, x)
  {
    hide Of, Followed, Carrier, Listener;
    var todo := [n] + rest;
    assert todo[1..] == rest;
    FollowedSame(st, st', rest, x);
    FollowedCons(st, todo, x);
  }

  lemma SendingSame(st: Stack, st': Stack, list: seq<Slot>, x: nat)
    requires forall s :: s in list ==> Of(st', s) == Of(st, s)
    ensures Sending(st', list, x) <==> Sending(st, list, x)
  {
    hide Of;
  }

  lemma VisitPlain(st: Stack, n: Slot, rest: seq<Slot>, x: nat)
    requires Inv(st) && NoDup([n] + rest) && (forall s :: s in [n] + rest ==> s in st.active)
      && HeirsAhead(st, [n] + rest, x)
    requires Of(st, n).kind == InputOnly && Of(st, n).produced == x && !Masters(Of(st, n))
    ensures Onward(st, n, rest, x, CloseIo(st, n))
  {
    var todo := [n] + rest;
    assert todo[1..] == rest && n !in rest;
    hide Of, Without, CloseIo, NoDup, Peril, Followed;
    ClosePlain(st, n);
    ReleasedInv(st, n);
    WithoutFacts(st.active, n);
    hide Inv;
    assert forall s :: s in todo <==> s == n || s in rest;
    var st' := Released(st, n);
    forall u ensures Of(st', u) == if u == n then EMPTY else Of(st, u) { OfReleased(st, n, u); }
    SendingCons(st, todo, x);
    SendingSame(st, st', rest, x);
    hide Sending;
    PerilOnward(st, st', n, rest, x);
  }

  /** A socket handed on from `n` to `t`: who can carry the input is the same, and the heirs ahead are still ahead. */
  lemma HandedOn(st: Stack, st': Stack, n: Slot, rest: seq<Slot>, x: nat, t: Slot)
    requires forall u :: u in rest ==> u in st'.active
    requires forall u :: u in st'.active ==> u in st.active && u != n
    requires forall u :: u in st'.active ==>
               Of(st', u) == if u == t then Of(st, u).(sending := true) else Of(st, u)
    requires Heir(st, t, x)
    requires forall u :: u in st.active && u != n && Heir(st, u, x) ==> u in rest && Of(st, u).kind == InputOnly
    ensures HeirsAhead(st', rest, x)
    ensures forall u :: u in rest ==>
        (Carrier(st, u, x) <==> Carrier(st', u, x)) && (Listener(st, u, x) <==> Listener(st', u, x))
  {
    hide Of;
  }

  lemma VisitMaster(st: Stack, n: Slot, rest: seq<Slot>, x: nat, t: Slot)
    requires Inv(st) && NoDup([n] + rest) && (forall s :: s in [n] + rest ==> s in st.active)
      && HeirsAhead(st, [n] + rest, x)
    requires Of(st, n).kind == InputOnly && Of(st, n).produced == x && Masters(Of(st, n))
    requires t in st.active && t != n && Heir(st, t, x)
    requires forall u :: u in CloseIo(st, n).active <==> u in st.active && u != n
    requires forall u :: u in CloseIo(st, n).active ==>
               Of(CloseIo(st, n), u) == if u == t then Of(st, u).(sending := true) else Of(st, u)
    requires Inv(CloseIo(st, n))
    ensures Onward(st, n, rest, x, CloseIo(st, n))
  {
    var todo := [n] + rest;
    assert todo[1..] == rest && n !in rest;
    hide Of, CloseIo, Inv, NoDup, Peril, Followed;
    assert forall s :: s in todo <==> s == n || s in rest;
    var st' := CloseIo(st, n);
    assert n in todo && Carrier(st, n, x) && Of(st, n).sending;
    assert Sending(st, todo, x);
    assert t in rest && Of(st, t).kind == InputOnly;
    assert Carrier(st', t, x) && Of(st', t).sending;
    assert Sending(st', rest, x);
    HandedOn(st, st', n, rest, x, t);
    hide Sending, Carrier, Listener, Heir, HeirsAhead, Masters;
    PerilOnward(st, st', n, rest, x);
  }

  /** The walk that closes the input-only connections of an input is lost exactly
      when one of them sends and the last carrier stands right before a listener. */
  lemma {:induction false} WalkSurvives(st: Stack, todo: seq<Slot>, x: nat)
    requires Inv(st) && NoDup(todo) && (forall s :: s in todo ==> s in st.active) && HeirsAhead(st, todo, x)
    ensures CloseSame(st, todo, x, InputOnly).None? <==> Peril(st, todo, x)
    decreases |todo|
  {
    hide Of, CloseIo, Inv, HeirsAhead, Peril, Placed;
    if todo == [] {
      NoPerilInNil(st, x);
    } else {
      var n, rest := todo[0], todo[1..];
      assert todo == [n] + rest;
      assert forall s :: s in todo <==> s == n || s in rest;
      KeepAll(rest, st.active);
      ActiveClosable(st, n);
      var c := Of(st, n);
      if c.kind != InputOnly || c.produced != x {
        PassBy(st, n, rest, x);
        WalkSurvives(st, rest, x);
      } else if !Masters(c) {
        VisitPlain(st, n, rest, x);
        WalkSurvives(CloseIo(st, n), rest, x);
      } else {
        var heir := CloseMaster(st, n);
        CloseIoInv(st, n);
        if heir.Some? {
          VisitMaster(st, n, rest, x, heir.value);
          WalkSurvives(CloseIo(st, n), rest, x);
        } else {
          LastMaster(st, n, rest, x);
          KeepNoDup(rest, CloseIo(st, n).active);
          var live := Keep(rest, CloseIo(st, n).active);
          if rest != [] && !Listener(st, rest[0], x) {
            AloneOnward(st, n, live, x);
            WalkSurvives(CloseIo(st, n), live, x);
            SameWalk(CloseIo(st, n), rest, x);
          }
        }
      }
    }
  }

  lemma NoPerilInNil(st: Stack, x: nat)
    ensures !Peril(st, [], x)
  {}

  lemma ActiveClosable(st: Stack, n: Slot)
    requires Inv(st) && n in st.active
    ensures Of(st, n).closable
  {}

  /** With no heir, the master is the last carrier, and only its successor matters. */
  lemma LastMaster(st: Stack, n: Slot, rest: seq<Slot>, x: nat)
    requires Inv(st) && n !in rest && (forall s :: s in [n] + rest ==> s in st.active)
    requires Of(st, n).kind == InputOnly && Of(st, n).produced == x && Masters(Of(st, n))
    requires forall u :: u in st.active ==> !Heir(st, u, x)
    ensures Peril(st, [n] + rest, x) <==> rest != [] && Listener(st, rest[0], x)
  {
    hide Of, NoDup, OwnersLead, Placed;
    var todo := [n] + rest;
    forall k | 0 < k < |todo| ensures !Carrier(st, todo[k], x) {
      assert todo[k] == rest[k - 1] && todo[k] in todo && todo[k] != n;
      assert n in todo;
      assert !Sends(Of(st, todo[k])) || Of(st, todo[k]).produced != x;
    }
    assert n in todo && Carrier(st, n, x);
    assert LastCarrier(st, todo, x, 0);
    if rest != [] { assert todo[1] == rest[0]; }
    forall p: nat | LastCarrier(st, todo, x, p) ensures p == 0 {}
  }

  /** After the last master has gone nobody sends, and nobody waits to. */
  lemma AloneOnward(st: Stack, n: Slot, live: seq<Slot>, x: nat)
    requires Inv(st) && n in st.active && Masters(Of(st, n)) && Of(st, n).produced == x
    requires forall u :: u in st.active ==> !Heir(st, u, x)
    requires forall u :: u in CloseIo(st, n).active ==> u in st.active && u != n && Of(CloseIo(st, n), u) == Of(st, u)
    requires forall u :: u in live ==> u in CloseIo(st, n).active
    ensures HeirsAhead(CloseIo(st, n), live, x) && !Peril(CloseIo(st, n), live, x)
  {
    hide Of, NoDup, OwnersLead, Placed, CloseIo, Followed;
    var st' := CloseIo(st, n);
    forall u | u in live ensures !(Carrier(st', u, x) && Of(st', u).sending) {
      assert u in st'.active && u in st.active && u != n;
      assert !Sends(Of(st, u)) || Of(st, u).produced != x;
    }
  }

  lemma {:induction false} KeepTwice(list: seq<Slot>, live: seq<Slot>)
    ensures Keep(Keep(list, live), live) == Keep(list, live)
  {
    KeepAll(Keep(list, live), live);
  }

  /** A walk that begins at a live node skips what is gone. */
  lemma SameWalk(st: Stack, rest: seq<Slot>, x: nat)
    requires rest != [] && rest[0] in st.active
    ensures CloseSame(st, rest, x, InputOnly) == CloseSame(st, Keep(rest, st.active), x, InputOnly)
  {
    hide CloseIo;
    var live := Keep(rest, st.active);
    assert live == [rest[0]] + Keep(rest[1..], st.active);
    assert live[0] == rest[0] && live[1..] == Keep(rest[1..], st.active);
    KeepTwice(rest[1..], st.active);
  }

  // ----- what is left -------------------------------------------------------

  lemma CloseIoKeeps(st: Stack, n: Slot)
    requires Inv(st) && n in st.active
    ensures forall u :: u in st.active && u != n && !Listener(st, u, Of(st, n).produced) ==> u in CloseIo(st, n).active
  {
    hide CloseIo, Of, Listener;
    if Masters(Of(st, n)) {
      var _ := CloseMaster(st, n);
    } else {
      ClosePlain(st, n);
      WithoutFacts(st.active, n);
    }
  }

  predicate OfKind(st: Stack, u: Slot, x: nat, kind: Kind) { Of(st, u).kind == kind && Of(st, u).produced == x }

  /** A walk that is not lost leaves no connection of the kind on the input, and
      all connections but those and the input's listeners are still there, unchanged but for sockets handed on. */
  lemma {:induction false} WalkEffect(st: Stack, todo: seq<Slot>, x: nat, kind: Kind)
    requires Inv(st) && CloseSame(st, todo, x, kind).Some?
    ensures var r := CloseSame(st, todo, x, kind).value;
            && (forall u :: u in r.active ==> u in st.active && Alike(Of(st, u), Of(r, u)))
            && (forall u :: u in todo && OfKind(st, u, x, kind) ==> u !in r.active)
            && (forall u :: u in st.active && !OfKind(st, u, x, kind) && !Listener(st, u, x) ==> u in r.active)
    decreases |todo|
  {
    hide CloseIo, Of, Sub, NoDup, OwnersLead, OneSender, Placed, Quiet;
    if todo != [] {
      var n := todo[0];
      assert forall u :: u in todo <==> u == n || u in todo[1..];
      var rest := Keep(todo[1..], st.active);
      if OfKind(st, n, x, kind) {
        var st' := CloseIo(st, n);
        CloseIoSettles(st, n);
        CloseIoInv(st, n);
        CloseIoKeeps(st, n);
        SubMembers(st'.active, st.active);
        WalkEffect(st', rest, x, kind);
      } else {
        WalkEffect(st, rest, x, kind);
      }
    }
  }

  // ----- time-outs ----------------------------------------------------------

  lemma PerilSame(st: Stack, st': Stack, list: seq<Slot>, x: nat)
    requires forall s :: s in list ==>
               (Carrier(st, s, x) <==> Carrier(st', s, x)) && (Listener(st, s, x) <==> Listener(st', s, x))
               && (Carrier(st, s, x) ==> Of(st, s).sending == Of(st', s).sending)
    ensures Peril(st, list, x) <==> Peril(st', list, x)
  {
    FollowedSame(st, st', list, x);
    hide Of, Carrier, Listener, Followed;
  }

  /** When an established owner times out, only input-only connections can be its heirs. */
  lemma OwnerHeirs(st: Stack, s: Slot)
    requires Inv(st) && s in st.active && Of(st, s).kind == ExclusiveOwner && Of(st, s).phase == Established
    ensures var st1 := Put(st, s, Of(st, s).(phase := TimedOut));
            HeirsAhead(st1, st1.active, Of(st, s).produced)
  {
    hide Of, ConnectedOwner, NoDup, OneSender, Placed;
    var c := Of(st, s);
    var x := c.produced;
    var st1 := Put(st, s, c.(phase := TimedOut));
    LeadFound(st, st.active, x, s);
    hide OwnersLead;
    forall u | u in st1.active && Heir(st1, u, x) ensures Of(st1, u).kind == InputOnly {
      OfPut(st, s, c.(phase := TimedOut), u);
      OnlyOwner(st, u, x, s);
    }
  }

  lemma OnlyOwner(st: Stack, u: Slot, x: nat, s: Slot)
    requires Inv(st) && u in st.active && ConnectedOwner(st, st.active, x) == Some(s)
    requires Of(st, u).phase == Established && Of(st, u).produced == x && u != s
    ensures Of(st, u).kind != ExclusiveOwner
  {
    if Of(st, u).kind == ExclusiveOwner {
      LeadFound(st, st.active, x, u);
    }
  }

  /** Once the walk over the input-only connections has been survived, a time-out completes. */
  lemma ExpireOwner(st: Stack, s: Slot, st2: Stack)
    requires Of(st, s).kind == ExclusiveOwner && Inv(st2)
    requires var c := Of(st, s); var st1 := Put(st, s, c.(phase := TimedOut));
             && (Masters(c) ==> NextMaster(st1, st1.active, c.produced).None?)
             && st2 == if Masters(c) then PassOn(st1, s, c.produced) else st1
    ensures Expire(st, s).None? <==> CloseSame(st2, st2.active, Of(st, s).produced, InputOnly).None?
  {
    hide CloseSame, PassOn, NextMaster, Released, Inv;
    var x := Of(st, s).produced;
    CloseSameInv(st2, st2.active, x, InputOnly);
    var st3 := CloseSame(st2, st2.active, x, InputOnly);
    if st3.Some? { ListenersClosed(st3.value, x); }
  }

  lemma ExpireSimpleOwner(st: Stack, s: Slot)
    requires Inv(st) && s in st.active && Of(st, s).phase == Established
    requires Of(st, s).kind == ExclusiveOwner && !Masters(Of(st, s))
    ensures Expire(st, s).None? <==> Peril(st, st.active, Of(st, s).produced)
  {
    hide Expire, CloseSame, PassOn, NextMaster, Settles, Peril, HeirsAhead;
    var c := Of(st, s);
    var x := c.produced;
    var st1 := Put(st, s, c.(phase := TimedOut));
    TimedOutSettles(st, s);
    SettlesInv(st, st1);
    OwnerHeirs(st, s);
    ExpireOwner(st, s, st1);
    WalkSurvives(st1, st1.active, x);
    hide Inv, Of;
    forall u ensures Of(st1, u) == if u == s then c.(phase := TimedOut) else Of(st, u) {
      OfPut(st, s, c.(phase := TimedOut), u);
    }
    PerilSame(st, st1, st1.active, x);
  }

  lemma ExpireMasterOwner(st: Stack, s: Slot)
    requires Inv(st) && s in st.active && Of(st, s).phase == Established
    requires Of(st, s).kind == ExclusiveOwner && Masters(Of(st, s))
    ensures Expire(st, s).Some?
  {
    var c := Of(st, s);
    var x := c.produced;
    var st1 := Put(st, s, c.(phase := TimedOut));
    if NextMaster(st1, st1.active, x).None? {
      hide Expire, CloseSame, Settles, Peril;
      TimedOutSettles(st, s);
      SettlesInv(st, st1);
      OfPut(st, s, c.(phase := TimedOut), s);
      hide Of;
      var st2 := PassOn(st1, s, x);
      PassOnSettles(st1, s);
      SettlesInv(st1, st2);
      NoHeirFacts(st1, x);
      NobodyElseSends(st1, s, st2);
      ExpireOwner(st, s, st2);
      WalkSurvives(st2, st2.active, x);
    }
  }

  /** Without an heir to the one sender, nobody is in danger. */
  lemma NobodyElseSends(st: Stack, s: Slot, st2: Stack)
    requires Inv(st) && s in st.active && Of(st, s).kind == ExclusiveOwner && Masters(Of(st, s))
    requires NextMaster(st, st.active, Of(st, s).produced).None? && st2 == PassOn(st, s, Of(st, s).produced)
    ensures HeirsAhead(st2, st2.active, Of(st, s).produced) && !Peril(st2, st2.active, Of(st, s).produced)
  {
    var x := Of(st, s).produced;
    NoHeirFacts(st, x);
    SweepExact(st, st.active, x);
    hide Of, NextMaster, Sweep, Sub, NoDup, OwnersLead, Placed, Followed;
    forall u | u in st2.active ensures !Heir(st2, u, x) && !(Carrier(st2, u, x) && Of(st2, u).sending) {
      assert u in st.active && Of(st2, u) == Of(st, u);
      assert !Heir(st, u, x);
      assert Sends(Of(st, u)) && Of(st, u).produced == x ==> u == s;
    }
  }

  /** A time-out of an established connection loses its walk exactly when the
      connection is an exclusive owner that does not itself produce multicast data,
      while an input-only connection of the same input does and the last of these
      in the list stands right before a listen-only connection. */
  lemma TimeOutLostIff(st: Stack, s: Slot)
    requires Inv(st) && s in st.active && Of(st, s).phase == Established
    ensures Expire(st, s).None? <==>
            && Of(st, s).kind == ExclusiveOwner && !Masters(Of(st, s)) && Peril(st, st.active, Of(st, s).produced)
  {
    if Of(st, s).kind == ExclusiveOwner {
      if Masters(Of(st, s)) { ExpireMasterOwner(st, s); } else { ExpireSimpleOwner(st, s); }
    } else {
      hide Peril, PassOn, Inv;
    }
  }
}
