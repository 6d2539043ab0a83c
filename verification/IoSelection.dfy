/** Which slot a request gets, when it gets none, and why: the search for a slot
    measured against the connections that exist. */
module IoSelection {
  import opened Words
  import opened IoConnections
  import opened IoSafety

  // ----- connection points --------------------------------------------------

  /** The search for an owner point finds the first point that matches. */
  lemma {:induction false} FirstMatchExact(points: seq<Point>, r: Request, i: nat)
    requires i <= |points|
    ensures var f := FirstMatch(points, r, i);
            && (f.Some? ==> i <= f.value < |points| && Matches(points[f.value], r)
                            && forall j :: i <= j < f.value ==> !Matches(points[j], r))
            && (f.None? ==> forall j :: i <= j < |points| ==> !Matches(points[j], r))
    decreases |points| - i
  {
    if i < |points| && !Matches(points[i], r) { FirstMatchExact(points, r, i + 1); }
  }

  /** The last point, from `i` on, with the output assembly asked for. */
  function LastNear(points: seq<Point>, r: Request, i: nat): (f: Option<nat>)
    requires i <= |points|
    ensures f.Some? ==> i <= f.value < |points| && points[f.value].output == r.consumed
    ensures f.Some? ==> forall j :: f.value < j < |points| ==> points[j].output != r.consumed
    ensures f.None? ==> forall j :: i <= j < |points| ==> points[j].output != r.consumed
    decreases |points| - i
  {
    if i == |points| then None
    else
      var later := LastNear(points, r, i + 1);
      if later.Some? then later else if points[i].output == r.consumed then Some(i) else None
  }

  /** What is wrong with a point of the right output assembly. */
  function Complaint(p: Point, r: Request): u16 {
    if p.input != r.produced then INVALID_PRODUCING_PATH else INCONSISTENT_PATHS
  }

  /** The search for an input-only or listen-only point finds the first point that
      matches. If there is none, the error is 0 exactly when no point has the
      output assembly asked for, and otherwise tells what is wrong with the last that has. */
  lemma {:induction false} FindPointExact(points: seq<Point>, r: Request, i: nat, error: u16)
    requires i <= |points|
    ensures match FindPoint(points, r, i, error)
            case Hit(k) => i <= k < |points| && Matches(points[k], r) &&
                forall j :: i <= j < k ==> !Matches(points[j], r)
            case Miss(e) =>
              && (forall j :: i <= j < |points| ==> !Matches(points[j], r))
              && (var near := LastNear(points, r, i);
                  e == if near.Some? then Complaint(points[near.value], r) else error)
    decreases |points| - i
  {
    if i < |points| {
      if points[i].output != r.consumed {
        FindPointExact(points, r, i + 1, error);
      } else if !Matches(points[i], r) {
        FindPointExact(points, r, i + 1, Complaint(points[i], r));
      }
    }
  }

  // ----- any state ----------------------------------------------------------

  /** Among the slots of a point, one that timed out on the same originator comes
      first, then one that does not exist; without either there is none to give. */
  lemma RowExact(st: Stack, row: seq<Slot>, r: Request)
    ensures match RowSearch(st, row, r)
            case Granted(s, st') =>
              s in row && ((Stale(st, s, r) && st' == CloseIo(st, s)) ||
                           (Unused(st, s) && st' == st && forall t :: t in row ==> !Stale(st, t, r)))
            case Refused(e) => e == OUT_OF_CONNECTIONS && forall t :: t in row ==> !Stale(st, t, r) && !Unused(st, t)
            case Crash => exists t :: t in row && Stale(st, t, r) && !Of(st, t).closable
  {
    hide Of, CloseIo, Stale, Unused;
  }

  /** A refusal carries an error, so there is a slot exactly when there is no error. */
  lemma RefusedHasError(st: Stack, r: Request)
    ensures Select(st, r).Refused? ==> Select(st, r).error != 0
  {}

  function KindOf(s: Slot): Kind {
    match s
    case Owner(_) => ExclusiveOwner
    case Input(_, _) => InputOnly
    case Listen(_, _) => ListenOnly
    case Explicit(_) => ExplicitMessaging
  }

  /** The point an I/O slot belongs to. */
  predicate SlotOn(cfg: Config, s: Slot, r: Request) {
    match s
    case Owner(i) => i < |cfg.owners| && Matches(cfg.owners[i], r)
    case Input(i, k) => i < |cfg.inputs| && k < cfg.perInput && Matches(cfg.inputs[i], r)
    case Listen(i, k) => i < |cfg.listens| && k < cfg.perListen && Matches(cfg.listens[i], r)
    case Explicit(_) => false
  }

  lemma OwnerSlot(st: Stack, r: Request)
    ensures var o := OwnerSearch(st, r);
            o.Granted? ==> o.slot.Owner? && SlotOn(st.cfg, o.slot, r)
  {
    FirstMatchExact(st.cfg.owners, r, 0);
    hide FirstMatch, CloseIo, ConnectedOwner;
  }

  lemma InputSlot(st: Stack, r: Request)
    ensures var o := InputSearch(st, r);
            o.Granted? ==> o.slot.Input? && SlotOn(st.cfg, o.slot, r) && (Stale(st, o.slot, r) || Unused(st, o.slot))
  {
    FindPointExact(st.cfg.inputs, r, 0, 0);
    hide FindPoint, RowSearch, Stale, Unused, Matches;
    match FindPoint(st.cfg.inputs, r, 0, 0)
    case Miss(_) =>
    case Hit(i) => RowExact(st, InputRow(st.cfg, i), r);
  }

  lemma ListenSlot(st: Stack, r: Request)
    ensures var o := ListenSearch(st, r);
            o.Granted? ==>
              && o.slot.Listen? && SlotOn(st.cfg, o.slot, r) && (Stale(st, o.slot, r) || Unused(st, o.slot))
              && exists p :: p in st.active && Produces(st, p, false, r.produced)
  {
    FindPointExact(st.cfg.listens, r, 0, 0);
    hide FindPoint, RowSearch, Stale, Unused, Matches, Produces;
    match FindPoint(st.cfg.listens, r, 0, 0)
    case Miss(_) =>
    case Hit(i) => RowExact(st, ListenRow(st.cfg, i), r);
  }

  /** The outcome comes from one of the three searches. */
  lemma SelectCases(st: Stack, r: Request)
    ensures var o := Select(st, r);
            || (OwnerSearch(st, r) != Refused(0) && o == Filled(OwnerSearch(st, r), r, ExclusiveOwner))
            || (OwnerSearch(st, r) == Refused(0) && InputSearch(st, r) != Refused(0)
                && o == Filled(InputSearch(st, r), r, InputOnly))
            || (OwnerSearch(st, r) == Refused(0) && InputSearch(st, r) == Refused(0)
                && ListenSearch(st, r) != Refused(0)
                && o == Filled(ListenSearch(st, r), r, ListenOnly))
            || (OwnerSearch(st, r) == Refused(0) && InputSearch(st, r) == Refused(0)
                && ListenSearch(st, r) == Refused(0)
                && o == Refused(INCONSISTENT_PATHS))
  {}

  /** In any state whatsoever: the slot handed out belongs to a point that matches
      the request and holds a copy of it; an input-only or listen-only slot was
      not in use, or timed out on the same originator; and listen-only needs an
      active I/O connection that produces the input on a valid socket. */
  lemma GrantedSlot(st: Stack, r: Request)
    requires Select(st, r).Granted?
    ensures var Granted(s, st') := Select(st, r);
            && SlotOn(st.cfg, s, r) && Of(st', s) == Copied(r, KindOf(s))
            && (var c := Of(st', s);
                && c.phase == NonExistent && c.kind == KindOf(s) && c.consumed == r.consumed && c.produced == r.produced
                && c.config == r.config && c.originator == r.originator && c.flow == r.flow && !c.closable)
            && (!s.Owner? ==> Unused(st, s) || Stale(st, s, r))
            && (s.Listen? ==> exists p :: p in st.active && Produces(st, p, false, r.produced))
  {
    hide Select, OwnerSearch, InputSearch, ListenSearch, SlotOn, Stale, Unused, Produces;
    SelectCases(st, r);
    OwnerSlot(st, r);
    InputSlot(st, r);
    ListenSlot(st, r);
  }

  // ----- reachable states ---------------------------------------------------

  /** An established owner of an input is the one the search for an owner meets. */
  lemma {:induction false} LeadFound(st: Stack, list: seq<Slot>, x: nat, e: Slot)
    requires OwnersLead(st, list) && e in list && Owns(st, e, x) && Of(st, e).phase == Established
    ensures ConnectedOwner(st, list, x) == Some(e)
  {
    var h := list[0];
    if h != e {
      assert e in list[1..];
      assert Owns(st, h, x) ==> Rivals(Of(st, h), Of(st, e));
      LeadFound(st, list[1..], x, e);
    }
  }

  predicate Owned(st: Stack, x: nat) {
    exists e :: e in st.active && Owns(st, e, x) && Of(st, e).phase == Established
  }

  predicate Haunted(st: Stack, x: nat) {
    exists e :: e in st.active && Owns(st, e, x) && Of(st, e).phase == TimedOut
  }

  lemma OwnerSearchExact(st: Stack, r: Request, i: nat)
    requires Inv(st) && FirstMatch(st.cfg.owners, r, 0) == Some(i)
    ensures OwnerSearch(st, r) ==
            if Owned(st, r.produced) then Refused(OWNERSHIP_CONFLICT)
            else if !Haunted(st, r.produced) then Granted(Owner(i), st)
            else CloseAndGrant(st, Owner(i))
  {
    hide FirstMatch, CloseIo, NoDup, OneSender, Placed, Listed;
    var x := r.produced;
    var o := ConnectedOwner(st, st.active, x);
    if Owned(st, x) {
      var e :| e in st.active && Owns(st, e, x) && Of(st, e).phase == Established;
      LeadFound(st, st.active, x, e);
    } else if o.Some? {
      assert Owns(st, o.value, x) && o.value in st.active;
    }
  }

  /** For a request that matches an exclusive-owner point, in every reachable state:
      it is refused for a conflict exactly when the input assembly has an
      established owner, it calls a missing close function exactly when only
      timed-out owners of that input are left and the point's own slot was never
      set up or has been emptied, and otherwise it gets the slot of the first point that matches. */
  lemma OwnerDecision(st: Stack, r: Request, i: nat)
    requires Inv(st) && FirstMatch(st.cfg.owners, r, 0) == Some(i)
    ensures var o := Select(st, r);
            && (o == Refused(OWNERSHIP_CONFLICT) <==> Owned(st, r.produced))
            && (o == Crash <==> !Owned(st, r.produced) && Haunted(st, r.produced) && !Of(st, Owner(i)).closable)
            && (o.Granted? <==> !Owned(st, r.produced) && (Haunted(st, r.produced) ==> Of(st, Owner(i)).closable))
            && (o.Granted? ==> o.slot == Owner(i))
  {
    OwnerSearchExact(st, r, i);
    hide OwnerSearch, InputSearch, ListenSearch, CloseIo, Owned, Haunted, Inv, FirstMatch, Of;
  }

  lemma RowNoCrash(st: Stack, row: seq<Slot>, r: Request)
    requires Inv(st)
    ensures !RowSearch(st, row, r).Crash?
  {
    RowExact(st, row, r);
    hide RowSearch;
  }

  predicate DistinctInputs(points: seq<Point>) {
    forall i, j :: 0 <= i < |points| && 0 <= j < |points| && i != j ==> points[i].input != points[j].input
  }

  lemma SelectCrashes(st: Stack, r: Request)
    requires Inv(st)
    ensures Select(st, r).Crash? ==>
              exists i :: FirstMatch(st.cfg.owners, r, 0) == Some(i) && Haunted(st, r.produced)
                && !Of(st, Owner(i)).closable
  {
    var f := FirstMatch(st.cfg.owners, r, 0);
    if f.Some? {
      OwnerDecision(st, r, f.value);
    } else {
      hide Inv, RowSearch, FindPoint, FirstMatch, Producer;
      match FindPoint(st.cfg.inputs, r, 0, 0) { case Miss(_) => case Hit(i) => RowNoCrash(st, InputRow(st.cfg, i), r); }
      match FindPoint(st.cfg.listens, r, 0, 0) {
        case Miss(_) =>
        case Hit(i) => RowNoCrash(st, ListenRow(st.cfg, i), r);
      }
    }
  }

  lemma HauntedByItself(st: Stack, i: nat)
    requires Inv(st) && DistinctInputs(st.cfg.owners) && i < |st.cfg.owners| && Haunted(st, st.cfg.owners[i].input)
    ensures Of(st, Owner(i)).closable
  {
    hide NoDup, OwnersLead, OneSender;
    var e :| e in st.active && Owns(st, e, st.cfg.owners[i].input) && Of(st, e).phase == TimedOut;
    assert Placed(st.cfg, e, Of(st, e));
  }

  /** With a different input assembly for each owner point, no search for a slot
      ever calls a missing close function. */
  lemma DistinctNeverCrashes(st: Stack, r: Request)
    requires Inv(st) && DistinctInputs(st.cfg.owners)
    ensures !Select(st, r).Crash?
  {
    SelectCrashes(st, r);
    FirstMatchExact(st.cfg.owners, r, 0);
    hide Select, FirstMatch, Inv, Haunted;
    var f := FirstMatch(st.cfg.owners, r, 0);
    if f.Some? && Haunted(st, r.produced) { HauntedByItself(st, f.value); }
  }

  lemma EstablishedOwns(st: Stack, s: Slot, r: Request)
    requires Inv(st) && s.Owner? && SlotOn(st.cfg, s, r)
    ensures Of(st, s).phase == Established ==> Owned(st, r.produced)
  {
    hide NoDup, OwnersLead, OneSender;
    if Of(st, s).phase == Established {
      assert s in st.active && Placed(st.cfg, s, Of(st, s));
      assert Owns(st, s, r.produced);
    }
  }

  /** In a reachable state no slot handed out is established. */
  lemma GrantedNotEstablished(st: Stack, r: Request)
    requires Inv(st) && Select(st, r).Granted?
    ensures Of(st, Select(st, r).slot).phase != Established
  {
    GrantedSlot(st, r);
    var s := Select(st, r).slot;
    var f := FirstMatch(st.cfg.owners, r, 0);
    if f.Some? {
      OwnerDecision(st, r, f.value);
      EstablishedOwns(st, s, r);
    } else {
      NoOwnerSlot(st, r);
    }
  }

  lemma NoOwnerSlot(st: Stack, r: Request)
    requires FirstMatch(st.cfg.owners, r, 0).None? && Select(st, r).Granted?
    ensures !Select(st, r).slot.Owner?
  {
    hide FirstMatch, InputSearch, ListenSearch;
    SelectCases(st, r);
    InputSlot(st, r);
    ListenSlot(st, r);
  }
}
