/** Which connection object a request without an owner point gets, told from the
    configured points, the active connections and the objects of a point. */
module IoDecisions {
  import opened Words
  import opened IoConnections
  import opened IoSafety
  import opened IoSelection
  import opened IoClosing

  /** The request names the point's assemblies, or leaves its configuration assembly open. */
  predicate AsksFor(r: Request, p: Point) {
    r.consumed == p.output && r.produced == p.input && (r.config == 0 || r.config == p.config)
  }

  predicate NoneMatches(points: seq<Point>, r: Request) {
    forall j :: 0 <= j < |points| ==> !AsksFor(r, points[j])
  }

  predicate FirstMatching(points: seq<Point>, r: Request, i: nat) {
    i < |points| && AsksFor(r, points[i]) && forall j :: 0 <= j < i ==> !AsksFor(r, points[j])
  }

  lemma AsksForIff(r: Request, p: Point)
    ensures AsksFor(r, p) <==> Matches(p, r)
  {}

  lemma AllAskFor(points: seq<Point>, r: Request)
    ensures forall j :: 0 <= j < |points| ==> (AsksFor(r, points[j]) <==> Matches(points[j], r))
  {
    forall j | 0 <= j < |points| ensures AsksFor(r, points[j]) <==> Matches(points[j], r) { AsksForIff(r, points[j]); }
  }

  predicate NoneWithOutput(points: seq<Point>, r: Request) {
    forall j :: 0 <= j < |points| ==> points[j].output != r.consumed
  }

  lemma OwnerPassed(st: Stack, r: Request)
    requires NoneMatches(st.cfg.owners, r)
    ensures OwnerSearch(st, r) == Refused(0)
  {
    FirstMatchExact(st.cfg.owners, r, 0);
    AllAskFor(st.cfg.owners, r);
    hide FirstMatch, Matches, AsksFor;
  }

  lemma PointFound(points: seq<Point>, r: Request, i: nat)
    requires FirstMatching(points, r, i)
    ensures FindPoint(points, r, 0, 0) == Hit(i)
  {
    FindPointExact(points, r, 0, 0);
    AllAskFor(points, r);
    hide FindPoint, Matches, AsksFor;
  }

  lemma PointPassed(points: seq<Point>, r: Request)
    requires NoneWithOutput(points, r)
    ensures FindPoint(points, r, 0, 0) == Miss(0)
  {
    FindPointExact(points, r, 0, 0);
    hide FindPoint;
    var near := LastNear(points, r, 0);
  }

  // ----- the objects of a point ---------------------------------------------

  /** The connection timed out on the originator of the request. */
  predicate Reusable(c: Conn, r: Request) { c.phase == TimedOut && c.originator == r.originator }

  /** The slot that is handed out: the first reusable one or, without any, the first unused one. */
  predicate Picked(st: Stack, slot: nat -> Slot, n: nat, r: Request, k: nat) {
    && k < n
    && (|| (Reusable(Of(st, slot(k)), r) && forall j :: 0 <= j < k ==> !Reusable(Of(st, slot(j)), r))
        || (&& Of(st, slot(k)).phase == NonExistent && (forall j :: 0 <= j < n ==> !Reusable(Of(st, slot(j)), r))
            && forall j :: 0 <= j < k ==> Of(st, slot(j)).phase != NonExistent))
  }

  /** Some object of the point can be had. */
  predicate Available(st: Stack, slot: nat -> Slot, n: nat, r: Request) {
    exists k :: 0 <= k < n && (Of(st, slot(k)).phase == NonExistent || Reusable(Of(st, slot(k)), r))
  }

  lemma RowDecision(st: Stack, row: seq<Slot>, slot: nat -> Slot, n: nat, r: Request)
    requires Inv(st) && |row| == n && forall k :: 0 <= k < n ==> row[k] == slot(k)
    ensures var o := RowSearch(st, row, r);
            && (o.Granted? <==> Available(st, slot, n, r))
            && (o == Refused(0x011A) <==> !Available(st, slot, n, r))
            && (o.Granted? ==> exists k :: Picked(st, slot, n, r, k) && o.slot == slot(k))
  {
    hide Inv, CloseIo, Of;
    RowNoCrash(st, row, r);
    var stale := Find(row, s => Stale(st, s, r));
    var free := Find(row, s => Unused(st, s));
    FindFirst(row, s => Stale(st, s, r));
    FindFirst(row, s => Unused(st, s));
    hide Find;
    assert forall k :: 0 <= k < n ==> row[k] in row;
    if stale.Some? {
      var k: nat :| k < n && row[k] == stale.value && forall j :: 0 <= j < k ==> !Stale(st, row[j], r);
      assert Picked(st, slot, n, r, k);
    } else if free.Some? {
      var k: nat :| k < n && row[k] == free.value && forall j :: 0 <= j < k ==> !Unused(st, row[j]);
      assert Picked(st, slot, n, r, k);
    }
  }

  // ----- the decisions ------------------------------------------------------

  /** An exclusive owner of the input in that phase is in the list. */
  predicate HasOwner(st: Stack, x: nat, phase: Phase) {
    exists e :: && e in st.active && Of(st, e).kind == ExclusiveOwner && Of(st, e).produced == x
                && Of(st, e).phase == phase
  }

  /** `i` is the first owner point that matches: the request is refused for a conflict exactly when
      its input has an established owner; with only timed-out ones the point's own connection is
      closed first, which takes an installed close function; otherwise the point's slot is free. */
  lemma OwnerPointDecision(st: Stack, r: Request, i: nat)
    requires Inv(st) && FirstMatching(st.cfg.owners, r, i)
    ensures var o, x := Select(st, r), r.produced;
            && (o == Refused(0x0106) <==> HasOwner(st, x, Established))
            && (o == Crash <==> && !HasOwner(st, x, Established) && HasOwner(st, x, TimedOut)
                                && !Of(st, Owner(i)).closable)
            && (o.Granted? <==> && !HasOwner(st, x, Established)
                                && (HasOwner(st, x, TimedOut) ==> Of(st, Owner(i)).closable))
            && (o.Granted? ==> o.slot == Owner(i))
  {
    FirstMatchExact(st.cfg.owners, r, 0);
    AllAskFor(st.cfg.owners, r);
    hide FirstMatch, Matches, AsksFor, Select, Inv;
    OwnerDecision(st, r, i);
    hide Of;
    if Owned(st, r.produced) {
      var e :| e in st.active && Owns(st, e, r.produced) && Of(st, e).phase == Established;
      assert HasOwner(st, r.produced, Established);
    }
    if Haunted(st, r.produced) {
      var e :| e in st.active && Owns(st, e, r.produced) && Of(st, e).phase == TimedOut;
      assert HasOwner(st, r.produced, TimedOut);
    }
    if HasOwner(st, r.produced, Established) {
      var e :| e in st.active && Of(st, e).kind == ExclusiveOwner && Of(st, e).produced == r.produced
               && Of(st, e).phase == Established;
      assert Owns(st, e, r.produced);
    }
    if HasOwner(st, r.produced, TimedOut) {
      var e :| e in st.active && Of(st, e).kind == ExclusiveOwner && Of(st, e).produced == r.produced
               && Of(st, e).phase == TimedOut;
      assert Owns(st, e, r.produced);
    }
  }

  /** No owner point matches, and `i` is the first input-only point that does: the request gets
      the first stale or else the first unused of the point's connection objects, and is refused
      as out of connections exactly when there is none. */
  lemma InputDecision(st: Stack, r: Request, i: nat)
    requires Inv(st) && NoneMatches(st.cfg.owners, r) && FirstMatching(st.cfg.inputs, r, i)
    ensures var o, slot, n := Select(st, r), (k: nat) => Input(i, k), st.cfg.perInput;
            && (o.Granted? <==> Available(st, slot, n, r))
            && (o == Refused(0x011A) <==> !Available(st, slot, n, r))
            && (o.Granted? ==> exists k :: Picked(st, slot, n, r, k) && o.slot == Input(i, k))
  {
    var slot, row := (k: nat) => Input(i, k), InputRow(st.cfg, i);
    assert |row| == st.cfg.perInput && forall k :: 0 <= k < |row| ==> row[k] == slot(k);
    hide Inv, RowSearch, FindPoint, OwnerSearch, ListenSearch, Available, Picked, InputRow;
    OwnerPassed(st, r);
    PointFound(st.cfg.inputs, r, i);
    RowDecision(st, row, slot, st.cfg.perInput, r);
  }

  /** An active I/O connection sends the input on a valid socket. */
  predicate Produced(st: Stack, x: nat) {
    exists p :: && p in st.active && Of(st, p).kind != ExplicitMessaging && Of(st, p).produced == x
                && Of(st, p).sending && Of(st, p).flow != NoFlow
  }

  /** No owner point matches, no input-only point has the output assembly, and `i` is the first
      listen-only point that matches: the request is refused for want of a producer exactly
      when no active connection produces the input; otherwise it gets the first stale or else the
      first unused of the point's connection objects, and is refused as out of connections
      exactly when there is none. */
  lemma ListenDecision(st: Stack, r: Request, i: nat)
    requires Inv(st) && NoneMatches(st.cfg.owners, r) && NoneWithOutput(st.cfg.inputs, r)
    requires FirstMatching(st.cfg.listens, r, i)
    ensures var o, slot, n := Select(st, r), (k: nat) => Listen(i, k), st.cfg.perListen;
            && (o == Refused(0x0119) <==> !Produced(st, r.produced))
            && (o.Granted? <==> Produced(st, r.produced) && Available(st, slot, n, r))
            && (o == Refused(0x011A) <==> Produced(st, r.produced) && !Available(st, slot, n, r))
            && (o.Granted? ==> exists k :: Picked(st, slot, n, r, k) && o.slot == Listen(i, k))
  {
    var slot, row := (k: nat) => Listen(i, k), ListenRow(st.cfg, i);
    assert |row| == st.cfg.perListen && forall k :: 0 <= k < |row| ==> row[k] == slot(k);
    ProducerIff(st, r.produced);
    hide Inv, RowSearch, FindPoint, OwnerSearch, Available, Picked, ListenRow, Producer, Produced;
    OwnerPassed(st, r);
    PointPassed(st.cfg.inputs, r);
    PointFound(st.cfg.listens, r, i);
    RowDecision(st, row, slot, st.cfg.perListen, r);
  }

  lemma ProducerIff(st: Stack, x: nat)
    ensures Producer(st, st.active, false, x).Some? <==> Produced(st, x)
  {
    var p := Producer(st, st.active, false, x);
    hide Of;
    if p.None? {
      forall s | s in st.active ensures !Produces(st, s, false, x) {}
    } else {
      assert Produces(st, p.value, false, x);
    }
  }

  /** Neither owner nor input-only point matches, but an input-only point has the output assembly:
      the request is refused for what is wrong with the last of these, and listen-only points
      are not looked at. */
  lemma InputMiss(st: Stack, r: Request, j: nat)
    requires NoneMatches(st.cfg.owners, r) && NoneMatches(st.cfg.inputs, r)
    requires LastNear(st.cfg.inputs, r, 0) == Some(j)
    ensures Select(st, r) == Refused(if st.cfg.inputs[j].input != r.produced then 0x012B else 0x012F)
  {
    hide FirstMatch, FindPoint, Matches, OwnerSearch, ListenSearch, LastNear;
    OwnerPassed(st, r);
    AllAskFor(st.cfg.inputs, r);
    FindPointExact(st.cfg.inputs, r, 0, 0);
  }

  /** Nothing matches and no input-only point has the output assembly: the last listen-only point
      that has it gives the reason, and without one the paths are inconsistent. */
  lemma ListenMiss(st: Stack, r: Request)
    requires NoneMatches(st.cfg.owners, r) && NoneWithOutput(st.cfg.inputs, r) && NoneMatches(st.cfg.listens, r)
    ensures var near := LastNear(st.cfg.listens, r, 0);
            Select(st, r) ==
              Refused(if near.Some? && st.cfg.listens[near.value].input != r.produced then 0x012B else 0x012F)
  {
    hide FirstMatch, FindPoint, Matches, OwnerSearch, LastNear;
    OwnerPassed(st, r);
    PointPassed(st.cfg.inputs, r);
    AllAskFor(st.cfg.listens, r);
    FindPointExact(st.cfg.listens, r, 0, 0);
  }
}
