/** The default interface over whole runs: without a manual choice it is always
    a registered interface that is up and has the highest priority among the
    reported ones; a manual choice stands until its interface is destroyed. */
module NetifRoute {
  import opened Words
  import opened Netif

  /** Registered, up, and of at least the priority of every interface in `among` that is registered and up. */
  predicate Leads(list: seq<Id>, ifs: map<Id, Interface>, d: Id, among: set<Id>) {
    && d in list && IsUp(ifs, d)
    && forall j :: j in among && j in list && IsUp(ifs, j) ==> Prio(ifs, j) <= Prio(ifs, d)
  }

  predicate NoneUp(list: seq<Id>, ifs: map<Id, Interface>, among: set<Id>) {
    forall j :: j in among && j in list ==> !IsUp(ifs, j)
  }

  /** `d` is the leader among `among`, or there is none because none of them is up. */
  predicate Chosen(list: seq<Id>, ifs: map<Id, Interface>, d: Option<Id>, among: set<Id>) {
    if d.Some? then Leads(list, ifs, d.value, among) else NoneUp(list, ifs, among)
  }

  predicate DefaultOk(s: Stack, among: set<Id>) { Chosen(s.list, s.ifs, s.last, among) }

  function All(s: Stack): set<Id> { set j | j in s.list }

  /** The invariant of every run: a manual choice is a registered interface, and
      without one the default leads the reported interfaces, which are up. */
  ghost predicate Inv(s: Stack) {
    && Wf(s) && (forall j :: j in s.announced ==> IsUp(s.ifs, j))
    && (if s.overridden then s.last.Some? else DefaultOk(s, s.announced))
  }

  // ----- the scan -----------------------------------------------------------

  predicate BestSoFar(list: seq<Id>, ifs: map<Id, Interface>, k: nat, best: Option<Id>)
    requires k <= |list|
  {
    if best.Some? then
      && best.value in list && IsUp(ifs, best.value)
      && forall j :: 0 <= j < k && IsUp(ifs, list[j]) ==> Prio(ifs, list[j]) <= Prio(ifs, best.value)
    else forall j :: 0 <= j < k ==> !IsUp(ifs, list[j])
  }

  lemma {:induction false} ScanBest(list: seq<Id>, ifs: map<Id, Interface>, k: nat, best: Option<Id>)
    requires k <= |list| && BestSoFar(list, ifs, k, best)
    ensures BestSoFar(list, ifs, |list|, Scan(list, ifs, k, best))
    decreases |list| - k
  {
    if k < |list| {
      assert BestSoFar(list, ifs, k + 1, Better(ifs, best, list[k]));
      ScanBest(list, ifs, k + 1, Better(ifs, best, list[k]));
    }
  }

  /** A scan finds the leader, whatever interfaces it is compared with. */
  lemma ScanLeads(list: seq<Id>, ifs: map<Id, Interface>, among: set<Id>)
    ensures Chosen(list, ifs, Scan(list, ifs, 0, None), among)
  {
    ScanBest(list, ifs, 0, None);
    var best := Scan(list, ifs, 0, None);
    hide Scan, IsUp, Prio;
    forall j | j in among && j in list ensures IsUp(ifs, j) ==> best.Some? && Prio(ifs, j) <= Prio(ifs, best.value) {
      var k :| 0 <= k < |list| && list[k] == j;
    }
  }

  // ----- one update ---------------------------------------------------------

  /** An update keeps the invariant, and a report makes the interface count. */
  lemma UpdateInv(s: Stack, i: Id, action: Action)
    requires Inv(s) && i in s.list
    ensures Inv(Update(s, i, action))
  {
    if !(s.overridden && action != SetDefault) {
      match action
      case SetDefault =>
      case NetifStarted | NetifGotIp =>
      case NetifStopped | NetifLostIp => ScanLeads(s.list, s.ifs, s.announced);
    }
  }

  /** After a stop or the loss of an address the default leads all registered
      interfaces, whatever it was before. */
  lemma UpdateScans(s: Stack, i: Id, action: Action)
    requires !s.overridden || Active(s, s.last).None?
    requires action == NetifStopped || action == NetifLostIp
    ensures var t := Update(s, i, action); !t.overridden && DefaultOk(t, All(t))
  {
    ScanLeads(s.list, s.ifs, All(s));
  }

  /** A manual choice whose interface is still registered stands against every automatic update. */
  lemma OverrideHolds(s: Stack, i: Id, action: Action)
    requires s.overridden && s.last.Some? && s.last.value in s.list && action != SetDefault
    ensures Update(s, i, action) == Reported(s, i, action)
  {}

  // ----- address changes do not disturb the choice --------------------------

  /** The same list, up/down states, priorities and choice. */
  ghost predicate SameRoutes(s: Stack, t: Stack) {
    && t.list == s.list && t.ifs.Keys == s.ifs.Keys && t.last == s.last && t.overridden == s.overridden
    && t.announced == s.announced
    && forall i :: i in s.ifs ==> t.ifs[i].up == s.ifs[i].up && t.ifs[i].cfg == s.ifs[i].cfg
  }

  lemma SameRoutesInv(s: Stack, t: Stack)
    requires Inv(s) && SameRoutes(s, t)
    ensures Inv(t)
  {
    assert forall i :: IsUp(t.ifs, i) == IsUp(s.ifs, i) && Prio(t.ifs, i) == Prio(s.ifs, i);
  }

  /** Changing a record without touching its flag and configuration. */
  lemma WithInv(s: Stack, i: Id, f: Interface)
    requires Inv(s) && i in s.ifs && f.up == s.ifs[i].up && f.cfg == s.ifs[i].cfg
    ensures Inv(With(s, i, f))
  {
    SameRoutesInv(s, With(s, i, f));
  }

  lemma LogInv(s: Stack, log: seq<Note>)
    requires Inv(s)
    ensures Inv(s.(log := log))
  {
    SameRoutesInv(s, s.(log := log));
  }

  lemma AnnounceInv(s: Stack, i: Id, ip: IpInfo)
    requires Inv(s) && i in s.ifs
    ensures Inv(Announce(s, i, ip))
  {
    hide Inv;
    var s1 := With(s, i, s.ifs[i].(announcedIp := ip));
    WithInv(s, i, s.ifs[i].(announcedIp := ip));
    LogInv(s1, s.log + [GotIp(i, ip, ip != s.ifs[i].announcedIp)]);
  }

  lemma CallbackInv(s: Stack, i: Id)
    requires Inv(s) && i in s.ifs
    ensures Inv(AddressCallback(s, i))
  {
    hide Inv, Update, Announce;
    var f := s.ifs[i];
    if f.lwip.ip != 0 {
      if f.lwip != f.info {
        var s1 := With(s, i, f.(info := f.lwip));
        WithInv(s, i, f.(info := f.lwip));
        InList(s1, i);
        UpdateInv(s1, i, NetifGotIp);
        AnnounceInv(Update(s1, i, NetifGotIp), i, f.lwip);
      }
    } else if f.info.ip != 0 {
      var s1 := StartLostTimer(s, i);
      WithInv(s, i, f.(timerRunning := true));
      WithInv(s1, i, s1.ifs[i].(info := ZERO));
    }
  }

  lemma InList(s: Stack, i: Id)
    requires Inv(s) && i in s.ifs
    ensures i in s.list
  {}

  lemma SetAddrInv(s: Stack, i: Id, ip: IpInfo)
    requires Inv(s) && i in s.ifs
    ensures Inv(SetAddr(s, i, ip))
  {
    hide Inv;
    hide AddressCallback;
    WithInv(s, i, s.ifs[i].(lwip := ip));
    CallbackInv(With(s, i, s.ifs[i].(lwip := ip)), i);
  }

  lemma ResetClientInv(s: Stack, i: Id, supplied: bool)
    requires Inv(s) && i in s.ifs
    ensures Inv(ResetClient(s, i, supplied))
  {
    hide Inv, SetAddr;
    SetAddrInv(s, i, ZERO);
    var s1 := DhcpStop(s, i, supplied);
    WithInv(s1, i, s1.ifs[i].(dhcpc := DhcpInit, info := ZERO));
  }

  /** An interface going down is followed by a scan. */
  lemma TakeDownInv(s: Stack, i: Id)
    requires Inv(s) && i in s.ifs
    ensures var t := Update(TakeDown(s, i), i, NetifStopped);
            Inv(t) && (if s.overridden then t.last == s.last else DefaultOk(t, All(t)))
  {
    var u := TakeDown(s, i);
    assert Wf(u);
    if s.overridden {
      OverrideHolds(u, i, NetifStopped);
    } else {
      ScanLeads(u.list, u.ifs, u.announced);
      UpdateScans(u, i, NetifStopped);
    }
  }

  // ----- the API calls ------------------------------------------------------

  lemma NewInv(s: Stack, i: Id, c: NetifConfig)
    requires Inv(s)
    ensures Inv(New(s, i, c))
  {
    var t := New(s, i, c);
    if t != s {
      assert forall j :: j in s.ifs ==> t.ifs[j] == s.ifs[j];
      assert forall j :: j in t.list <==> j == i || j in s.list;
      assert forall j :: j in s.list ==> IsUp(t.ifs, j) == IsUp(s.ifs, j) && Prio(t.ifs, j) == Prio(s.ifs, j);
      assert !IsUp(t.ifs, i);
    }
  }

  /** Starting the default interface again without its auto-up flag takes it
      down without a new choice; every other start is harmless. */
  predicate StartOk(s: Stack, i: Id)
    requires i in s.ifs
  {
    s.overridden || s.last != Some(i) || s.ifs[i].cfg.autoUp
  }

  function Added(s: Stack, i: Id): Stack
    requires i in s.ifs
  {
    var f := s.ifs[i];
    With(s, i, f.(up := f.cfg.autoUp, lwip := f.info)).(announced := s.announced - {i})
  }

  lemma AddedInv(s: Stack, i: Id)
    requires Inv(s) && i in s.ifs && StartOk(s, i)
    ensures Inv(Added(s, i))
  {
    var t := Added(s, i);
    assert forall j :: j != i ==> IsUp(t.ifs, j) == IsUp(s.ifs, j);
    assert forall j :: Prio(t.ifs, j) == Prio(s.ifs, j);
  }

  lemma StartInv(s: Stack, i: Id, ok: bool)
    requires Inv(s) && i in s.ifs && StartOk(s, i)
    ensures Inv(Start(s, i, ok))
  {
    hide Inv, Update;
    var t := Added(s, i);
    AddedInv(s, i);
    InList(t, i);
    var u := With(t, i, t.ifs[i].(dhcps := DhcpStarted));
    WithInv(t, i, t.ifs[i].(dhcps := DhcpStarted));
    InList(u, i);
    UpdateInv(t, i, NetifStarted);
    UpdateInv(u, i, NetifStarted);
  }

  /** Without a manual choice, the default is registered, up and of at least the
      priority of every reported interface that is up, and there is none only if no such interface is up. */
  predicate Right(s: Stack) { !s.overridden ==> DefaultOk(s, s.announced) }

  /** The exact condition: from a state with the right default, a start leaves
      the right default if and only if it is harmless in this sense. */
  lemma StartKeepsDefaultIff(s: Stack, i: Id, ok: bool)
    requires Inv(s) && i in s.ifs
    ensures Right(Start(s, i, ok)) <==> StartOk(s, i)
    ensures Inv(Start(s, i, ok)) <==> StartOk(s, i)
  {
    if StartOk(s, i) {
      StartInv(s, i, ok);
    } else {
      var t := Start(s, i, ok);
      assert t.last == Some(i) && !IsUp(t.ifs, i) && !t.overridden;
    }
  }

  lemma UpInv(s: Stack, i: Id)
    requires Inv(s) && i in s.ifs
    ensures Inv(Up(s, i))
  {
    hide Inv, Update, SetAddr;
    SetAddrInv(s, i, s.ifs[i].info);
    var s1 := SetAddr(s, i, s.ifs[i].info);
    BroughtUp(s1, i);
  }

  /** An interface that comes up either is reported or does not count yet. */
  lemma BroughtUp(s: Stack, i: Id)
    requires Inv(s) && i in s.ifs
    ensures var t := With(s, i, s.ifs[i].(up := true));
            Inv(if ReportsAtStart(t.ifs[i]) then Update(t, i, NetifStarted) else t)
  {
    var t := With(s, i, s.ifs[i].(up := true));
    assert forall j :: j != i ==> IsUp(t.ifs, j) == IsUp(s.ifs, j);
    assert forall j :: Prio(t.ifs, j) == Prio(s.ifs, j);
    assert Inv(t);
    UpdateInv(t, i, NetifStarted);
  }

  /** Taking an interface down, with its lost-IP timer started or not. */
  lemma DownTail(s: Stack, i: Id)
    requires Inv(s) && i in s.ifs
    ensures var u := TakeDown(s, i);
            var v := if u.ifs[i].cfg.dhcpClient then StartLostTimer(u, i) else u;
            var t := Update(v, i, NetifStopped);
            Inv(t) && (if s.overridden then t.last == s.last else DefaultOk(t, All(t)))
  {
    hide Inv, Update, DefaultOk, All;
    var w := With(s, i, s.ifs[i].(timerRunning := true));
    WithInv(s, i, s.ifs[i].(timerRunning := true));
    TakeDownInv(s, i);
    TakeDownInv(w, i);
    assert StartLostTimer(TakeDown(s, i), i).ifs == TakeDown(w, i).ifs;
  }

  lemma DownInv(s: Stack, i: Id, supplied: bool)
    requires Inv(s) && i in s.ifs
    ensures Inv(Down(s, i, supplied))
  {
    hide Inv, Update, SetAddr, ResetClient, TakeDown, StartLostTimer;
    ResetClientInv(s, i, supplied);
    var s1 := if DhcpActive(s.ifs[i]) then ResetClient(s, i, supplied) else s;
    SetAddrInv(s1, i, ZERO);
    DownTail(SetAddr(s1, i, ZERO), i);
  }

  lemma StopInv(s: Stack, i: Id, supplied: bool, ok: bool)
    requires Inv(s) && i in s.ifs
    ensures Inv(Stop(s, i, supplied, ok))
  {
    hide Inv, Update, ResetClient, TakeDown;
    var f := s.ifs[i];
    var g := f.(dhcps := if ok && f.dhcps == DhcpStopped then DhcpStopped else DhcpInit);
    WithInv(s, i, g);
    TakeDownInv(With(s, i, g), i);
    ResetClientInv(s, i, supplied);
    TakeDownInv(ResetClient(s, i, supplied), i);
    TakeDownInv(s, i);
  }

  lemma {:induction false} WithoutFacts(list: seq<Id>, i: Id)
    requires Distinct(list)
    ensures Distinct(Without(list, i)) && forall j :: j in Without(list, i) <==> j in list && j != i
  {
    if list != [] {
      WithoutFacts(list[1..], i);
      assert forall j :: j in list <==> j == list[0] || j in list[1..];
      if list[0] == i {
        assert i !in list[1..];
      } else {
        var r := Without(list[1..], i);
        assert list[0] !in r;
        assert forall k :: 0 <= k < |r| ==> r[k] in r;
      }
    }
  }

  /** Destroying an interface: a manual choice of another interface stands;
      otherwise the choice is made anew among all registered interfaces. */
  lemma DestroyFacts(s: Stack, i: Id)
    requires Inv(s) && i in s.ifs
    ensures var t := Destroy(s, i);
            && Inv(t) && i !in t.list && i !in t.ifs
            && (if s.overridden && s.last != Some(i) then t.overridden && t.last == s.last
                else !t.overridden && DefaultOk(t, All(t)))
  {
    WithoutFacts(s.list, i);
    var u := TakeDown(s.(list := Without(s.list, i)), i);
    DestroyUpdate(s, i, u);
    var v := Update(u, i, NetifStopped);
    hide Update, Without;
    DropRecord(v.list, v.ifs, v.last, v.announced, i);
    DropRecord(v.list, v.ifs, v.last, All(v), i);
    assert All(Destroy(s, i)) == All(v);
  }

  /** Forgetting the record of an interface that is not registered changes no choice. */
  lemma DropRecord(list: seq<Id>, ifs: map<Id, Interface>, last: Option<Id>, among: set<Id>, i: Id)
    requires i !in list
    ensures Chosen(list, ifs - {i}, last, among) <==> Chosen(list, ifs, last, among)
    ensures forall j :: j != i ==> IsUp(ifs - {i}, j) == IsUp(ifs, j)
  {
    assert forall j :: j != i ==> Prio(ifs - {i}, j) == Prio(ifs, j);
    assert forall j :: j in list ==> j != i;
  }

  lemma DestroyUpdate(s: Stack, i: Id, u: Stack)
    requires Inv(s) && i in s.ifs && u == TakeDown(s.(list := Without(s.list, i)), i)
    requires Distinct(u.list) && forall j :: j in u.list <==> j in s.list && j != i
    ensures var v := Update(u, i, NetifStopped);
            && (forall j :: j in v.announced ==> j != i && IsUp(v.ifs, j))
            && (if s.overridden && s.last != Some(i) then v == u
                else !v.overridden && DefaultOk(v, v.announced) && DefaultOk(v, All(v)))
            && (v.last.Some? ==> v.last.value in v.list)
  {
    assert forall j :: j != i ==> IsUp(u.ifs, j) == IsUp(s.ifs, j);
    if s.overridden && s.last != Some(i) {
      OverrideHolds(u, i, NetifStopped);
    } else {
      UpdateScans(u, i, NetifStopped);
      ScanLeads(u.list, u.ifs, u.announced);
    }
  }

  lemma LostTimerInv(s: Stack, i: Id)
    requires Inv(s)
    ensures Inv(LostTimer(s, i))
  {
    if i in s.ifs {
      hide Inv, Update;
      var s1 := With(s, i, s.ifs[i].(timerRunning := false));
      WithInv(s, i, s.ifs[i].(timerRunning := false));
      InList(s1, i);
      UpdateInv(s1, i, NetifLostIp);
      var s2 := Update(s1, i, NetifLostIp);
      var f := s2.ifs[i].(announcedIp := ZERO);
      var g := if DhcpActive(f) then f.(info := ZERO) else f;
      WithInv(s2, i, g);
      LogInv(With(s2, i, g), s2.log + [LostIp(i)]);
    }
  }

  lemma SetIpInfoInv(s: Stack, i: Id, ip: IpInfo)
    requires Inv(s) && i in s.ifs
    ensures Inv(SetIpInfo(s, i, ip))
  {
    hide Inv, Update, SetAddr, Announce;
    var s1 := With(s, i, s.ifs[i].(info := ip));
    WithInv(s, i, s.ifs[i].(info := ip));
    SetAddrInv(s1, i, ip);
    var s2 := SetAddr(s1, i, ip);
    InList(s2, i);
    UpdateInv(s2, i, NetifGotIp);
    AnnounceInv(Update(s2, i, NetifGotIp), i, ip);
  }

  lemma DhcpcStartInv(s: Stack, i: Id, ok: bool)
    requires Inv(s) && i in s.ifs
    ensures Inv(DhcpcStart(s, i, ok))
  {
    hide Inv;
    var f := s.ifs[i];
    WithInv(s, i, f.(info := ZERO, lwip := ZERO, timerRunning := true, dhcpc := if ok then DhcpStarted else f.dhcpc));
    WithInv(s, i, f.(info := ZERO, dhcpc := DhcpInit));
  }

  lemma DhcpcStopInv(s: Stack, i: Id, supplied: bool)
    requires Inv(s) && i in s.ifs
    ensures Inv(DhcpcStop(s, i, supplied))
  {
    hide Inv, SetAddr;
    SetAddrInv(s, i, ZERO);
    var s1 := DhcpStop(s, i, supplied);
    WithInv(s1, i, s1.ifs[i].(info := ZERO, timerRunning := true, dhcpc := DhcpStopped));
    WithInv(s, i, s.ifs[i].(dhcpc := DhcpStopped));
  }

  lemma DhcpsInv(s: Stack, i: Id, ok: bool)
    requires Inv(s) && i in s.ifs
    ensures Inv(DhcpsStart(s, i, ok)) && Inv(DhcpsStop(s, i, ok))
  {
    hide Inv;
    var f := s.ifs[i];
    WithInv(s, i, f.(dhcps := if f.up && ok then DhcpStarted else DhcpInit));
    WithInv(s, i, f.(dhcps := DhcpStopped));
  }

  lemma ConnectedInv(s: Stack, i: Id, ok: bool)
    requires Inv(s) && i in s.ifs
    ensures Inv(Connected(s, i, ok))
  {
    hide Inv, Up, DhcpcStart, Announce;
    UpInv(s, i);
    var s1 := Up(s, i);
    DhcpcStartInv(s1, i, ok);
    AnnounceInv(s1, i, s1.ifs[i].lwip);
  }

  // ----- runs ---------------------------------------------------------------

  /** The only step that can spoil the default: a start that is not harmless. */
  predicate Harmless(s: Stack, e: Event) { e.EStart? && e.id in s.ifs ==> StartOk(s, e.id) }

  lemma StepInv(s: Stack, e: Event)
    requires Inv(s) && Harmless(s, e)
    ensures Inv(Step(s, e))
  {
    hide New, Start, Up, Down, Stop, Destroy, LostTimer, SetIpInfo, SetAddr, DhcpcStart;
    hide DhcpcStop, DhcpsStart, DhcpsStop;
    hide Connected;
    if e.ENew? {
      NewInv(s, e.id, e.c);
    } else if e.id in s.ifs {
      match e
      case EStart(i, ok) => StartInv(s, i, ok);
      case EUp(i) => UpInv(s, i);
      case EDown(i, supplied) => DownInv(s, i, supplied);
      case EStop(i, supplied, ok) => StopInv(s, i, supplied, ok);
      case EDestroy(i) => DestroyFacts(s, i);
      case ELostTimer(i) => LostTimerInv(s, i);
      case ESetIpInfo(i, ip) => SetIpInfoInv(s, i, ip);
      case EAddress(i, ip) => SetAddrInv(s, i, ip);
      case EDhcpcStart(i, ok) => DhcpcStartInv(s, i, ok);
      case EDhcpcStop(i, supplied) => DhcpcStopInv(s, i, supplied);
      case EDhcpsStart(i, ok) => DhcpsInv(s, i, ok);
      case EDhcpsStop(i, ok) => DhcpsInv(s, i, ok);
      case EConnected(i, ok) => ConnectedInv(s, i, ok);
      case EStatic(i) => AnnounceInv(s, i, s.ifs[i].lwip);
      case ESetDefault(i) => UpdateInv(s, i, SetDefault);
    }
  }

  predicate HarmlessRun(s: Stack, es: seq<Event>)
    decreases |es|
  {
    es != [] ==> Harmless(s, es[0]) && HarmlessRun(Step(s, es[0]), es[1..])
  }

  lemma {:induction false} RunInv(s: Stack, es: seq<Event>)
    requires Inv(s) && HarmlessRun(s, es)
    ensures Inv(Run(s, es))
    decreases |es|
  {
    if es != [] {
      StepInv(s, es[0]);
      RunInv(Step(s, es[0]), es[1..]);
    }
  }

  /** In every run of API calls, timer firings and address changes whose starts
      are harmless: without a manual choice, the default is registered, up and of at least
      the priority of every reported interface that is up, and there is no
      default only if no such interface is up. */
  lemma DefaultAlwaysRight(es: seq<Event>)
    requires HarmlessRun(EMPTY, es)
    ensures var s := Run(EMPTY, es);
            !s.overridden ==>
              && (s.last.Some? ==> Leads(s.list, s.ifs, s.last.value, s.announced))
              && (s.last.None? ==> NoneUp(s.list, s.ifs, s.announced))
  {
    RunInv(EMPTY, es);
  }

  /** The default is right before, between and after the steps of a run. */
  predicate AlwaysRight(s: Stack, es: seq<Event>)
    decreases |es|
  {
    Right(s) && (es != [] ==> AlwaysRight(Step(s, es[0]), es[1..]))
  }

  lemma StepRightIff(s: Stack, e: Event)
    requires Inv(s)
    ensures if Harmless(s, e) then Inv(Step(s, e)) else !Right(Step(s, e))
  {
    if Harmless(s, e) { StepInv(s, e); } else { StartKeepsDefaultIff(s, e.id, e.serverOk); }
  }

  /** The default is right at every point of a run exactly when every start of the run is harmless. */
  lemma {:induction false} AlwaysRightIff(s: Stack, es: seq<Event>)
    requires Inv(s)
    ensures AlwaysRight(s, es) <==> HarmlessRun(s, es)
    decreases |es|
  {
    hide Step, DefaultOk, Wf;
    if es != [] {
      StepRightIff(s, es[0]);
      hide Harmless, Inv;
      if Harmless(s, es[0]) { AlwaysRightIff(Step(s, es[0]), es[1..]); } else { WrongAtOnce(Step(s, es[0]), es[1..]); }
    }
  }

  lemma WrongAtOnce(s: Stack, es: seq<Event>)
    requires !Right(s)
    ensures !AlwaysRight(s, es)
  {}

  /** A run that goes wrong: an interface without DHCP and without the auto-up
      flag is created, brought up and started again; it is the default, and it is down. */
  lemma RestartSpoilsDefault(c: NetifConfig)
    requires !c.autoUp && !c.dhcpClient && !c.dhcpServer
    ensures var s := Run(EMPTY, [ENew(0, c), EUp(0), EStart(0, true)]);
            s.last == Some(0) && !s.overridden && 0 in s.ifs && !s.ifs[0].up && !Right(s)
  {
    var s1 := Step(EMPTY, ENew(0, c));
    var s2 := Step(s1, EUp(0));
    var s3 := Step(s2, EStart(0, true));
    assert s1.ifs[0].info == c.ipInfo && !s1.ifs[0].up && s1.list == [0];
    assert s2.last == Some(0) && s2.ifs[0].up && !s2.overridden && s2.list == [0] && s2.ifs[0].cfg == c;
    assert s3.last == Some(0) && !s3.ifs[0].up && !s3.overridden;
    hide Step;
    var es := [ENew(0, c), EUp(0), EStart(0, true)];
    assert es[1..] == [EUp(0), EStart(0, true)] && es[1..][1..] == [EStart(0, true)] && es[1..][1..][1..] == [];
    assert Run(s3, []) == s3;
    assert Run(s2, [EStart(0, true)]) == s3;
    assert Run(s1, es[1..]) == s3;
  }

  // ----- the manual choice --------------------------------------------------

  ghost predicate ChosenByHand(s: Stack, d: Id) { Inv(s) && s.overridden && s.last == Some(d) }

  predicate Overrides(e: Event, d: Id) { e.ESetDefault? || e == EDestroy(d) }

  /** No automatic step changes a manual choice. */
  lemma StepByHand(s: Stack, e: Event, d: Id)
    requires ChosenByHand(s, d) && !Overrides(e, d)
    ensures var t := Step(s, e); t.overridden && t.last == Some(d)
  {
    hide Start, Up, Down, Stop, LostTimer, SetIpInfo, SetAddr, DhcpcStart, DhcpcStop, DhcpsStart, DhcpsStop, Connected;
    if e.EDestroy? && e.id in s.ifs { DestroyFacts(s, e.id); }
  }

  /** The run contains no other manual choice and does not destroy `d`. */
  predicate LeavesAlone(es: seq<Event>, d: Id) { forall e :: e in es ==> !Overrides(e, d) }

  /** A manual choice survives every automatic update of every run until its
      interface is destroyed; then the choice is automatic again, and falls on
      an interface that is up and has the highest priority of all that are up,
      or on none if none is up. */
  lemma {:induction false} ManualChoiceStands(s: Stack, es: seq<Event>, d: Id)
    requires ChosenByHand(s, d) && HarmlessRun(s, es) && LeavesAlone(es, d)
    ensures var t := Run(s, es);
            && ChosenByHand(t, d)
            && (var u := Step(t, EDestroy(d)); !u.overridden && DefaultOk(u, All(u)))
    decreases |es|
  {
    if es == [] {
      DestroyFacts(s, d);
    } else {
      var t := Step(s, es[0]);
      assert es[0] in es;
      StepByHand(s, es[0], d);
      StepInv(s, es[0]);
      hide Step, Inv;
      ManualChoiceStands(t, es[1..], d);
    }
  }
}
