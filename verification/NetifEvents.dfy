/** The history of IP events: over every run, each got-IP event says that the
    address changed exactly when it differs from the last one announced for
    that interface, whichever path posted it. */
module NetifEvents {
  import opened Netif

  /** The address an observer of the notes takes to be the announced one: the
      initial configuration at first, then the last event's, and zero after a loss. */
  function LastAnnounced(log: seq<Note>, i: Id): IpInfo {
    if log == [] then ZERO
    else
      var n := log[|log| - 1];
      if n.id != i then LastAnnounced(log[..|log| - 1], i)
      else if n.LostIp? then ZERO
      else n.ip
  }

  /** Event number `k` tells the truth about its address having changed. */
  predicate Truthful(log: seq<Note>, k: nat)
    requires k < |log|
  {
    log[k].GotIp? ==> (log[k].changed <==> log[k].ip != LastAnnounced(log[..k], log[k].id))
  }

  predicate AllTruthful(log: seq<Note>) { forall k: nat :: k < |log| ==> Truthful(log, k) }

  /** The events so far are truthful, and each interface's record is the last announced address. */
  predicate Recorded(ifs: map<Id, Interface>, log: seq<Note>) {
    && AllTruthful(log)
    && forall i :: i in ifs ==> ifs[i].announcedIp == LastAnnounced(log, i)
  }

  lemma LastAnnouncedSnoc(log: seq<Note>, n: Note, i: Id)
    ensures LastAnnounced(log + [n], i) ==
            if n.id != i then LastAnnounced(log, i) else if n.LostIp? then ZERO else n.ip
  {
    assert (log + [n])[..|log|] == log;
  }

  lemma TruthfulSnoc(log: seq<Note>, n: Note)
    requires AllTruthful(log)
    requires n.GotIp? ==> (n.changed <==> n.ip != LastAnnounced(log, n.id))
    ensures AllTruthful(log + [n])
  {
    var r := log + [n];
    forall k: nat | k < |r| ensures Truthful(r, k) {
      if k < |log| {
        assert Truthful(log, k);
        assert r[..k] == log[..k];
      } else {
        assert r[..k] == log;
      }
    }
  }

  /** A note and the record it goes with. */
  lemma NoteRecorded(ifs: map<Id, Interface>, log: seq<Note>, f: Interface, n: Note)
    requires Recorded(ifs, log)
    requires n.GotIp? ==> (n.changed <==> n.ip != LastAnnounced(log, n.id))
    requires f.announcedIp == if n.LostIp? then ZERO else n.ip
    ensures Recorded(ifs[n.id := f], log + [n])
  {
    TruthfulSnoc(log, n);
    hide AllTruthful;
    forall i | i in ifs[n.id := f] ensures ifs[n.id := f][i].announcedIp == LastAnnounced(log + [n], i) {
      LastAnnouncedSnoc(log, n, i);
    }
  }

  // ----- the steps ----------------------------------------------------------

  lemma WithRecorded(s: Stack, i: Id, f: Interface)
    requires Recorded(s.ifs, s.log) && i in s.ifs && f.announcedIp == s.ifs[i].announcedIp
    ensures Recorded(With(s, i, f).ifs, s.log)
  {
    hide AllTruthful, LastAnnounced;
  }

  lemma AnnounceRecorded(s: Stack, i: Id, ip: IpInfo)
    requires Recorded(s.ifs, s.log) && i in s.ifs
    ensures Recorded(Announce(s, i, ip).ifs, Announce(s, i, ip).log)
  {
    hide AllTruthful, LastAnnounced;
    NoteRecorded(s.ifs, s.log, s.ifs[i].(announcedIp := ip), GotIp(i, ip, ip != s.ifs[i].announcedIp));
  }

  lemma CallbackRecorded(s: Stack, i: Id)
    requires Recorded(s.ifs, s.log) && i in s.ifs
    ensures var t := AddressCallback(s, i); Recorded(t.ifs, t.log)
  {
    hide Recorded, Update, Announce;
    var f := s.ifs[i];
    var s1 := With(s, i, f.(info := f.lwip));
    WithRecorded(s, i, f.(info := f.lwip));
    AnnounceRecorded(Update(s1, i, NetifGotIp), i, f.lwip);
    WithRecorded(s, i, f.(timerRunning := true));
    var s2 := StartLostTimer(s, i);
    WithRecorded(s2, i, s2.ifs[i].(info := ZERO));
  }

  lemma SetAddrRecorded(s: Stack, i: Id, ip: IpInfo)
    requires Recorded(s.ifs, s.log) && i in s.ifs
    ensures var t := SetAddr(s, i, ip); Recorded(t.ifs, t.log)
  {
    hide Recorded, AddressCallback;
    WithRecorded(s, i, s.ifs[i].(lwip := ip));
    CallbackRecorded(With(s, i, s.ifs[i].(lwip := ip)), i);
  }

  lemma ResetClientRecorded(s: Stack, i: Id, supplied: bool)
    requires Recorded(s.ifs, s.log) && i in s.ifs
    ensures var t := ResetClient(s, i, supplied); Recorded(t.ifs, t.log)
  {
    hide Recorded, SetAddr;
    SetAddrRecorded(s, i, ZERO);
    var s1 := DhcpStop(s, i, supplied);
    WithRecorded(s1, i, s1.ifs[i].(dhcpc := DhcpInit, info := ZERO));
  }

  lemma StartRecorded(s: Stack, i: Id, ok: bool)
    requires Recorded(s.ifs, s.log) && i in s.ifs
    ensures var t := Start(s, i, ok); Recorded(t.ifs, t.log)
  {
    hide Recorded, Update;
    var f := s.ifs[i];
    var g := f.(up := f.cfg.autoUp, lwip := f.info);
    WithRecorded(s, i, g);
    WithRecorded(With(s, i, g), i, g.(dhcps := DhcpStarted));
  }

  lemma UpRecorded(s: Stack, i: Id)
    requires Recorded(s.ifs, s.log) && i in s.ifs
    ensures var t := Up(s, i); Recorded(t.ifs, t.log)
  {
    hide Recorded, Update, SetAddr;
    SetAddrRecorded(s, i, s.ifs[i].info);
    var s1 := SetAddr(s, i, s.ifs[i].info);
    WithRecorded(s1, i, s1.ifs[i].(up := true));
  }

  lemma DownRecorded(s: Stack, i: Id, supplied: bool)
    requires Recorded(s.ifs, s.log) && i in s.ifs
    ensures var t := Down(s, i, supplied); Recorded(t.ifs, t.log)
  {
    hide Recorded, Update, SetAddr, ResetClient;
    ResetClientRecorded(s, i, supplied);
    var s1 := if DhcpActive(s.ifs[i]) then ResetClient(s, i, supplied) else s;
    SetAddrRecorded(s1, i, ZERO);
    var s2 := SetAddr(s1, i, ZERO);
    WithRecorded(s2, i, s2.ifs[i].(up := false));
    var s3 := TakeDown(s2, i);
    WithRecorded(s3, i, s3.ifs[i].(timerRunning := true));
  }

  lemma StopRecorded(s: Stack, i: Id, supplied: bool, ok: bool)
    requires Recorded(s.ifs, s.log) && i in s.ifs
    ensures var t := Stop(s, i, supplied, ok); Recorded(t.ifs, t.log)
  {
    hide Recorded, Update, ResetClient;
    var f := s.ifs[i];
    var g := f.(dhcps := if ok && f.dhcps == DhcpStopped then DhcpStopped else DhcpInit);
    WithRecorded(s, i, g);
    WithRecorded(With(s, i, g), i, g.(up := false));
    ResetClientRecorded(s, i, supplied);
    var s1 := ResetClient(s, i, supplied);
    WithRecorded(s1, i, s1.ifs[i].(up := false));
    WithRecorded(s, i, f.(up := false));
  }

  lemma DestroyRecorded(s: Stack, i: Id)
    requires Recorded(s.ifs, s.log) && i in s.ifs
    ensures var t := Destroy(s, i); Recorded(t.ifs, t.log)
  {
    hide Update, AllTruthful, LastAnnounced;
    WithRecorded(s.(list := Without(s.list, i)), i, s.ifs[i].(up := false));
  }

  lemma LostTimerRecorded(s: Stack, i: Id)
    requires Recorded(s.ifs, s.log)
    ensures var t := LostTimer(s, i); Recorded(t.ifs, t.log)
  {
    if i in s.ifs {
      hide Recorded, Update;
      var s1 := With(s, i, s.ifs[i].(timerRunning := false));
      WithRecorded(s, i, s.ifs[i].(timerRunning := false));
      var s2 := Update(s1, i, NetifLostIp);
      var f := s2.ifs[i].(announcedIp := ZERO);
      NoteRecorded(s2.ifs, s2.log, if DhcpActive(f) then f.(info := ZERO) else f, LostIp(i));
    }
  }

  lemma SetIpInfoRecorded(s: Stack, i: Id, ip: IpInfo)
    requires Recorded(s.ifs, s.log) && i in s.ifs
    ensures var t := SetIpInfo(s, i, ip); Recorded(t.ifs, t.log)
  {
    hide Recorded, Update, SetAddr, Announce;
    var s1 := With(s, i, s.ifs[i].(info := ip));
    WithRecorded(s, i, s.ifs[i].(info := ip));
    SetAddrRecorded(s1, i, ip);
    AnnounceRecorded(Update(SetAddr(s1, i, ip), i, NetifGotIp), i, ip);
  }

  lemma DhcpcRecorded(s: Stack, i: Id, ok: bool, supplied: bool)
    requires Recorded(s.ifs, s.log) && i in s.ifs
    ensures var t := DhcpcStart(s, i, ok); Recorded(t.ifs, t.log)
    ensures var t := DhcpcStop(s, i, supplied); Recorded(t.ifs, t.log)
  {
    hide Recorded, SetAddr;
    var f := s.ifs[i];
    WithRecorded(s, i, f.(info := ZERO, lwip := ZERO, timerRunning := true,
                        dhcpc := if ok then DhcpStarted else f.dhcpc));
    WithRecorded(s, i, f.(info := ZERO, dhcpc := DhcpInit));
    WithRecorded(s, i, f.(dhcpc := DhcpStopped));
    SetAddrRecorded(s, i, ZERO);
    var s1 := DhcpStop(s, i, supplied);
    WithRecorded(s1, i, s1.ifs[i].(info := ZERO, timerRunning := true, dhcpc := DhcpStopped));
  }

  lemma DhcpsRecorded(s: Stack, i: Id, ok: bool)
    requires Recorded(s.ifs, s.log) && i in s.ifs
    ensures var t := DhcpsStart(s, i, ok); Recorded(t.ifs, t.log)
    ensures var t := DhcpsStop(s, i, ok); Recorded(t.ifs, t.log)
  {
    hide Recorded;
    var f := s.ifs[i];
    WithRecorded(s, i, f.(dhcps := if f.up && ok then DhcpStarted else DhcpInit));
    WithRecorded(s, i, f.(dhcps := DhcpStopped));
  }

  lemma ConnectedRecorded(s: Stack, i: Id, ok: bool)
    requires Recorded(s.ifs, s.log) && i in s.ifs
    ensures var t := Connected(s, i, ok); Recorded(t.ifs, t.log)
  {
    hide Recorded, Up, DhcpcStart, DhcpcStop, Announce;
    UpRecorded(s, i);
    var s1 := Up(s, i);
    DhcpcRecorded(s1, i, ok, false);
    AnnounceRecorded(s1, i, s1.ifs[i].lwip);
  }

  lemma StepRecorded(s: Stack, e: Event)
    requires Recorded(s.ifs, s.log)
    ensures Recorded(Step(s, e).ifs, Step(s, e).log)
  {
    hide Recorded, Start, Up, Down, Stop, Destroy, LostTimer, SetIpInfo, SetAddr, DhcpcStart, DhcpcStop;
    hide DhcpsStart, DhcpsStop, Connected, Update;
    if e.ENew? {
      NoteRecorded(s.ifs, s.log,
                   Interface(e.c, false, ZERO, e.c.ipInfo, e.c.ipInfo, DhcpInit, DhcpInit, false),
                   Created(e.id, e.c.ipInfo));
    } else if e.id in s.ifs {
      match e
      case EStart(i, ok) => StartRecorded(s, i, ok);
      case EUp(i) => UpRecorded(s, i);
      case EDown(i, supplied) => DownRecorded(s, i, supplied);
      case EStop(i, supplied, ok) => StopRecorded(s, i, supplied, ok);
      case EDestroy(i) => DestroyRecorded(s, i);
      case ELostTimer(i) => LostTimerRecorded(s, i);
      case ESetIpInfo(i, ip) => SetIpInfoRecorded(s, i, ip);
      case EAddress(i, ip) => SetAddrRecorded(s, i, ip);
      case EDhcpcStart(i, ok) => DhcpcRecorded(s, i, ok, false);
      case EDhcpcStop(i, supplied) => DhcpcRecorded(s, i, false, supplied);
      case EDhcpsStart(i, ok) => DhcpsRecorded(s, i, ok);
      case EDhcpsStop(i, ok) => DhcpsRecorded(s, i, ok);
      case EConnected(i, ok) => ConnectedRecorded(s, i, ok);
      case EStatic(i) => AnnounceRecorded(s, i, s.ifs[i].lwip);
      case ESetDefault(i) =>
    }
  }

  lemma {:induction false} RunRecorded(s: Stack, es: seq<Event>)
    requires Recorded(s.ifs, s.log)
    ensures Recorded(Run(s, es).ifs, Run(s, es).log)
    decreases |es|
  {
    hide Recorded, Step;
    if es != [] {
      StepRecorded(s, es[0]);
      RunRecorded(Step(s, es[0]), es[1..]);
    }
  }

  /** Over every run of API calls, timer firings and address changes, every
      got-IP event reports a change exactly when its address triple differs from
      the one an observer of the earlier events takes to be announced. */
  lemma EventsTruthful(es: seq<Event>, k: nat)
    requires k < |Run(EMPTY, es).log| && Run(EMPTY, es).log[k].GotIp?
    ensures var log := Run(EMPTY, es).log;
            log[k].changed <==> log[k].ip != LastAnnounced(log[..k], log[k].id)
  {
    RunRecorded(EMPTY, es);
    assert Truthful(Run(EMPTY, es).log, k);
  }

  // ----- when an event is posted --------------------------------------------

  /** An address change made by lwIP posts one event exactly when the new
      address is not zero and not the one the interface already has on record. */
  lemma AddressPostsIff(s: Stack, i: Id, ip: IpInfo)
    requires i in s.ifs
    ensures var f, t := s.ifs[i], SetAddr(s, i, ip);
            && t.ifs[i].lwip == ip
            && t.log == (if f.lwip != ip && ip.ip != 0 && ip != f.info
                           then s.log + [GotIp(i, ip, ip != f.announcedIp)] else s.log)
            && (ip == f.info ==> t.ifs[i] == f.(lwip := ip))
  {
    hide Update;
  }

  /** Setting a static address posts one event, not two, although it goes through
      the address callback; and it posts one exactly when the interface is up,
      free of DHCP, asks for such events, and the address is not zero. */
  lemma StaticPostsOnce(s: Stack, i: Id, ip: IpInfo)
    requires i in s.ifs
    ensures var f, t := s.ifs[i], SetIpInfo(s, i, ip);
            var refused := (f.cfg.dhcpServer && f.dhcps != DhcpStopped) ||
                           (!f.cfg.dhcpServer && f.cfg.dhcpClient && f.dhcpc != DhcpStopped);
            && (if refused then t == s else t.ifs[i].info == ip && (f.up ==> t.ifs[i].lwip == ip))
            && t.log == (if !refused && f.up && f.cfg.eventIpModified && ip.ip != 0
                         then s.log + [GotIp(i, ip, ip != f.announcedIp)] else s.log)
  {
    AddressPostsIff(With(s, i, s.ifs[i].(info := ip)), i, ip);
    hide Update, SetAddr;
  }

  /** A link coming up with a valid static address posts one event, with that address. */
  lemma ConnectedPostsOnce(s: Stack, i: Id, ok: bool)
    requires i in s.ifs
    ensures var f, t := s.ifs[i], Connected(s, i, ok);
            t.log == if f.cfg.dhcpClient && f.dhcpc == DhcpStopped && f.info.ip != 0 && f.info.netmask != 0
                     then s.log + [GotIp(i, f.info, f.info != f.announcedIp)] else s.log
  {
    AddressPostsIff(s, i, s.ifs[i].info);
    hide Update, SetAddr;
  }

  /** The lost-IP timer records a loss exactly when the interface still has no address. */
  lemma LostTimerPostsIff(s: Stack, i: Id)
    requires i in s.ifs && i in s.list
    ensures LostTimer(s, i).log == if s.ifs[i].lwip.ip == 0 then s.log + [LostIp(i)] else s.log
  {
    hide Update;
  }

  /** After a recorded loss the next address is announced as changed, even if it
      is the one that was lost, unless the interface still has it on record. */
  lemma AddressAfterLoss(s: Stack, i: Id, ip: IpInfo)
    requires i in s.ifs && i in s.list && s.ifs[i].lwip.ip == 0 && ip.ip != 0
    ensures SetAddr(LostTimer(s, i), i, ip).log ==
            if DhcpActive(s.ifs[i]) || ip != s.ifs[i].info
              then s.log + [LostIp(i), GotIp(i, ip, true)] else s.log + [LostIp(i)]
  {
    LostTimerPostsIff(s, i);
    var t := LostTimer(s, i);
    assert t.ifs[i].announcedIp == ZERO && t.ifs[i].lwip == s.ifs[i].lwip
        && t.ifs[i].info == if DhcpActive(s.ifs[i]) then ZERO else s.ifs[i].info by { hide Update; }
    AddressPostsIff(t, i, ip);
    hide SetAddr, LostTimer;
    assert s.log + [LostIp(i)] + [GotIp(i, ip, true)] == s.log + [LostIp(i), GotIp(i, ip, true)];
  }

  /** The static-address path of an interface with a DHCP server: once the server has
      been stopped, setting an address is accepted and announced. */
  lemma StaticOnServer(c: NetifConfig, ip: IpInfo)
    requires c.dhcpServer && !c.dhcpClient && c.autoUp && c.eventIpModified && ip.ip != 0
    ensures var s := Run(EMPTY, [ENew(0, c), EStart(0, true), EDhcpsStop(0, true), ESetIpInfo(0, ip)]);
            && 0 in s.ifs && s.ifs[0].lwip == ip
            && s.log == [Created(0, c.ipInfo), GotIp(0, ip, ip != c.ipInfo)]
  {
    hide Step, SetIpInfo, Run;
    var e1, e2, e3, e4 := ENew(0, c), EStart(0, true), EDhcpsStop(0, true), ESetIpInfo(0, ip);
    var s1 := Step(EMPTY, e1);
    var s2 := Step(s1, e2);
    var s3 := Step(s2, e3);
    ServerStarted(c);
    ServerStopped(s2);
    StaticPostsOnce(s3, 0, ip);
    StepSet(s3, ip);
    RunCons(EMPTY, e1, [e2, e3, e4]);
    RunCons(s1, e2, [e3, e4]);
    RunCons(s2, e3, [e4]);
    RunCons(s3, e4, []);
    assert [e1] + [e2, e3, e4] == [e1, e2, e3, e4] && [e2] + [e3, e4] == [e2, e3, e4] && [e3] + [e4] == [e3, e4];
    assert [e4] + [] == [e4];
    RunEmpty(Step(s3, e4));
  }

  lemma RunCons(s: Stack, e: Event, es: seq<Event>)
    ensures Run(s, [e] + es) == Run(Step(s, e), es)
  {
    hide Step;
    assert ([e] + es)[1..] == es;
  }

  lemma StepSet(s: Stack, ip: IpInfo)
    requires 0 in s.ifs
    ensures Step(s, ESetIpInfo(0, ip)) == SetIpInfo(s, 0, ip)
  {
    hide SetIpInfo;
  }

  lemma RunEmpty(s: Stack)
    ensures Run(s, []) == s
  {}

  lemma ServerStarted(c: NetifConfig)
    requires c.dhcpServer && !c.dhcpClient && c.autoUp
    ensures var s := Step(Step(EMPTY, ENew(0, c)), EStart(0, true));
            && 0 in s.ifs && s.log == [Created(0, c.ipInfo)]
            && s.ifs[0] == Interface(c, true, c.ipInfo, c.ipInfo, c.ipInfo, DhcpInit, DhcpStarted, false)
  {
    hide Update;
    assert Step(EMPTY, ENew(0, c)) == New(EMPTY, 0, c);
  }

  lemma ServerStopped(s: Stack)
    requires 0 in s.ifs
    ensures var t := Step(s, EDhcpsStop(0, true));
            0 in t.ifs && t.ifs[0] == s.ifs[0].(dhcps := DhcpStopped) && t.log == s.log
  {}
}
