/** What each call does to its interface, to the others and to the default. */
module NetifEffects {
  import opened Words
  import opened Netif
  import opened NetifRoute
  import opened NetifEvents

  /** No other interface comes, goes or changes. */
  ghost predicate OnlyTouches(s: Stack, t: Stack, i: Id) {
    forall j :: j != i ==> (j in t.ifs <==> j in s.ifs) && (j in s.ifs ==> t.ifs[j] == s.ifs[j])
  }

  predicate ClientRuns(f: Interface) { f.cfg.dhcpClient && f.dhcpc == DhcpStarted }

  // ----- the choice of the default ------------------------------------------

  /** A report that an interface has started or got its address: it becomes the default
      unless it is down or the default is a registered interface that is up and has a
      strictly higher priority; a manual choice is not touched. */
  lemma ReportChoice(s: Stack, i: Id, action: Action)
    requires Inv(s) && i in s.list && (action == NetifStarted || action == NetifGotIp)
    ensures var t := Update(s, i, action);
            && t.overridden == s.overridden
            && (t.announced == if IsUp(s.ifs, i) then s.announced + {i} else s.announced)
            && (s.overridden ==> t.last == s.last)
            && (!s.overridden ==>
                  t.last == if IsUp(s.ifs, i) && (s.last.None? || Prio(s.ifs, s.last.value) <= Prio(s.ifs, i))
                            then Some(i) else s.last)
  {}

  /** No interface from `k` on that is up beats the best so far. */
  predicate NoneBetter(list: seq<Id>, ifs: map<Id, Interface>, k: nat, best: Option<Id>) {
    forall j :: k <= j < |list| && IsUp(ifs, list[j]) ==> best.Some? && Prio(ifs, list[j]) <= Prio(ifs, best.value)
  }

  /** From `k` on, number `m` is the first interface that is up with the highest priority. */
  predicate FirstTop(list: seq<Id>, ifs: map<Id, Interface>, k: nat, m: nat) {
    && k <= m < |list| && IsUp(ifs, list[m])
    && (forall j :: k <= j < m && IsUp(ifs, list[j]) ==> Prio(ifs, list[j]) < Prio(ifs, list[m]))
    && (forall j :: m <= j < |list| && IsUp(ifs, list[j]) ==> Prio(ifs, list[j]) <= Prio(ifs, list[m]))
  }

  lemma {:induction false} ScanFrom(list: seq<Id>, ifs: map<Id, Interface>, k: nat, best: Option<Id>)
    returns (m: Option<nat>)
    requires k <= |list| && (best.Some? ==> IsUp(ifs, best.value))
    ensures m.None? ==> Scan(list, ifs, k, best) == best && NoneBetter(list, ifs, k, best)
    ensures m.Some? ==> FirstTop(list, ifs, k, m.value) && Scan(list, ifs, k, best) == Some(list[m.value])
    ensures m.Some? && best.Some? ==> Prio(ifs, best.value) < Prio(ifs, list[m.value])
    decreases |list| - k
  {
    hide IsUp, Prio;
    if k == |list| {
      m := None;
    } else {
      var n := list[k];
      m := ScanFrom(list, ifs, k + 1, Better(ifs, best, n));
      if m.None? && Better(ifs, best, n) != best { m := Some(k); }
    }
  }

  /** Among the registered interfaces that are up, the scan takes the first of the highest priority. */
  lemma ScanFirst(list: seq<Id>, ifs: map<Id, Interface>)
    ensures var r := Scan(list, ifs, 0, None);
            if r.None? then forall j :: 0 <= j < |list| ==> !IsUp(ifs, list[j])
            else exists m: nat :: m < |list| && r == Some(list[m]) && FirstTop(list, ifs, 0, m)
  {
    var m := ScanFrom(list, ifs, 0, None);
    hide Scan;
  }

  /** The default after an interface has gone down: another one, leading all registered ones, or none. */
  predicate Rechosen(s: Stack, t: Stack, i: Id) {
    && t.overridden == s.overridden
    && (if s.overridden then t.last == s.last else t.last != Some(i) && DefaultOk(t, All(t)))
  }

  lemma DownIsNotDefault(t: Stack, i: Id)
    requires DefaultOk(t, All(t)) && !IsUp(t.ifs, i)
    ensures t.last != Some(i)
  {}

  lemma StoppedUpdate(s: Stack, i: Id)
    requires Inv(s) && i in s.ifs
    ensures var t := Update(TakeDown(s, i), i, NetifStopped);
            && Rechosen(s, t, i) && t.ifs == TakeDown(s, i).ifs && t.log == s.log && t.announced == s.announced - {i}
  {
    TakeDownInv(s, i);
    var t := Update(TakeDown(s, i), i, NetifStopped);
    assert !IsUp(t.ifs, i);
    if !s.overridden { DownIsNotDefault(t, i); }
  }

  // ----- addresses ----------------------------------------------------------

  /** An address assigned by lwIP: it is the interface's address; a new one that is not zero is
      recorded and announced; the loss of one starts the lost-IP timer, and forgets the record
      if the DHCP client is running. Nothing happens if it is the address the interface has. */
  lemma SetAddrEffect(s: Stack, i: Id, ip: IpInfo)
    requires i in s.ifs
    ensures var f, t := s.ifs[i], SetAddr(s, i, ip);
            && OnlyTouches(s, t, i) && i in t.ifs && t.list == s.list
            && (if f.lwip == ip then t == s
                else if ip.ip != 0 then
                  t.ifs[i] == f.(lwip := ip, info := ip, announcedIp := if ip == f.info then f.announcedIp else ip)
                else t.ifs[i] == if f.info.ip == 0 then f.(lwip := ip)
                                 else if ClientRuns(f) then f.(lwip := ip, timerRunning := true, info := ZERO)
                                 else f.(lwip := ip, timerRunning := true))
            && (ip.ip == 0 || ip == f.info ==>
                  t.log == s.log && t.last == s.last && t.overridden == s.overridden && t.announced == s.announced)
  {
    hide Update;
  }

  /** The interface has been reported, and the default is chosen accordingly. */
  predicate Reports(s: Stack, t: Stack, i: Id) {
    && t.announced == s.announced + {i} && t.overridden == s.overridden
    && t.last == if s.overridden || (s.last.Some? && Prio(s.ifs, s.last.value) > Prio(s.ifs, i))
                 then s.last else Some(i)
  }

  lemma GotIpReports(s: Stack, i: Id, f: Interface)
    requires Inv(s) && i in s.ifs && s.ifs[i].up && f.up && f.cfg == s.ifs[i].cfg
    ensures Reports(s, Update(With(s, i, f), i, NetifGotIp), i)
  {
    WithInv(s, i, f);
    InList(s, i);
    ReportChoice(With(s, i, f), i, NetifGotIp);
    hide Update;
  }

  /** A new address of an interface that is up is reported to the route choice. */
  lemma AddressReports(s: Stack, i: Id, ip: IpInfo)
    requires Inv(s) && i in s.ifs && s.ifs[i].up && s.ifs[i].lwip != ip && ip.ip != 0 && ip != s.ifs[i].info
    ensures Reports(s, SetAddr(s, i, ip), i)
  {
    var f := s.ifs[i];
    assert s.ifs[i := f.(lwip := ip)][i := f.(lwip := ip, info := ip)] == s.ifs[i := f.(lwip := ip, info := ip)];
    GotIpReports(s, i, f.(lwip := ip, info := ip));
    hide Update, Inv;
  }

  /** So is a static address that is set on an interface that is up and asks for such events. */
  lemma SetInfoReports(s: Stack, i: Id, ip: IpInfo)
    requires Inv(s) && i in s.ifs && s.ifs[i].up && s.ifs[i].cfg.eventIpModified && ip.ip != 0
    requires !(s.ifs[i].cfg.dhcpServer && s.ifs[i].dhcps != DhcpStopped)
    requires !(!s.ifs[i].cfg.dhcpServer && s.ifs[i].cfg.dhcpClient && s.ifs[i].dhcpc != DhcpStopped)
    ensures var t := SetIpInfo(s, i, ip);
            && Reports(s, t, i) && i in t.ifs
            && t.ifs[i].announcedIp == ip && t.ifs[i].info == ip && t.ifs[i].lwip == ip
  {
    var f := s.ifs[i];
    var s1 := With(s, i, f.(info := ip));
    AddressPostsIff(s1, i, ip);
    SetAddrEffect(s1, i, ip);
    var s2 := SetAddr(s1, i, ip);
    hide SetAddr;
    assert s2.ifs == s.ifs[i := f.(info := ip, lwip := ip)];
    assert With(s2, i, s2.ifs[i]) == s2;
    WithInv(s, i, f.(info := ip));
    SetAddrInv(s1, i, ip);
    GotIpReports(s2, i, s2.ifs[i]);
    hide Update, Inv;
  }

  // ----- the calls ----------------------------------------------------------

  /** A new interface is down, registered first, and has its configured address on record and as announced. */
  lemma NewEffect(s: Stack, i: Id, c: NetifConfig)
    ensures var t := New(s, i, c);
            if i in s.ifs || (c.dhcpClient && c.dhcpServer) then t == s
            else && OnlyTouches(s, t, i) && t.list == [i] + s.list && i in t.ifs && i !in t.announced
                 && !t.ifs[i].up && t.ifs[i].cfg == c && t.ifs[i].info == t.ifs[i].announcedIp == c.ipInfo
                 && t.ifs[i].lwip == ZERO && !t.ifs[i].timerRunning
                 && t.ifs[i].dhcpc == t.ifs[i].dhcps == DhcpInit && t.last == s.last && t.overridden == s.overridden
  {}

  /** A started interface is up exactly when its configuration says so, with its recorded address.
      Its DHCP server runs if it could be started. It counts as reported if it is up and has
      a server that was started, or neither server nor running client. */
  lemma StartEffect(s: Stack, i: Id, ok: bool)
    requires Inv(s) && i in s.ifs
    ensures var f, t := s.ifs[i], Start(s, i, ok);
            var served := f.cfg.dhcpServer && f.dhcps == DhcpInit && f.cfg.autoUp && ok;
            && OnlyTouches(s, t, i) && t.list == s.list && t.log == s.log
            && t.ifs[i] == f.(up := f.cfg.autoUp, lwip := f.info, dhcps := if served then DhcpStarted else f.dhcps)
            && (i in t.announced <==>
                  f.cfg.autoUp && (served || (!f.cfg.dhcpServer && !(f.cfg.dhcpClient && f.dhcpc != DhcpStopped))))
  {
    var f := s.ifs[i];
    hide Inv;
    StartAnnounced(s, i, ok);
    hide Update;
  }

  lemma StartAnnounced(s: Stack, i: Id, ok: bool)
    requires Inv(s) && i in s.ifs
    ensures var f, t := s.ifs[i], Start(s, i, ok);
            var served := f.cfg.dhcpServer && f.dhcps == DhcpInit && f.cfg.autoUp && ok;
            i in t.announced <==>
              f.cfg.autoUp && (served || (!f.cfg.dhcpServer && !(f.cfg.dhcpClient && f.dhcpc != DhcpStopped)))
  {}

  /** An interface brought up is up and has its recorded address; it is reported unless it
      waits for its DHCP client. Nothing is announced. */
  lemma UpEffect(s: Stack, i: Id)
    requires Inv(s) && i in s.ifs
    ensures var f, t := s.ifs[i], Up(s, i);
            && OnlyTouches(s, t, i) && t.list == s.list && t.log == s.log
            && t.ifs[i] == f.(lwip := f.info, up := true) && t.overridden == s.overridden
            && (if f.cfg.dhcpClient && f.dhcpc != DhcpStopped then t.last == s.last && t.announced == s.announced
                else && t.announced == s.announced + {i}
                     && (!s.overridden ==>
                           t.last == if s.last.Some? && Prio(s.ifs, s.last.value) > Prio(s.ifs, i)
                                     then s.last else Some(i)))
  {
    var s1 := SetAddr(s, i, s.ifs[i].info);
    AddressPostsIff(s, i, s.ifs[i].info);
    SetAddrEffect(s, i, s.ifs[i].info);
    hide SetAddr;
    SetAddrInv(s, i, s.ifs[i].info);
    InList(s, i);
    var s2 := With(s1, i, s1.ifs[i].(up := true));
    if ReportsAtStart(s2.ifs[i]) { BroughtUpChoice(s1, i); }
    hide Update, Inv;
  }

  lemma BroughtUpChoice(s: Stack, i: Id)
    requires Inv(s) && i in s.ifs
    ensures var u := With(s, i, s.ifs[i].(up := true));
            var t := Update(u, i, NetifStarted);
            && t.ifs == u.ifs && t.list == s.list && t.log == s.log && t.overridden == s.overridden
            && t.announced == s.announced + {i}
            && (!s.overridden ==>
                  t.last == if s.last.Some? && Prio(s.ifs, s.last.value) > Prio(s.ifs, i) then s.last else Some(i))
  {}

  /** An interface taken down is down, without an address and no longer reported; its running
      DHCP client is stopped and back in its initial state with the record forgotten. The default
      is chosen anew among all that are up. Nothing is announced. */
  lemma DownEffect(s: Stack, i: Id, supplied: bool)
    requires Inv(s) && i in s.ifs
    ensures var f, t := s.ifs[i], Down(s, i, supplied);
            && OnlyTouches(s, t, i) && t.list == s.list && t.log == s.log
            && !t.ifs[i].up && t.ifs[i].lwip == ZERO && t.announced == s.announced - {i} && Rechosen(s, t, i)
            && t.ifs[i].cfg == f.cfg && t.ifs[i].announcedIp == f.announcedIp && t.ifs[i].dhcps == f.dhcps
            && t.ifs[i].info == (if ClientRuns(f) then ZERO else f.info)
            && t.ifs[i].dhcpc == (if ClientRuns(f) then DhcpInit else f.dhcpc)
            && (f.cfg.dhcpClient ==> t.ifs[i].timerRunning)
  {
    hide Update, Inv, Rechosen, SetAddr, ResetClient, OnlyTouches, TakeDown, StartLostTimer;
    var f := s.ifs[i];
    var s1 := if ClientRuns(f) then ResetClient(s, i, supplied) else s;
    TouchesNothing(s, i);
    if ClientRuns(f) { ResetEffect(s, i, supplied); ResetClientInv(s, i, supplied); }
    SetAddrEffect(s1, i, ZERO);
    SetAddrInv(s1, i, ZERO);
    var s2 := SetAddr(s1, i, ZERO);
    DownTailEffect(s2, i);
    var t := Down(s, i, supplied);
    TouchTrans(s, s1, s2, i);
    TouchTrans(s, s2, t, i);
    SameRechosen(s, s2, t, i);
  }

  lemma TouchesNothing(s: Stack, i: Id)
    ensures OnlyTouches(s, s, i)
  {}

  lemma TouchTrans(a: Stack, b: Stack, c: Stack, i: Id)
    requires OnlyTouches(a, b, i) && OnlyTouches(b, c, i)
    ensures OnlyTouches(a, c, i)
  {}

  lemma SameRechosen(s: Stack, s': Stack, t: Stack, i: Id)
    requires Rechosen(s', t, i) && s'.overridden == s.overridden && s'.last == s.last
    ensures Rechosen(s, t, i)
  {
    hide DefaultOk;
  }

  /** The end of taking an interface down. */
  lemma DownTailEffect(s: Stack, i: Id)
    requires Inv(s) && i in s.ifs
    ensures var u := TakeDown(s, i);
            var v := if u.ifs[i].cfg.dhcpClient then StartLostTimer(u, i) else u;
            var f, t := s.ifs[i], Update(v, i, NetifStopped);
            && OnlyTouches(s, t, i) && t.list == s.list && t.log == s.log && i in t.ifs
            && t.announced == s.announced - {i} && Rechosen(s, t, i)
            && t.ifs[i] == f.(up := false, timerRunning := f.timerRunning || f.cfg.dhcpClient)
  {
    hide Update, Inv, Rechosen;
    var g := s.ifs[i].(timerRunning := true);
    if s.ifs[i].cfg.dhcpClient {
      WithInv(s, i, g);
      TimerCommutes(s, i);
      StoppedUpdate(With(s, i, g), i);
      SameRechosen(s, With(s, i, g), Update(TakeDown(With(s, i, g), i), i, NetifStopped), i);
    } else {
      StoppedUpdate(s, i);
    }
  }

  lemma TimerCommutes(s: Stack, i: Id)
    requires i in s.ifs
    ensures StartLostTimer(TakeDown(s, i), i) == TakeDown(With(s, i, s.ifs[i].(timerRunning := true)), i)
  {
    assert s.ifs[i := s.ifs[i].(up := false)][i := s.ifs[i].(up := false, timerRunning := true)]
        == s.ifs[i := s.ifs[i].(timerRunning := true)][i := s.ifs[i].(timerRunning := true, up := false)];
  }

  lemma ResetEffect(s: Stack, i: Id, supplied: bool)
    requires i in s.ifs
    ensures var f, t := s.ifs[i], ResetClient(s, i, supplied);
            && OnlyTouches(s, t, i) && t.list == s.list && t.log == s.log && t.last == s.last
            && t.overridden == s.overridden && t.announced == s.announced
            && t.ifs[i].dhcpc == DhcpInit && t.ifs[i].info == ZERO && t.ifs[i].up == f.up && t.ifs[i].cfg == f.cfg
            && t.ifs[i].announcedIp == f.announcedIp && t.ifs[i].dhcps == f.dhcps
            && t.ifs[i].lwip == if supplied then ZERO else f.lwip
  {
    SetAddrEffect(s, i, ZERO);
    hide SetAddr;
  }

  /** Stopping an interface that is up takes it down; its DHCP server is back in its initial
      state unless it had been stopped by hand, its client is reset, and the default is chosen
      anew. An interface that is down is left alone. */
  lemma StopEffect(s: Stack, i: Id, supplied: bool, ok: bool)
    requires Inv(s) && i in s.ifs
    ensures var f, t := s.ifs[i], Stop(s, i, supplied, ok);
            if !f.up then t == s
            else && OnlyTouches(s, t, i) && t.list == s.list && t.log == s.log
                 && !t.ifs[i].up && t.announced == s.announced - {i} && Rechosen(s, t, i)
                 && t.ifs[i].cfg == f.cfg && t.ifs[i].announcedIp == f.announcedIp
                 && (if f.cfg.dhcpServer then
                       t.ifs[i] == f.(up := false,
                                      dhcps := if ok && f.dhcps == DhcpStopped then DhcpStopped else DhcpInit)
                     else if f.cfg.dhcpClient then
                       && t.ifs[i].dhcpc == DhcpInit && t.ifs[i].info == ZERO
                       && t.ifs[i].lwip == if supplied then ZERO else f.lwip
                     else t.ifs[i] == f.(up := false))
  {
    hide ResetClient, Inv, Update, Rechosen, OnlyTouches;
    var f := s.ifs[i];
    if f.up {
      TouchesNothing(s, i);
      var s1 := Reset(s, i, supplied, ok);
      var t := Update(TakeDown(s1, i), i, NetifStopped);
      if f.cfg.dhcpServer {
        StopServerFirst(s, i, supplied, ok);
      } else if f.cfg.dhcpClient {
        ResetClientInv(s, i, supplied);
        ResetEffect(s, i, supplied);
      }
      StoppedUpdate(s1, i);
      TakeDownTouches(s1, i);
      TouchTrans(s, s1, t, i);
      SameRechosen(s, s1, t, i);
    }
  }

  /** The DHCP side of a stop. */
  function Reset(s: Stack, i: Id, supplied: bool, ok: bool): Stack
    requires i in s.ifs
  {
    var f := s.ifs[i];
    if f.cfg.dhcpServer then
      With(s, i, f.(dhcps := if ok && f.dhcps == DhcpStopped then DhcpStopped else DhcpInit))
    else if f.cfg.dhcpClient then ResetClient(s, i, supplied)
    else s
  }

  lemma StopServerFirst(s: Stack, i: Id, supplied: bool, ok: bool)
    requires Inv(s) && i in s.ifs && s.ifs[i].cfg.dhcpServer
    ensures var s1 := Reset(s, i, supplied, ok); Inv(s1) && OnlyTouches(s, s1, i)
  {
    hide Inv;
    var f := s.ifs[i];
    WithInv(s, i, f.(dhcps := if ok && f.dhcps == DhcpStopped then DhcpStopped else DhcpInit));
  }

  lemma TakeDownTouches(s: Stack, i: Id)
    requires i in s.ifs
    ensures var t := Update(TakeDown(s, i), i, NetifStopped);
            OnlyTouches(s, t, i) && i in t.ifs && t.ifs[i] == s.ifs[i].(up := false) && t.list == s.list
  {
    hide Update;
  }

  /** A destroyed interface is gone, and the others are what they were. */
  lemma DestroyEffect(s: Stack, i: Id)
    requires Inv(s) && i in s.ifs
    ensures var t := Destroy(s, i); OnlyTouches(s, t, i) && i !in t.ifs && i !in t.list && t.log == s.log
  {
    DestroyFacts(s, i);
    hide Update, Inv, Without;
  }

  /** The lost-IP timer: it no longer runs; if the interface still has no address, none counts as
      announced any more, the record is forgotten if the DHCP client is running, and the
      default is chosen anew. */
  lemma LostTimerEffect(s: Stack, i: Id)
    requires Inv(s) && i in s.ifs
    ensures var f, t := s.ifs[i], LostTimer(s, i);
            && OnlyTouches(s, t, i) && t.list == s.list && t.overridden == s.overridden
            && (if f.lwip.ip != 0 then t.ifs[i] == f.(timerRunning := false) && t.log == s.log && t.last == s.last
                else && t.ifs[i] == f.(timerRunning := false, announcedIp := ZERO,
                                       info := if ClientRuns(f) then ZERO else f.info)
                     && t.log == s.log + [LostIp(i)]
                     && (if s.overridden then t.last == s.last else DefaultOk(t, All(t))))
  {
    hide Update, LostTimer, DefaultOk;
    InList(s, i);
    LostRecord(s, i);
    if s.ifs[i].lwip.ip == 0 { LostChoice(s, i); }
  }

  lemma LostRecord(s: Stack, i: Id)
    requires i in s.ifs && i in s.list
    ensures var f, t := s.ifs[i], LostTimer(s, i);
            && OnlyTouches(s, t, i) && t.list == s.list && i in t.ifs
            && (if f.lwip.ip != 0 then t == With(s, i, f.(timerRunning := false))
                else && t.ifs[i] == f.(timerRunning := false, announcedIp := ZERO,
                                       info := if ClientRuns(f) then ZERO else f.info)
                     && t.log == s.log + [LostIp(i)])
  {
    hide Update;
  }

  lemma LostChoice(s: Stack, i: Id)
    requires Inv(s) && i in s.ifs && i in s.list && s.ifs[i].lwip.ip == 0
    ensures var t := LostTimer(s, i);
            && t.overridden == s.overridden && (if s.overridden then t.last == s.last else DefaultOk(t, All(t)))
  {
    var s1 := With(s, i, s.ifs[i].(timerRunning := false));
    assert Wf(s1);
    LostUpdate(s1, i);
    hide Update, DefaultOk, Wf;
    var s2, t := Update(s1, i, NetifLostIp), LostTimer(s, i);
    var f := s2.ifs[i].(announcedIp := ZERO);
    assert t.ifs == s2.ifs[i := if ClientRuns(f) then f.(info := ZERO) else f];
    assert t.list == s2.list && t.last == s2.last && t.overridden == s2.overridden;
    hide LostTimer;
    SameChoice(s2, t);
  }

  lemma LostUpdate(s: Stack, i: Id)
    requires Wf(s) && i in s.list && (s.overridden ==> s.last.Some?)
    ensures var t := Update(s, i, NetifLostIp);
            && t.overridden == s.overridden && (if s.overridden then t.last == s.last else DefaultOk(t, All(t)))
  {
    if s.overridden { OverrideHolds(s, i, NetifLostIp); } else { UpdateScans(s, i, NetifLostIp); }
  }

  lemma SameChoice(s: Stack, t: Stack)
    requires t.list == s.list && t.last == s.last && t.ifs.Keys == s.ifs.Keys
    requires forall j :: j in s.ifs ==> t.ifs[j].up == s.ifs[j].up && t.ifs[j].cfg == s.ifs[j].cfg
    ensures DefaultOk(s, All(s)) ==> DefaultOk(t, All(t))
  {
    assert forall j :: IsUp(t.ifs, j) == IsUp(s.ifs, j) && Prio(t.ifs, j) == Prio(s.ifs, j);
    assert All(t) == All(s);
  }

  /** The DHCP client: started on an interface that is up it runs if lwIP could start it, and the
      address is forgotten; stopped while it runs it leaves no record behind. */
  lemma ClientEffect(s: Stack, i: Id, ok: bool, supplied: bool)
    requires i in s.ifs
    ensures var f, t := s.ifs[i], DhcpcStart(s, i, ok);
            && OnlyTouches(s, t, i) && t.log == s.log && t.last == s.last
            && (if f.dhcpc == DhcpStarted then t == s
                else && t.ifs[i].info == ZERO && t.ifs[i].up == f.up && t.ifs[i].announcedIp == f.announcedIp
                     && (f.up ==> t.ifs[i].lwip == ZERO && t.ifs[i].timerRunning
                                  && t.ifs[i].dhcpc == if ok then DhcpStarted else f.dhcpc)
                     && (!f.up ==> t.ifs[i].lwip == f.lwip && t.ifs[i].dhcpc == DhcpInit))
    ensures var f, t := s.ifs[i], DhcpcStop(s, i, supplied);
            && OnlyTouches(s, t, i) && t.log == s.log && t.last == s.last
            && t.ifs[i].dhcpc == DhcpStopped && t.ifs[i].up == f.up && t.ifs[i].announcedIp == f.announcedIp
            && (if f.dhcpc == DhcpStarted then
                  && t.ifs[i].info == ZERO && t.ifs[i].timerRunning
                  && t.ifs[i].lwip == if supplied then ZERO else f.lwip
                else t.ifs[i] == f.(dhcpc := DhcpStopped))
  {
    SetAddrEffect(s, i, ZERO);
    hide SetAddr;
  }

  /** The DHCP server: started it runs exactly on an interface that is up and if `dhcps_start`
      succeeds; stopped it is stopped, unless it runs and cannot be stopped. */
  lemma ServerEffect(s: Stack, i: Id, ok: bool)
    requires i in s.ifs
    ensures var f, t := s.ifs[i], DhcpsStart(s, i, ok);
            && OnlyTouches(s, t, i) && t.log == s.log && t.last == s.last && t.ifs[i] == f.(dhcps := t.ifs[i].dhcps)
            && (t.ifs[i].dhcps == DhcpStarted <==> f.dhcps == DhcpStarted || (f.up && ok))
            && t.ifs[i].dhcps != DhcpStopped
    ensures var f, t := s.ifs[i], DhcpsStop(s, i, ok);
            && OnlyTouches(s, t, i) && t.log == s.log && t.last == s.last && t.ifs[i] == f.(dhcps := t.ifs[i].dhcps)
            && (t.ifs[i].dhcps == DhcpStopped <==> f.dhcps != DhcpStarted || ok)
            && (t.ifs[i].dhcps != DhcpStopped ==> t == s)
  {}

  /** Every step changes only its own interface. */
  lemma StepTouches(s: Stack, e: Event)
    requires Inv(s)
    ensures OnlyTouches(s, Step(s, e), e.id)
  {
    hide Inv, New, Start, Up, Down, Stop, Destroy, LostTimer, SetIpInfo, SetAddr, DhcpcStart, DhcpcStop, DhcpsStart;
    hide DhcpsStop, Connected, Announce, Update;
    if e.ENew? {
      NewEffect(s, e.id, e.c);
    } else if e.id in s.ifs {
      match e
      case EStart(i, ok) => StartEffect(s, i, ok);
      case EUp(i) => UpEffect(s, i);
      case EDown(i, supplied) => DownEffect(s, i, supplied);
      case EStop(i, supplied, ok) => StopEffect(s, i, supplied, ok);
      case EDestroy(i) => DestroyEffect(s, i);
      case ELostTimer(i) => LostTimerEffect(s, i);
      case ESetIpInfo(i, ip) => SetInfoTouches(s, i, ip);
      case EAddress(i, ip) => SetAddrEffect(s, i, ip);
      case EDhcpcStart(i, ok) => ClientEffect(s, i, ok, false);
      case EDhcpcStop(i, supplied) => ClientEffect(s, i, false, supplied);
      case EDhcpsStart(i, ok) => ServerEffect(s, i, ok);
      case EDhcpsStop(i, ok) => ServerEffect(s, i, ok);
      case EConnected(i, ok) => ConnectedTouches(s, i, ok);
      case EStatic(i) => AnnounceTouches(s, i, s.ifs[i].lwip);
      case ESetDefault(i) => ChoiceTouchesNone(s, i);
    }
  }

  lemma ChoiceTouchesNone(s: Stack, i: Id)
    ensures OnlyTouches(s, Update(s, i, SetDefault), i)
  {}

  lemma AnnounceTouches(s: Stack, i: Id, ip: IpInfo)
    requires i in s.ifs
    ensures var t := Announce(s, i, ip); OnlyTouches(s, t, i) && t.ifs[i] == s.ifs[i].(announcedIp := ip)
  {}

  lemma SetInfoTouches(s: Stack, i: Id, ip: IpInfo)
    requires i in s.ifs
    ensures OnlyTouches(s, SetIpInfo(s, i, ip), i)
  {
    hide Update, Announce, SetAddr;
    var s1 := With(s, i, s.ifs[i].(info := ip));
    SetAddrEffect(s1, i, ip);
    AnnounceTouches(Update(SetAddr(s1, i, ip), i, NetifGotIp), i, ip);
  }

  lemma ConnectedTouches(s: Stack, i: Id, ok: bool)
    requires Inv(s) && i in s.ifs
    ensures OnlyTouches(s, Connected(s, i, ok), i)
  {
    hide Up, DhcpcStart, DhcpcStop, Announce, Inv;
    UpEffect(s, i);
    var s1 := Up(s, i);
    ClientEffect(s1, i, ok, false);
    AnnounceTouches(s1, i, s1.ifs[i].lwip);
  }
}
