/** Network interfaces of esp-netif: the registered interfaces, their up/down
    state and addresses, the choice of the default interface, and the IP events
    that are posted. Every API call is a function from state to state. */
module Netif {
  import opened Words

  type Id = nat

  datatype DhcpStatus = DhcpInit | DhcpStarted | DhcpStopped

  /** Address, netmask and gateway. */
  datatype IpInfo = IpInfo(ip: u32, netmask: u32, gw: u32)

  const ZERO: IpInfo := IpInfo(0, 0, 0)

  /** The configuration an interface is created with. */
  datatype NetifConfig = NetifConfig(
    dhcpClient: bool, dhcpServer: bool, autoUp: bool, eventIpModified: bool, prio: int, ipInfo: IpInfo)

  /** One interface. `up` and `lwip` are the flag and the address of the lwIP
      interface beneath it; `announcedIp`
      is the last address announced. */
  datatype Interface = Interface(
    cfg: NetifConfig, up: bool, lwip: IpInfo, info: IpInfo, announcedIp: IpInfo,
    dhcpc: DhcpStatus, dhcps: DhcpStatus, timerRunning: bool)

  /** What is posted, and what resets the record of announced addresses. */
  datatype Note = Created(id: Id, ip: IpInfo) | GotIp(id: Id, ip: IpInfo, changed: bool) | LostIp(id: Id)

  /** The list of registered interfaces, the default interface with its manual
      override flag, the notes so far, and, as history, which interfaces have
      been reported to the route selection since they last came up. */
  datatype Stack = Stack(
    list: seq<Id>, ifs: map<Id, Interface>, last: Option<Id>, overridden: bool,
    log: seq<Note>, announced: set<Id>)

  predicate Distinct(list: seq<Id>) { forall i, j :: 0 <= i < j < |list| ==> list[i] != list[j] }

  /** The list and the interface records agree, and the default is registered. */
  ghost predicate Wf(s: Stack) {
    && Distinct(s.list) && (forall i :: i in s.list <==> i in s.ifs)
    && (s.last.Some? ==> s.last.value in s.list)
  }

  predicate IsUp(ifs: map<Id, Interface>, i: Id) { i in ifs && ifs[i].up }

  function Prio(ifs: map<Id, Interface>, i: Id): int { if i in ifs then ifs[i].cfg.prio else 0 }

  function With(s: Stack, i: Id, f: Interface): Stack { s.(ifs := s.ifs[i := f]) }

  /** A manual choice whose interface is registered. */
  predicate Held(s: Stack) { s.overridden && s.last.Some? && s.last.value in s.list }

  /** The manual choice, if there is one, is as it was. */
  predicate KeepsChoice(s: Stack, r: Stack) { Held(s) ==> r.overridden && r.last == s.last }

  // ----- the default interface ----------------------------------------------

  datatype Action = NetifStarted | NetifGotIp | NetifStopped | NetifLostIp | SetDefault

  function Active(s: Stack, o: Option<Id>): Option<Id> {
    if o.Some? && o.value in s.list then o else None
  }

  /** The choice between the best so far and the next interface of the list. */
  function Better(ifs: map<Id, Interface>, best: Option<Id>, n: Id): Option<Id> {
    if !IsUp(ifs, n) then best
    else if best.Some? && IsUp(ifs, best.value) then
      if Prio(ifs, n) > Prio(ifs, best.value) then Some(n) else best
    else Some(n)
  }

  /** The loop over the registered interfaces: the first one up with the highest priority. */
  function Scan(list: seq<Id>, ifs: map<Id, Interface>, k: nat, best: Option<Id>): Option<Id>
    requires k <= |list|
    decreases |list| - k
  {
    if k == |list| then best else Scan(list, ifs, k + 1, Better(ifs, best, list[k]))
  }

  /** An interface that is up has been reported when it has started or got its address. */
  function Reported(s: Stack, i: Id, action: Action): Stack {
    if (action == NetifStarted || action == NetifGotIp) && IsUp(s.ifs, i) then s.(announced := s.announced + {i}) else s
  }

  function UpdateAuto(s: Stack, i: Id, action: Action): (r: Stack)
    ensures r.ifs == s.ifs && r.list == s.list && r.log == s.log
  {
    match action
    case SetDefault => s.(last := Some(i), overridden := true)
    case NetifStarted | NetifGotIp =>
      var last := Active(s, s.last);
      var s' := Reported(s, i, action);
      if last.Some? && IsUp(s.ifs, last.value) && Prio(s.ifs, last.value) > Prio(s.ifs, i) then s'.(last := last)
      else if IsUp(s.ifs, i) then s'.(last := Some(i))
      else s'.(last := last)
    case NetifStopped | NetifLostIp => s.(last := Scan(s.list, s.ifs, 0, None))
  }

  /** `esp_netif_update_default_netif_lwip`. */
  function Update(s: Stack, i: Id, action: Action): (r: Stack)
    ensures r.ifs == s.ifs && r.list == s.list && r.log == s.log
    ensures action != SetDefault ==> KeepsChoice(s, r)
  {
    if s.overridden && action != SetDefault then
      var last := Active(s, s.last);
      if last.Some? then Reported(s.(last := last), i, action)
      else UpdateAuto(s.(last := None, overridden := false), i, action)
    else UpdateAuto(s, i, action)
  }

  // ----- addresses ----------------------------------------------------------

  /** `esp_netif_start_ip_lost_timer`; the interval is configured to be positive. */
  function StartLostTimer(s: Stack, i: Id): (r: Stack)
    requires i in s.ifs
    ensures r.ifs.Keys == s.ifs.Keys && r.list == s.list && KeepsChoice(s, r)
  {
    With(s, i, s.ifs[i].(timerRunning := true))
  }

  /** Post a got-IP event for `ip` and remember it as announced. */
  function Announce(s: Stack, i: Id, ip: IpInfo): (r: Stack)
    requires i in s.ifs
    ensures r.ifs.Keys == s.ifs.Keys && r.list == s.list && KeepsChoice(s, r)
  {
    var changed := ip != s.ifs[i].announcedIp;
    With(s, i, s.ifs[i].(announcedIp := ip)).(log := s.log + [GotIp(i, ip, changed)])
  }

  predicate DhcpActive(f: Interface) { f.cfg.dhcpClient && f.dhcpc == DhcpStarted }

  /** `esp_netif_internal_dhcpc_cb`. */
  function AddressCallback(s: Stack, i: Id): (r: Stack)
    requires i in s.ifs
    ensures r.ifs.Keys == s.ifs.Keys && r.list == s.list && KeepsChoice(s, r)
  {
    var f := s.ifs[i];
    if f.lwip.ip != 0 then
      if f.lwip != f.info then
        Announce(Update(With(s, i, f.(info := f.lwip)), i, NetifGotIp), i, f.lwip)
      else s
    else if f.info.ip != 0 then
      var s1 := StartLostTimer(s, i);
      if DhcpActive(f) then With(s1, i, s1.ifs[i].(info := ZERO)) else s1
    else s
  }

  /** lwIP's `netif_set_addr`, which calls back when something changed. */
  function SetAddr(s: Stack, i: Id, ip: IpInfo): (r: Stack)
    requires i in s.ifs
    ensures r.ifs.Keys == s.ifs.Keys && r.list == s.list && KeepsChoice(s, r)
  {
    if s.ifs[i].lwip == ip then s else AddressCallback(With(s, i, s.ifs[i].(lwip := ip)), i)
  }

  /** lwIP's `dhcp_stop`: the address is removed if the DHCP client had supplied it. */
  function DhcpStop(s: Stack, i: Id, supplied: bool): (r: Stack)
    requires i in s.ifs
    ensures r.ifs.Keys == s.ifs.Keys && r.list == s.list && KeepsChoice(s, r)
  {
    if supplied then SetAddr(s, i, ZERO) else s
  }

  // ----- the API ------------------------------------------------------------

  /** `esp_netif_new`: DHCP client and server cannot be configured together. */
  function New(s: Stack, i: Id, c: NetifConfig): Stack {
    if i in s.ifs || (c.dhcpClient && c.dhcpServer) then s
    else
      With(s, i, Interface(c, false, ZERO, c.ipInfo, c.ipInfo, DhcpInit, DhcpInit, false))
        .(list := [i] + s.list, log := s.log + [Created(i, c.ipInfo)], announced := s.announced - {i})
  }

  /** Interfaces with an active DHCP client are reported only once they have an address. */
  predicate ReportsAtStart(f: Interface) { !(f.cfg.dhcpClient && f.dhcpc != DhcpStopped) }

  /** `esp_netif_start`: lwIP's `netif_add` resets the flags; `serverOk` is the result of `dhcps_start`. */
  function Start(s: Stack, i: Id, serverOk: bool): (r: Stack)
    requires i in s.ifs
    ensures r.ifs.Keys == s.ifs.Keys && r.list == s.list && KeepsChoice(s, r)
  {
    var f := s.ifs[i];
    var s1 := With(s, i, f.(up := f.cfg.autoUp, lwip := f.info)).(announced := s.announced - {i});
    if f.cfg.dhcpServer then
      if f.dhcps == DhcpInit && f.cfg.autoUp && serverOk then
        Update(With(s1, i, s1.ifs[i].(dhcps := DhcpStarted)), i, NetifStarted)
      else s1
    else if ReportsAtStart(f) then Update(s1, i, NetifStarted) else s1
  }

  /** `esp_netif_up`. */
  function Up(s: Stack, i: Id): (r: Stack)
    requires i in s.ifs
    ensures r.ifs.Keys == s.ifs.Keys && r.list == s.list && KeepsChoice(s, r)
  {
    var s1 := SetAddr(s, i, s.ifs[i].info);
    var s2 := With(s1, i, s1.ifs[i].(up := true));
    if ReportsAtStart(s2.ifs[i]) then Update(s2, i, NetifStarted) else s2
  }

  function TakeDown(s: Stack, i: Id): (r: Stack)
    requires i in s.ifs
    ensures r.ifs.Keys == s.ifs.Keys && r.list == s.list && KeepsChoice(s, r)
  {
    With(s, i, s.ifs[i].(up := false)).(announced := s.announced - {i})
  }

  /** The DHCP client stopped and back in its initial state, the address forgotten. */
  function ResetClient(s: Stack, i: Id, supplied: bool): (r: Stack)
    requires i in s.ifs
    ensures r.ifs.Keys == s.ifs.Keys && r.list == s.list && KeepsChoice(s, r)
  {
    var s1 := DhcpStop(s, i, supplied);
    With(s1, i, s1.ifs[i].(dhcpc := DhcpInit, info := ZERO))
  }

  /** `esp_netif_down`. */
  function Down(s: Stack, i: Id, supplied: bool): (r: Stack)
    requires i in s.ifs
    ensures r.ifs.Keys == s.ifs.Keys && r.list == s.list && KeepsChoice(s, r)
  {
    var s1 := if DhcpActive(s.ifs[i]) then ResetClient(s, i, supplied) else s;
    var s2 := TakeDown(SetAddr(s1, i, ZERO), i);
    var s3 := if s2.ifs[i].cfg.dhcpClient then StartLostTimer(s2, i) else s2;
    Update(s3, i, NetifStopped)
  }

  /** `esp_netif_stop`; `serverOk` is the result of `dhcps_stop`. */
  function Stop(s: Stack, i: Id, supplied: bool, serverOk: bool): (r: Stack)
    requires i in s.ifs
    ensures r.ifs.Keys == s.ifs.Keys && r.list == s.list && KeepsChoice(s, r)
  {
    if !s.ifs[i].up then s
    else
      var f := s.ifs[i];
      var s1 :=
        if f.cfg.dhcpServer then
          With(s, i, f.(dhcps := if serverOk && f.dhcps == DhcpStopped then DhcpStopped else DhcpInit))
        else if f.cfg.dhcpClient then ResetClient(s, i, supplied)
        else s;
      Update(TakeDown(s1, i), i, NetifStopped)
  }

  function Without(list: seq<Id>, i: Id): seq<Id> {
    if list == [] then [] else if list[0] == i then list[1..] else [list[0]] + Without(list[1..], i)
  }

  /** `esp_netif_destroy`. */
  function Destroy(s: Stack, i: Id): Stack
    requires i in s.ifs
  {
    var s1 := Update(TakeDown(s.(list := Without(s.list, i)), i), i, NetifStopped);
    s1.(ifs := s1.ifs - {i})
  }

  /** `esp_netif_ip_lost_timer`: the address is still missing when the timer fires. */
  function LostTimer(s: Stack, i: Id): (r: Stack)
    ensures KeepsChoice(s, r)
  {
    if i !in s.ifs || i !in s.list then s
    else
      var s1 := With(s, i, s.ifs[i].(timerRunning := false));
      if s1.ifs[i].lwip.ip != 0 then s1
      else
        var s2 := Update(s1, i, NetifLostIp);
        var f := s2.ifs[i].(announcedIp := ZERO);
        With(s2, i, if DhcpActive(f) then f.(info := ZERO) else f).(log := s2.log + [LostIp(i)])
  }

  /** `esp_netif_set_ip_info`. */
  function SetIpInfo(s: Stack, i: Id, ip: IpInfo): (r: Stack)
    requires i in s.ifs
    ensures r.ifs.Keys == s.ifs.Keys && r.list == s.list && KeepsChoice(s, r)
  {
    var f := s.ifs[i];
    if (f.cfg.dhcpServer && f.dhcps != DhcpStopped) ||
       (!f.cfg.dhcpServer && f.cfg.dhcpClient && f.dhcpc != DhcpStopped) then s
    else
      var s1 := With(s, i, f.(info := ip));
      if !f.up then s1
      else
        var s2 := SetAddr(s1, i, ip);
        if f.cfg.eventIpModified && ip.ip != 0 then Announce(Update(s2, i, NetifGotIp), i, ip) else s2
  }

  /** `esp_netif_dhcpc_start`; `ok` is the result of lwIP's `dhcp_start`. */
  function DhcpcStart(s: Stack, i: Id, ok: bool): (r: Stack)
    requires i in s.ifs
    ensures r.ifs.Keys == s.ifs.Keys && r.list == s.list && KeepsChoice(s, r)
  {
    var f := s.ifs[i];
    if f.dhcpc == DhcpStarted then s
    else if f.up then
      With(s, i, f.(info := ZERO, lwip := ZERO, timerRunning := true, dhcpc := if ok then DhcpStarted else f.dhcpc))
    else With(s, i, f.(info := ZERO, dhcpc := DhcpInit))
  }

  /** `esp_netif_dhcpc_stop`. */
  function DhcpcStop(s: Stack, i: Id, supplied: bool): (r: Stack)
    requires i in s.ifs
    ensures r.ifs.Keys == s.ifs.Keys && r.list == s.list && KeepsChoice(s, r)
  {
    if s.ifs[i].dhcpc == DhcpStarted then
      var s1 := DhcpStop(s, i, supplied);
      With(s1, i, s1.ifs[i].(info := ZERO, timerRunning := true, dhcpc := DhcpStopped))
    else With(s, i, s.ifs[i].(dhcpc := DhcpStopped))
  }

  /** `esp_netif_dhcps_start`; `ok` is the result of `dhcps_start`. */
  function DhcpsStart(s: Stack, i: Id, ok: bool): (r: Stack)
    requires i in s.ifs
    ensures r.ifs.Keys == s.ifs.Keys && r.list == s.list && KeepsChoice(s, r)
  {
    var f := s.ifs[i];
    if f.dhcps == DhcpStarted then s
    else With(s, i, f.(dhcps := if f.up && ok then DhcpStarted else DhcpInit))
  }

  /** `esp_netif_dhcps_stop`; `ok` is the result of `dhcps_stop`. */
  function DhcpsStop(s: Stack, i: Id, ok: bool): (r: Stack)
    requires i in s.ifs
    ensures r.ifs.Keys == s.ifs.Keys && r.list == s.list && KeepsChoice(s, r)
  {
    var f := s.ifs[i];
    if f.dhcps == DhcpStarted && !ok then s else With(s, i, f.(dhcps := DhcpStopped))
  }

  predicate ValidStatic(ip: IpInfo) { ip.ip != 0 && ip.netmask != 0 }

  /** The end of `esp_netif_action_connected` for a stopped DHCP client: a valid static address is announced. */
  function AnnounceStatic(s: Stack, i: Id): (r: Stack)
    requires i in s.ifs
    ensures r.ifs.Keys == s.ifs.Keys && r.list == s.list && KeepsChoice(s, r)
  {
    if ValidStatic(s.ifs[i].lwip) then Announce(s, i, s.ifs[i].lwip) else s
  }

  /** `esp_netif_action_connected` when nothing comes between its calls. */
  function Connected(s: Stack, i: Id, ok: bool): (r: Stack)
    requires i in s.ifs
    ensures r.ifs.Keys == s.ifs.Keys && r.list == s.list && KeepsChoice(s, r)
  {
    var s1 := Up(s, i);
    var f := s1.ifs[i];
    if !f.cfg.dhcpClient then s1
    else if f.dhcpc == DhcpInit then DhcpcStart(s1, i, ok)
    else if f.dhcpc == DhcpStopped then AnnounceStatic(s1, i)
    else s1
  }

  // ----- runs ---------------------------------------------------------------

  datatype Event =
    | ENew(id: Id, c: NetifConfig)
    | EStart(id: Id, serverOk: bool)
    | EUp(id: Id)
    | EDown(id: Id, supplied: bool)
    | EStop(id: Id, supplied: bool, serverOk: bool)
    | EDestroy(id: Id)
    | ELostTimer(id: Id)
    | ESetIpInfo(id: Id, ip: IpInfo)
    | EAddress(id: Id, ip: IpInfo)
    | EDhcpcStart(id: Id, ok: bool)
    | EDhcpcStop(id: Id, supplied: bool)
    | EDhcpsStart(id: Id, ok: bool)
    | EDhcpsStop(id: Id, ok: bool)
    | EConnected(id: Id, ok: bool)
    | EStatic(id: Id)
    | ESetDefault(id: Id)

  /** One API call, timer firing or address change made by lwIP; calls for
      interfaces that do not exist do nothing. */
  function Step(s: Stack, e: Event): Stack {
    if e.ENew? then New(s, e.id, e.c)
    else if e.id !in s.ifs then s
    else
      match e
      case ENew(_, _) => s
      case EStart(i, ok) => Start(s, i, ok)
      case EUp(i) => Up(s, i)
      case EDown(i, supplied) => Down(s, i, supplied)
      case EStop(i, supplied, ok) => Stop(s, i, supplied, ok)
      case EDestroy(i) => Destroy(s, i)
      case ELostTimer(i) => LostTimer(s, i)
      case ESetIpInfo(i, ip) => SetIpInfo(s, i, ip)
      case EAddress(i, ip) => SetAddr(s, i, ip)
      case EDhcpcStart(i, ok) => DhcpcStart(s, i, ok)
      case EDhcpcStop(i, supplied) => DhcpcStop(s, i, supplied)
      case EDhcpsStart(i, ok) => DhcpsStart(s, i, ok)
      case EDhcpsStop(i, ok) => DhcpsStop(s, i, ok)
      case EConnected(i, ok) => Connected(s, i, ok)
      case EStatic(i) => AnnounceStatic(s, i)
      case ESetDefault(i) => Update(s, i, SetDefault)
  }

  function Run(s: Stack, es: seq<Event>): Stack
    decreases |es|
  {
    if es == [] then s else Run(Step(s, es[0]), es[1..])
  }

  const EMPTY: Stack := Stack([], map[], None, false, [], {})
}
