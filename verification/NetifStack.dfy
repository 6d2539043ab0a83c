/** The interface registry and its API as an object updated in place: the
    linked list of interfaces with its counter (held as a sequence), the static
    variables of the default-interface choice, and the per-interface records.
    Each method is proved to do what the function of the same name in `Netif` says. */
module NetifStack {
  import opened Words
  import opened Netif

  /** The interface after `o` in the list, the first one for no interface. */
  function After(list: seq<Id>, o: Option<Id>): Option<Id> {
    if list == [] then None
    else if o.None? then Some(list[0])
    else if list[0] == o.value then (if |list| > 1 then Some(list[1]) else None)
    else After(list[1..], o)
  }

  lemma {:induction false} AfterIndex(list: seq<Id>, k: nat)
    requires Distinct(list) && k < |list|
    ensures After(list, Some(list[k])) == if k + 1 < |list| then Some(list[k + 1]) else None
  {
    if k > 0 {
      assert list[0] != list[k];
      AfterIndex(list[1..], k - 1);
    }
  }

  lemma {:induction false} WithoutAt(list: seq<Id>, k: nat)
    requires k < |list| && forall j :: 0 <= j < k ==> list[j] != list[k]
    ensures Without(list, list[k]) == list[..k] + list[k + 1..]
  {
    if k > 0 {
      assert list[0] != list[k];
      WithoutAt(list[1..], k - 1);
      assert list[1..][..k - 1] == list[1..k] && list[1..][k..] == list[k + 1..];
      assert [list[0]] + list[1..k] == list[..k];
    }
  }

  lemma {:induction false} WithoutNone(list: seq<Id>, i: Id)
    requires i !in list
    ensures Without(list, i) == list
  {
    if list != [] { WithoutNone(list[1..], i); }
  }

  class Registry {
    var list: seq<Id>
    var count: nat
    var ifs: map<Id, Interface>
    var last: Option<Id>
    var overridden: bool
    var log: seq<Note>
    ghost var announced: set<Id>

    ghost predicate Valid()
      reads this
    {
      Distinct(list) && count == |list|
    }

    ghost function View(): Stack
      reads this
    {
      Stack(list, ifs, last, overridden, log, announced)
    }

    constructor ()
      ensures Valid() && View() == EMPTY
    {
      list, count, ifs, last, overridden, log, announced := [], 0, map[], None, false, [], {};
    }

    // ----- the list ---------------------------------------------------------

    /** `esp_netif_add_to_list_unsafe`: at the head. */
    method AddToList(i: Id)
      requires Valid() && i !in list
      modifies this`list, this`count
      ensures Valid() && list == [i] + old(list)
    {
      list := [i] + list;
      count := count + 1;
    }

    /** `esp_netif_remove_from_list_unsafe`. */
    method RemoveFromList(i: Id) returns (found: bool)
      requires Valid()
      modifies this`list, this`count
      ensures Valid() && list == Without(old(list), i) && (found <==> i in old(list))
    {
      var k := 0;
      while k < |list|
        invariant k <= |list| && i !in list[..k]
      {
        if list[k] == i {
          WithoutAt(list, k);
          list := list[..k] + list[k + 1..];
          count := count - 1;
          return true;
        }
        k := k + 1;
      }
      WithoutNone(list, i);
      return false;
    }

    /** `esp_netif_next_unsafe`. */
    method Next(o: Option<Id>) returns (r: Option<Id>)
      ensures r == After(list, o)
    {
      if o.None? {
        return if list == [] then None else Some(list[0]);
      }
      var k := 0;
      assert list[0..] == list;
      while k < |list|
        invariant k <= |list| && After(list[k..], o) == After(list, o)
      {
        assert list[k..][1..] == list[k + 1..];
        if list[k] == o.value {
          return if k + 1 < |list| then Some(list[k + 1]) else None;
        }
        k := k + 1;
      }
      return None;
    }

    /** `esp_netif_is_netif_listed`. */
    method IsListed(i: Id) returns (r: bool)
      ensures r <==> i in list
    {
      for k := 0 to |list|
        invariant i !in list[..k]
      {
        if list[k] == i { return true; }
      }
      return false;
    }

    // ----- the default interface --------------------------------------------

    method CheckActive()
      modifies this`last
      ensures last == Active(old(View()), old(last))
    {
      if last.Some? {
        var listed := IsListed(last.value);
        if !listed { last := None; }
      }
    }

    /** The scan made when an interface has gone down or lost its address. */
    method ScanAll()
      requires Valid()
      modifies this`last
      ensures last == Scan(list, ifs, 0, None)
    {
      last := None;
      var n := Next(None);
      ghost var k := 0;
      while n.Some?
        invariant k <= |list| && n == (if k < |list| then Some(list[k]) else None)
        invariant Scan(list, ifs, k, last) == Scan(list, ifs, 0, None)
        decreases |list| - k
      {
        if IsUp(ifs, n.value) {
          if last.Some? && IsUp(ifs, last.value) {
            if Prio(ifs, n.value) > Prio(ifs, last.value) { last := n; }
          } else {
            last := n;
          }
        }
        AfterIndex(list, k);
        n := Next(n);
        k := k + 1;
      }
    }

    /** `esp_netif_update_default_netif_lwip`. */
    method UpdateDefault(i: Id, action: Action)
      requires Valid()
      modifies this`last, this`overridden, this`announced
      ensures View() == Update(old(View()), i, action)
    {
      if overridden && action != SetDefault {
        CheckActive();
        if last.Some? {
          announced := Reported(View(), i, action).announced;
          return;
        }
        overridden := false;
      }
      match action
      case SetDefault =>
        last := Some(i);
        overridden := true;
      case NetifStarted | NetifGotIp =>
        CheckActive();
        if last.Some? && IsUp(ifs, last.value) && Prio(ifs, last.value) > Prio(ifs, i) {
        } else if IsUp(ifs, i) {
          last := Some(i);
        }
        if IsUp(ifs, i) { announced := announced + {i}; }
      case NetifStopped | NetifLostIp =>
        ScanAll();
    }

    // ----- addresses --------------------------------------------------------

    method Put(i: Id, f: Interface)
      modifies this`ifs
      ensures View() == With(old(View()), i, f)
    {
      ifs := ifs[i := f];
    }

    method PostGotIp(i: Id, ip: IpInfo)
      requires i in ifs
      modifies this`ifs, this`log
      ensures View() == Announce(old(View()), i, ip)
    {
      var changed := ip != ifs[i].announcedIp;
      ifs := ifs[i := ifs[i].(announcedIp := ip)];
      log := log + [GotIp(i, ip, changed)];
    }

    /** `esp_netif_internal_dhcpc_cb`. */
    method OnAddress(i: Id)
      requires Valid() && i in ifs
      modifies this`ifs, this`last, this`overridden, this`log, this`announced
      ensures View() == AddressCallback(old(View()), i)
    {
      hide Update;
      var f := ifs[i];
      if f.lwip.ip != 0 {
        if f.lwip != f.info {
          Put(i, f.(info := f.lwip));
          UpdateDefault(i, NetifGotIp);
          PostGotIp(i, f.lwip);
        }
      } else if f.info.ip != 0 {
        Put(i, f.(timerRunning := true));
        if DhcpActive(f) { Put(i, ifs[i].(info := ZERO)); }
      }
    }

    /** lwIP's `netif_set_addr` with its callback. */
    method Assign(i: Id, ip: IpInfo)
      requires Valid() && i in ifs
      modifies this`ifs, this`last, this`overridden, this`log, this`announced
      ensures View() == SetAddr(old(View()), i, ip)
    {
      hide AddressCallback;
      if ifs[i].lwip != ip {
        Put(i, ifs[i].(lwip := ip));
        OnAddress(i);
      }
    }

    method StopClient(i: Id, supplied: bool)
      requires Valid() && i in ifs
      modifies this`ifs, this`last, this`overridden, this`log, this`announced
      ensures View() == ResetClient(old(View()), i, supplied)
    {
      hide SetAddr;
      if supplied { Assign(i, ZERO); }
      Put(i, ifs[i].(dhcpc := DhcpInit, info := ZERO));
    }

    method LowerFlag(i: Id)
      requires i in ifs
      modifies this`ifs, this`announced
      ensures View() == TakeDown(old(View()), i)
    {
      ifs := ifs[i := ifs[i].(up := false)];
      announced := announced - {i};
    }

    // ----- the API ----------------------------------------------------------

    method NewInterface(i: Id, c: NetifConfig) returns (ok: bool)
      requires Valid() && (i in list ==> i in ifs)
      modifies this`list, this`count, this`ifs, this`log, this`announced
      ensures Valid() && View() == New(old(View()), i, c)
      ensures ok <==> i !in old(ifs) && !(c.dhcpClient && c.dhcpServer)
    {
      if i in ifs || (c.dhcpClient && c.dhcpServer) { return false; }
      AddToList(i);
      Put(i, Interface(c, false, ZERO, c.ipInfo, c.ipInfo, DhcpInit, DhcpInit, false));
      log := log + [Created(i, c.ipInfo)];
      announced := announced - {i};
      ok := true;
    }

    method StartInterface(i: Id, serverOk: bool)
      requires Valid() && i in ifs
      modifies this`ifs, this`last, this`overridden, this`announced
      ensures View() == Start(old(View()), i, serverOk)
    {
      hide Update;
      var f := ifs[i];
      var up := false;
      if f.cfg.autoUp { up := true; }
      Put(i, f.(up := up, lwip := f.info));
      announced := announced - {i};
      if f.cfg.dhcpServer {
        if f.dhcps == DhcpInit {
          if up {
            if !serverOk { return; }
            Put(i, ifs[i].(dhcps := DhcpStarted));
            UpdateDefault(i, NetifStarted);
          }
        }
        return;
      }
      if !(f.cfg.dhcpClient && f.dhcpc != DhcpStopped) {
        UpdateDefault(i, NetifStarted);
      }
    }

    method BringUp(i: Id)
      requires Valid() && i in ifs
      modifies this`ifs, this`last, this`overridden, this`log, this`announced
      ensures View() == Up(old(View()), i)
    {
      hide Update, SetAddr;
      Assign(i, ifs[i].info);
      Put(i, ifs[i].(up := true));
      if !(ifs[i].cfg.dhcpClient && ifs[i].dhcpc != DhcpStopped) {
        UpdateDefault(i, NetifStarted);
      }
    }

    method BringDown(i: Id, supplied: bool)
      requires Valid() && i in ifs
      modifies this`ifs, this`last, this`overridden, this`log, this`announced
      ensures View() == Down(old(View()), i, supplied)
    {
      hide Update, SetAddr, ResetClient;
      if DhcpActive(ifs[i]) { StopClient(i, supplied); }
      Assign(i, ZERO);
      LowerFlag(i);
      if ifs[i].cfg.dhcpClient { Put(i, ifs[i].(timerRunning := true)); }
      UpdateDefault(i, NetifStopped);
    }

    method StopInterface(i: Id, supplied: bool, serverOk: bool)
      requires Valid() && i in ifs
      modifies this`ifs, this`last, this`overridden, this`log, this`announced
      ensures View() == Stop(old(View()), i, supplied, serverOk)
    {
      hide Update, ResetClient;
      if !ifs[i].up { return; }
      var f := ifs[i];
      if f.cfg.dhcpServer {
        var status := f.dhcps;
        if !serverOk || status != DhcpStopped { status := DhcpInit; }
        Put(i, f.(dhcps := status));
      } else if f.cfg.dhcpClient {
        StopClient(i, supplied);
      }
      LowerFlag(i);
      UpdateDefault(i, NetifStopped);
    }

    method DestroyInterface(i: Id)
      requires Valid() && i in ifs
      modifies this
      ensures Valid() && View() == Destroy(old(View()), i)
    {
      hide Update, Without;
      var found := RemoveFromList(i);
      LowerFlag(i);
      UpdateDefault(i, NetifStopped);
      ifs := ifs - {i};
    }

    method FireLostTimer(i: Id)
      requires Valid()
      modifies this`ifs, this`last, this`overridden, this`log, this`announced
      ensures View() == LostTimer(old(View()), i)
    {
      hide Update;
      var listed := IsListed(i);
      if !listed || i !in ifs { return; }
      Put(i, ifs[i].(timerRunning := false));
      if ifs[i].lwip.ip == 0 {
        UpdateDefault(i, NetifLostIp);
        var f := ifs[i].(announcedIp := ZERO);
        if DhcpActive(f) { f := f.(info := ZERO); }
        Put(i, f);
        log := log + [LostIp(i)];
      }
    }

    method SetInfo(i: Id, ip: IpInfo)
      requires Valid() && i in ifs
      modifies this`ifs, this`last, this`overridden, this`log, this`announced
      ensures View() == SetIpInfo(old(View()), i, ip)
    {
      hide Update, SetAddr;
      var f := ifs[i];
      if f.cfg.dhcpServer {
        if f.dhcps != DhcpStopped { return; }
      } else if f.cfg.dhcpClient {
        if f.dhcpc != DhcpStopped { return; }
      }
      Put(i, f.(info := ip));
      if f.up {
        Assign(i, ip);
        if f.cfg.eventIpModified {
          if ip.ip != 0 {
            UpdateDefault(i, NetifGotIp);
            PostGotIp(i, ip);
          }
        }
      }
    }

    method StartClient(i: Id, ok: bool)
      requires i in ifs
      modifies this`ifs
      ensures View() == DhcpcStart(old(View()), i, ok)
    {
      var f := ifs[i];
      if f.dhcpc == DhcpStarted { return; }
      f := f.(info := ZERO);
      if f.up {
        f := f.(lwip := ZERO, timerRunning := true);
        if ok { f := f.(dhcpc := DhcpStarted); }
      } else {
        f := f.(dhcpc := DhcpInit);
      }
      Put(i, f);
    }

    method StopDhcpClient(i: Id, supplied: bool)
      requires Valid() && i in ifs
      modifies this`ifs, this`last, this`overridden, this`log, this`announced
      ensures View() == DhcpcStop(old(View()), i, supplied)
    {
      hide SetAddr;
      if ifs[i].dhcpc == DhcpStarted {
        if supplied { Assign(i, ZERO); }
        Put(i, ifs[i].(info := ZERO, timerRunning := true));
      }
      Put(i, ifs[i].(dhcpc := DhcpStopped));
    }

    method StartServer(i: Id, ok: bool)
      requires i in ifs
      modifies this`ifs
      ensures View() == DhcpsStart(old(View()), i, ok)
    {
      var f := ifs[i];
      if f.dhcps == DhcpStarted { return; }
      if f.up && ok { f := f.(dhcps := DhcpStarted); } else { f := f.(dhcps := DhcpInit); }
      Put(i, f);
    }

    method StopServer(i: Id, ok: bool)
      requires i in ifs
      modifies this`ifs
      ensures View() == DhcpsStop(old(View()), i, ok)
    {
      if ifs[i].dhcps == DhcpStarted {
        if !ok { return; }
      } else if ifs[i].dhcps == DhcpStopped {
        assert ifs[i := ifs[i].(dhcps := DhcpStopped)] == ifs;
        return;
      }
      Put(i, ifs[i].(dhcps := DhcpStopped));
    }

    /** `esp_netif_action_connected`. */
    method ActionConnected(i: Id, ok: bool)
      requires Valid() && i in ifs
      modifies this`ifs, this`last, this`overridden, this`log, this`announced
      ensures View() == Connected(old(View()), i, ok)
    {
      hide Up;
      BringUp(i);
      var f := ifs[i];
      if !f.cfg.dhcpClient { return; }
      if f.dhcpc == DhcpInit {
        StartClient(i, ok);
      } else if f.dhcpc == DhcpStopped {
        if ValidStatic(f.lwip) { PostGotIp(i, f.lwip); }
      }
    }
  }
}
