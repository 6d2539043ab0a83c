/** The I/O connections of a CIP target: fixed slots for exclusive-owner,
    input-only and listen-only connections, the list of active connections, the
    search for the slot a request may have, and what closing a connection and
    losing it to a time-out do to the others. */
module IoConnections {
  import opened Words

  // ----- connections --------------------------------------------------------

  /** A connection object: the one of an exclusive-owner point, one of several of
      an input-only or listen-only point, or one of the explicit-messaging pool. */
  datatype Slot = Owner(point: nat) | Input(point: nat, k: nat) | Listen(point: nat, k: nat) | Explicit(k: nat)

  datatype Phase = NonExistent | Established | TimedOut

  datatype Kind = ExplicitMessaging | ExclusiveOwner | InputOnly | ListenOnly

  /** How data go from the target to the originator. */
  datatype Flow = NoFlow | Multicast | PointToPoint

  datatype Originator = Originator(vendor: nat, serial: nat)

  /** A connection object. `sending` says that its producing socket is valid,
      `closable` that its close function has been installed. */
  datatype Conn = Conn(
    phase: Phase, kind: Kind, consumed: nat, produced: nat, config: nat,
    originator: Originator, flow: Flow, sending: bool, closable: bool)

  /** `ConnectionObjectInitializeEmpty`. */
  const EMPTY := Conn(NonExistent, ExplicitMessaging, 0, 0, 0, Originator(0, 0), NoFlow, false, false)

  /** The assemblies of a connection point. */
  datatype Point = Point(output: nat, input: nat, config: nat)

  datatype Config = Config(
    owners: seq<Point>, inputs: seq<Point>, listens: seq<Point>, perInput: nat, perListen: nat)

  /** All connection objects and the list of active connections, newest first. */
  datatype Stack = Stack(cfg: Config, conns: map<Slot, Conn>, active: seq<Slot>)

  /** What a Forward_Open asks for. `residue` is the socket field of the request object. */
  datatype Request = Request(
    consumed: nat, produced: nat, config: nat, originator: Originator, flow: Flow, residue: bool)

  function Of(st: Stack, s: Slot): Conn { if s in st.conns then st.conns[s] else EMPTY }

  function Put(st: Stack, s: Slot, c: Conn): Stack { st.(conns := st.conns[s := c]) }

  // ----- searches in the active list ----------------------------------------

  /** The first element with a property. */
  function Find(list: seq<Slot>, p: Slot -> bool): (r: Option<Slot>)
    ensures r.Some? ==> r.value in list && p(r.value)
    ensures r.None? ==> forall s :: s in list ==> !p(s)
  {
    if list == [] then None else if p(list[0]) then Some(list[0]) else Find(list[1..], p)
  }

  predicate Owns(st: Stack, s: Slot, x: nat) {
    var c := Of(st, s);
    c.kind == ExclusiveOwner && c.phase != NonExistent && c.produced == x
  }

  /** `GetConnectedOutputAssembly`, which goes by the produced assembly. */
  function ConnectedOwner(st: Stack, list: seq<Slot>, x: nat): Option<Slot> {
    Find(list, s => Owns(st, s, x))
  }

  predicate Produces(st: Stack, s: Slot, multicastOnly: bool, x: nat) {
    var c := Of(st, s);
    && c.kind != ExplicitMessaging && c.produced == x && c.sending
    && (c.flow == Multicast || (!multicastOnly && c.flow == PointToPoint))
  }

  /** `GetExistingProducerIoConnection`. */
  function Producer(st: Stack, list: seq<Slot>, multicastOnly: bool, x: nat): Option<Slot> {
    Find(list, s => Produces(st, s, multicastOnly, x))
  }

  predicate Heir(st: Stack, s: Slot, x: nat) {
    var c := Of(st, s);
    && (c.kind == ExclusiveOwner || c.kind == InputOnly) && c.phase == Established
    && c.produced == x && c.flow == Multicast && !c.sending
  }

  /** `GetNextNonControlMasterConnection`. */
  function NextMaster(st: Stack, list: seq<Slot>, x: nat): Option<Slot> {
    Find(list, s => Heir(st, s, x))
  }

  // ----- closing ------------------------------------------------------------

  function Without(list: seq<Slot>, s: Slot): (r: seq<Slot>)
    ensures s in list ==> |r| == |list| - 1
    ensures s !in list ==> r == list
  {
    if list == [] then [] else if list[0] == s then list[1..] else [list[0]] + Without(list[1..], s)
  }

  /** The connection is taken off the list and emptied. */
  function Released(st: Stack, s: Slot): Stack {
    st.(conns := st.conns[s := EMPTY], active := Without(st.active, s))
  }

  predicate Listener(st: Stack, s: Slot, x: nat) { Of(st, s).kind == ListenOnly && Of(st, s).produced == x }

  /** The listen-only connections of an input among `todo` are released. */
  function Sweep(st: Stack, todo: seq<Slot>, x: nat): (r: Stack)
    ensures |r.active| <= |st.active| && (|r.active| == |st.active| ==> r.active == st.active)
    decreases |todo|
  {
    if todo == [] then st
    else Sweep(if Listener(st, todo[0], x) then Released(st, todo[0]) else st, todo[1..], x)
  }

  /** The connection produces multicast data on behalf of others. */
  predicate Masters(c: Conn) {
    (c.kind == ExclusiveOwner || c.kind == InputOnly) && c.flow == Multicast && c.sending
  }

  /** The producing socket goes from `s` to `t`. */
  function Transfer(st: Stack, s: Slot, t: Slot): Stack {
    var st' := Put(st, t, Of(st, t).(sending := Of(st, s).sending));
    Put(st', s, Of(st', s).(sending := false))
  }

  /** The end of a master: the socket is handed on, or else nobody is left to listen to. */
  function PassOn(st: Stack, s: Slot, x: nat): (r: Stack)
    ensures |r.active| <= |st.active| && (|r.active| == |st.active| ==> r.active == st.active)
  {
    var heir := NextMaster(st, st.active, x);
    if heir.Some? then Transfer(st, s, heir.value) else Sweep(st, st.active, x)
  }

  /** `CloseIoConnection`; an explicit connection is only taken off the list. */
  function CloseIo(st: Stack, s: Slot): (r: Stack)
    ensures s in st.active ==> |r.active| < |st.active|
  {
    var c := Of(st, s);
    var st1 := Put(st, s, c.(phase := NonExistent));
    Released(if Masters(c) then PassOn(st1, s, c.produced) else st1, s)
  }

  /** The elements of a list that are still in another. */
  function Keep(list: seq<Slot>, live: seq<Slot>): (r: seq<Slot>)
    ensures |r| <= |list|
    ensures forall s :: s in r <==> s in list && s in live
  {
    if list == [] then []
    else (if list[0] in live then [list[0]] else []) + Keep(list[1..], live)
  }

  /** `CloseAllConnectionsForInputWithSameType`, from the node that `todo` begins
      with. The next node is fetched before a connection is closed; if closing
      takes that node off the list as well, the walk is lost, and so it is if the
      connection has no close function. */
  function CloseSame(st: Stack, todo: seq<Slot>, x: nat, kind: Kind): Option<Stack>
    decreases |todo|
  {
    if todo == [] then Some(st)
    else if todo[0] !in st.active then None
    else
      var rest := Keep(todo[1..], st.active);
      var c := Of(st, todo[0]);
      if c.kind == kind && c.produced == x then
        if c.closable then CloseSame(CloseIo(st, todo[0]), rest, x, kind) else None
      else CloseSame(st, rest, x, kind)
  }

  /** `CloseAllConnections`. */
  function CloseAll(st: Stack): Option<Stack>
    decreases |st.active|
  {
    if st.active == [] then Some(st)
    else if Of(st, st.active[0]).closable then CloseAll(CloseIo(st, st.active[0])) else None
  }

  /** `HandleIoConnectionTimeOut`; an explicit connection is closed. */
  function Expire(st: Stack, s: Slot): Option<Stack> {
    var c := Of(st, s);
    var st1 := Put(st, s, c.(phase := TimedOut));
    var handover := Masters(c) && NextMaster(st1, st1.active, c.produced).Some?;
    var st2 := if Masters(c) then PassOn(st1, s, c.produced) else st1;
    if handover then Some(st2)
    else if c.kind != ExclusiveOwner then Some(Released(st2, s))
    else
      var st3 := CloseSame(st2, st2.active, c.produced, InputOnly);
      if st3.None? then None
      else
        var st4 := CloseSame(st3.value, st3.value.active, c.produced, ListenOnly);
        if st4.None? then None else Some(Released(st4.value, s))
  }

  // ----- the search for a slot ----------------------------------------------

  const OWNERSHIP_CONFLICT: u16 := 0x0106
  const NO_PRODUCER: u16 := 0x0119
  const OUT_OF_CONNECTIONS: u16 := 0x011A
  const INVALID_PRODUCING_PATH: u16 := 0x012B
  const INCONSISTENT_PATHS: u16 := 0x012F

  /** `Crash` is a call of a close function that is not installed. */
  datatype Outcome = Granted(slot: Slot, st: Stack) | Refused(error: u16) | Crash

  predicate Matches(p: Point, r: Request) {
    p.output == r.consumed && p.input == r.produced && (p.config == r.config || r.config == 0)
  }

  function FirstMatch(points: seq<Point>, r: Request, i: nat): Option<nat>
    requires i <= |points|
    decreases |points| - i
  {
    if i == |points| then None else if Matches(points[i], r) then Some(i) else FirstMatch(points, r, i + 1)
  }

  /** The search for an input-only or listen-only point, which keeps the reason of the last near miss. */
  datatype PointSearch = Hit(i: nat) | Miss(error: u16)

  function FindPoint(points: seq<Point>, r: Request, i: nat, error: u16): PointSearch
    requires i <= |points|
    decreases |points| - i
  {
    if i == |points| then Miss(error)
    else if points[i].output != r.consumed then FindPoint(points, r, i + 1, error)
    else if points[i].input != r.produced then FindPoint(points, r, i + 1, INVALID_PRODUCING_PATH)
    else if points[i].config != r.config && r.config != 0 then FindPoint(points, r, i + 1, INCONSISTENT_PATHS)
    else Hit(i)
  }

  function CloseAndGrant(st: Stack, s: Slot): Outcome {
    if Of(st, s).closable then Granted(s, CloseIo(st, s)) else Crash
  }

  /** `GetExclusiveOwnerConnection`. */
  function OwnerSearch(st: Stack, r: Request): Outcome {
    var i := FirstMatch(st.cfg.owners, r, 0);
    if i.None? then Refused(0)
    else
      var o := ConnectedOwner(st, st.active, r.produced);
      if o.None? then Granted(Owner(i.value), st)
      else if Of(st, o.value).phase == Established then Refused(OWNERSHIP_CONFLICT)
      else CloseAndGrant(st, Owner(i.value))
  }

  predicate Stale(st: Stack, s: Slot, r: Request) {
    Of(st, s).phase == TimedOut && Of(st, s).originator == r.originator
  }

  predicate Unused(st: Stack, s: Slot) { Of(st, s).phase == NonExistent }

  /** The choice among the connection objects of one point. */
  function RowSearch(st: Stack, row: seq<Slot>, r: Request): Outcome {
    var stale := Find(row, s => Stale(st, s, r));
    if stale.Some? then CloseAndGrant(st, stale.value)
    else
      var free := Find(row, s => Unused(st, s));
      if free.Some? then Granted(free.value, st) else Refused(OUT_OF_CONNECTIONS)
  }

  function InputRow(cfg: Config, i: nat): seq<Slot> { seq(cfg.perInput, k requires 0 <= k => Input(i, k)) }

  function ListenRow(cfg: Config, i: nat): seq<Slot> { seq(cfg.perListen, k requires 0 <= k => Listen(i, k)) }

  /** `GetInputOnlyConnection`. */
  function InputSearch(st: Stack, r: Request): Outcome {
    match FindPoint(st.cfg.inputs, r, 0, 0)
    case Miss(error) => Refused(error)
    case Hit(i) => RowSearch(st, InputRow(st.cfg, i), r)
  }

  /** `GetListenOnlyConnection`. */
  function ListenSearch(st: Stack, r: Request): Outcome {
    match FindPoint(st.cfg.listens, r, 0, 0)
    case Miss(error) => Refused(error)
    case Hit(i) =>
      if Producer(st, st.active, false, r.produced).None? then Refused(NO_PRODUCER)
      else RowSearch(st, ListenRow(st.cfg, i), r)
  }

  /** The request as copied into its slot. */
  function Copied(r: Request, kind: Kind): Conn {
    Conn(NonExistent, kind, r.consumed, r.produced, r.config, r.originator, r.flow, r.residue, false)
  }

  function Filled(o: Outcome, r: Request, kind: Kind): Outcome {
    if o.Granted? then Granted(o.slot, Put(o.st, o.slot, Copied(r, kind))) else o
  }

  /** `GetIoConnectionForConnectionData`. */
  function Select(st: Stack, r: Request): Outcome {
    var own := OwnerSearch(st, r);
    if own != Refused(0) then Filled(own, r, ExclusiveOwner)
    else
      var input := InputSearch(st, r);
      if input != Refused(0) then Filled(input, r, InputOnly)
      else
        var listen := ListenSearch(st, r);
        if listen == Refused(0) then Refused(INCONSISTENT_PATHS) else Filled(listen, r, ListenOnly)
  }

  // ----- whole steps --------------------------------------------------------

  /** How setting up a connection ends once it has a slot. */
  datatype Setup = InhibitTooLong | Rejected | Opened

  /** The socket side of `OpenCommunicationChannels`, then `AddNewActiveConnection`. */
  function Activate(st: Stack, s: Slot): Stack {
    var c := Of(st, s).(closable := true, phase := Established);
    var producer := Producer(st, st.active, true, c.produced);
    var shared := c.flow == Multicast && producer.Some?;
    var taken := if shared && c.kind == ExclusiveOwner
                 then Put(st, producer.value, Of(st, producer.value).(sending := false)) else st;
    var sends := c.flow == PointToPoint || (c.flow == Multicast && (producer.None? || c.kind == ExclusiveOwner));
    Put(taken, s, c.(sending := sends)).(active := [s] + st.active)
  }

  /** `EstablishIoConnection`. */
  function Establish(st: Stack, r: Request, setup: Setup): Option<Stack> {
    match Select(st, r)
    case Crash => None
    case Refused(_) => Some(st)
    case Granted(s, st') =>
      match setup
      case InhibitTooLong => Some(st')
      case Rejected => Some(Put(st', s, Of(st', s).(closable := true, sending := false)))
      case Opened => Some(Activate(st', s))
  }

  datatype Event = Open(r: Request, setup: Setup) | OpenExplicit(k: nat) | Close(s: Slot) | TimeOut(s: Slot) | CloseEach

  /** One event: a Forward_Open, an explicit connection, a Forward_Close or the end
      of a grace period, a watchdog, or the shutdown. `None` stands for a lost walk
      or a call of a missing close function. */
  function Step(st: Stack, e: Event): Option<Stack> {
    match e
    case Open(r, setup) => Establish(st, r, setup)
    case OpenExplicit(k) =>
      if Of(st, Explicit(k)).phase != NonExistent then Some(st)
      else Some(Put(st, Explicit(k), EMPTY.(phase := Established, closable := true))
                 .(active := [Explicit(k)] + st.active))
    case Close(s) => Some(if s in st.active then CloseIo(st, s) else st)
    case TimeOut(s) => if s in st.active && Of(st, s).phase == Established then Expire(st, s) else Some(st)
    case CloseEach => CloseAll(st)
  }

  function Run(st: Stack, es: seq<Event>): Option<Stack>
    decreases |es|
  {
    if es == [] then Some(st)
    else
      var next := Step(st, es[0]);
      if next.None? then None else Run(next.value, es[1..])
  }

  /** `InitializeIoConnectionData`. */
  function Initial(cfg: Config): Stack { Stack(cfg, map[], []) }
}
