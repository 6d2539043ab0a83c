/** The pool of list nodes for active connections: it has one node for each
    explicit connection and for each connection point of the other kinds. */
module IoNodes {
  import opened Words
  import opened IoConnections
  import opened IoSafety
  import opened IoRounds

  /** The size of the pool in `CipConnectionObjectListArrayAllocator`. */
  function Nodes(cfg: Config, explicits: nat): nat {
    explicits + |cfg.inputs| + |cfg.owners| + |cfg.listens|
  }

  /** A number for each connection object, the objects of one point sharing theirs. */
  function Place(cfg: Config, s: Slot): nat {
    match s
    case Owner(i) => i
    case Input(i, _) => |cfg.owners| + i
    case Listen(i, _) => |cfg.owners| + |cfg.inputs| + i
    case Explicit(k) => |cfg.owners| + |cfg.inputs| + |cfg.listens| + k
  }

  lemma {:induction false} PlacesBound(cfg: Config, list: seq<Slot>, m: nat)
    requires NoDup(list) && forall s :: s in list ==> Place(cfg, s) < m
    requires forall s, t :: s in list && t in list && Place(cfg, s) == Place(cfg, t) ==> s == t
    ensures |list| <= m
    decreases m
  {
    if list != [] {
      assert list[0] in list;
      if s :| s in list && Place(cfg, s) == m - 1 {
        WithoutFacts(list, s);
        SubNoDup(Without(list, s), list);
        PlacesBound(cfg, Without(list, s), m - 1);
      } else {
        PlacesBound(cfg, list, m - 1);
      }
    }
  }

  /** With at most one connection object per input-only and listen-only point, there is
      a node for every active connection in every reachable state. */
  lemma NodesSuffice(st: Stack, explicits: nat)
    requires Inv(st) && st.cfg.perInput <= 1 && st.cfg.perListen <= 1
    requires forall k: nat :: Explicit(k) in st.active ==> k < explicits
    ensures |st.active| <= Nodes(st.cfg, explicits)
  {
    hide OwnersLead, OneSender, Listed, NoDup, Of;
    forall s | s in st.active
      ensures Place(st.cfg, s) < Nodes(st.cfg, explicits) && (s.Input? || s.Listen? ==> s.k == 0) {
      assert Placed(st.cfg, s, Of(st, s));
    }
    forall s, t | s in st.active && t in st.active && Place(st.cfg, s) == Place(st.cfg, t) ensures s == t {
      assert Placed(st.cfg, s, Of(st, s)) && Placed(st.cfg, t, Of(st, t));
    }
    PlacesBound(st.cfg, st.active, Nodes(st.cfg, explicits));
  }

  // ----- the allocator ------------------------------------------------------

  /** The nodes in use; a node holds its connection, or nothing. */
  function InUse(nodes: seq<Option<Slot>>): (r: nat)
    ensures r <= |nodes|
  {
    if nodes == [] then 0 else (if nodes[0].Some? then 1 else 0) + InUse(nodes[1..])
  }

  lemma {:induction false} InUseSet(nodes: seq<Option<Slot>>, i: nat, n: Option<Slot>)
    requires i < |nodes|
    ensures InUse(nodes[i := n]) == InUse(nodes) - (if nodes[i].Some? then 1 else 0) + (if n.Some? then 1 else 0)
  {
    if i == 0 {
      assert nodes[0 := n][1..] == nodes[1..];
    } else {
      InUseSet(nodes[1..], i - 1, n);
      assert nodes[i := n][1..] == nodes[1..][i - 1 := n];
    }
  }

  lemma {:induction false} FreeNodeIff(nodes: seq<Option<Slot>>)
    ensures (exists i :: 0 <= i < |nodes| && nodes[i].None?) <==> InUse(nodes) < |nodes|
  {
    if nodes != [] {
      FreeNodeIff(nodes[1..]);
      if i :| 0 <= i < |nodes[1..]| && nodes[1..][i].None? { assert nodes[i + 1].None?; }
      if i :| 0 < i < |nodes| && nodes[i].None? { assert nodes[1..][i - 1].None?; }
    }
  }

  /** As many nodes are in use as there are active connections, in a pool of the right size. */
  predicate Tracks(nodes: seq<Option<Slot>>, st: Stack, explicits: nat) {
    |nodes| == Nodes(st.cfg, explicits) && InUse(nodes) == |st.active|
  }

  /** `CipConnectionObjectListArrayAllocator`: for a connection that joins the list it finds a
      node exactly when fewer connections are active than the pool has nodes. */
  method Allocate(nodes: array<Option<Slot>>, ghost st: Stack, explicits: nat) returns (r: Option<nat>)
    requires Tracks(nodes[..], st, explicits)
    ensures r.Some? <==> |st.active| < Nodes(st.cfg, explicits)
    ensures r.Some? ==> r.value < nodes.Length && nodes[r.value].None?
    ensures r.Some? ==> forall j :: 0 <= j < r.value ==> nodes[j].Some?
  {
    FreeNodeIff(nodes[..]);
    var i := 0;
    while i < nodes.Length
      invariant i <= nodes.Length && forall j :: 0 <= j < i ==> nodes[j].Some?
    {
      if nodes[i].None? {
        assert nodes[..][i].None?;
        return Some(i);
      }
      i := i + 1;
    }
    return None;
  }

  /** The node taken for a connection that joins, and the node freed for one that leaves, keep the count. */
  lemma NodesTracked(nodes: seq<Option<Slot>>, st: Stack, explicits: nat, i: nat, s: Slot)
    requires Tracks(nodes, st, explicits) && i < |nodes|
    ensures nodes[i].None? ==> Tracks(nodes[i := Some(s)], st.(active := [s] + st.active), explicits)
    ensures nodes[i].Some? && s in st.active ==>
              Tracks(nodes[i := None], st.(active := Without(st.active, s)), explicits)
  {
    hide Without, InUse;
    InUseSet(nodes, i, Some(s));
    InUseSet(nodes, i, None);
  }

  // ----- a pool that runs out -----------------------------------------------

  /** One input-only point with two connection objects. */
  const PAIR := Config([], [Point(3, 100, 0)], [], 2, 0)

  const VIEW := Request(3, 100, 0, Originator(1, 7), NoFlow, false)

  lemma OpenView(st: Stack, k: nat)
    requires st.cfg == PAIR && k < 2 && Of(st, Input(0, k)).phase == NonExistent
    requires forall j :: 0 <= j < 2 ==> Of(st, Input(0, j)).phase != TimedOut
    requires k == 1 ==> Of(st, Input(0, 0)).phase == Established
    ensures var r := Step(st, Open(VIEW, Opened));
            && r.Some? && r.value.cfg == PAIR && r.value.active == [Input(0, k)] + st.active
            && Of(r.value, Input(0, k)).phase == Established
            && forall j :: 0 <= j < 2 && j != k ==> Of(r.value, Input(0, j)) == Of(st, Input(0, j))
  {
    assert FirstMatch(PAIR.owners, VIEW, 0) == None;
    assert FindPoint(PAIR.inputs, VIEW, 0, 0) == Hit(0);
    var row := InputRow(PAIR, 0);
    assert row == [Input(0, 0), Input(0, 1)] && row[1..] == [Input(0, 1)] && row[1..][1..] == [];
    assert Find(row[1..], s => Stale(st, s, VIEW)).None?;
    assert Find(row, s => Stale(st, s, VIEW)).None?;
    assert k == 1 ==> Find(row[1..], s => Unused(st, s)) == Some(Input(0, 1));
    assert Find(row, s => Unused(st, s)) == Some(Input(0, k));
    var st' := Put(st, Input(0, k), Copied(VIEW, InputOnly));
    assert Select(st, VIEW) == Granted(Input(0, k), st');
  }

  /** Two input-only connections on one point are more than the nodes for it. */
  lemma NodesRunOut()
    ensures var st := Run(Initial(PAIR), [Open(VIEW, Opened), Open(VIEW, Opened)]);
            st.Some? && |st.value.active| == 2 > Nodes(PAIR, 0)
  {
    var e := Open(VIEW, Opened);
    OpenView(Initial(PAIR), 0);
    var st1 := Step(Initial(PAIR), e).value;
    hide Step;
    OpenView(st1, 1);
    var st2 := Step(st1, e).value;
    RunFirst(Initial(PAIR), e, [e]);
    RunFirst(st1, e, []);
    RunNone(st2);
    assert [e] + [e] == [e, e] && [e] + [] == [e];
  }
}
