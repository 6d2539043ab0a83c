/** Instance numbering of a CIP class: adding instances in batches, by number
    and through the Create service, and deleting them through the Delete
    service. The linked list of instances is held as the sequence of their numbers. */
module CipInstances {
  import opened Words

  /** `instances`, `number_of_instances` and `max_instance`. */
  datatype ClassState = ClassState(instances: seq<u16>, count: u16, max: u16)

  const LIMIT := 65535

  function MaxOf(s: seq<u16>): (r: u16)
    ensures forall i :: 0 <= i < |s| ==> s[i] <= r
    ensures r == 0 || r in s
  {
    if s == [] then 0 else var m := MaxOf(s[1..]); if s[0] > m then s[0] else m
  }

  /** The lowest number from `from` on that is not in use. */
  function NextFree(s: seq<u16>, from: nat): (r: nat)
    ensures from <= r && r !in s
    ensures forall k :: from <= k < r ==> k in s
    decreases if from <= MaxOf(s) then MaxOf(s) + 1 - from else 0
  {
    if from !in s then from else NextFree(s, from + 1)
  }

  /** Every number from 1 up to but not including `n` is in use. */
  predicate UsedBelow(s: seq<u16>, n: nat) { forall k :: 1 <= k < n ==> k in s }

  /** Numbers 1 to m in a list of length l: m is at most l. */
  lemma {:induction false} Pigeonhole(s: seq<u16>, m: nat)
    requires forall k :: 1 <= k <= m ==> k in s
    ensures m <= |s|
    decreases m
  {
    if m > 0 {
      assert m in s;
      var i :| 0 <= i < |s| && s[i] == m;
      var t := s[..i] + s[i + 1..];
      forall k | 1 <= k <= m - 1 ensures k in t {
        assert k in s;
        var j :| 0 <= j < |s| && s[j] == k;
        if j < i { assert t[j] == k; } else { assert t[j - 1] == k; }
      }
      Pigeonhole(t, m - 1);
    }
  }

  /** The next free number never leaves 16 bits while there is room. */
  lemma NextFreeFits(s: seq<u16>, from: nat)
    requires 1 <= from && UsedBelow(s, from) && |s| < LIMIT
    ensures 1 <= NextFree(s, from) <= |s| + 1 && UsedBelow(s, NextFree(s, from))
  {
    Pigeonhole(s, NextFree(s, from) - 1);
  }

  /** The list after `n` more instances have been appended, the search for free numbers going on from `from`. */
  function Append(s: seq<u16>, from: nat, n: nat): (r: seq<u16>)
    requires 1 <= from && UsedBelow(s, from) && |s| + n <= LIMIT
    ensures |r| == |s| + n && s <= r
    decreases n
  {
    if n == 0 then s
    else
      NextFreeFits(s, from);
      var a := NextFree(s, from);
      Append(s + [a], a + 1, n - 1)
  }

  lemma AppendStep(s: seq<u16>, from: nat, n: nat)
    requires 1 <= from && UsedBelow(s, from) && 0 < n && |s| + n <= LIMIT
    ensures var a := NextFree(s, from);
            && from <= a <= LIMIT && UsedBelow(s + [a], a + 1)
            && Append(s, from, n) == Append(s + [a], a + 1, n - 1)
  {
    NextFreeFits(s, from);
  }

  lemma AppendNone(s: seq<u16>, from: nat)
    requires 1 <= from && UsedBelow(s, from) && |s| <= LIMIT
    ensures Append(s, from, 0) == s
  {}

  function AddBatch(c: ClassState, n: nat): ClassState
    requires |c.instances| + n <= LIMIT
  {
    var s := Append(c.instances, 1, n);
    ClassState(s, (c.count + n) % TWO16, MaxOf(s))
  }

  /** `AddCipInstance`: number 0 is the class object itself. */
  function AddById(c: ClassState, id: u16): ClassState
    requires |c.instances| < LIMIT
  {
    if id == 0 || id in c.instances then c.(max := MaxOf(c.instances))
    else ClassState(c.instances + [id], (c.count + 1) % TWO16, MaxOf(c.instances + [id]))
  }

  function Removed(s: seq<u16>, id: u16): seq<u16> {
    if s == [] then [] else if s[0] == id then s[1..] else [s[0]] + Removed(s[1..], id)
  }

  /** `CipDeleteService` for an instance of the class, unless its callback objects. */
  function Delete(c: ClassState, id: u16, allowed: bool): ClassState {
    if !allowed then c
    else
      var s := Removed(c.instances, id);
      ClassState(s, (c.count - 1) % TWO16, MaxOf(s))
  }

  // ----- the invariant ------------------------------------------------------

  predicate Distinct(s: seq<u16>) { forall i, j :: 0 <= i < j < |s| ==> s[i] != s[j] }

  predicate Inv(c: ClassState) {
    && Distinct(c.instances) && 0 !in c.instances && |c.instances| <= LIMIT
    && c.count == |c.instances| && c.max == MaxOf(c.instances)
  }

  /** `added` are the |added| smallest numbers that are not in `s`, in ascending order. */
  ghost predicate SmallestUnused(s: seq<u16>, added: seq<u16>) {
    && (forall i, j :: 0 <= i < j < |added| ==> added[i] < added[j])
    && (forall i :: 0 <= i < |added| ==> 1 <= added[i] && added[i] !in s)
    && (forall i, k :: 0 <= i < |added| && 1 <= k < added[i] ==> k in s || k in added)
  }

  lemma {:induction false} AppendDistinct(s: seq<u16>, from: nat, n: nat)
    requires 1 <= from && UsedBelow(s, from) && |s| + n <= LIMIT
    requires Distinct(s) && 0 !in s
    ensures var r := Append(s, from, n); Distinct(r) && 0 !in r
    decreases n
  {
    if n > 0 {
      NextFreeFits(s, from);
      var a: u16 := NextFree(s, from);
      AppendDistinct(s + [a], a + 1, n - 1);
    }
  }

  /** What the batch appends, one by one: each number is larger than the one
      before, free, and everything below it is in use. */
  lemma {:induction false} AppendOrder(s: seq<u16>, from: nat, n: nat, i: nat)
    requires 1 <= from && UsedBelow(s, from) && |s| + n <= LIMIT && |s| <= i < |s| + n
    ensures var r := Append(s, from, n);
            && from <= r[i] && r[i] !in r[..i] && UsedBelow(r[..i], r[i])
            && (i > |s| ==> r[i - 1] < r[i])
    decreases n
  {
    NextFreeFits(s, from);
    var a: u16 := NextFree(s, from);
    var r := Append(s, from, n);
    assert r == Append(s + [a], a + 1, n - 1);
    assert s + [a] <= r;
    if i == |s| {
      assert r[..i] == s && r[i] == (s + [a])[i] == a;
    } else {
      AppendOrder(s + [a], a + 1, n - 1, i);
      if i == |s| + 1 { assert r[i - 1] == (s + [a])[i - 1] == a; }
    }
  }

  lemma {:induction false} Ascending(r: seq<u16>, lo: nat, i: nat, j: nat)
    requires lo <= i < j < |r| && forall k :: lo < k < |r| ==> r[k - 1] < r[k]
    ensures r[i] < r[j]
    decreases j
  {
    if i < j - 1 { Ascending(r, lo, i, j - 1); }
  }

  /** A batch add of n instances assigns the n smallest unused numbers, in ascending order. */
  lemma BatchIsSmallest(s: seq<u16>, n: nat)
    requires |s| + n <= LIMIT
    ensures SmallestUnused(s, Append(s, 1, n)[|s|..])
  {
    var r := Append(s, 1, n);
    var added := r[|s|..];
    hide Append, UsedBelow;
    forall k | |s| < k < |r| ensures r[k - 1] < r[k] { AppendOrder(s, 1, n, k); }
    forall i, j | 0 <= i < j < |added| ensures added[i] < added[j] { Ascending(r, |s|, |s| + i, |s| + j); }
    forall i | 0 <= i < |added|
      ensures 1 <= added[i] && added[i] !in s
      ensures forall k :: 1 <= k < added[i] ==> k in s || k in added
    {
      BatchElement(s, n, i);
    }
  }

  lemma BatchElement(s: seq<u16>, n: nat, i: nat)
    requires |s| + n <= LIMIT && i < |Append(s, 1, n)| - |s|
    ensures var added := Append(s, 1, n)[|s|..];
            1 <= added[i] && added[i] !in s && forall k :: 1 <= k < added[i] ==> k in s || k in added
  {
    var r := Append(s, 1, n);
    var added := r[|s|..];
    hide Append, UsedBelow;
    AppendOrder(s, 1, n, |s| + i);
    assert r[..|s| + i] == s + added[..i];
    UsedSplit(s, added, i, added[i]);
  }

  lemma UsedSplit(s: seq<u16>, added: seq<u16>, i: nat, n: nat)
    requires i <= |added| && UsedBelow(s + added[..i], n)
    ensures forall k :: 1 <= k < n ==> k in s || k in added
  {
    forall k | 1 <= k < n ensures k in s || k in added {
      assert k in s + added[..i];
    }
  }

  // ----- the operations keep the invariant ----------------------------------

  lemma {:induction false} RemovedFacts(s: seq<u16>, id: u16)
    requires Distinct(s) && id in s
    ensures var r := Removed(s, id);
            && Distinct(r) && |r| == |s| - 1 && forall x :: x in r <==> x in s && x != id
  {
    if s[0] == id {
      assert id !in s[1..];
    } else {
      assert id in s[1..];
      RemovedFacts(s[1..], id);
      var r := Removed(s[1..], id);
      assert s[0] !in s[1..];
      assert forall k :: 0 <= k < |r| ==> r[k] in r;
    }
    assert forall x :: x in s <==> x == s[0] || x in s[1..];
  }

  datatype Op = Batch(n: nat) | ById(id: u16) | Create(allowed: bool) | Destroy(id: u16, allowed: bool)

  /** There is room for what the operation adds. */
  predicate Room(c: ClassState, op: Op) {
    match op
    case Batch(n) => |c.instances| + n <= LIMIT
    case ById(_) => |c.instances| < LIMIT
    case Create(_) => |c.instances| < LIMIT
    case Destroy(id, _) => id in c.instances
  }

  function Step(c: ClassState, op: Op): ClassState
    requires Room(c, op)
  {
    match op
    case Batch(n) => AddBatch(c, n)
    case ById(id) => AddById(c, id)
    case Create(allowed) => if allowed then AddBatch(c, 1) else c
    case Destroy(id, allowed) => Delete(c, id, allowed)
  }

  lemma BatchInv(c: ClassState, n: nat)
    requires Inv(c) && |c.instances| + n <= LIMIT
    ensures Inv(AddBatch(c, n))
  {
    AppendDistinct(c.instances, 1, n);
  }

  lemma ByIdInv(c: ClassState, id: u16)
    requires Inv(c) && |c.instances| < LIMIT
    ensures Inv(AddById(c, id))
  {}

  lemma DeleteInv(c: ClassState, id: u16, allowed: bool)
    requires Inv(c) && id in c.instances
    ensures Inv(Delete(c, id, allowed))
  {
    RemovedFacts(c.instances, id);
    hide Removed;
  }

  lemma StepInv(c: ClassState, op: Op)
    requires Inv(c) && Room(c, op)
    ensures Inv(Step(c, op))
  {
    hide Inv, AddBatch, AddById, Delete;
    match op
    case Batch(n) => BatchInv(c, n);
    case ById(id) => ByIdInv(c, id);
    case Create(allowed) => BatchInv(c, 1);
    case Destroy(id, allowed) => DeleteInv(c, id, allowed);
  }

  /** A batch add keeps the instances there are and appends the n smallest unused numbers in
      ascending order. */
  lemma AddBatchExact(c: ClassState, n: nat)
    requires Inv(c) && |c.instances| + n <= LIMIT
    ensures var r := AddBatch(c, n).instances;
            && |r| == |c.instances| + n && r[..|c.instances|] == c.instances
            && SmallestUnused(c.instances, r[|c.instances|..])
  {
    BatchIsSmallest(c.instances, n);
    hide Append, SmallestUnused;
  }

  /** An add by number: afterwards exactly the old numbers and the one asked for are in use,
      the old instances first; a number in use, and number 0, change nothing. */
  lemma AddByIdExact(c: ClassState, id: u16)
    requires Inv(c) && |c.instances| < LIMIT
    ensures var r := AddById(c, id);
            && c.instances <= r.instances && r.count == |r.instances|
            && (forall x :: x in r.instances <==> x in c.instances || (x == id && id != 0))
            && (id == 0 || id in c.instances ==> r == c)
            && (forall x :: x in r.instances ==> x <= r.max) && (r.instances != [] ==> r.max in r.instances)
  {
    ByIdInv(c, id);
  }

  /** A deletion takes exactly that number out of use, unless it is not allowed. */
  lemma DeleteExact(c: ClassState, id: u16, allowed: bool)
    requires Inv(c) && id in c.instances
    ensures var r := Delete(c, id, allowed);
            && (forall x :: x in r.instances <==> x in c.instances && (allowed ==> x != id))
            && (!allowed ==> r == c) && r.count == |r.instances|
            && (forall x :: x in r.instances ==> x <= r.max) && (r.instances != [] ==> r.max in r.instances)
  {
    RemovedFacts(c.instances, id);
    DeleteInv(c, id, allowed);
    hide Removed;
  }

  predicate RoomFor(c: ClassState, ops: seq<Op>)
    decreases |ops|
  {
    ops != [] ==> Room(c, ops[0]) && RoomFor(Step(c, ops[0]), ops[1..])
  }

  function Run(c: ClassState, ops: seq<Op>): ClassState
    requires RoomFor(c, ops)
    decreases |ops|
  {
    if ops == [] then c else Run(Step(c, ops[0]), ops[1..])
  }

  const EMPTY: ClassState := ClassState([], 0, 0)

  lemma {:induction false} RunInv(c: ClassState, ops: seq<Op>)
    requires Inv(c) && RoomFor(c, ops)
    ensures Inv(Run(c, ops))
    decreases |ops|
  {
    if ops != [] {
      StepInv(c, ops[0]);
      RunInv(Step(c, ops[0]), ops[1..]);
    }
  }

  /** After every sequence of batch adds, adds by number, creations and
      deletions with room for what is added: instance numbers are not zero and
      pairwise distinct, the instance count is the length of the list, and the
      maximum is the largest number. */
  lemma NumberingSound(ops: seq<Op>)
    requires RoomFor(EMPTY, ops)
    ensures var c := Run(EMPTY, ops);
            && Distinct(c.instances) && 0 !in c.instances && c.count == |c.instances|
            && (forall x :: x in c.instances ==> x <= c.max) && (c.instances != [] ==> c.max in c.instances)
  {
    RunInv(EMPTY, ops);
  }

  /** The instances the operations add in total, deletions not counted. */
  function Added(ops: seq<Op>): nat
    decreases |ops|
  {
    if ops == [] then 0
    else (match ops[0] case Batch(n) => n case Destroy(_, _) => 0 case _ => 1) + Added(ops[1..])
  }

  predicate DeletesExisting(c: ClassState, ops: seq<Op>)
    decreases |ops|
  {
    ops != [] ==> (ops[0].Destroy? ==> ops[0].id in c.instances)
                  && (Room(c, ops[0]) ==> DeletesExisting(Step(c, ops[0]), ops[1..]))
  }

  /** A total of at most 65535 additions always leaves room. */
  lemma {:induction false} TotalLeavesRoom(c: ClassState, ops: seq<Op>)
    requires Inv(c) && DeletesExisting(c, ops) && |c.instances| + Added(ops) <= LIMIT
    ensures RoomFor(c, ops)
    decreases |ops|
  {
    if ops != [] {
      assert Room(c, ops[0]);
      StepInv(c, ops[0]);
      if ops[0].Destroy? { RemovedFacts(c.instances, ops[0].id); }
      TotalLeavesRoom(Step(c, ops[0]), ops[1..]);
    }
  }

  // ----- the class object ---------------------------------------------------

  class CipClass {
    var instances: seq<u16>
    var numberOfInstances: u16
    var maxInstance: u16

    ghost function View(): ClassState
      reads this
    {
      ClassState(instances, numberOfInstances, maxInstance)
    }

    constructor ()
      ensures View() == EMPTY
    {
      instances, numberOfInstances, maxInstance := [], 0, 0;
    }

    /** `GetMaxInstanceNumber`. */
    method GetMax() returns (m: u16)
      ensures m == MaxOf(instances)
    {
      m := 0;
      var i := 0;
      while i < |instances|
        invariant i <= |instances|
        invariant forall k :: 0 <= k < i ==> instances[k] <= m
        invariant m == 0 || m in instances
      {
        if instances[i] > m { m := instances[i]; }
        i := i + 1;
      }
    }

    method InUse(n: u16) returns (r: bool)
      ensures r <==> n in instances
    {
      for i := 0 to |instances|
        invariant n !in instances[..i]
      {
        if instances[i] == n { return true; }
      }
      return false;
    }

    /** The search for the next free number in `AddCipInstances`. */
    method FindFree(from: u16) returns (n: u16)
      requires 1 <= from && UsedBelow(instances, from) && |instances| < LIMIT
      ensures n == NextFree(instances, from)
    {
      NextFreeFits(instances, from);
      n := from;
      var used := InUse(n);
      while used
        invariant used <==> n in instances
        invariant from <= n <= NextFree(instances, from) && NextFree(instances, n) == NextFree(instances, from)
        decreases NextFree(instances, from) - n
      {
        n := n + 1;
        used := InUse(n);
      }
    }

    /** `AddCipInstances`. */
    method AddInstances(n: nat)
      requires |instances| + n <= LIMIT
      modifies this
      ensures View() == AddBatch(old(View()), n)
    {
      hide Append, NextFree;
      var number: nat := 1;
      for k := 0 to n
        invariant |instances| == |old(instances)| + k
        invariant 1 <= number && UsedBelow(instances, number)
        invariant Append(instances, number, n - k) == Append(old(instances), 1, n)
        invariant numberOfInstances == (old(numberOfInstances) + k) % TWO16
      {
        AppendStep(instances, number, n - k);
        hide UsedBelow;
        var a := FindFree(number);
        number := a;
        number := number + 1;
        instances := instances + [a];
        numberOfInstances := (numberOfInstances + 1) % TWO16;
      }
      AppendNone(instances, number);
      maxInstance := GetMax();
    }

    /** `AddCipInstance`: adds one instance and gives it the number asked for. */
    method AddInstance(id: u16)
      requires |instances| < LIMIT
      modifies this
      ensures View() == AddById(old(View()), id)
    {
      var known := InUse(id);
      if id != 0 && !known {
        ghost var before := instances;
        AddInstances(1);
        assert |instances| == |before| + 1 && before <= instances;
        instances := instances[|instances| - 1 := id];
        assert instances == before + [id];
      }
      maxInstance := GetMax();
    }

    /** `CipCreateService`: one instance more, unless the callback objects. */
    method CreateInstance(allowed: bool) returns (number: Option<u16>)
      requires |instances| < LIMIT
      modifies this
      ensures View() == Step(old(View()), Create(allowed))
      ensures number == if allowed then Some(NextFree(old(instances), 1)) else None
    {
      if !allowed { return None; }
      ghost var before := instances;
      AppendStep(instances, 1, 1);
      AppendNone(instances + [NextFree(instances, 1)], NextFree(instances, 1) + 1);
      hide Append, NextFree;
      AddInstances(1);
      assert instances == before + [NextFree(before, 1)];
      number := Some(instances[|instances| - 1]);
    }

    /** `CipDeleteService`: unlinks the instance with that number. */
    method DeleteInstance(id: u16, allowed: bool)
      requires id in instances
      modifies this
      ensures View() == Delete(old(View()), id, allowed)
    {
      hide Removed, MaxOf;
      if !allowed { return; }
      var i := 0;
      while i < |instances| && instances[i] != id
        invariant i <= |instances| && id !in instances[..i]
        invariant instances == old(instances)
      {
        i := i + 1;
      }
      RemovedAt(instances, i, id);
      instances := instances[..i] + instances[i + 1..];
      numberOfInstances := (numberOfInstances - 1) % TWO16;
      maxInstance := GetMax();
    }
  }

  lemma {:induction false} RemovedAt(s: seq<u16>, i: nat, id: u16)
    requires i < |s| && s[i] == id && id !in s[..i]
    ensures Removed(s, id) == s[..i] + s[i + 1..]
    decreases i
  {
    if i > 0 {
      assert s[0] in s[..i];
      assert s[1..][..i - 1] == s[1..i];
      forall x | x in s[1..i] ensures x in s[..i] {}
      RemovedAt(s[1..], i - 1, id);
      assert [s[0]] + (s[1..i] + s[i + 1..]) == s[..i] + s[i + 1..];
    }
  }
}
