/** Attributes of a CIP class and its instances: the class-wide bit masks that
    say which attribute numbers can be read and written, kept up by every
    insertion into any instance, and the services that go by them. */
module CipAttributes {
  import opened Words
  import opened CipMessage

  // ----- attributes and slots -----------------------------------------------

  /** What an attribute's encode function writes: bytes of its own, or a string,
      which is padded to an even message length. */
  datatype CipData = Plain(bytes: seq<byte>) | Text(chars: seq<byte>)

  function EncodeAt(d: CipData, used: nat): seq<byte> {
    match d
    case Plain(bytes) => bytes
    case Text(chars) =>
      Le16(|chars| % TWO16) + chars + (if chars != [] && (used + 2 + |chars|) % 2 == 1 then [0] else [])
  }

  /** `declared` is what `GetCipDataTypeLength` says of the attribute's type and data. */
  datatype Attribute = Attribute(number: u16, flags: bv8, data: CipData, declared: nat)

  const GETABLE_ALL: bv8 := 1
  const GETABLE_SINGLE: bv8 := 2
  const SETABLE: bv8 := 4
  const ALL_DUMMY: bv8 := 8

  /** An entry of an instance's attribute array; a free one has number 0. */
  datatype Slot = Free | Taken(a: Attribute)

  function NumberOf(s: Slot): u16 { if s.Taken? then s.a.number else 0 }

  /** `GetCipAttribute`: the first slot with that number. */
  function Lookup(slots: seq<Slot>, n: u16): (r: Option<Slot>)
    ensures r.Some? ==> r.value in slots && NumberOf(r.value) == n
    ensures r.None? ==> forall s :: s in slots ==> NumberOf(s) != n
  {
    if slots == [] then None
    else if NumberOf(slots[0]) == n then Some(slots[0])
    else Lookup(slots[1..], n)
  }

  predicate HasRoom(slots: seq<Slot>) { Free in slots }

  /** Insertion into the first free slot. */
  function Insert(slots: seq<Slot>, a: Attribute): (r: seq<Slot>)
    ensures |r| == |slots|
  {
    if slots == [] then []
    else if slots[0].Free? then [Taken(a)] + slots[1..]
    else [slots[0]] + Insert(slots[1..], a)
  }

  // ----- bit masks ----------------------------------------------------------

  /** `1 << k` in a byte. */
  function Bit(k: nat): bv8
    requires k < 8
  {
    if k == 0 then 1 else if k == 1 then 2 else if k == 2 then 4 else if k == 3 then 8
    else if k == 4 then 16 else if k == 5 then 32 else if k == 6 then 64 else 128
  }

  /** The size `AllocateAttributeMasks` gives a mask, so that `n` has its bit. */
  predicate Covered(mask: seq<bv8>, n: u16) { n / 8 < |mask| }

  predicate HasBit(mask: seq<bv8>, n: u16)
    requires Covered(mask, n)
  {
    mask[n / 8] & Bit(n % 8) != 0
  }

  function OrBit(mask: seq<bv8>, n: u16, on: bool): seq<bv8>
    requires Covered(mask, n)
  {
    mask[n / 8 := mask[n / 8] | (if on then Bit(n % 8) else 0)]
  }

  lemma BitOps(b: bv8, j: nat, k: nat)
    requires j < 8 && k < 8
    ensures ((b | Bit(k)) & Bit(j) != 0) <==> (j == k || b & Bit(j) != 0)
    ensures Bit(k) != 0 && b | 0 == b
  {}

  /** Setting one number's bit sets that bit and no other. */
  lemma OrBitExact(mask: seq<bv8>, n: u16, on: bool, j: u16)
    requires Covered(mask, n) && Covered(mask, j)
    ensures Covered(OrBit(mask, n, on), j)
    ensures HasBit(OrBit(mask, n, on), j) <==> HasBit(mask, j) || (on && j == n)
  {
    hide Bit, HasBit, OrBit;
    var q, r, q', r' := n / 8, n % 8, j / 8, j % 8;
    SameBit(j, n);
    OrBitAt(mask, n, on, q, r);
    HasBitAt(mask, j, q', r');
    HasBitAt(OrBit(mask, n, on), j, q', r');
    OrAt(mask, q, r, on, q', r');
  }

  lemma HasBitAt(mask: seq<bv8>, n: u16, q: nat, r: nat)
    requires Covered(mask, n) && q == n / 8 && r == n % 8
    ensures HasBit(mask, n) <==> mask[q] & Bit(r) != 0
  {}

  lemma OrBitAt(mask: seq<bv8>, n: u16, on: bool, q: nat, r: nat)
    requires Covered(mask, n) && q == n / 8 && r == n % 8
    ensures OrBit(mask, n, on) == mask[q := mask[q] | (if on then Bit(r) else 0)]
  {}

  lemma OrAt(mask: seq<bv8>, q: nat, r: nat, on: bool, q': nat, r': nat)
    requires q < |mask| && q' < |mask| && r < 8 && r' < 8
    ensures mask[q := mask[q] | (if on then Bit(r) else 0)][q'] & Bit(r') != 0 <==>
            mask[q'] & Bit(r') != 0 || (on && q == q' && r == r')
  {
    hide Bit;
    BitOps(mask[q], r', r);
  }

  lemma SameBit(j: nat, n: nat)
    ensures j == n <==> j / 8 == n / 8 && j % 8 == n % 8
  {}

  // ----- the class ----------------------------------------------------------

  /** A class with its instances' attribute arrays and the three masks. */
  datatype ClassState = ClassState(
    highest: u16, instances: seq<seq<Slot>>, single: seq<bv8>, all: seq<bv8>, setable: seq<bv8>)

  datatype Insertion = Insertion(inst: nat, a: Attribute)

  predicate Flag(a: Attribute, f: bv8) { a.flags & f != 0 }

  predicate MaskSizes(c: ClassState) {
    |c.single| == |c.all| == |c.setable| == 1 + c.highest / 8
  }

  /** What the assertions in `InsertAttribute` demand. */
  predicate MayInsert(c: ClassState, op: Insertion) {
    op.inst < |c.instances| && HasRoom(c.instances[op.inst]) && op.a.number <= c.highest && MaskSizes(c)
  }

  /** `InsertAttribute`. */
  function Step(c: ClassState, op: Insertion): (r: ClassState)
    requires MayInsert(c, op)
    ensures MaskSizes(r) && r.highest == c.highest && |r.instances| == |c.instances|
  {
    var n := op.a.number;
    c.(instances := c.instances[op.inst := Insert(c.instances[op.inst], op.a)],
       single := OrBit(c.single, n, Flag(op.a, GETABLE_SINGLE)),
       all := OrBit(c.all, n, Flag(op.a, GETABLE_ALL | ALL_DUMMY)),
       setable := OrBit(c.setable, n, Flag(op.a, SETABLE)))
  }

  predicate Legal(c: ClassState, ops: seq<Insertion>)
    decreases |ops|
  {
    ops != [] ==> MayInsert(c, ops[0]) && Legal(Step(c, ops[0]), ops[1..])
  }

  function Run(c: ClassState, ops: seq<Insertion>): (r: ClassState)
    requires Legal(c, ops) && MaskSizes(c)
    ensures MaskSizes(r) && r.highest == c.highest && |r.instances| == |c.instances|
    decreases |ops|
  {
    if ops == [] then c else Run(Step(c, ops[0]), ops[1..])
  }

  /** A class as created: masks of zeros, all slots free. */
  predicate Created(c: ClassState) {
    && MaskSizes(c)
    && (forall n: u16 :: n <= c.highest ==> !HasBit(c.single, n) && !HasBit(c.all, n) && !HasBit(c.setable, n))
    && (forall i, k :: 0 <= i < |c.instances| && 0 <= k < |c.instances[i]| ==> c.instances[i][k] == Free)
  }

  /** Some inserted attribute of number `n` carries the flag. */
  predicate Flagged(ops: seq<Insertion>, n: u16, f: bv8) {
    exists op :: op in ops && op.a.number == n && Flag(op.a, f)
  }

  lemma FlaggedCons(ops: seq<Insertion>, n: u16, f: bv8)
    requires ops != []
    ensures Flagged(ops, n, f) <==> (ops[0].a.number == n && Flag(ops[0].a, f)) || Flagged(ops[1..], n, f)
  {
    assert forall op :: op in ops <==> op == ops[0] || op in ops[1..];
  }

  lemma {:induction false} MasksFollow(c: ClassState, ops: seq<Insertion>, n: u16)
    requires Legal(c, ops) && MaskSizes(c) && n <= c.highest
    ensures var r := Run(c, ops);
            && (HasBit(r.single, n) <==> HasBit(c.single, n) || Flagged(ops, n, GETABLE_SINGLE))
            && (HasBit(r.all, n) <==> HasBit(c.all, n) || Flagged(ops, n, GETABLE_ALL | ALL_DUMMY))
            && (HasBit(r.setable, n) <==> HasBit(c.setable, n) || Flagged(ops, n, SETABLE))
    decreases |ops|
  {
    if ops != [] {
      var a := ops[0].a;
      FlaggedCons(ops, n, GETABLE_SINGLE);
      FlaggedCons(ops, n, GETABLE_ALL | ALL_DUMMY);
      FlaggedCons(ops, n, SETABLE);
      OrBitExact(c.single, a.number, Flag(a, GETABLE_SINGLE), n);
      OrBitExact(c.all, a.number, Flag(a, GETABLE_ALL | ALL_DUMMY), n);
      OrBitExact(c.setable, a.number, Flag(a, SETABLE), n);
      hide HasBit, OrBit, Flagged, Flag;
      MasksFollow(Step(c, ops[0]), ops[1..], n);
    }
  }

  /** After any sequence of insertions into any instances, each mask bit is set
      exactly when some inserted attribute of that number carries the flag. */
  lemma MasksExact(c: ClassState, ops: seq<Insertion>, n: u16)
    requires Created(c) && Legal(c, ops) && n <= c.highest
    ensures var r := Run(c, ops);
            && (HasBit(r.single, n) <==> Flagged(ops, n, GETABLE_SINGLE))
            && (HasBit(r.all, n) <==> Flagged(ops, n, GETABLE_ALL | ALL_DUMMY))
            && (HasBit(r.setable, n) <==> Flagged(ops, n, SETABLE))
  {
    MasksFollow(c, ops, n);
  }

  // ----- which attributes an instance has -----------------------------------

  /** The attributes inserted into one instance, in order. */
  function Of(ops: seq<Insertion>, i: nat): seq<Attribute>
    decreases |ops|
  {
    if ops == [] then []
    else (if ops[0].inst == i then [ops[0].a] else []) + Of(ops[1..], i)
  }

  /** A slot array holds the given attributes first, and free slots after them. */
  predicate Holding(slots: seq<Slot>, attrs: seq<Attribute>) {
    && |attrs| <= |slots|
    && (forall k :: 0 <= k < |attrs| ==> slots[k] == Taken(attrs[k]))
    && (forall k :: |attrs| <= k < |slots| ==> slots[k] == Free)
  }

  lemma {:induction false} InsertHolding(slots: seq<Slot>, attrs: seq<Attribute>, a: Attribute)
    requires Holding(slots, attrs) && HasRoom(slots)
    ensures Holding(Insert(slots, a), attrs + [a])
    decreases |slots|
  {
    if attrs == [] {
      assert slots[0] == Free;
      assert attrs + [a] == [a];
    } else {
      assert slots[0] == Taken(attrs[0]);
      assert Holding(slots[1..], attrs[1..]);
      assert Free in slots[1..] by { assert slots == [slots[0]] + slots[1..]; }
      InsertHolding(slots[1..], attrs[1..], a);
      assert attrs + [a] == [attrs[0]] + (attrs[1..] + [a]);
    }
  }

  lemma {:induction false} RunHolding(c: ClassState, ops: seq<Insertion>, i: nat, attrs: seq<Attribute>)
    requires Legal(c, ops) && MaskSizes(c) && i < |c.instances| && Holding(c.instances[i], attrs)
    ensures Holding(Run(c, ops).instances[i], attrs + Of(ops, i))
    decreases |ops|
  {
    if ops == [] {
      assert attrs + [] == attrs;
    } else {
      var op := ops[0];
      if op.inst == i {
        InsertHolding(c.instances[i], attrs, op.a);
        assert attrs + [op.a] + Of(ops[1..], i) == attrs + ([op.a] + Of(ops[1..], i));
        RunHolding(Step(c, op), ops[1..], i, attrs + [op.a]);
      } else {
        assert [] + Of(ops[1..], i) == Of(ops[1..], i);
        RunHolding(Step(c, op), ops[1..], i, attrs);
      }
    }
  }

  lemma InstanceHolds(c: ClassState, ops: seq<Insertion>, i: nat)
    requires Created(c) && Legal(c, ops) && i < |c.instances|
    ensures Holding(Run(c, ops).instances[i], Of(ops, i))
  {
    assert Holding(c.instances[i], []);
    RunHolding(c, ops, i, []);
    assert [] + Of(ops, i) == Of(ops, i);
  }

  lemma {:induction false} OfMembers(ops: seq<Insertion>, i: nat, a: Attribute)
    ensures a in Of(ops, i) <==> Insertion(i, a) in ops
    decreases |ops|
  {
    if ops != [] {
      OfMembers(ops[1..], i, a);
      assert Insertion(i, a) in ops <==> Insertion(i, a) == ops[0] || Insertion(i, a) in ops[1..];
    }
  }

  /** Looking up an attribute number finds an attribute inserted into that instance
      under that number, and otherwise there is none. Nothing or, for number 0
      only, a free slot is then found. */
  lemma LookupExact(c: ClassState, ops: seq<Insertion>, i: nat, n: u16)
    requires Created(c) && Legal(c, ops) && i < |c.instances|
    ensures var r := Lookup(Run(c, ops).instances[i], n);
            && (r.Some? && r.value.Taken? ==> r.value.a.number == n && Insertion(i, r.value.a) in ops)
            && (r.None? || r.value.Free? ==> forall a: Attribute :: Insertion(i, a) in ops ==> a.number != n)
            && (r == Some(Free) <==> n == 0 && |Of(ops, i)| < |c.instances[i]|
                                     && forall a: Attribute :: Insertion(i, a) in ops ==> a.number != 0)
  {
    InstanceHolds(c, ops, i);
    RunSlots(c, ops, i);
    var slots, attrs := Run(c, ops).instances[i], Of(ops, i);
    var r := Lookup(slots, n);
    hide Run, Of, Created, Legal;
    LookupHolding(slots, attrs, n);
    forall a: Attribute ensures a in attrs <==> Insertion(i, a) in ops { OfMembers(ops, i, a); }
    hide Lookup, Holding;
    if !(r.Some? && r.value.Taken?) {
      forall a: Attribute | Insertion(i, a) in ops ensures a.number != n { assert a in attrs; }
    }
  }

  lemma {:induction false} RunSlots(c: ClassState, ops: seq<Insertion>, i: nat)
    requires Legal(c, ops) && MaskSizes(c) && i < |c.instances|
    ensures |Run(c, ops).instances[i]| == |c.instances[i]|
    decreases |ops|
  {
    if ops != [] { RunSlots(Step(c, ops[0]), ops[1..], i); }
  }

  lemma {:induction false} LookupHolding(slots: seq<Slot>, attrs: seq<Attribute>, n: u16)
    requires Holding(slots, attrs)
    ensures var r := Lookup(slots, n);
            && (r.Some? && r.value.Taken? ==> r.value.a in attrs && r.value.a.number == n)
            && (r.None? || r.value.Free? ==> forall a :: a in attrs ==> a.number != n)
            && (r == Some(Free) <==> n == 0 && |attrs| < |slots| && forall a :: a in attrs ==> a.number != 0)
    decreases |slots|
  {
    if attrs == [] {
      assert slots != [] ==> slots[0] == Free;
    } else {
      assert slots[0] == Taken(attrs[0]) && attrs[0] in attrs;
      assert forall a :: a in attrs <==> a == attrs[0] || a in attrs[1..];
      assert Holding(slots[1..], attrs[1..]);
      LookupHolding(slots[1..], attrs[1..], n);
    }
  }

  predicate Shaped(c: ClassState, i: nat) { i < |c.instances| && MaskSizes(c) }

  /** Every slot found belongs to a number the masks have a bit for. */
  predicate Bounded(c: ClassState, i: nat) {
    Shaped(c, i) && forall k :: 0 <= k < |c.instances[i]| ==> NumberOf(c.instances[i][k]) <= c.highest
  }

  lemma {:induction false} RunBounded(c: ClassState, ops: seq<Insertion>, i: nat)
    requires Legal(c, ops) && Bounded(c, i)
    ensures Bounded(Run(c, ops), i)
    decreases |ops|
  {
    if ops != [] {
      InsertBounded(c.instances[ops[0].inst], ops[0].a, c.highest);
      RunBounded(Step(c, ops[0]), ops[1..], i);
    }
  }

  lemma {:induction false} InsertBounded(slots: seq<Slot>, a: Attribute, highest: u16)
    requires a.number <= highest
    ensures (forall k :: 0 <= k < |slots| ==> NumberOf(slots[k]) <= highest) ==>
            forall k :: 0 <= k < |slots| ==> NumberOf(Insert(slots, a)[k]) <= highest
  {
    if slots != [] { InsertBounded(slots[1..], a, highest); }
  }

  /** Every attribute number that is found has its bit in the masks. */
  lemma FoundIsCovered(c: ClassState, ops: seq<Insertion>, i: nat, n: u16)
    requires Created(c) && Legal(c, ops) && i < |c.instances|
    ensures Lookup(Run(c, ops).instances[i], n).Some? ==> n <= c.highest && Covered(Run(c, ops).single, n)
  {
    assert Bounded(c, i);
    RunBounded(c, ops, i);
    var slots := Run(c, ops).instances[i];
    var s := Lookup(slots, n);
    hide Run, Lookup;
    if s.Some? {
      var k :| 0 <= k < |slots| && slots[k] == s.value;
    }
  }

  // ----- single attributes --------------------------------------------------

  const SUCCESS: byte := 0x00
  const NOT_SUPPORTED: byte := 0x14
  const NOT_SETABLE: byte := 0x0E
  const NOT_GETTABLE: byte := 0x2C
  const LIST_ERROR: byte := 0x0A
  const PARTIAL_TRANSFER: byte := 0x06

  datatype Reply = Reply(status: byte, bytes: seq<byte>)

  /** The attribute found is a real one and its number can be read singly. The
      masks have a bit for every number found (`FoundIsCovered`). */
  predicate Readable(c: ClassState, i: nat, n: u16)
    requires Shaped(c, i)
  {
    var s := Lookup(c.instances[i], n);
    s.Some? && s.value.Taken? && Covered(c.single, n) && HasBit(c.single, n)
  }

  /** `GetAttributeSingle`, without callbacks. */
  function GetSingle(c: ClassState, i: nat, n: u16): Reply
    requires Shaped(c, i)
  {
    if Readable(c, i, n) then Reply(SUCCESS, EncodeAt(Lookup(c.instances[i], n).value.a.data, 0))
    else Reply(NOT_SUPPORTED, [])
  }

  /** What `SetAttributeSingle` does: hand the data to the decoder, or reply with an error. */
  datatype SetOutcome = Decodes(a: Attribute) | Refuses(status: byte)

  function SetSingle(c: ClassState, i: nat, n: u16): SetOutcome
    requires Shaped(c, i)
  {
    var s := Lookup(c.instances[i], n);
    if s.None? || s.value.Free? then Refuses(NOT_SUPPORTED)
    else
      var flags := s.value.a.flags;
      if flags == ALL_DUMMY || flags == 0 || flags == GETABLE_ALL then Refuses(NOT_SUPPORTED)
      else if Covered(c.setable, n) && HasBit(c.setable, n) then Decodes(s.value.a)
      else Refuses(NOT_SETABLE)
  }

  /** Reading attribute `n` of instance `i` succeeds exactly when that instance has
      such an attribute and some instance's attribute of that number is marked readable. */
  lemma GetSingleExact(c: ClassState, ops: seq<Insertion>, i: nat, n: u16)
    requires Created(c) && Legal(c, ops) && i < |c.instances|
    ensures GetSingle(Run(c, ops), i, n).status == SUCCESS <==>
            (exists a: Attribute :: Insertion(i, a) in ops && a.number == n) && Flagged(ops, n, GETABLE_SINGLE)
  {
    LookupExact(c, ops, i, n);
    FoundIsCovered(c, ops, i, n);
    if n <= c.highest { MasksExact(c, ops, n); }
    hide Run, HasBit;
  }

  /** All insertions of one number agree on whether it carries the flag. */
  predicate Uniform(ops: seq<Insertion>, f: bv8) {
    forall p, q :: p in ops && q in ops && p.a.number == q.a.number ==> (Flag(p.a, f) <==> Flag(q.a, f))
  }

  /** With flags that are uniform per number, a read succeeds exactly when the
      instance has the attribute and it is marked readable, and a write reaches
      the decoder exactly when the instance has the attribute and it is marked setable. */
  lemma UniformServices(c: ClassState, ops: seq<Insertion>, i: nat, n: u16)
    requires Created(c) && Legal(c, ops) && i < |c.instances|
    requires Uniform(ops, GETABLE_SINGLE) && Uniform(ops, SETABLE)
    ensures GetSingle(Run(c, ops), i, n).status == SUCCESS <==>
            exists a: Attribute :: Insertion(i, a) in ops && a.number == n && Flag(a, GETABLE_SINGLE)
    ensures SetSingle(Run(c, ops), i, n).Decodes? <==>
            exists a: Attribute :: Insertion(i, a) in ops && a.number == n && Flag(a, SETABLE)
  {
    var r := Run(c, ops);
    LookupExact(c, ops, i, n);
    FoundIsCovered(c, ops, i, n);
    hide Run;
    var s := Lookup(r.instances[i], n);
    if s.Some? && s.value.Taken? {
      var mine := Insertion(i, s.value.a);
      assert mine in ops && n <= c.highest;
      MasksExact(c, ops, n);
      hide HasBit;
      assert Flagged(ops, n, GETABLE_SINGLE) <==> Flag(mine.a, GETABLE_SINGLE);
      assert Flagged(ops, n, SETABLE) <==> Flag(mine.a, SETABLE);
      assert Flag(mine.a, SETABLE) ==> mine.a.flags != ALL_DUMMY && mine.a.flags != 0 && mine.a.flags != GETABLE_ALL;
      forall a: Attribute | Insertion(i, a) in ops && a.number == n
        ensures Flag(a, GETABLE_SINGLE) == Flag(mine.a, GETABLE_SINGLE) && Flag(a, SETABLE) == Flag(mine.a, SETABLE)
      {
        assert Insertion(i, a).a == a;
      }
    }
  }

  /** A write reaches the decoder exactly when the attribute found has flags beyond the
      excluded ones and some attribute of that number in the class is marked setable. */
  lemma SetSingleExact(c: ClassState, ops: seq<Insertion>, i: nat, n: u16)
    requires Created(c) && Legal(c, ops) && i < |c.instances|
    ensures var s := Lookup(Run(c, ops).instances[i], n);
            SetSingle(Run(c, ops), i, n).Decodes? <==>
              && s.Some? && s.value.Taken? && Flagged(ops, n, SETABLE)
              && s.value.a.flags != ALL_DUMMY && s.value.a.flags != 0 && s.value.a.flags != GETABLE_ALL
  {
    FoundIsCovered(c, ops, i, n);
    if n <= c.highest { MasksExact(c, ops, n); }
    hide Run, HasBit, Lookup, Flagged;
  }

  lemma {:induction false} InsertedInRange(c: ClassState, ops: seq<Insertion>, op: Insertion)
    requires Legal(c, ops) && op in ops
    ensures op.inst < |c.instances| && op.a.number <= c.highest
    decreases |ops|
  {
    if ops[0] != op { InsertedInRange(Step(c, ops[0]), ops[1..], op); }
  }

  /** Every inserted attribute can be read exactly when its own flag says so. */
  ghost predicate OwnFlagsDecide(c: ClassState, ops: seq<Insertion>)
    requires Legal(c, ops) && MaskSizes(c)
  {
    forall op :: op in ops && op.inst < |c.instances| ==>
                   (GetSingle(Run(c, ops), op.inst, op.a.number).status == SUCCESS <==> Flag(op.a, GETABLE_SINGLE))
  }

  /** Reads go by the attributes' own flags exactly when all attributes of a number agree on theirs. */
  lemma OwnFlagsDecideIff(c: ClassState, ops: seq<Insertion>)
    requires Created(c) && MaskSizes(c) && Legal(c, ops)
    ensures OwnFlagsDecide(c, ops) <==> Uniform(ops, GETABLE_SINGLE)
  {
    forall op | op in ops
      ensures op.inst < |c.instances|
      ensures GetSingle(Run(c, ops), op.inst, op.a.number).status == SUCCESS <==>
              Flagged(ops, op.a.number, GETABLE_SINGLE)
    {
      InsertedInRange(c, ops, op);
      GetSingleExact(c, ops, op.inst, op.a.number);
      assert Insertion(op.inst, op.a) == op;
    }
    hide Run, GetSingle, Flag, Created, Legal;
    forall op | op in ops && Flag(op.a, GETABLE_SINGLE) ensures Flagged(ops, op.a.number, GETABLE_SINGLE) {}
    if OwnFlagsDecide(c, ops) {
      forall p, q | p in ops && q in ops && p.a.number == q.a.number
        ensures Flag(p.a, GETABLE_SINGLE) <==> Flag(q.a, GETABLE_SINGLE)
      {}
    }
  }

  /** One instance's attribute 1 is marked readable, another's is not: the other is read all the same. */
  lemma MaskSpills(c: ClassState, data: CipData, declared: nat)
    requires Created(c) && c.highest >= 1 && |c.instances| == 2 && |c.instances[0]| == |c.instances[1]| == 1
    ensures var ops := [Insertion(0, Attribute(1, GETABLE_SINGLE, data, declared)),
                        Insertion(1, Attribute(1, 0, data, declared))];
            Legal(c, ops) && GetSingle(Run(c, ops), 1, 1).status == SUCCESS && !Uniform(ops, GETABLE_SINGLE)
  {
    var p := Insertion(0, Attribute(1, GETABLE_SINGLE, data, declared));
    var q := Insertion(1, Attribute(1, 0, data, declared));
    var ops := [p, q];
    assert c.instances[0][0] == Free && c.instances[1][0] == Free;
    assert Free in c.instances[0] && Free in c.instances[1];
    var d := Step(c, p);
    assert d.instances[1] == c.instances[1] && MayInsert(d, q);
    assert [q][1..] == [] && Legal(Step(d, q), []) && Legal(d, [q]);
    assert ops[1..] == [q] && Legal(c, ops);
    assert p in ops && q in ops && Flag(p.a, GETABLE_SINGLE) && !Flag(q.a, GETABLE_SINGLE);
    GetSingleExact(c, ops, 1, 1);
    assert Insertion(1, q.a) in ops && Flagged(ops, 1, GETABLE_SINGLE);
  }

  /** A read that succeeds replies with the encoding of the attribute found, and any other read
      with status 0x14 and no data. */
  lemma GetSingleOutcome(c: ClassState, i: nat, n: u16)
    requires Shaped(c, i)
    ensures var r, s := GetSingle(c, i, n), Lookup(c.instances[i], n);
            if r.status == 0 then s.Some? && s.value.Taken? && r.bytes == EncodeAt(s.value.a.data, 0)
            else r.status == 0x14 && r.bytes == []
  {}

  /** A write goes to the decoder of the attribute found; it is refused with 0x14 if there is none
      or it has one of the excluded flags, and with 0x0E if no attribute of that number is setable. */
  lemma SetSingleOutcome(c: ClassState, ops: seq<Insertion>, i: nat, n: u16)
    requires Created(c) && Legal(c, ops) && i < |c.instances|
    ensures var s, r := Lookup(Run(c, ops).instances[i], n), SetSingle(Run(c, ops), i, n);
            var known := s.Some? && s.value.Taken? && s.value.a.flags !in {ALL_DUMMY, 0, GETABLE_ALL};
            && (!known ==> r == Refuses(0x14))
            && (known && !Flagged(ops, n, SETABLE) ==> r == Refuses(0x0E))
            && (known && Flagged(ops, n, SETABLE) ==> r == Decodes(s.value.a))
  {
    SetSingleExact(c, ops, i, n);
    hide Run, HasBit, Lookup, Flagged;
  }

  /** A string in a message: its length and its characters can be read back where it was
      written, and a string that is not empty leaves the message with an even number of bytes. */
  lemma TextRead(chars: seq<byte>, before: seq<byte>)
    requires |chars| < TWO16
    ensures var mem := before + EncodeAt(Text(chars), |before|);
            && UintAt(mem, |before|) == |chars| && Holds(mem, |before| + 2, chars)
            && (chars != [] ==> |mem| % 2 == 0) && |mem| <= |before| + 2 + |chars| + 1
            && (chars == [] ==> |mem| == |before| + 2)
  {
    var e := EncodeAt(Text(chars), |before|);
    var pad: seq<byte> := if chars != [] && (|before| + 2 + |chars|) % 2 == 1 then [0] else [];
    assert e == Le16(|chars|) + (chars + pad);
    hide EncodeAt, Le16;
    var mem := before + e;
    assert Holds(mem, |before|, e);
    HoldsSplit(mem, |before|, Le16(|chars|), chars + pad);
    HoldsSplit(mem, |before| + 2, chars, pad);
    HoldsUint(mem, |before|, |chars|);
  }
}
