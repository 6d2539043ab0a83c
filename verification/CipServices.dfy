/** The Get_Attribute_All and Get_Attribute_List services: what they put into
    the response, in which order, and within which bounds. */
module CipServices {
  import opened Words
  import opened CipMessage
  import opened CipAttributes

  // ----- Get_Attribute_All --------------------------------------------------

  /** The contribution of attribute number `n`. */
  function AllOne(c: ClassState, i: nat, n: u16, used: nat): seq<byte>
    requires Shaped(c, i) && n <= c.highest
  {
    var s := Lookup(c.instances[i], n);
    if HasBit(c.all, n) && s.Some? && s.value.Taken? then EncodeAt(s.value.a.data, used) else []
  }

  /** The numbers from `n` to the highest one, in ascending order. */
  function AllFrom(c: ClassState, i: nat, n: nat, used: nat): seq<byte>
    requires Shaped(c, i)
    decreases c.highest + 1 - n
  {
    if n > c.highest then []
    else var one := AllOne(c, i, n, used); one + AllFrom(c, i, n + 1, used + |one|)
  }

  /** `GetAttributeAll` for a class with attributes. The loop counter has 16 bits,
      so the loop ends only if the highest attribute number is below 65535. */
  method GetAttributeAll(c: ClassState, i: nat, msg: Message)
    requires Shaped(c, i) && c.highest < 65535
    requires msg.Valid() && msg.used == 0 && |AllFrom(c, i, 1, 0)| <= msg.buffer.Length
    modifies msg, msg.buffer
    ensures msg.Valid() && msg.Content() == AllFrom(c, i, 1, 0)
  {
    hide EncodeAt, HasBit, Lookup, AllFrom;
    var n: u16 := 1;
    while n <= c.highest
      invariant msg.Valid() && 1 <= n <= c.highest + 1
      invariant msg.Content() + AllFrom(c, i, n, msg.used) == AllFrom(c, i, 1, 0)
      decreases c.highest + 1 - n
    {
      AllStep(c, i, n, msg.used, msg.Content());
      if HasBit(c.all, n) {
        var s := Lookup(c.instances[i], n);
        if s.Some? && s.value.Taken? {
          msg.AddBytes(EncodeAt(s.value.a.data, msg.used));
        }
      }
      n := n + 1;
    }
    AllStep(c, i, n, msg.used, msg.Content());
  }

  lemma AllStep(c: ClassState, i: nat, n: nat, used: nat, before: seq<byte>)
    requires Shaped(c, i)
    ensures if n > c.highest then AllFrom(c, i, n, used) == []
            else var one := AllOne(c, i, n, used);
                 && |one| <= |AllFrom(c, i, n, used)|
                 && (one == [] ==> before + AllFrom(c, i, n, used) == before + AllFrom(c, i, n + 1, used))
                 && before + AllFrom(c, i, n, used) == before + one + AllFrom(c, i, n + 1, used + |one|)
  {
    hide AllOne;
    if n <= c.highest {
      var one := AllOne(c, i, n, used);
      var rest := AllFrom(c, i, n + 1, used + |one|);
      assert AllFrom(c, i, n, used) == one + rest;
      assert before + (one + rest) == before + one + rest;
      if one == [] { assert one + rest == rest; }
    }
  }

  // ----- independence of the insertion order --------------------------------

  /** Within instance `i` no attribute number is inserted twice. */
  predicate OncePerNumber(ops: seq<Insertion>, i: nat) {
    forall p, q :: p in ops && q in ops && p.inst == i && q.inst == i && p.a.number == q.a.number ==> p == q
  }

  lemma SameFlags(p: seq<Insertion>, q: seq<Insertion>, n: u16, f: bv8)
    requires forall op :: op in p <==> op in q
    ensures Flagged(p, n, f) <==> Flagged(q, n, f)
  {}

  lemma SameLookup(c: ClassState, p: seq<Insertion>, q: seq<Insertion>, i: nat, n: u16)
    requires Created(c) && Legal(c, p) && Legal(c, q) && i < |c.instances| && n != 0
    requires OncePerNumber(p, i) && forall op :: op in p <==> op in q
    ensures Lookup(Run(c, p).instances[i], n) == Lookup(Run(c, q).instances[i], n)
  {
    LookupExact(c, p, i, n);
    LookupExact(c, q, i, n);
    var x, y := Lookup(Run(c, p).instances[i], n), Lookup(Run(c, q).instances[i], n);
    hide Run, Lookup, Legal, Created;
    if x.Some? && y.Some? {
      assert Insertion(i, x.value.a) in p && Insertion(i, y.value.a) in p;
    }
  }

  lemma SameOne(c: ClassState, p: seq<Insertion>, q: seq<Insertion>, i: nat, n: u16, used: nat)
    requires Created(c) && Legal(c, p) && Legal(c, q) && i < |c.instances| && 1 <= n <= c.highest
    requires OncePerNumber(p, i) && forall op :: op in p <==> op in q
    ensures AllOne(Run(c, p), i, n, used) == AllOne(Run(c, q), i, n, used)
  {
    hide Run, Lookup, HasBit, EncodeAt, Flagged, Legal, OncePerNumber;
    SameLookup(c, p, q, i, n);
    MasksExact(c, p, n);
    MasksExact(c, q, n);
    SameFlags(p, q, n, GETABLE_ALL | ALL_DUMMY);
  }

  lemma {:induction false} SameAll(c: ClassState, p: seq<Insertion>, q: seq<Insertion>, i: nat, n: nat, used: nat)
    requires Created(c) && MaskSizes(c) && Legal(c, p) && Legal(c, q) && i < |c.instances| && 1 <= n
    requires OncePerNumber(p, i) && forall op :: op in p <==> op in q
    ensures AllFrom(Run(c, p), i, n, used) == AllFrom(Run(c, q), i, n, used)
    decreases c.highest + 1 - n
  {
    hide Run, Lookup, HasBit, EncodeAt, Flagged, Legal, OncePerNumber, Created;
    if n <= c.highest {
      SameOne(c, p, q, i, n, used);
      hide AllOne;
      var one := AllOne(Run(c, p), i, n, used);
      SameAll(c, p, q, i, n + 1, used + |one|);
    }
  }

  /** The response of Get_Attribute_All does not depend on the order in which the
      attributes were inserted, as long as no number is inserted twice into the instance. */
  lemma AllIsOrderFree(c: ClassState, p: seq<Insertion>, q: seq<Insertion>, i: nat)
    requires Created(c) && Legal(c, p) && Legal(c, q) && i < |c.instances|
    requires OncePerNumber(p, i) && multiset(p) == multiset(q)
    ensures AllFrom(Run(c, p), i, 1, 0) == AllFrom(Run(c, q), i, 1, 0)
  {
    forall op ensures op in p <==> op in q {
      assert op in multiset(p) <==> op in multiset(q);
    }
    SameAll(c, p, q, i, 1, 0);
  }

  // ----- the response from the insertions -----------------------------------

  /** The attributes of instance `i` from number `n` on whose number is flagged
      for the service, in ascending order. */
  ghost predicate AscendingFrom(ops: seq<Insertion>, i: nat, n: nat, attrs: seq<Attribute>) {
    && (forall j, k :: 0 <= j < k < |attrs| ==> attrs[j].number < attrs[k].number)
    && (forall a: Attribute :: a in attrs <==>
          Insertion(i, a) in ops && n <= a.number && Flagged(ops, a.number, GETABLE_ALL | ALL_DUMMY))
  }

  /** Encodings one after the other. */
  function EncodeEach(attrs: seq<Attribute>, used: nat): seq<byte>
    decreases |attrs|
  {
    if attrs == [] then []
    else var one := EncodeAt(attrs[0].data, used); one + EncodeEach(attrs[1..], used + |one|)
  }

  /** What one number contributes, told from the insertions. */
  lemma OneFromInsertions(c: ClassState, ops: seq<Insertion>, i: nat, n: u16, used: nat)
    requires Created(c) && Legal(c, ops) && i < |c.instances| && OncePerNumber(ops, i) && n <= c.highest
    ensures var one := AllOne(Run(c, ops), i, n, used);
            && (forall a: Attribute ::
                  (Insertion(i, a) in ops && a.number == n && Flagged(ops, n, GETABLE_ALL | ALL_DUMMY)) ==>
                    one == EncodeAt(a.data, used))
            && ((forall a: Attribute ::
                   !(Insertion(i, a) in ops && a.number == n && Flagged(ops, n, GETABLE_ALL | ALL_DUMMY))) ==>
                  one == [])
  {
    LookupExact(c, ops, i, n);
    MasksExact(c, ops, n);
    hide Run, Lookup, HasBit, EncodeAt, Flagged, Legal, Of;
    var s := Lookup(Run(c, ops).instances[i], n);
    forall a: Attribute | Insertion(i, a) in ops && a.number == n && Flagged(ops, n, GETABLE_ALL | ALL_DUMMY)
      ensures AllOne(Run(c, ops), i, n, used) == EncodeAt(a.data, used)
    {
      assert Insertion(i, s.value.a) == Insertion(i, a);
    }
  }

  /** Either the list begins with number `n`, or it is a list from `n + 1` on. */
  lemma AscendingStep(ops: seq<Insertion>, i: nat, n: u16, attrs: seq<Attribute>)
    requires AscendingFrom(ops, i, n, attrs) && OncePerNumber(ops, i)
    ensures attrs != [] && attrs[0].number == n ==>
              && AscendingFrom(ops, i, n + 1, attrs[1..]) && Insertion(i, attrs[0]) in ops
              && Flagged(ops, n, GETABLE_ALL | ALL_DUMMY)
    ensures attrs == [] || attrs[0].number != n ==> AscendingFrom(ops, i, n + 1, attrs)
    ensures attrs == [] || attrs[0].number != n ==>
              forall a: Attribute ::
                !(Insertion(i, a) in ops && a.number == n && Flagged(ops, n, GETABLE_ALL | ALL_DUMMY))
  {
    hide Flagged;
    if attrs != [] {
      assert attrs[0] in attrs;
      assert forall a :: a in attrs <==> a == attrs[0] || a in attrs[1..];
      forall a | a in attrs[1..] ensures attrs[0].number < a.number {
        var k :| 0 <= k < |attrs[1..]| && attrs[1..][k] == a;
        assert attrs[k + 1] == a;
      }
    }
  }

  lemma {:induction false} AllFromInsertions(c: ClassState, ops: seq<Insertion>, i: nat,
                                             n: nat, used: nat, attrs: seq<Attribute>)
    requires Created(c) && MaskSizes(c) && Legal(c, ops) && i < |c.instances|
    requires OncePerNumber(ops, i) && AscendingFrom(ops, i, n, attrs)
    ensures AllFrom(Run(c, ops), i, n, used) == EncodeEach(attrs, used)
    decreases c.highest + 1 - n
  {
    hide Run, Lookup, HasBit, EncodeAt, Flagged, Legal, OncePerNumber, Created, AllOne, AscendingFrom;
    if n > c.highest {
      AscendingPast(c, ops, i, n, attrs);
    } else {
      AscendingStep(ops, i, n, attrs);
      OneFromInsertions(c, ops, i, n, used);
      var one := AllOne(Run(c, ops), i, n, used);
      if attrs != [] && attrs[0].number == n {
        AllFromInsertions(c, ops, i, n + 1, used + |one|, attrs[1..]);
      } else {
        AllFromInsertions(c, ops, i, n + 1, used, attrs);
      }
    }
  }

  lemma AscendingPast(c: ClassState, ops: seq<Insertion>, i: nat, n: nat, attrs: seq<Attribute>)
    requires Legal(c, ops) && n > c.highest && AscendingFrom(ops, i, n, attrs)
    ensures attrs == []
  {
    hide Flagged, Legal;
    forall a: Attribute | Insertion(i, a) in ops ensures a.number < n { InsertedInRange(c, ops, Insertion(i, a)); }
    FirstIsMember(attrs);
  }

  lemma FirstIsMember(attrs: seq<Attribute>)
    ensures attrs == [] || attrs[0] in attrs
  {}

  /** The response of Get_Attribute_All is made of the encodings of the instance's
      attributes whose number is flagged, in ascending order of the numbers; number 0 is left out. */
  lemma AllIsAscending(c: ClassState, ops: seq<Insertion>, i: nat, attrs: seq<Attribute>)
    requires Created(c) && Legal(c, ops) && i < |c.instances|
      && OncePerNumber(ops, i) && AscendingFrom(ops, i, 1, attrs)
    ensures AllFrom(Run(c, ops), i, 1, 0) == EncodeEach(attrs, 0)
  {
    AllFromInsertions(c, ops, i, 1, 0, attrs);
  }

  /** There always is such a list. */
  lemma {:induction false} AscendingExists(c: ClassState, ops: seq<Insertion>, i: nat, n: nat)
    returns (attrs: seq<Attribute>)
    requires Legal(c, ops) && OncePerNumber(ops, i)
    ensures AscendingFrom(ops, i, n, attrs)
    decreases c.highest + 1 - n
  {
    hide Flagged, Legal;
    if n > c.highest {
      attrs := [];
      forall a: Attribute | Insertion(i, a) in ops ensures a.number < n { InsertedInRange(c, ops, Insertion(i, a)); }
    } else {
      var rest := AscendingExists(c, ops, i, n + 1);
      if a: Attribute :| Insertion(i, a) in ops && a.number == n && Flagged(ops, n, GETABLE_ALL | ALL_DUMMY) {
        attrs := [a] + rest;
        assert forall b :: b in attrs <==> b == a || b in rest;
        forall b: Attribute | Insertion(i, b) in ops && b.number == n ensures b == a {
          assert Insertion(i, b) == Insertion(i, a);
        }
        assert forall k :: 0 <= k < |rest| ==> rest[k] in rest;
      } else {
        attrs := rest;
      }
    }
  }

  // ----- Get_Attribute_List -------------------------------------------------

  /** One entry of the response: the number, a status and, on success, the data. */
  datatype Entry = Entry(id: u16, status: byte, data: seq<byte>)

  function EntryFor(c: ClassState, i: nat, id: u16, used: nat): Entry
    requires Shaped(c, i)
  {
    var s := Lookup(c.instances[i], id);
    if s.None? then Entry(id, NOT_SUPPORTED, [])
    else if Readable(c, i, id) then Entry(id, SUCCESS, EncodeAt(s.value.a.data, used + 4))
    else Entry(id, NOT_GETTABLE, [])
  }

  /** The service asks for the mask bit but not for data. On a free slot, which
      only number 0 finds, a set bit leads to a call of an encoder that is not there. */
  predicate NoEncoder(c: ClassState, i: nat, id: u16)
    requires Shaped(c, i)
  {
    Lookup(c.instances[i], id) == Some(Free) && Covered(c.single, id) && HasBit(c.single, id)
  }

  /** When that happens: attribute 0 is asked for, the instance has none but has a
      free slot, and some other instance's attribute 0 is marked readable. */
  lemma NoEncoderIff(c: ClassState, ops: seq<Insertion>, i: nat, id: u16)
    requires Created(c) && Legal(c, ops) && i < |c.instances|
    ensures NoEncoder(Run(c, ops), i, id) <==>
            && id == 0 && Flagged(ops, 0, GETABLE_SINGLE) && |Of(ops, i)| < |c.instances[i]|
            && forall a: Attribute :: Insertion(i, a) in ops ==> a.number != 0
  {
    LookupExact(c, ops, i, id);
    MasksExact(c, ops, 0);
    hide Run, Lookup, HasBit, Flagged, Of, Legal;
  }

  /** Attribute 0 is readable in one of two instances, and the other, which has a
      free slot, is asked for it. */
  lemma ZeroHasNoEncoder(c: ClassState, data: CipData, declared: nat)
    requires Created(c) && |c.instances| == 2 && |c.instances[0]| == |c.instances[1]| == 1
    ensures var ops := [Insertion(0, Attribute(0, GETABLE_SINGLE, data, declared))];
            Legal(c, ops) && NoEncoder(Run(c, ops), 1, 0) && ListCrashes(Run(c, ops), 1, 64, [1, 0, 0, 0])
  {
    var a := Attribute(0, GETABLE_SINGLE, data, declared);
    var op := Insertion(0, a);
    var ops := [op];
    assert c.instances[0][0] == Free && Free in c.instances[0];
    assert ops[1..] == [] && Legal(Step(c, op), []);
    assert op in ops && Flag(a, GETABLE_SINGLE);
    assert Flagged(ops, 0, GETABLE_SINGLE);
    assert Of(ops, 1) == [] by { assert Of(ops[1..], 1) == []; }
    NoEncoderIff(c, ops, 1, 0);
    var r := Run(c, ops);
    hide Run, NoEncoder, Legal, Created;
    var req := [1, 0, 0, 0];
    assert UintAt(req, 0) == 1 && UintAt(req, 2) == 0;
    assert Entries(r, 1, 64, req, 0, 1, 2) == [];
    NoEncoderNeeds(r, 1, 0);
    assert Concat([]) == [];
  }

  lemma NoEncoderNeeds(c: ClassState, i: nat, id: u16)
    requires Shaped(c, i) && NoEncoder(c, i, id)
    ensures Needed(c, i, id) == 0
  {}

  function EntryBytes(e: Entry): seq<byte> { Le16(e.id) + [e.status, 0] + e.data }

  /** The space the service asks for before it writes an entry. */
  function Needed(c: ClassState, i: nat, id: u16): nat
    requires Shaped(c, i)
  {
    var s := Lookup(c.instances[i], id);
    if s.None? then 2 else if s.value.Taken? then s.value.a.declared else 0
  }

  /** The entries written for requests `j` to `count`, stopping when the buffer is full or an encoder is missing. */
  function Entries(c: ClassState, i: nat, size: nat, req: seq<byte>, j: nat, count: nat, used: nat): (r: seq<Entry>)
    requires Shaped(c, i) && j <= count
    ensures |r| <= count - j
    decreases count - j
  {
    if j == count then []
    else
      var id := UintAt(req, 2 + 2 * j);
      if Needed(c, i, id) > size - used - 33 || NoEncoder(c, i, id) then []
      else
        var e := EntryFor(c, i, id, used);
        [e] + Entries(c, i, size, req, j + 1, count, used + |EntryBytes(e)|)
  }

  function Concat(es: seq<Entry>): seq<byte> {
    if es == [] then [] else EntryBytes(es[0]) + Concat(es[1..])
  }

  predicate AnyFailed(es: seq<Entry>) { exists e :: e in es && e.status != SUCCESS }

  function CountOf(req: seq<byte>): u16 { UintAt(req, 0) }

  /** The service stops at a missing encoder: there is a next request and space for it. */
  predicate ListCrashes(c: ClassState, i: nat, size: nat, req: seq<byte>)
    requires Shaped(c, i)
  {
    var es := Entries(c, i, size, req, 0, CountOf(req), 2);
    var id := UintAt(req, 2 + 2 * |es|);
    |es| < CountOf(req) && Needed(c, i, id) <= size - (2 + |Concat(es)|) - 33 && NoEncoder(c, i, id)
  }

  /** What `GetAttributeList` leaves in the response, unless an encoder is missing. */
  function ListReply(c: ClassState, i: nat, size: nat, req: seq<byte>): Reply
    requires Shaped(c, i)
  {
    var count := CountOf(req);
    if count == 0 then Reply(LIST_ERROR, [])
    else
      var es := Entries(c, i, size, req, 0, count, 2);
      Reply(if AnyFailed(es) then LIST_ERROR else if |es| < count then PARTIAL_TRANSFER else SUCCESS,
            Le16(count) + Concat(es))
  }

  /** The declared length bounds the encoded size up to `excess` bytes. */
  predicate Declared(c: ClassState, i: nat, excess: nat)
    requires Shaped(c, i)
  {
    forall k :: 0 <= k < |c.instances[i]| && c.instances[i][k].Taken? ==>
                  SizeBound(c.instances[i][k].a, excess)
  }

  predicate SizeBound(a: Attribute, excess: nat) {
    |EncodeAt(a.data, 0)| <= a.declared + excess && |EncodeAt(a.data, 1)| <= a.declared + excess
  }

  lemma SizeBoundAt(a: Attribute, excess: nat, used: nat)
    requires SizeBound(a, excess)
    ensures |EncodeAt(a.data, used)| <= a.declared + excess
  {
    assert |EncodeAt(a.data, used)| == |EncodeAt(a.data, used % 2)|;
  }

  lemma EntryFits(c: ClassState, i: nat, size: nat, id: u16, used: nat, excess: nat)
    requires Shaped(c, i) && Declared(c, i, excess) && Needed(c, i, id) <= size - used - 33
    ensures used + |EntryBytes(EntryFor(c, i, id, used))| <= size - 29 + excess
  {
    var s := Lookup(c.instances[i], id);
    hide Lookup, HasBit, EncodeAt;
    if Readable(c, i, id) {
      var k :| 0 <= k < |c.instances[i]| && c.instances[i][k] == s.value;
      SizeBoundAt(s.value.a, excess, used + 4);
    }
  }

  lemma {:induction false} EntriesFit(c: ClassState, i: nat, size: nat, req: seq<byte>, j: nat,
                                      count: nat, used: nat, excess: nat)
    requires Shaped(c, i) && j <= count && Declared(c, i, excess) && used <= size - 29 + excess
    ensures used + |Concat(Entries(c, i, size, req, j, count, used))| <= size - 29 + excess
    decreases count - j
  {
    if j < count {
      var id := UintAt(req, 2 + 2 * j);
      if Needed(c, i, id) <= size - used - 33 && !NoEncoder(c, i, id) {
        EntryFits(c, i, size, id, used, excess);
        hide Needed, EntryFor, EntryBytes, Declared, NoEncoder;
        var e := EntryFor(c, i, id, used);
        var used' := used + |EntryBytes(e)|;
        EntriesFit(c, i, size, req, j + 1, count, used', excess);
        var rest := Entries(c, i, size, req, j + 1, count, used');
        assert Entries(c, i, size, req, j, count, used) == [e] + rest;
        assert ([e] + rest)[1..] == rest;
      }
    }
  }

  /** For any request at all: with declared lengths that bound the encoded sizes
      up to `excess`, and a buffer large enough for an empty reply, the response is at most `excess`
      bytes longer than the buffer size minus 29. */
  lemma ListFits(c: ClassState, i: nat, size: nat, req: seq<byte>, excess: nat)
    requires Shaped(c, i) && Declared(c, i, excess) && 31 <= size
    ensures |ListReply(c, i, size, req).bytes| <= size - 29 + excess
  {
    var count := CountOf(req);
    if count != 0 {
      EntriesFit(c, i, size, req, 0, count, 2, excess);
    }
  }

  // ----- the response parsed back -------------------------------------------

  /** The length of the data a reader expects for attribute `id`, whose data start at `pos`. */
  function DataLength(c: ClassState, i: nat, id: u16, pos: nat): nat
    requires Shaped(c, i)
  {
    var s := Lookup(c.instances[i], id);
    if s.Some? && s.value.Taken? then |EncodeAt(s.value.a.data, pos)| else 0
  }

  /** Reads `n` entries from a response, knowing the attributes' types. */
  function Parse(c: ClassState, i: nat, mem: seq<byte>, pos: nat, n: nat): Option<seq<Entry>>
    requires Shaped(c, i)
    decreases n
  {
    if n == 0 then Some([])
    else
      var id, status := UintAt(mem, pos), At(mem, pos + 2);
      var end := pos + 4 + (if status == SUCCESS then DataLength(c, i, id, pos + 4) else 0);
      if end > |mem| then None
      else
        var rest := Parse(c, i, mem, end, n - 1);
        if rest.None? then None else Some([Entry(id, status, mem[pos + 4..end])] + rest.value)
  }

  lemma EntryRead(mem: seq<byte>, pos: nat, e: Entry)
    requires Holds(mem, pos, EntryBytes(e))
    ensures UintAt(mem, pos) == e.id && At(mem, pos + 2) == e.status
    ensures pos + 4 + |e.data| <= |mem| && mem[pos + 4..pos + 4 + |e.data|] == e.data
  {
    HoldsSplit(mem, pos, Le16(e.id) + [e.status, 0], e.data);
    HoldsSplit(mem, pos, Le16(e.id), [e.status, 0]);
    HoldsUint(mem, pos, e.id);
    assert mem[pos + 2 + 0] == [e.status, 0][0];
  }

  lemma {:induction false} ParseBack(c: ClassState, i: nat, size: nat, req: seq<byte>, j: nat,
                                     count: nat, used: nat, mem: seq<byte>)
    requires Shaped(c, i) && j <= count
    requires Holds(mem, used, Concat(Entries(c, i, size, req, j, count, used)))
    ensures var es := Entries(c, i, size, req, j, count, used); Parse(c, i, mem, used, |es|) == Some(es)
    decreases count - j
  {
    hide Entries, EntryFor, DataLength, Holds, UintAt, Needed, NoEncoder;
    var es := Entries(c, i, size, req, j, count, used);
    if es != [] {
      EntriesHead(c, i, size, req, j, count, used);
      var id := UintAt(req, 2 + 2 * j);
      var e := EntryFor(c, i, id, used);
      var used' := used + |EntryBytes(e)|;
      var rest := Entries(c, i, size, req, j + 1, count, used');
      assert es[1..] == rest;
      EntryLength(c, i, id, used);
      HoldsSplit(mem, used, EntryBytes(e), Concat(rest));
      EntryRead(mem, used, e);
      hide Concat, At;
      ParseBack(c, i, size, req, j + 1, count, used', mem);
    }
  }

  lemma EntriesHead(c: ClassState, i: nat, size: nat, req: seq<byte>, j: nat, count: nat, used: nat)
    requires Shaped(c, i) && j <= count && Entries(c, i, size, req, j, count, used) != []
    ensures j < count
    ensures var e := EntryFor(c, i, UintAt(req, 2 + 2 * j), used);
            Entries(c, i, size, req, j, count, used) ==
              [e] + Entries(c, i, size, req, j + 1, count, used + |EntryBytes(e)|)
  {
    hide EntryFor, Needed, EntryBytes, NoEncoder;
  }

  lemma EntryLength(c: ClassState, i: nat, id: u16, used: nat)
    requires Shaped(c, i)
    ensures var e := EntryFor(c, i, id, used);
            e.id == id && |e.data| == if e.status == SUCCESS then DataLength(c, i, id, used + 4) else 0
  {}

  /** Entry `k` is the one for request `k`, written at its place in the message. */
  lemma {:induction false} EntryAt(c: ClassState, i: nat, size: nat, req: seq<byte>, j: nat,
                                   count: nat, used: nat, k: nat)
    requires Shaped(c, i) && j <= count && k < |Entries(c, i, size, req, j, count, used)|
    ensures var es := Entries(c, i, size, req, j, count, used);
            es[k] == EntryFor(c, i, UintAt(req, 2 + 2 * (j + k)), used + |Concat(es[..k])|)
    decreases count - j
  {
    hide EntryFor, Entries, UintAt, EntryBytes;
    EntriesHead(c, i, size, req, j, count, used);
    var es := Entries(c, i, size, req, j, count, used);
    var e := EntryFor(c, i, UintAt(req, 2 + 2 * j), used);
    var used' := used + |EntryBytes(e)|;
    var rest := Entries(c, i, size, req, j + 1, count, used');
    if k == 0 {
      assert Concat(es[..0]) == [];
    } else {
      EntryAt(c, i, size, req, j + 1, count, used', k - 1);
      assert es[k] == rest[k - 1] && es[..k][0] == e && es[..k][1..] == rest[..k - 1];
      assert 2 + 2 * (j + 1 + (k - 1)) == 2 + 2 * (j + k);
    }
  }

  /** A response that is not cut short begins with the number of requests and
      parses back to one entry per request; the general status is a list error
      if and only if some entry failed. */
  lemma CompleteListParses(c: ClassState, i: nat, size: nat, req: seq<byte>)
    requires Shaped(c, i) && CountOf(req) != 0
    requires |Entries(c, i, size, req, 0, CountOf(req), 2)| == CountOf(req)
    ensures var r := ListReply(c, i, size, req);
            var es := Entries(c, i, size, req, 0, CountOf(req), 2);
            && UintAt(r.bytes, 0) == CountOf(req) && Parse(c, i, r.bytes, 2, CountOf(req)) == Some(es)
            && (r.status == LIST_ERROR <==> AnyFailed(es)) && (r.status == SUCCESS <==> !AnyFailed(es))
  {
    hide Entries, Parse, Concat;
    var es := Entries(c, i, size, req, 0, CountOf(req), 2);
    var r := ListReply(c, i, size, req);
    assert Holds(r.bytes, 0, Le16(CountOf(req)) + Concat(es));
    HoldsSplit(r.bytes, 0, Le16(CountOf(req)), Concat(es));
    hide Holds;
    HoldsUint(r.bytes, 0, CountOf(req));
    ParseBack(c, i, size, req, 0, CountOf(req), 2, r.bytes);
  }

  /** Each entry of a response, complete or not, answers the request of the same
      position: it carries data exactly when reading that attribute alone
      succeeds, and then the encoding of the same data at its place in the message. */
  lemma EntriesAnswer(c: ClassState, i: nat, size: nat, req: seq<byte>, k: nat)
    requires Shaped(c, i) && k < |Entries(c, i, size, req, 0, CountOf(req), 2)|
    ensures var es := Entries(c, i, size, req, 0, CountOf(req), 2);
            && es[k].id == UintAt(req, 2 + 2 * k)
            && (es[k].status == SUCCESS <==> GetSingle(c, i, es[k].id).status == SUCCESS)
            && (if es[k].status == SUCCESS then
                  var s := Lookup(c.instances[i], es[k].id);
                  && s.Some? && s.value.Taken? && es[k].data == EncodeAt(s.value.a.data, 2 + |Concat(es[..k])| + 4)
                  && GetSingle(c, i, es[k].id).bytes == EncodeAt(s.value.a.data, 0)
                else && es[k].data == []
                     && es[k].status == if Lookup(c.instances[i], es[k].id).None? then 0x14 else 0x2C)
  {
    hide Entries, Lookup, HasBit, EncodeAt, Concat;
    EntryAt(c, i, size, req, 0, CountOf(req), 2, k);
  }

  lemma {:induction false} EntriesEndAt(c: ClassState, i: nat, size: nat, req: seq<byte>,
                                        j: nat, count: nat, used: nat)
    requires Shaped(c, i) && j <= count
    ensures var es := Entries(c, i, size, req, j, count, used);
            var id := UintAt(req, 2 + 2 * (j + |es|));
            j + |es| < count ==> Needed(c, i, id) > size - (used + |Concat(es)|) - 33 || NoEncoder(c, i, id)
    decreases count - j
  {
    hide EntryFor, Needed, NoEncoder, UintAt, EntryBytes;
    var es := Entries(c, i, size, req, j, count, used);
    if es != [] {
      EntriesHead(c, i, size, req, j, count, used);
      var e := EntryFor(c, i, UintAt(req, 2 + 2 * j), used);
      var used' := used + |EntryBytes(e)|;
      EntriesEndAt(c, i, size, req, j + 1, count, used');
      assert es[1..] == Entries(c, i, size, req, j + 1, count, used');
      assert j + 1 + |es[1..]| == j + |es|;
    }
  }

  /** The response ends before the last request exactly where the space left, less 33 bytes, is
      smaller than the declared length of the attribute asked for, or 2 for an attribute there is
      none of, or where an encoder is missing. */
  lemma ListEnds(c: ClassState, i: nat, size: nat, req: seq<byte>)
    requires Shaped(c, i)
    ensures var es := Entries(c, i, size, req, 0, CountOf(req), 2);
            var s := Lookup(c.instances[i], UintAt(req, 2 + 2 * |es|));
            var need := if s.None? then 2 else if s.value.Taken? then s.value.a.declared else 0;
            |es| < CountOf(req) ==>
              need > size - (2 + |Concat(es)|) - 33 || NoEncoder(c, i, UintAt(req, 2 + 2 * |es|))
  {
    EntriesEndAt(c, i, size, req, 0, CountOf(req), 2);
    hide Entries, Concat, NoEncoder;
  }

  /** The general status of a response: a list error if an entry failed or none was asked for, a
      partial transfer if otherwise some are missing, success if none is. The count in front is
      always the number of requests. */
  lemma ListStatus(c: ClassState, i: nat, size: nat, req: seq<byte>)
    requires Shaped(c, i)
    ensures var r := ListReply(c, i, size, req);
            var es := Entries(c, i, size, req, 0, CountOf(req), 2);
            && (r.status == 0x0A <==> CountOf(req) == 0 || exists e :: e in es && e.status != 0)
            && (r.status == 0x06 <==> |es| < CountOf(req) && forall e :: e in es ==> e.status == 0)
            && (r.status == 0x00 <==> |es| == CountOf(req) != 0 && forall e :: e in es ==> e.status == 0)
            && (CountOf(req) == 0 ==> r.bytes == [])
            && (CountOf(req) != 0 ==> r.bytes[..2] == Le16(CountOf(req)) && r.bytes[2..] == Concat(es))
  {
    hide Entries, Concat, Le16;
    var es := Entries(c, i, size, req, 0, CountOf(req), 2);
    assert |es| <= CountOf(req);
  }
}
