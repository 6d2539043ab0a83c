/** The CIP services as the stack runs them: attribute arrays and bit masks
    updated in place, and the Get_Attribute_List response built in a fixed buffer
    with its count reserved first and patched in at the end. */
module CipObject {
  import opened Words
  import opened CipMessage
  import opened CipAttributes
  import opened CipServices

  // ----- the class object ---------------------------------------------------

  /** The masks of a class, shared by all its instances. */
  class CipClass {
    const highest: u16
    const single: array<bv8>
    const all: array<bv8>
    const setable: array<bv8>

    ghost predicate Valid()
    {
      && single.Length == all.Length == setable.Length == 1 + highest / 8
      && single != all && all != setable && single != setable
    }

    /** The class as seen by one of its instances. */
    ghost function View(inst: array<Slot>): ClassState
      reads single, all, setable, inst
    {
      ClassState(highest, [inst[..]], single[..], all[..], setable[..])
    }

    /** `AllocateAttributeMasks`. */
    constructor (highest: u16)
      ensures Valid() && fresh(single) && fresh(all) && fresh(setable) && this.highest == highest
      ensures forall n: u16 :: n <= highest ==>
                !HasBit(single[..], n) && !HasBit(all[..], n) && !HasBit(setable[..], n)
    {
      this.highest := highest;
      single := new bv8[1 + highest / 8](_ => 0);
      all := new bv8[1 + highest / 8](_ => 0);
      setable := new bv8[1 + highest / 8](_ => 0);
      new;
      forall n: u16 | n <= highest
        ensures !HasBit(single[..], n) && !HasBit(all[..], n) && !HasBit(setable[..], n)
      {
        ZeroMask(single[..], n);
        ZeroMask(all[..], n);
        ZeroMask(setable[..], n);
      }
    }

    method OrInto(mask: array<bv8>, n: u16, on: bool)
      requires n / 8 < mask.Length
      modifies mask
      ensures mask[..] == OrBit(old(mask[..]), n, on)
    {
      mask[n / 8] := mask[n / 8] | (if on then Bit(n % 8) else 0);
    }

    /** The search for a free slot in `InsertAttribute`. */
    method FillSlot(inst: array<Slot>, a: Attribute)
      requires HasRoom(inst[..])
      modifies inst
      ensures inst[..] == Insert(old(inst[..]), a)
    {
      var i := 0;
      while inst[i].Taken?
        invariant 0 <= i < inst.Length && Free in inst[i..]
        invariant forall k :: 0 <= k < i ==> inst[k].Taken?
        decreases inst.Length - i
      {
        assert inst[i..] == [inst[i]] + inst[i + 1..];
        i := i + 1;
      }
      InsertAtFirstFree(inst[..], i, a);
      inst[i] := Taken(a);
    }

    /** `InsertAttribute`: the first free slot is filled, and the number's bits are set. */
    method InsertAttribute(inst: array<Slot>, a: Attribute)
      requires Valid() && HasRoom(inst[..]) && a.number <= highest
      requires inst as object != single && inst as object != all && inst as object != setable
      modifies inst, single, all, setable
      ensures View(inst) == Step(old(View(inst)), Insertion(0, a))
    {
      hide OrBit, Insert, Bit, HasRoom;
      ghost var before := View(inst);
      ghost var s0, a0, w0 := single[..], all[..], setable[..];
      FillSlot(inst, a);
      assert single[..] == s0 && all[..] == a0 && setable[..] == w0;
      ghost var filled := inst[..];
      OrInto(single, a.number, a.flags & GETABLE_SINGLE != 0);
      ghost var s1 := single[..];
      assert inst[..] == filled && all[..] == a0 && setable[..] == w0;
      OrInto(all, a.number, a.flags & (GETABLE_ALL | ALL_DUMMY) != 0);
      ghost var a1 := all[..];
      assert inst[..] == filled && single[..] == s1 && setable[..] == w0;
      OrInto(setable, a.number, a.flags & SETABLE != 0);
      assert inst[..] == filled && single[..] == s1 && all[..] == a1;
      assert [filled] == before.instances[0 := filled];
    }

    /** `GetCipAttribute`. */
    method GetCipAttribute(inst: array<Slot>, n: u16) returns (r: Option<Slot>)
      ensures r == Lookup(inst[..], n)
    {
      var i := 0;
      assert inst[..] == inst[0..];
      while i < inst.Length
        invariant i <= inst.Length && Lookup(inst[i..], n) == Lookup(inst[..], n)
      {
        assert inst[i..][1..] == inst[i + 1..];
        if NumberOf(inst[i]) == n { return Some(inst[i]); }
        i := i + 1;
      }
      return None;
    }

    method TestBit(mask: array<bv8>, n: u16) returns (r: bool)
      requires n / 8 < mask.Length
      ensures r <==> HasBit(mask[..], n)
    {
      r := mask[n / 8] & Bit(n % 8) != 0;
    }

    /** `GetAttributeSingle`; inserted numbers never exceed the highest one. */
    method GetAttributeSingle(inst: array<Slot>, n: u16, msg: Message) returns (status: byte)
      requires Valid() && Bounded(View(inst), 0)
      requires msg.Valid() && msg.used == 0 && |GetSingle(View(inst), 0, n).bytes| <= msg.buffer.Length
      requires inst as object != msg.buffer && single as object != msg.buffer
        && all as object != msg.buffer && setable as object != msg.buffer
      modifies msg, msg.buffer
      ensures msg.Valid() && Reply(status, msg.Content()) == GetSingle(View(inst), 0, n)
    {
      status := NOT_SUPPORTED;
      var s := GetCipAttribute(inst, n);
      if s.Some? && s.value.Taken? {
        assert View(inst).instances[0] == inst[..];
        FoundBound(inst[..], n, highest);
        var gettable := TestBit(single, n);
        if gettable {
          msg.AddBytes(EncodeAt(s.value.a.data, msg.used));
          status := SUCCESS;
        }
      }
    }

    /** `SetAttributeSingle`, up to the call of the attribute's decode function. */
    method SetAttributeSingle(inst: array<Slot>, n: u16) returns (r: SetOutcome)
      requires Valid() && Bounded(View(inst), 0)
      ensures r == SetSingle(View(inst), 0, n)
    {
      var s := GetCipAttribute(inst, n);
      if s.Some? && s.value.Taken? {
        assert View(inst).instances[0] == inst[..];
        FoundBound(inst[..], n, highest);
        var flags := s.value.a.flags;
        if flags == ALL_DUMMY || flags == 0 || flags == GETABLE_ALL {
          return Refuses(NOT_SUPPORTED);
        }
        var settable := TestBit(setable, n);
        if settable { return Decodes(s.value.a); }
        return Refuses(NOT_SETABLE);
      }
      return Refuses(NOT_SUPPORTED);
    }
  }

  lemma ZeroMask(mask: seq<bv8>, n: u16)
    requires Covered(mask, n) && mask[n / 8] == 0
    ensures !HasBit(mask, n)
  {}

  lemma {:induction false} InsertAtFirstFree(slots: seq<Slot>, i: nat, a: Attribute)
    requires i < |slots| && slots[i].Free? && forall k :: 0 <= k < i ==> slots[k].Taken?
    ensures Insert(slots, a) == slots[i := Taken(a)]
    decreases i
  {
    if i == 0 {
      assert slots[0 := Taken(a)] == [Taken(a)] + slots[1..];
    } else {
      InsertAtFirstFree(slots[1..], i - 1, a);
      assert slots[i := Taken(a)] == [slots[0]] + slots[1..][i - 1 := Taken(a)];
    }
  }

  lemma FoundBound(slots: seq<Slot>, n: u16, highest: u16)
    requires forall k :: 0 <= k < |slots| ==> NumberOf(slots[k]) <= highest
    ensures Lookup(slots, n).Some? ==> n <= highest
  {
    var s := Lookup(slots, n);
    if s.Some? {
      var k :| 0 <= k < |slots| && slots[k] == s.value;
    }
  }

  // ----- Get_Attribute_List -------------------------------------------------

  lemma {:induction false} ConcatSnoc(es: seq<Entry>, e: Entry)
    ensures Concat(es + [e]) == Concat(es) + EntryBytes(e)
    decreases |es|
  {
    if es == [] {
      assert es + [e] == [e] && Concat([e][1..]) == [];
    } else {
      assert (es + [e])[1..] == es[1..] + [e];
      ConcatSnoc(es[1..], e);
    }
  }

  /** The count is written into the two bytes reserved for it, and position and used length agree again. */
  method PatchCount(msg: Message, count: u16)
    requires msg.Valid() && 2 <= msg.used
    modifies msg, msg.buffer
    ensures msg.Valid() && msg.used == old(msg.used)
    ensures msg.Content() == Le16(count) + old(msg.buffer[2..msg.used])
  {
    msg.used := msg.used - 2;
    var save := msg.position;
    msg.position := 0;
    msg.AddInt(count);
    msg.position := save;
  }

  /** One entry of the response, and whether it failed. */
  method PutEntry(c: ClassState, i: nat, id: u16, msg: Message) returns (failed: bool)
    requires Shaped(c, i) && msg.Valid() && !NoEncoder(c, i, id)
    requires msg.used + |EntryBytes(EntryFor(c, i, id, msg.used))| <= msg.buffer.Length
    modifies msg, msg.buffer
    ensures var e := EntryFor(c, i, id, old(msg.used));
            && msg.Valid() && msg.used == old(msg.used) + |EntryBytes(e)|
            && msg.Content() == old(msg.Content()) + EntryBytes(e)
            && (failed <==> e.status != SUCCESS)
  {
    hide EncodeAt, HasBit;
    var s := Lookup(c.instances[i], id);
    msg.AppendInt(id);
    if s.Some? {
      if Covered(c.single, id) && HasBit(c.single, id) {
        msg.Append(SUCCESS);
        msg.Append(0);
        msg.AddBytes(EncodeAt(s.value.a.data, msg.used));
        failed := false;
      } else {
        msg.Append(NOT_GETTABLE);
        msg.Append(0);
        failed := true;
      }
    } else {
      msg.Append(NOT_SUPPORTED);
      msg.Append(0);
      failed := true;
    }
  }

  /** Why the loop over the requests ended. */
  datatype Ending = Complete | NoSpace | Missing

  /** The loop of `GetAttributeList` over the requests. */
  method PutEntries(c: ClassState, i: nat, req: seq<byte>, count: u16, msg: Message) returns (failed: bool, end: Ending)
    requires Shaped(c, i) && Declared(c, i, 29) && count == UintAt(req, 0)
    requires msg.Valid() && msg.used == 2 && 31 <= msg.buffer.Length
    modifies msg, msg.buffer
    ensures var es := Entries(c, i, msg.buffer.Length, req, 0, count, 2);
            && msg.Valid() && msg.used == 2 + |Concat(es)| && msg.buffer[2..msg.used] == Concat(es)
            && (failed <==> AnyFailed(es)) && (end == Complete <==> |es| == count)
            && (end == Missing <==> ListCrashes(c, i, msg.buffer.Length, req))
  {
    hide Entries, EntryFor, Needed, Concat, Declared, UintAt, EntryBytes;
    hide AnyFailed, Le16, EncodeAt, Lookup, HasBit, NoEncoder, ListCrashes;
    var size := msg.buffer.Length;
    failed := false;
    ghost var done: seq<Entry> := [];
    ghost var all := Entries(c, i, size, req, 0, count, 2);
    assert Concat(done) == [] by { ConcatNone(); }
    assert done + all == all;
    assert !AnyFailed(done) by { FailedNone(); }
    var j: nat := 0;
    while j < count
      invariant j <= count && |done| == j
      invariant msg.Valid() && msg.used == 2 + |Concat(done)| && msg.buffer[2..msg.used] == Concat(done)
      invariant done + Entries(c, i, size, req, j, count, msg.used) == all
      invariant failed <==> AnyFailed(done)
    {
      var id := UintAt(req, 2 + 2 * j);
      EntriesStep(c, i, size, req, j, count, msg.used);
      if Needed(c, i, id) > size - msg.used - 33 {
        assert done == all;
        CrashAt(c, i, size, req, all, id);
        return failed, NoSpace;
      }
      if NoEncoder(c, i, id) {
        assert done == all;
        CrashAt(c, i, size, req, all, id);
        return failed, Missing;
      }
      EntryFits(c, i, size, id, msg.used, 29);
      ghost var e := EntryFor(c, i, id, msg.used);
      ghost var before := msg.buffer[2..msg.used];
      var bad := PutEntry(c, i, id, msg);
      assert msg.buffer[2..msg.used] == msg.Content()[2..] == before + EntryBytes(e);
      failed := failed || bad;
      ConcatSnoc(done, e);
      FailedSnoc(done, e);
      ghost var rest := Entries(c, i, size, req, j + 1, count, msg.used);
      assert done + ([e] + rest) == done + [e] + rest;
      done := done + [e];
      j := j + 1;
    }
    EntriesEnd(c, i, size, req, count, msg.used);
    assert done == all;
    CrashAt(c, i, size, req, all, UintAt(req, 2 + 2 * j));
    end := Complete;
  }

  /** `GetAttributeList`; the second result says that a missing encoder was called.
      The space check leaves room for declared lengths that fall short of the
      encoded size by up to 29 bytes. */
  method GetAttributeList(c: ClassState, i: nat, req: seq<byte>, msg: Message) returns (status: byte, crash: bool)
    requires Shaped(c, i) && Declared(c, i, 29)
    requires msg.Valid() && msg.used == 0 && 31 <= msg.buffer.Length
    modifies msg, msg.buffer
    ensures msg.Valid() && (crash <==> ListCrashes(c, i, msg.buffer.Length, req))
    ensures !crash ==> Reply(status, msg.Content()) == ListReply(c, i, msg.buffer.Length, req)
  {
    hide Entries, Concat, Declared, UintAt, AnyFailed, ListReply, Le16, ListCrashes;
    var size := msg.buffer.Length;
    var count: u16 := UintAt(req, 0);
    if count == 0 {
      NoCrashOfNone(c, i, size, req);
      assert ListReply(c, i, size, req) == Reply(LIST_ERROR, msg.Content()) by { ListReplyEmpty(c, i, size, req); }
      return LIST_ERROR, false;
    }
    ListReplyIs(c, i, size, req);
    EntriesBound(c, i, size, req, count);
    msg.MoveOctets(2);
    var failed, end := PutEntries(c, i, req, count, msg);
    crash := end == Missing;
    status := if failed then LIST_ERROR else if end == NoSpace then PARTIAL_TRANSFER else SUCCESS;
    if !crash { PatchCount(msg, count); }
  }

  lemma EntriesBound(c: ClassState, i: nat, size: nat, req: seq<byte>, count: nat)
    requires Shaped(c, i)
    ensures |Entries(c, i, size, req, 0, count, 2)| <= count
  {}

  lemma ListReplyEmpty(c: ClassState, i: nat, size: nat, req: seq<byte>)
    requires Shaped(c, i) && UintAt(req, 0) == 0
    ensures ListReply(c, i, size, req) == Reply(LIST_ERROR, [])
  {}

  lemma NoCrashOfNone(c: ClassState, i: nat, size: nat, req: seq<byte>)
    requires Shaped(c, i) && UintAt(req, 0) == 0
    ensures !ListCrashes(c, i, size, req)
  {}

  /** The service stops at a missing encoder exactly when the request after the last entry has none. */
  lemma CrashAt(c: ClassState, i: nat, size: nat, req: seq<byte>, es: seq<Entry>, id: u16)
    requires Shaped(c, i) && es == Entries(c, i, size, req, 0, UintAt(req, 0), 2) && id == UintAt(req, 2 + 2 * |es|)
    ensures ListCrashes(c, i, size, req) <==>
            |es| < UintAt(req, 0) && Needed(c, i, id) <= size - (2 + |Concat(es)|) - 33 && NoEncoder(c, i, id)
  {}

  lemma ListReplyIs(c: ClassState, i: nat, size: nat, req: seq<byte>)
    requires Shaped(c, i) && UintAt(req, 0) != 0
    ensures var es := Entries(c, i, size, req, 0, UintAt(req, 0), 2);
            ListReply(c, i, size, req) ==
              Reply(if AnyFailed(es) then LIST_ERROR else if |es| < UintAt(req, 0) then PARTIAL_TRANSFER else SUCCESS,
                    Le16(UintAt(req, 0)) + Concat(es))
  {}

  lemma ConcatNone()
    ensures Concat([]) == []
  {}

  lemma FailedNone()
    ensures !AnyFailed([])
  {}

  lemma FailedSnoc(es: seq<Entry>, e: Entry)
    ensures AnyFailed(es + [e]) <==> AnyFailed(es) || e.status != SUCCESS
  {
    if AnyFailed(es) {
      var x :| x in es && x.status != SUCCESS;
      assert x in es + [e];
    }
    assert e in es + [e];
  }

  lemma EntriesStep(c: ClassState, i: nat, size: nat, req: seq<byte>, j: nat, count: nat, used: nat)
    requires Shaped(c, i) && j < count
    ensures var id := UintAt(req, 2 + 2 * j);
            var e := EntryFor(c, i, id, used);
            Entries(c, i, size, req, j, count, used) ==
              if Needed(c, i, id) > size - used - 33 || NoEncoder(c, i, id) then []
              else [e] + Entries(c, i, size, req, j + 1, count, used + |EntryBytes(e)|)
  {
    hide EntryFor, Needed, EntryBytes, NoEncoder;
  }

  lemma EntriesEnd(c: ClassState, i: nat, size: nat, req: seq<byte>, count: nat, used: nat)
    requires Shaped(c, i)
    ensures Entries(c, i, size, req, count, count, used) == []
  {}
}
