/** Padded EPATHs (Appendix C of Volume 1 of the CIP specification): the encoder
    and the decoder of the message router's request paths. */
module CipEPath {
  import opened Words
  import opened CipMessage

  datatype EPath = EPath(pathSize: byte, classId: u16, instanceId: u16, attributeId: u16)

  // ----- encoding -----------------------------------------------------------

  /** A logical segment: an 8-bit or a 16-bit id, the latter with a pad byte. */
  function Segment(kind: byte, id: u16): seq<byte>
    requires kind < 255
  {
    if id < 256 then [kind, id] else [kind + 1, 0] + Le16(id)
  }

  /** The 16-bit words a segment takes. */
  function WordsOf(id: u16): (r: nat)
    ensures 1 <= r <= 2
  {
    if id < 256 then 1 else 2
  }

  /** What `EncodeEPath` writes; the word count is kept in an unsigned int. */
  function Encode(e: EPath): seq<byte> {
    var l1 := Wrap32(e.pathSize - WordsOf(e.classId));
    var l2 := Wrap32(l1 - WordsOf(e.instanceId));
    Segment(0x20, e.classId)
    + (if l1 > 0 then Segment(0x24, e.instanceId) + (if l2 > 0 then Segment(0x30, e.attributeId) else []) else [])
  }

  /** The assertion at the end of `EncodeEPath`: the path size matches what was written. */
  predicate SizeMatches(e: EPath) { 2 * e.pathSize == |Encode(e)| }

  /** How many of the three ids are encoded. */
  predicate Covers(e: EPath, n: nat) {
    || (n == 1 && e.pathSize == WordsOf(e.classId))
    || (n == 2 && e.pathSize == WordsOf(e.classId) + WordsOf(e.instanceId))
    || (n == 3 && e.pathSize == WordsOf(e.classId) + WordsOf(e.instanceId) + WordsOf(e.attributeId))
  }

  /** The encoder's assertion holds exactly for paths that end after the class,
      the instance or the attribute. */
  lemma SizeMatchesIff(e: EPath)
    ensures SizeMatches(e) <==> Covers(e, 1) || Covers(e, 2) || Covers(e, 3)
  {
    assert |Segment(0x20, e.classId)| == 2 * WordsOf(e.classId);
    assert |Segment(0x24, e.instanceId)| == 2 * WordsOf(e.instanceId);
    assert |Segment(0x30, e.attributeId)| == 2 * WordsOf(e.attributeId);
  }

  /** `EncodeEPath`. */
  method EncodeInto(msg: Message, e: EPath)
    requires msg.Valid() && msg.used + |Encode(e)| <= msg.buffer.Length
    modifies msg, msg.buffer
    ensures msg.Valid() && msg.Content() == old(msg.Content()) + Encode(e)
  {
    hide Wrap32;
    var length := e.pathSize;
    PutSegment(msg, 0x20, e.classId);
    length := Wrap32(length - WordsOf(e.classId));
    if 0 < length {
      PutSegment(msg, 0x24, e.instanceId);
      length := Wrap32(length - WordsOf(e.instanceId));
      if 0 < length {
        PutSegment(msg, 0x30, e.attributeId);
      }
    }
  }

  method PutSegment(msg: Message, kind: byte, id: u16)
    requires kind < 255 && msg.Valid() && msg.used + |Segment(kind, id)| <= msg.buffer.Length
    modifies msg, msg.buffer
    ensures msg.Valid() && msg.used == old(msg.used) + |Segment(kind, id)|
    ensures msg.Content() == old(msg.Content()) + Segment(kind, id)
  {
    if id < 256 {
      msg.Append(kind);
      msg.Append(id);
    } else {
      msg.Append(kind + 1);
      msg.Append(0);
      msg.AppendInt(id);
    }
  }

  // ----- decoding -----------------------------------------------------------

  datatype Decoded = Ok(path: EPath, pos: nat, consumed: nat) | Error

  /** One segment at `pos`: the path so far, the next position and the words counted. */
  datatype Seg = Seg(path: EPath, pos: nat, words: nat) | Bad

  function ReadSegment(mem: seq<byte>, pos: nat, p: EPath): Seg {
    var b := At(mem, pos);
    if b % 8 == 7 then Bad
    else if b == 0x20 then Seg(p.(classId := At(mem, pos + 1)), pos + 2, 1)
    else if b == 0x21 then Seg(p.(classId := UintAt(mem, pos + 2)), pos + 4, 2)
    else if b == 0x24 then Seg(p.(instanceId := At(mem, pos + 1)), pos + 2, 1)
    else if b == 0x25 then Seg(p.(instanceId := UintAt(mem, pos + 2)), pos + 4, 2)
    else if b == 0x30 then Seg(p.(attributeId := At(mem, pos + 1)), pos + 2, 1)
    else if b == 0x31 then Seg(p.(attributeId := UintAt(mem, pos + 2)), pos + 4, 2)
    else if b == 0x28 then Seg(p, pos + 2, 1)
    else if b == 0x29 then Seg(p, pos + 2, 2)
    else Bad
  }

  function DecodeFrom(mem: seq<byte>, pos: nat, words: nat, p: EPath): Decoded
    decreases p.pathSize - words
  {
    if words >= p.pathSize then Ok(p, pos, 2 * words + 1)
    else
      match ReadSegment(mem, pos, p)
      case Bad => Error
      case Seg(p', pos', w) => DecodeFrom(mem, pos', words + w, p')
  }

  /** `DecodePaddedEPath`. */
  function Decode(mem: seq<byte>, pos: nat): Decoded {
    DecodeFrom(mem, pos + 1, 0, EPath(At(mem, pos), 0, 0, 0))
  }

  method DecodeLoop(mem: seq<byte>, pos: nat) returns (r: Decoded)
    ensures r == Decode(mem, pos)
  {
    var path := EPath(At(mem, pos), 0, 0, 0);
    var runner: nat := pos + 1;
    var words: nat := 0;
    while words < path.pathSize
      invariant DecodeFrom(mem, runner, words, path) == Decode(mem, pos)
      decreases path.pathSize - words
    {
      var s := ReadSegment(mem, runner, path);
      if s.Bad? { return Error; }
      path, runner, words := s.path, s.pos, words + s.words;
    }
    r := Ok(path, runner, 2 * words + 1);
  }

  // ----- round trip ---------------------------------------------------------

  /** The path a receiver can know of: fields that are not encoded read as zero. */
  function Visible(e: EPath): EPath
    requires SizeMatches(e)
  {
    if Covers(e, 1) then e.(instanceId := 0, attributeId := 0)
    else if Covers(e, 2) then e.(attributeId := 0)
    else e
  }

  lemma SegmentRead(mem: seq<byte>, pos: nat, kind: byte, id: u16)
    requires kind < 255 && Holds(mem, pos, Segment(kind, id))
    ensures id < 256 ==> At(mem, pos) == kind && At(mem, pos + 1) == id
    ensures id >= 256 ==> At(mem, pos) == kind + 1 && UintAt(mem, pos + 2) == id
  {
    var s := Segment(kind, id);
    assert mem[pos + 0] == s[0] && mem[pos + 1] == s[1];
    if id >= 256 {
      HoldsSplit(mem, pos, [kind + 1, 0], Le16(id));
      HoldsUint(mem, pos + 2, id);
    }
  }

  /** Decoding the path size followed by the encoded path, with anything before
      and after it, yields the path as far as it was encoded, leaves the cursor
      just behind it, and reports two bytes per word and one for the size. */
  lemma RoundTrip(mem: seq<byte>, pos: nat, e: EPath)
    requires SizeMatches(e) && Holds(mem, pos, [e.pathSize] + Encode(e))
    ensures Decode(mem, pos) == Ok(Visible(e), pos + 1 + 2 * e.pathSize, 2 * e.pathSize + 1)
  {
    SizeMatchesIff(e);
    HoldsSplit(mem, pos, [e.pathSize], Encode(e));
    assert mem[pos + 0] == [e.pathSize][0];
    var c, i, a := WordsOf(e.classId), WordsOf(e.instanceId), WordsOf(e.attributeId);
    var l1 := Wrap32(e.pathSize - c);
    var rest := if l1 > 0 then Segment(0x24, e.instanceId)
                               + (if Wrap32(l1 - i) > 0 then Segment(0x30, e.attributeId) else []) else [];
    assert Encode(e) == Segment(0x20, e.classId) + rest;
    HoldsSplit(mem, pos + 1, Segment(0x20, e.classId), rest);
    SegmentRead(mem, pos + 1, 0x20, e.classId);
    var p0 := EPath(e.pathSize, 0, 0, 0);
    var p1 := p0.(classId := e.classId);
    assert ReadSegment(mem, pos + 1, p0) == Seg(p1, pos + 1 + 2 * c, c);
    if !Covers(e, 1) {
      InstanceRead(mem, pos + 1 + 2 * c, e, rest);
    }
  }

  lemma InstanceRead(mem: seq<byte>, pos: nat, e: EPath, rest: seq<byte>)
    requires SizeMatches(e) && !Covers(e, 1) && Encode(e) == Segment(0x20, e.classId) + rest && Holds(mem, pos, rest)
    ensures var p1 := EPath(e.pathSize, e.classId, 0, 0);
            var n := e.pathSize - WordsOf(e.classId);
            DecodeFrom(mem, pos, WordsOf(e.classId), p1) == Ok(Visible(e), pos + 2 * n, 2 * e.pathSize + 1)
  {
    SizeMatchesIff(e);
    var c, i := WordsOf(e.classId), WordsOf(e.instanceId);
    var tail := if Covers(e, 2) then [] else Segment(0x30, e.attributeId);
    RestOfPath(e, rest);
    hide Encode, SizeMatches, Segment, Holds, At, UintAt;
    HoldsSplit(mem, pos, Segment(0x24, e.instanceId), tail);
    SegmentLength(0x24, e.instanceId);
    SegmentRead(mem, pos, 0x24, e.instanceId);
    var p1 := EPath(e.pathSize, e.classId, 0, 0);
    var p2 := p1.(instanceId := e.instanceId);
    assert ReadSegment(mem, pos, p1) == Seg(p2, pos + 2 * i, i);
    if !Covers(e, 2) {
      SegmentRead(mem, pos + 2 * i, 0x30, e.attributeId);
      var end := pos + 2 * i + 2 * WordsOf(e.attributeId);
      assert ReadSegment(mem, pos + 2 * i, p2) == Seg(e, end, WordsOf(e.attributeId));
      assert DecodeFrom(mem, pos + 2 * i, c + i, p2) == DecodeFrom(mem, end, e.pathSize, e);
    }
  }

  /** What follows the class segment. */
  lemma RestOfPath(e: EPath, rest: seq<byte>)
    requires SizeMatches(e) && !Covers(e, 1) && Encode(e) == Segment(0x20, e.classId) + rest
    ensures rest == Segment(0x24, e.instanceId) + (if Covers(e, 2) then [] else Segment(0x30, e.attributeId))
  {
    SizeMatchesIff(e);
    hide Segment;
    var tail := if Covers(e, 2) then [] else Segment(0x30, e.attributeId);
    assert Encode(e) == Segment(0x20, e.classId) + (Segment(0x24, e.instanceId) + tail);
    assert Encode(e)[|Segment(0x20, e.classId)|..] == rest;
    assert Encode(e)[|Segment(0x20, e.classId)|..] == Segment(0x24, e.instanceId) + tail;
  }

  lemma SegmentLength(kind: byte, id: u16)
    requires kind < 255
    ensures |Segment(kind, id)| == 2 * WordsOf(id)
  {}

  /** The round trip returns the path itself exactly when its unencoded fields are zero. */
  lemma RoundTripIff(mem: seq<byte>, pos: nat, e: EPath)
    requires SizeMatches(e) && Holds(mem, pos, [e.pathSize] + Encode(e))
    ensures (Decode(mem, pos).Ok? && Decode(mem, pos).path == e) <==>
            (Covers(e, 1) ==> e.instanceId == 0) && (Covers(e, 1) || Covers(e, 2) ==> e.attributeId == 0)
  {
    RoundTrip(mem, pos, e);
    hide Decode, Encode;
    SizeMatchesIff(e);
  }

  // ----- cursor and count on any input --------------------------------------

  /** The number of 16-bit member segments the decoder passes over. */
  function WideMembers(mem: seq<byte>, pos: nat, words: nat, p: EPath): nat
    decreases p.pathSize - words
  {
    if words >= p.pathSize then 0
    else
      match ReadSegment(mem, pos, p)
      case Bad => 0
      case Seg(p', pos', w) => (if At(mem, pos) == 0x29 then 1 else 0) + WideMembers(mem, pos', words + w, p')
  }

  lemma {:induction false} CursorAndCount(mem: seq<byte>, pos: nat, words: nat, p: EPath)
    requires words <= p.pathSize + 1
    ensures var r := DecodeFrom(mem, pos, words, p);
            r.Ok? ==> && r.consumed == r.pos - pos + 2 * words + 1 + 2 * WideMembers(mem, pos, words, p)
                      && 2 * p.pathSize + 1 <= r.consumed <= 2 * p.pathSize + 3
    decreases p.pathSize - words
  {
    if words < p.pathSize {
      var s := ReadSegment(mem, pos, p);
      if s.Seg? {
        assert s.path.pathSize == p.pathSize;
        CursorAndCount(mem, s.pos, words + s.words, s.path);
      }
    }
  }

  /** On any input the reported size exceeds the distance the cursor moved by
      exactly two bytes for each 16-bit member segment, so the two agree if and
      only if there is none; and at most one word more than the path size is consumed. */
  lemma ConsumedExact(mem: seq<byte>, pos: nat)
    requires Decode(mem, pos).Ok?
    ensures var r := Decode(mem, pos);
            var wide := WideMembers(mem, pos + 1, 0, EPath(At(mem, pos), 0, 0, 0));
            && r.consumed == r.pos - pos + 2 * wide
            && 2 * At(mem, pos) + 1 <= r.consumed <= 2 * At(mem, pos) + 3
  {
    CursorAndCount(mem, pos + 1, 0, EPath(At(mem, pos), 0, 0, 0));
  }

  /** One 16-bit member segment: five bytes are reported, three are passed. */
  lemma WideMemberDisagrees()
    ensures Decode([2, 0x29, 0], 0) == Ok(EPath(2, 0, 0, 0), 3, 5)
  {
    var mem, p := [2, 0x29, 0], EPath(2, 0, 0, 0);
    assert ReadSegment(mem, 1, p) == Seg(p, 3, 2);
    assert DecodeFrom(mem, 3, 2, p) == Ok(p, 3, 5);
  }

  /** The decoder rejects exactly the bytes that do not begin a logical segment for
      a class, instance, attribute or member; the test for the reserved type rejects nothing more. */
  lemma RejectedSegments(mem: seq<byte>, pos: nat, p: EPath)
    ensures ReadSegment(mem, pos, p).Bad? <==> At(mem, pos) !in {0x20, 0x21, 0x24, 0x25, 0x28, 0x29, 0x30, 0x31}
  {}

  // ----- paths of any segments ----------------------------------------------

  /** A segment of a path as a sender writes it; a member id of 8 bits is passed over. */
  datatype PathSegment = ClassId(id: u16) | InstanceId(id: u16) | AttributeId(id: u16) | MemberId(member: byte)

  function SegmentBytes(g: PathSegment): seq<byte> {
    match g
    case ClassId(id) => Segment(0x20, id)
    case InstanceId(id) => Segment(0x24, id)
    case AttributeId(id) => Segment(0x30, id)
    case MemberId(id) => [0x28, id]
  }

  function PathBytes(gs: seq<PathSegment>): seq<byte> {
    if gs == [] then [] else SegmentBytes(gs[0]) + PathBytes(gs[1..])
  }

  function SegmentWords(g: PathSegment): nat { if g.MemberId? then 1 else WordsOf(g.id) }

  function PathWords(gs: seq<PathSegment>): nat {
    if gs == [] then 0 else SegmentWords(gs[0]) + PathWords(gs[1..])
  }

  /** What a segment says. */
  function Taught(p: EPath, g: PathSegment): EPath {
    match g
    case ClassId(id) => p.(classId := id)
    case InstanceId(id) => p.(instanceId := id)
    case AttributeId(id) => p.(attributeId := id)
    case MemberId(_) => p
  }

  /** What the segments of a path say, later ones overriding earlier ones. */
  function TaughtAll(p: EPath, gs: seq<PathSegment>): EPath
    decreases |gs|
  {
    if gs == [] then p else TaughtAll(Taught(p, gs[0]), gs[1..])
  }

  lemma SegmentTaught(mem: seq<byte>, pos: nat, g: PathSegment, p: EPath)
    requires Holds(mem, pos, SegmentBytes(g))
    ensures ReadSegment(mem, pos, p) == Seg(Taught(p, g), pos + |SegmentBytes(g)|, SegmentWords(g))
  {
    match g
    case ClassId(id) => SegmentRead(mem, pos, 0x20, id);
    case InstanceId(id) => SegmentRead(mem, pos, 0x24, id);
    case AttributeId(id) => SegmentRead(mem, pos, 0x30, id);
    case MemberId(id) => assert mem[pos + 0] == [0x28, id][0];
  }

  lemma {:induction false} SegmentsTaught(mem: seq<byte>, pos: nat, gs: seq<PathSegment>, p: EPath, words: nat)
    requires Holds(mem, pos, PathBytes(gs)) && words + PathWords(gs) == p.pathSize
    ensures DecodeFrom(mem, pos, words, p) == Ok(TaughtAll(p, gs), pos + |PathBytes(gs)|, 2 * p.pathSize + 1)
    decreases |gs|
  {
    hide Holds, At, UintAt, SegmentBytes, ReadSegment;
    if gs != [] {
      var g := gs[0];
      HoldsSplit(mem, pos, SegmentBytes(g), PathBytes(gs[1..]));
      SegmentTaught(mem, pos, g, p);
      SegmentsTaught(mem, pos + |SegmentBytes(g)|, gs[1..], Taught(p, g), words + SegmentWords(g));
    }
  }

  /** A path of class, instance, attribute and 8-bit member segments in any order, of any number:
      the decoder takes the last id of each kind, ignores members, and stops right behind the path. */
  lemma DecodesAnyPath(mem: seq<byte>, pos: nat, gs: seq<PathSegment>)
    requires PathWords(gs) < 256 && Holds(mem, pos, [PathWords(gs)] + PathBytes(gs))
    ensures Decode(mem, pos) ==
            Ok(TaughtAll(EPath(PathWords(gs), 0, 0, 0), gs), pos + 1 + |PathBytes(gs)|, 2 * PathWords(gs) + 1)
  {
    HoldsSplit(mem, pos, [PathWords(gs)], PathBytes(gs));
    assert mem[pos + 0] == [PathWords(gs)][0];
    hide Holds;
    SegmentsTaught(mem, pos + 1, gs, EPath(PathWords(gs), 0, 0, 0), 0);
  }
}
