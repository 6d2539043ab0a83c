/** Machine words of the target: bytes, 16-bit and 32-bit unsigned values, the
    byte swap done by `htonl` on a little-endian processor, and what the order
    of byte-swapped addresses has to do with the order of the addresses; and
    memory as a receiver reads it. */
module Words {

  datatype Option<T> = None | Some(value: T)

  const TWO16: int := 0x1_0000
  const TWO32: int := 0x1_0000_0000

  type byte = x: int | 0 <= x < 256
  type u16 = x: int | 0 <= x < TWO16
  type u32 = x: int | 0 <= x < TWO32

  /** Reduction to 32 bits, as every C assignment to a `u32_t` does it. */
  function Wrap32(x: int): u32 { x % TWO32 }

  /** The value made of four octets, the most significant first. */
  function Quad(o1: byte, o2: byte, o3: byte, o4: byte): u32 {
    256 * (256 * (256 * o1 + o2) + o3) + o4
  }

  /** The octets of a word, the most significant first. */
  function Octet1(a: u32): byte { a / 256 / 256 / 256 }
  function Octet2(a: u32): byte { a / 256 / 256 % 256 }
  function Octet3(a: u32): byte { a / 256 % 256 }
  function Octet4(a: u32): byte { a % 256 }

  /** The word that holds, on the little-endian target, the address whose
      host-order value is `a`: the octets in reverse order. */
  function Raw(a: u32): u32 { Quad(Octet4(a), Octet3(a), Octet2(a), Octet1(a)) }

  lemma DivMod256(q: nat, r: byte)
    ensures (256 * q + r) / 256 == q && (256 * q + r) % 256 == r
  {}

  lemma QuadOctets(a: u32)
    ensures a == Quad(Octet1(a), Octet2(a), Octet3(a), Octet4(a))
  {
    var b := a / 256;
    var c := b / 256;
    assert a == 256 * b + a % 256 && b == 256 * c + b % 256 && c == 256 * (c / 256) + c % 256;
  }

  lemma OctetsQuad(o1: byte, o2: byte, o3: byte, o4: byte)
    ensures var a := Quad(o1, o2, o3, o4);
            Octet1(a) == o1 && Octet2(a) == o2 && Octet3(a) == o3 && Octet4(a) == o4
  {
    DivMod256(256 * (256 * o1 + o2) + o3, o4);
    DivMod256(256 * o1 + o2, o3);
    DivMod256(o1, o2);
  }

  /** `htonl` is its own inverse, so two stored words are equal exactly when
      the addresses are. */
  lemma RawInvolution(a: u32)
    ensures Raw(Raw(a)) == a
  {
    QuadOctets(a);
    OctetsQuad(Octet4(a), Octet3(a), Octet2(a), Octet1(a));
  }

  /** Stored words are ordered by the last octet first. */
  lemma RawByLastOctet(a: u32, b: u32)
    requires a % 256 < b % 256
    ensures Raw(a) < Raw(b)
  {
    QuadOctets(a); QuadOctets(b);
  }

  /** Within one block of 256 addresses the stored words have the order of the addresses. */
  lemma RawOrder(a: u32, b: u32)
    requires a / 256 == b / 256
    ensures Raw(a) < Raw(b) <==> a < b
    ensures Raw(a) == Raw(b) <==> a == b
  {
    if a % 256 < b % 256 {
      RawByLastOctet(a, b);
    } else if b % 256 < a % 256 {
      RawByLastOctet(b, a);
    }
  }

  /** Two addresses less than 256 apart in different blocks: the order is reversed. */
  lemma RawStraddle(a: u32, b: u32)
    requires a <= b < a + 256 && a / 256 != b / 256
    ensures Raw(b) < Raw(a)
  {
    assert b / 256 == a / 256 + 1;
    RawByLastOctet(b, a);
  }

  // ----- received memory ----------------------------------------------------

  /** Received data, read without a length check. The code may read past the
      received length, so the sequence may be longer than it; what lies past the
      sequence reads as zero. */
  function At(mem: seq<byte>, i: nat): byte { if i < |mem| then mem[i] else 0 }

  /** `mem` holds `bytes` at `pos`. */
  predicate Holds(mem: seq<byte>, pos: nat, bytes: seq<byte>) {
    pos + |bytes| <= |mem| && forall i :: 0 <= i < |bytes| ==> mem[pos + i] == bytes[i]
  }

  lemma HoldsSplit(mem: seq<byte>, pos: nat, a: seq<byte>, b: seq<byte>)
    requires Holds(mem, pos, a + b)
    ensures Holds(mem, pos, a) && Holds(mem, pos + |a|, b)
  {
    forall i | 0 <= i < |a| ensures mem[pos + i] == a[i] { assert mem[pos + i] == (a + b)[i]; }
    forall i | 0 <= i < |b| ensures mem[pos + |a| + i] == b[i] { assert mem[pos + (|a| + i)] == (a + b)[|a| + i]; }
  }
}
