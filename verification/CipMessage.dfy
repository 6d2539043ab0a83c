/** The message buffer of the CIP stack and the helpers that write into it and
    read from received data. All multi-byte values are little endian. */
module CipMessage {
  import opened Words

  /** `GetUintFromMessage`. */
  function UintAt(mem: seq<byte>, i: nat): u16 { At(mem, i) + 256 * At(mem, i + 1) }

  /** The two bytes of a 16-bit value. */
  function Le16(x: u16): (r: seq<byte>)
    ensures |r| == 2
  {
    [x % 256, x / 256]
  }

  lemma HoldsUint(mem: seq<byte>, pos: nat, x: u16)
    requires Holds(mem, pos, Le16(x))
    ensures UintAt(mem, pos) == x
  {
    assert mem[pos + 0] == Le16(x)[0] && mem[pos + 1] == Le16(x)[1];
  }

  /** `ENIPMessage`: a fixed buffer, a write position and a count of used bytes. */
  class Message {
    const buffer: array<byte>
    var position: nat
    var used: nat

    /** The written part of the message. */
    ghost function Content(): seq<byte>
      reads this, buffer
      requires used <= buffer.Length
    {
      buffer[..used]
    }

    /** Position and count agree, inside the buffer. */
    ghost predicate Valid()
      reads this
    {
      position == used <= buffer.Length
    }

    /** `InitializeENIPMessage`. */
    constructor (size: nat)
      ensures fresh(buffer) && buffer.Length == size && Valid() && used == 0
    {
      buffer := new byte[size](_ => 0);
      position, used := 0, 0;
    }

    /** `AddSintToMessage`. */
    method AddSint(data: byte)
      requires position < buffer.Length
      modifies this, buffer
      ensures position == old(position) + 1 && used == old(used) + 1
      ensures buffer[..] == old(buffer[..])[old(position) := data]
    {
      buffer[position] := data;
      position := position + 1;
      used := used + 1;
    }

    /** `AddIntToMessage`. */
    method AddInt(data: u16)
      requires position + 2 <= buffer.Length
      modifies this, buffer
      ensures position == old(position) + 2 && used == old(used) + 2
      ensures buffer[..] == old(buffer[..])[old(position) := data % 256][old(position) + 1 := data / 256]
    {
      buffer[position] := data % 256;
      buffer[position + 1] := data / 256;
      position := position + 2;
      used := used + 2;
    }

    /** `MoveMessageNOctets`. */
    method MoveOctets(n: nat)
      modifies this
      ensures position == old(position) + n && used == old(used) + n && buffer[..] == old(buffer[..])
    {
      position := position + n;
      used := used + n;
    }

    /** Several bytes appended, as the encode functions do it. */
    method AddBytes(bytes: seq<byte>)
      requires Valid() && used + |bytes| <= buffer.Length
      modifies this, buffer
      ensures Valid() && used == old(used) + |bytes| && Content() == old(Content()) + bytes
    {
      for i := 0 to |bytes|
        invariant Valid() && used == old(used) + i
        invariant Content() == old(Content()) + bytes[..i]
      {
        ghost var before := Content();
        AddSint(bytes[i]);
        assert Content() == before + [bytes[i]];
        assert bytes[..i + 1] == bytes[..i] + [bytes[i]];
      }
      assert bytes[..|bytes|] == bytes;
    }

    /** Appending one byte to a message whose position and count agree. */
    method Append(data: byte)
      requires Valid() && used < buffer.Length
      modifies this, buffer
      ensures Valid() && used == old(used) + 1 && Content() == old(Content()) + [data]
    {
      AddSint(data);
    }

    method AppendInt(data: u16)
      requires Valid() && used + 2 <= buffer.Length
      modifies this, buffer
      ensures Valid() && used == old(used) + 2 && Content() == old(Content()) + Le16(data)
    {
      AddInt(data);
    }
  }
}
