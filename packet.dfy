/** Packets without compression: a length Varint, an ID Varint, then the
    payload; the length counts the ID's bytes and the payload's bytes. */
module Packets {
  import opened Ints
  import opened Outcomes
  import opened VarintCodec

  datatype Packet = Packet(Length: Varint, Id: Varint, Data: seq<byte>)
  {
    /** ToBytes: writes the three parts into a fresh bytes.Buffer, in order. */
    method ToBytes() returns (r: seq<byte>)
      ensures r == Framed(this)
    {
      var buf: seq<byte> := [];
      buf := buf + Length.value;
      buf := buf + Id.value;
      buf := buf + Data;
      r := buf;
    }
  }

  /** The bytes of a packet on the wire, as ToBytes writes them. */
  function Framed(p: Packet): (wire: seq<byte>)
  {
    p.Length.value + p.Id.value + p.Data
  }

  /** NewPacket: the length is int32(len(payload) + len(id bytes)). */
  function NewPacket(id: byte, payload: seq<byte>): (p: Packet)
  {
    var idVarint := VarintOf(id);
    Packet(VarintOf(Wrap32(|payload| + |idVarint.value|)), idVarint, payload)
  }

  /** The length field of NewPacket(id, payload) decodes to the byte count of
      the ID Varint plus the payload (wrapped to int32), and the ID field
      decodes to id. */
  lemma NewPacketFields(id: byte, payload: seq<byte>)
    ensures var p := NewPacket(id, payload);
      && Decode(p.Length.value) == Ok(Wrap32(|p.Id.value| + |payload|))
      && (|p.Id.value| + |payload| < 0x8000_0000 ==> Decode(p.Length.value) == Ok(|p.Id.value| + |payload|))
      && Decode(p.Id.value) == Ok(id)
      && p.Data == payload
  {
    var p := NewPacket(id, payload);
    DecodeEncoding(id);
    DecodeEncoding(Wrap32(|payload| + |p.Id.value|));
  }

  /** A receiver that reads the length Varint and then the ID Varint off the
      front of a framed packet gets the declared length and the ID back,
      and what follows them is the payload. */
  lemma PacketReadBack(id: byte, payload: seq<byte>, tail: seq<byte>)
    requires |payload| + |Encoding(id)| < 0x8000_0000
    ensures var p := NewPacket(id, payload);
      var wire := Framed(p) + tail;
      && Scan(wire) == Ok(p.Length)
      && Decode(p.Length.value) == Ok(p.Id.length + |payload|)
      && Scan(wire[p.Length.length..]) == Ok(p.Id)
      && Decode(p.Id.value) == Ok(id)
      && wire[p.Length.length..][p.Id.length..] == payload + tail
  {
    var p := NewPacket(id, payload);
    var d: int32 := |payload| + |Encoding(id)|;
    assert p.Length == VarintOf(d) && p.Id == VarintOf(id);
    var body := Encoding(id) + (payload + tail);
    var wire := Framed(p) + tail;
    assert wire == Encoding(d) + body;
    assert Scan(wire) == Ok(p.Length) && wire[p.Length.length..] == body by {
      ReadBack(d, body);
    }
    assert Decode(p.Length.value) == Ok(p.Id.length + |payload|) by {
      DecodeEncoding(d);
    }
    assert Scan(body) == Ok(p.Id) && body[p.Id.length..] == payload + tail by {
      ReadBack(id, payload + tail);
    }
    assert Decode(p.Id.value) == Ok(id) by {
      DecodeEncoding(id);
    }
  }

  /** The two-byte request packet [1, 0] is the framed packet with ID 0 and
      no payload. */
  lemma EmptyPacketWire()
    ensures Framed(NewPacket(0, [])) == [1, 0]
  {
  }
}
