/** McString: a length Varint followed by the raw bytes of a string. */
module McStrings {
  import opened Ints
  import opened Outcomes
  import opened VarintCodec

  /** The string is its bytes; Go's []byte(string) conversion is taken
      to hand over the bytes unchanged. */
  datatype McString = McString(Length: Varint, Value: seq<byte>)
  {
    /** ToString: the string held. */
    function ToString(): (s: seq<byte>)
    {
      Value
    }

    /** Tobytes: the length Varint's bytes with the string's bytes appended. */
    function Tobytes(): (wire: seq<byte>)
    {
      Length.value + Value
    }
  }

  /** NewMcstring: the length is int32(len(value)), which wraps for strings
      of 2^31 bytes or more. */
  function NewMcstring(value: seq<byte>): (m: McString)
  {
    McString(VarintOf(Wrap32(|value|)), value)
  }

  /** The length field of NewMcstring(s) decodes to int32(len(s)), its wire
      form is that Varint followed by s, and ToString gives s back. */
  lemma NewMcstringParts(s: seq<byte>)
    ensures Decode(NewMcstring(s).Length.value) == Ok(Wrap32(|s|))
    ensures |s| < 0x8000_0000 ==> Decode(NewMcstring(s).Length.value) == Ok(|s|)
    ensures NewMcstring(s).Tobytes() == Encoding(Wrap32(|s|)) + s
    ensures NewMcstring(s).ToString() == s
  {
    DecodeEncoding(Wrap32(|s|));
  }

  /** Reading NewMcstring(s).Tobytes() back from a stream: ReadVarint takes
      the length prefix, ToInt gives len(s), and the next len(s) bytes are s. */
  lemma McStringReadBack(s: seq<byte>, tail: seq<byte>)
    requires |s| < 0x8000_0000
    ensures var wire := NewMcstring(s).Tobytes() + tail;
      && Scan(wire) == Ok(NewMcstring(s).Length)
      && Decode(NewMcstring(s).Length.value) == Ok(|s|)
      && wire[NewMcstring(s).Length.length..][..|s|] == s
  {
    var n: int32 := |s|;
    ReadBack(n, s + tail);
    assert NewMcstring(s).Tobytes() + tail == Encoding(n) + (s + tail);
  }
}
