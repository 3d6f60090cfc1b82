/** The two byte-level halves of the Server List Ping exchange: the bytes
    connect writes, and the header validation and payload extraction of
    getStatus over the bytes the server sends back. */
module Client {
  import opened Ints
  import opened Outcomes
  import opened VarintCodec
  import opened McStrings
  import opened Packets

  /** Protocol version announced in the handshake. */
  const ProtocolVersion: int32 := 756

  /** "localhost" in ASCII: the server address field of the handshake. */
  const ServerAddress: seq<byte> := [0x6C, 0x6F, 0x63, 0x61, 0x6C, 0x68, 0x6F, 0x73, 0x74]

  /** Port 25565, big-endian. */
  const ServerPort: seq<byte> := [0x63, 0xDD]

  /** Next state 1 asks the server for its status. */
  const NextStateStatus: int32 := 1

  /** The Request packet, written out directly. */
  const RequestPacket: seq<byte> := [1, 0]

  /** The handshake packet as it goes on the wire: length 16, ID 0,
      version 756, the address with its length 9, the port, next state 1. */
  const HandshakeBytes: seq<byte> :=
    [0x10, 0x00, 0xF4, 0x05, 0x09,
     0x6C, 0x6F, 0x63, 0x61, 0x6C, 0x68, 0x6F, 0x73, 0x74,
     0x63, 0xDD, 0x01]

  /** The handshake payload as connect assembles it. */
  function HandshakePayload(): (payload: seq<byte>) {
    Encoding(ProtocolVersion) + NewMcstring(ServerAddress).Tobytes() + ServerPort + Encoding(NextStateStatus)
  }

  /** Framing the assembled payload as packet 0 gives exactly the
      handshake bytes. */
  lemma HandshakeWire()
    ensures Framed(NewPacket(0, HandshakePayload())) == HandshakeBytes
  {
    var payload := HandshakePayload();
    HandshakePayloadBytes();
    var p := NewPacket(0, payload);
    assert p.Id.value == [0x00];
    assert p.Length.value == [0x10] by {
      assert |payload| + |p.Id.value| == 16;
      assert Encoding(16) == [0x10];
    }
    assert Framed(p) == [0x10] + [0x00] + HandshakeBytes[2..];
  }

  /** The assembled payload is the handshake bytes after the packet
      length and the ID. */
  lemma HandshakePayloadBytes()
    ensures HandshakePayload() == HandshakeBytes[2..]
  {
    assert Encoding(ProtocolVersion) == [0xF4, 0x05];
    assert Encoding(NextStateStatus) == [0x01];
    assert NewMcstring(ServerAddress).Tobytes() == [0x09] + ServerAddress by {
      assert Encoding(9) == [0x09];
    }
  }

  /** connect: builds the handshake in a buffer, writes it, then writes the
      Request packet. handshakeWritten and requestWritten say whether each
      write succeeded; writes lists the byte strings handed to the
      connection, in order. */
  method Connect(handshakeWritten: bool, requestWritten: bool) returns (writes: seq<seq<byte>>, res: Outcome<()>)
    ensures writes == if handshakeWritten then [HandshakeBytes, RequestPacket] else [HandshakeBytes]
    ensures res == if !handshakeWritten then Fail(HandshakeNotSent)
                   else if !requestWritten then Fail(RequestNotSent)
                   else Ok(())
  {
    var payload: seq<byte> := [];
    var version := NewVarint(ProtocolVersion);
    payload := payload + version.value;
    payload := payload + NewMcstring(ServerAddress).Tobytes();
    payload := payload + ServerPort;
    var next := NewVarint(NextStateStatus);
    payload := payload + next.value;
    var handshakePacket := NewPacket(0, payload);
    var handshake := handshakePacket.ToBytes();
    assert payload == HandshakePayload();
    HandshakeWire();
    writes := [handshake];
    if !handshakeWritten {
      return writes, Fail(HandshakeNotSent);
    }
    EmptyPacketWire();
    writes := writes + [RequestPacket];
    if !requestWritten {
      return writes, Fail(RequestNotSent);
    }
    return writes, Ok(());
  }

  /** What io.ReadFull leaves in a fresh n-byte slice: the next n bytes of
      the stream, and zeros from where the stream ends (its error is
      ignored). */
  function Drain(rest: seq<byte>, n: nat): (d: seq<byte>)
    ensures |d| == n
    ensures forall i :: 0 <= i < n ==> d[i] == if i < |rest| then rest[i] else 0
    ensures n <= |rest| ==> d == rest[..n]
  {
    if n <= |rest| then rest[..n] else rest + seq(n - |rest|, _ => 0)
  }

  /** make([]byte, n) followed by io.ReadFull from the rest of the stream. */
  method ReadFull(rest: seq<byte>, n: nat) returns (response: seq<byte>)
    ensures response == Drain(rest, n)
  {
    var buf := new byte[n](_ => 0);
    var m := if |rest| < n then |rest| else n;
    forall i | 0 <= i < m {
      buf[i] := rest[i];
    }
    response := buf[..];
  }

  /** getStatus on the bytes the server sends. buffered is what the reader
      holds right after the length Varint, inTime says the deadline had not
      passed once the payload was waited for, closeOk that closing the
      connection succeeded. First stage: the packet length Varint and the
      buffered count. */
  function StatusOutcome(stream: seq<byte>, buffered: nat, inTime: bool, closeOk: bool): (r: Outcome<seq<byte>>)
    ensures r.Ok? ==> inTime && closeOk
  {
    var pktlen :- Scan(stream);
    var length :- Decode(pktlen.value);
    if buffered > length then Fail(TooMuchData)
    else IdOutcome(stream[pktlen.length..], length, inTime, closeOk)
  }

  /** Second stage of getStatus: the packet ID Varint, which must be 0. */
  function IdOutcome(rest: seq<byte>, length: int32, inTime: bool, closeOk: bool): (r: Outcome<seq<byte>>)
    ensures r.Ok? ==> inTime && closeOk
  {
    var p :- Scan(rest);
    var packetId :- Decode(p.value);
    if packetId != 0 then Fail(UnexpectedId)
    else StringOutcome(rest[p.length..], length, p.length, inTime, closeOk)
  }

  /** Third stage of getStatus: the string length Varint, the cross-check
      against what the packet length leaves, the wait for the payload, the
      response slice and the close. The wait loop ends before the deadline
      only once the reader buffers the whole payload, so a stream that ends
      before the payload does runs into the deadline. */
  function StringOutcome(rest: seq<byte>, length: int32, idLength: nat, inTime: bool, closeOk: bool): (r: Outcome<seq<byte>>)
    ensures r.Ok? ==> inTime && closeOk
    ensures r.Ok? ==> Scan(rest).Ok? && r.value <= rest[Scan(rest).value.length..]
  {
    var s :- Scan(rest);
    var remaining := Wrap32(length - (idLength + s.length));
    var strlength := Decode(s.value);
    if strlength.Panic? then Panic(strlength.crash)
    else if strlength.Fail? || remaining != strlength.value then Fail(LengthMismatch)
    else if !inTime || remaining > |rest| - s.length then Fail(TimedOut)
    else if remaining < 0 then Panic(NegativeLength)
    else if !closeOk then Fail(CloseFailed)
    else Ok(Drain(rest[s.length..], remaining))
  }

  /** getStatus, reading the header Varints off the stream one after the
      other and then draining the payload into a fresh slice. */
  method GetStatus(stream: seq<byte>, buffered: nat, inTime: bool, closeOk: bool) returns (res: Outcome<seq<byte>>)
    ensures res == StatusOutcome(stream, buffered, inTime, closeOk)
  {
    var pktlenVarint, r :- ReadVarint(stream);
    var length :- pktlenVarint.ToInt();
    if buffered > length as int {
      return Fail(TooMuchData);
    }
    var p, r' :- ReadVarint(r);
    var packetId :- p.ToInt();
    if packetId != 0 {
      return Fail(UnexpectedId);
    }
    var s, r'' :- ReadVarint(r');
    length := Wrap32(length - (p.length + s.length));
    var strlength := s.ToInt();
    if strlength.Panic? {
      return Panic(strlength.crash);
    }
    if strlength.Fail? || length != strlength.value {
      return Fail(LengthMismatch);
    }
    if !inTime || length as int > |r''| {
      return Fail(TimedOut);
    }
    if length < 0 {
      return Panic(NegativeLength);
    }
    var response := ReadFull(r'', length);
    if !closeOk {
      return Fail(CloseFailed);
    }
    res := Ok(response);
  }

  /** On a stream that starts with three well-formed Varints (packet
      length, packet ID, string length), getStatus checks, in this order,
      the buffered count against the packet length, the ID against 0, and
      the packet length less both Varints' sizes (in int32 arithmetic)
      against the string length. It then waits for the payload until the
      deadline, makes the response slice, closes the connection and returns
      the payload: never bytes beyond the stream. */
  lemma StatusOfHeader(l: seq<byte>, p: seq<byte>, s: seq<byte>, rest: seq<byte>,
                       buffered: nat, inTime: bool, closeOk: bool)
    requires Terminated(l) && Terminated(p) && Terminated(s)
    ensures StatusOutcome(l + p + s + rest, buffered, inTime, closeOk) ==
      var remaining := Wrap32(ValueOf(l) - (|p| + |s|));
      if buffered > ValueOf(l) then Fail(TooMuchData)
      else if ValueOf(p) != 0 then Fail(UnexpectedId)
      else if remaining != ValueOf(s) then Fail(LengthMismatch)
      else if !inTime || remaining > |rest| then Fail(TimedOut)
      else if remaining < 0 then Panic(NegativeLength)
      else if !closeOk then Fail(CloseFailed)
      else Ok(rest[..remaining])
  {
    var length := ValueOf(l);
    var remaining := Wrap32(length - (|p| + |s|));
    assert l + p + s + rest == l + (p + (s + rest));
    calc {
      StatusOutcome(l + (p + (s + rest)), buffered, inTime, closeOk);
    == { LengthOfVarint(l, p + (s + rest), buffered, inTime, closeOk); }
      if buffered > length then Fail(TooMuchData)
      else IdOutcome(p + (s + rest), length, inTime, closeOk);
    == { IdOfVarint(p, s + rest, length, inTime, closeOk); }
      if buffered > length then Fail(TooMuchData)
      else if ValueOf(p) != 0 then Fail(UnexpectedId)
      else StringOutcome(s + rest, length, |p|, inTime, closeOk);
    == { StringOfVarint(s, rest, length, |p|, inTime, closeOk); }
      if buffered > length then Fail(TooMuchData)
      else if ValueOf(p) != 0 then Fail(UnexpectedId)
      else if remaining != ValueOf(s) then Fail(LengthMismatch)
      else if !inTime || remaining > |rest| then Fail(TimedOut)
      else if remaining < 0 then Panic(NegativeLength)
      else if !closeOk then Fail(CloseFailed)
      else Ok(rest[..remaining]);
    }
  }

  /** The length stage on a well-formed Varint: a buffered count above the
      packet length is refused, otherwise the ID stage follows. */
  lemma LengthOfVarint(l: seq<byte>, rest: seq<byte>, buffered: nat, inTime: bool, closeOk: bool)
    requires Terminated(l)
    ensures StatusOutcome(l + rest, buffered, inTime, closeOk) ==
      if buffered > ValueOf(l) then Fail(TooMuchData)
      else IdOutcome(rest, ValueOf(l), inTime, closeOk)
  {
    ScanTerminated(l, rest);
  }

  /** The ID stage on a well-formed Varint: 0 passes on to the string
      stage with the Varint's size, anything else is refused. */
  lemma IdOfVarint(p: seq<byte>, rest: seq<byte>, length: int32, inTime: bool, closeOk: bool)
    requires Terminated(p)
    ensures IdOutcome(p + rest, length, inTime, closeOk) ==
      if ValueOf(p) != 0 then Fail(UnexpectedId)
      else StringOutcome(rest, length, |p|, inTime, closeOk)
  {
    ScanTerminated(p, rest);
  }

  /** The string stage on a well-formed Varint: what the packet length
      leaves after both Varints must equal the string length, and then the
      response is the next bytes of the stream, once they have arrived. */
  lemma StringOfVarint(s: seq<byte>, rest: seq<byte>, length: int32, idLength: nat, inTime: bool, closeOk: bool)
    requires Terminated(s)
    ensures var remaining := Wrap32(length - (idLength + |s|));
      StringOutcome(s + rest, length, idLength, inTime, closeOk) ==
      if remaining != ValueOf(s) then Fail(LengthMismatch)
      else if !inTime || remaining > |rest| then Fail(TimedOut)
      else if remaining < 0 then Panic(NegativeLength)
      else if !closeOk then Fail(CloseFailed)
      else Ok(rest[..remaining])
  {
    ScanTerminated(s, rest);
  }

  /** A negative packet length never gets past the over-buffer check: the
      reader's buffered count is never negative. */
  lemma StatusNegativeDeclared(l: seq<byte>, rest: seq<byte>, buffered: nat, inTime: bool, closeOk: bool)
    requires Terminated(l) && ValueOf(l) < 0
    ensures StatusOutcome(l + rest, buffered, inTime, closeOk) == Fail(TooMuchData)
  {
    LengthOfVarint(l, rest, buffered, inTime, closeOk);
  }

  /** ToInt's two failures are unreachable in getStatus: every Varint it
      decodes came out of ReadVarint. */
  lemma StatusDecodesScanned(stream: seq<byte>, buffered: nat, inTime: bool, closeOk: bool)
    ensures StatusOutcome(stream, buffered, inTime, closeOk) != Fail(VarintTooLong)
    ensures StatusOutcome(stream, buffered, inTime, closeOk) != Panic(IndexOutOfRange)
  {
    if Scan(stream).Ok? {
      DecodeScanned(stream);
      var rest := stream[Scan(stream).value.length..];
      if Decode(Scan(stream).value.value).Ok? {
        IdDecodesScanned(rest, Decode(Scan(stream).value.value).value, inTime, closeOk);
      }
    }
  }

  lemma IdDecodesScanned(rest: seq<byte>, length: int32, inTime: bool, closeOk: bool)
    ensures IdOutcome(rest, length, inTime, closeOk) != Fail(VarintTooLong)
    ensures IdOutcome(rest, length, inTime, closeOk) != Panic(IndexOutOfRange)
  {
    if Scan(rest).Ok? {
      DecodeScanned(rest);
      var rest' := rest[Scan(rest).value.length..];
      StringDecodesScanned(rest', length, Scan(rest).value.length, inTime, closeOk);
    }
  }

  lemma StringDecodesScanned(rest: seq<byte>, length: int32, idLength: nat, inTime: bool, closeOk: bool)
    ensures StringOutcome(rest, length, idLength, inTime, closeOk) != Fail(VarintTooLong)
    ensures StringOutcome(rest, length, idLength, inTime, closeOk) != Panic(IndexOutOfRange)
  {
    if Scan(rest).Ok? {
      DecodeScanned(rest);
    }
  }

  /** The status response a server builds (packet 0 carrying the JSON
      text as a prefixed string) is accepted whole: getStatus returns
      exactly the text, unless more is buffered than the packet announces,
      the deadline passes, or the close fails. */
  lemma StatusOfResponse(json: seq<byte>, tail: seq<byte>, buffered: nat, inTime: bool, closeOk: bool)
    requires |json| < 0x7FFF_FFF0
    ensures var declared := 1 + |Encoding(|json|)| + |json|;
      StatusOutcome(Framed(NewPacket(0, NewMcstring(json).Tobytes())) + tail, buffered, inTime, closeOk) ==
        if buffered > declared then Fail(TooMuchData)
        else if !inTime then Fail(TimedOut)
        else if !closeOk then Fail(CloseFailed)
        else Ok(json)
  {
    var n: int32 := |json|;
    var s := Encoding(n);
    var declared: int32 := 1 + |s| + |json|;
    var l := Encoding(declared);
    assert Framed(NewPacket(0, NewMcstring(json).Tobytes())) + tail == l + [0] + s + (json + [] + tail) by {
      assert NewMcstring(json).Tobytes() + [] == NewMcstring(json).Tobytes();
      ResponseWire(json, [], tail);
    }
    assert Terminated(l) && ValueOf(l) == declared by {
      EncodingTerminated(declared);
    }
    assert Terminated(s) && ValueOf(s) == n by {
      EncodingTerminated(n);
    }
    StatusOfString(l, s, json, [], tail, buffered, inTime, closeOk);
  }

  /** A packet 0 whose prefixed string is followed by further bytes fails
      the cross-check: the packet length counts those bytes, the string
      length does not. */
  lemma StatusOfPaddedResponse(json: seq<byte>, extra: seq<byte>, tail: seq<byte>,
                               buffered: nat, inTime: bool, closeOk: bool)
    requires |json| + |extra| < 0x7FFF_FFF0 && extra != []
    ensures var declared := 1 + |Encoding(|json|)| + |json| + |extra|;
      StatusOutcome(Framed(NewPacket(0, NewMcstring(json).Tobytes() + extra)) + tail, buffered, inTime, closeOk) ==
        if buffered > declared then Fail(TooMuchData) else Fail(LengthMismatch)
  {
    var n: int32 := |json|;
    var s := Encoding(n);
    var declared: int32 := 1 + |s| + |json| + |extra|;
    var l := Encoding(declared);
    assert Framed(NewPacket(0, NewMcstring(json).Tobytes() + extra)) + tail == l + [0] + s + (json + extra + tail) by {
      ResponseWire(json, extra, tail);
    }
    assert Terminated(l) && ValueOf(l) == declared by {
      EncodingTerminated(declared);
    }
    assert Terminated(s) && ValueOf(s) == n by {
      EncodingTerminated(n);
    }
    StatusOfString(l, s, json, extra, tail, buffered, inTime, closeOk);
  }

  /** The wire form of packet 0 carrying a prefixed string and then extra
      bytes: packet length, ID 0, string length, string, extra bytes. */
  lemma ResponseWire(json: seq<byte>, extra: seq<byte>, tail: seq<byte>)
    requires |json| + |extra| < 0x7FFF_FFF0
    ensures var n: int32 := |json|;
      var declared: int32 := 1 + |Encoding(n)| + |json| + |extra|;
      Framed(NewPacket(0, NewMcstring(json).Tobytes() + extra)) + tail
        == Encoding(declared) + [0] + Encoding(n) + (json + extra + tail)
  {
    var n: int32 := |json|;
    var s := Encoding(n);
    var declared: int32 := 1 + |s| + |json| + |extra|;
    assert NewMcstring(json).Tobytes() + extra == s + (json + extra);
    assert NewPacket(0, s + (json + extra)).Length == VarintOf(declared);
    assert Encoding(0) == [0];
  }

  /** getStatus on a packet 0 whose header Varints are well formed and
      consistent with a string followed by extra bytes: the text is
      returned exactly when there are no extra bytes. */
  lemma StatusOfString(l: seq<byte>, s: seq<byte>, json: seq<byte>, extra: seq<byte>, tail: seq<byte>,
                       buffered: nat, inTime: bool, closeOk: bool)
    requires Terminated(l) && Terminated(s)
    requires ValueOf(s) == |json| && ValueOf(l) == 1 + |s| + |json| + |extra|
    ensures StatusOutcome(l + [0] + s + (json + extra + tail), buffered, inTime, closeOk) ==
      if buffered > ValueOf(l) then Fail(TooMuchData)
      else if extra != [] then Fail(LengthMismatch)
      else if !inTime then Fail(TimedOut)
      else if !closeOk then Fail(CloseFailed)
      else Ok(json)
  {
    assert Terminated([0]) && ValueOf([0]) == 0;
    StatusOfHeader(l, [0], s, json + extra + tail, buffered, inTime, closeOk);
    assert Wrap32(ValueOf(l) - (1 + |s|)) == |json| + |extra|;
    assert extra == [] ==> (json + extra + tail)[..|json|] == json;
  }

  /** A packet with any ID but 0 is refused, unless more is buffered than
      it announces, whatever its payload. */
  lemma StatusOfWrongId(id: byte, payload: seq<byte>, tail: seq<byte>,
                        buffered: nat, inTime: bool, closeOk: bool)
    requires id != 0 && |payload| < 0x7FFF_FFF0
    ensures var declared := |Encoding(id)| + |payload|;
      StatusOutcome(Framed(NewPacket(id, payload)) + tail, buffered, inTime, closeOk) ==
        if buffered > declared then Fail(TooMuchData) else Fail(UnexpectedId)
  {
    var i := Encoding(id);
    var declared: int32 := |i| + |payload|;
    var l := Encoding(declared);
    assert Framed(NewPacket(id, payload)) + tail == l + (i + (payload + tail)) by {
      assert NewPacket(id, payload).Length == VarintOf(declared);
    }
    EncodingTerminated(declared);
    EncodingTerminated(id);
    ScanTerminated(l, i + (payload + tail));
    ScanTerminated(i, payload + tail);
  }

  /** A response whose packet length is 5 and whose string length is -1,
      a five-byte Varint: 5 less the two Varints' sizes is -1 as well. */
  const NegativeLengthResponse: seq<byte> := [0x05, 0x00, 0xFF, 0xFF, 0xFF, 0xFF, 0x0F]

  /** The length check does not exclude a negative string length: that
      response passes every check and reaches make with length -1. */
  lemma StatusNegativeLength()
    ensures StatusOutcome(NegativeLengthResponse, 5, true, true) == Panic(NegativeLength)
  {
    var s := Encoding(-1);
    EncodingTerminated(-1);
    assert NegativeLengthResponse == [0x05, 0x00] + s by {
      EncodingTable();
    }
    NegativeStringLength(s);
  }

  /** Any five-byte string length Varint spelling -1 behind a packet
      length of 5 and ID 0 reaches make with length -1. */
  lemma NegativeStringLength(s: seq<byte>)
    requires Terminated(s) && |s| == 5 && ValueOf(s) == -1
    ensures StatusOutcome([0x05, 0x00] + s, 5, true, true) == Panic(NegativeLength)
  {
    assert Terminated([0x05]) && ValueOf([0x05]) == 5;
    assert Terminated([0x00]) && ValueOf([0x00]) == 0;
    assert [0x05, 0x00] + s == [0x05] + [0x00] + s + [];
    StatusOfHeader([0x05], [0x00], s, [], 5, true, true);
  }
}
