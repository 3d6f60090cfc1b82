/** The Varint codec of client.go: an int32, taken as its uint32 bit pattern,
    written as little-endian 7-bit groups, one per byte, where the high bit
    of every byte but the last says that another byte follows. */
module VarintCodec {
  import opened Ints
  import opened Outcomes

  /** A Varint never has more than five bytes (maxVarintBytes). */
  const MaxVarintBytes: nat := 5

  /** ToInt's loop runs for shift = 0, 7, ..., 63: ten rounds of one byte. */
  const ToIntRounds: nat := 10

  /** The Varint struct: the encoded bytes and a separately stored count. */
  datatype Varint = Varint(value: seq<byte>, length: int)
  {
    /** ToInt: ORs the low 7 bits of each byte into an int32 at shift
        0, 7, 14, ..., stopping at the first byte whose high bit is clear.
        The int32 shift drops what passes bit 31 and yields 0 once the count
        reaches 32. */
    method ToInt() returns (r: Outcome<int32>)
      ensures r == Decode(value)
    {
      var x: int32 := 0;
      var n := 0;
      var shift := 0;
      while shift < 64
        invariant shift == 7 * n && n <= ToIntRounds
        invariant n <= |value|
        invariant forall j :: 0 <= j < n ==> value[j] >= 0x80
        invariant Uint32Of(x) == GroupSum(value[..n]) % Two32
      {
        if n >= |value| {
          // v.value[n] past the end of the slice
          FirstClearIs(value, ToIntRounds, n);
          return Panic(IndexOutOfRange);
        }
        var b := value[n];
        assert value[..n + 1] == value[..n] + [b];
        AccumulateStep(value[..n], b, x, shift);
        n := n + 1;
        x := OrGroup(x, b, shift);
        if b < 0x80 {
          FirstClearIs(value, ToIntRounds, n - 1);
          return Ok(x);
        }
        shift := shift + 7;
      }
      FirstClearIs(value, ToIntRounds, n);
      return Fail(VarintTooLong);
    }
  }

  /** `x |= (int32(b) & 0x7F) << shift`, on the 32-bit patterns. */
  function OrGroup(x: int32, b: byte, shift: nat): (r: int32)
  {
    Int32Of(Or32(Uint32Of(x), Uint32Of(Shl32(b % 0x80, shift))))
  }

  /** The 7-bit groups of a uint32, least significant first, as NewVarint
      lays them out: as few bytes as the value needs, never more than five. */
  function Groups(u: uint32): (e: seq<byte>)
    ensures 1 <= |e| <= MaxVarintBytes
    ensures u < 0x80 ==> |e| == 1
    ensures u >= 0x80 ==> |e| >= 2
    ensures u < 0x4000 ==> |e| <= 2
    ensures u < 0x20_0000 ==> |e| <= 3
    ensures u < 0x1000_0000 ==> |e| <= 4
    decreases u
  {
    if u < 0x80 then [u] else [0x80 + u % 0x80] + Groups(u / 0x80)
  }

  /** Every byte of NewVarint's output but the last has its high bit set,
      the last has it clear, and the last is not a zero group unless it is
      the only byte. */
  lemma {:induction false} GroupsShape(u: uint32)
    ensures forall i :: 0 <= i < |Groups(u)| - 1 ==> Groups(u)[i] >= 0x80
    ensures Groups(u)[|Groups(u)| - 1] < 0x80
    ensures |Groups(u)| > 1 ==> Groups(u)[|Groups(u)| - 1] != 0
    decreases u
  {
    if u >= 0x80 {
      GroupsShape(u / 0x80);
    }
  }

  /** The encoding of an int32: the groups of its uint32 bit pattern. */
  function Encoding(x: int32): (e: seq<byte>)
  {
    Groups(Uint32Of(x))
  }

  /** The Varint that NewVarint(x) returns. */
  function VarintOf(x: int32): (v: Varint)
  {
    Varint(Encoding(x), |Encoding(x)|)
  }

  /** The sum of (b_i & 0x7F) * 128^i over the bytes b_i of s, in Horner
      form; GroupSumSnoc states the term of the last byte. */
  function GroupSum(s: seq<byte>): (sum: nat)
  {
    if s == [] then 0 else s[0] % 0x80 + 0x80 * GroupSum(s[1..])
  }

  /** The index of the first byte with a clear high bit, looking at no more
      than `limit` bytes; `min(|s|, limit)` when there is none. */
  function FirstClear(s: seq<byte>, limit: nat): (k: nat)
    ensures k <= limit && k <= |s|
    ensures forall j :: 0 <= j < k ==> s[j] >= 0x80
    ensures k < limit && k < |s| ==> s[k] < 0x80
  {
    if limit == 0 || |s| == 0 || s[0] < 0x80 then 0
    else 1 + FirstClear(s[1..], limit - 1)
  }

  /** What ReadVarint does with the bytes a reader yields before it fails;
      ScanReads states what that is. */
  function Scan(input: seq<byte>): (r: Outcome<Varint>)
    ensures r.Ok? ==> 1 <= r.value.length <= MaxVarintBytes && r.value.length <= |input|
  {
    var k := FirstClear(input, MaxVarintBytes);
    if k < MaxVarintBytes && k < |input| then Ok(Varint(input[..k + 1], k + 1))
    else if |input| < MaxVarintBytes then Fail(ReadFailed)
    else Panic(SliceOutOfRange)
  }

  /** ReadVarint takes bytes up to and including the first one with a clear
      high bit, and no further, and never more than five; it fails if the
      reader gives out first, and it panics after five continuation bytes. */
  lemma ScanReads(input: seq<byte>)
    ensures var r := Scan(input);
      && (r.Ok? ==>
            && r.value.length == |r.value.value|
            && r.value.value == input[..r.value.length]
            && input[r.value.length - 1] < 0x80
            && forall j :: 0 <= j < r.value.length - 1 ==> input[j] >= 0x80)
      && (r.Fail? <==> |input| < MaxVarintBytes && forall j :: 0 <= j < |input| ==> input[j] >= 0x80)
      && (r.Fail? ==> r.error == ReadFailed)
      && (r.Panic? <==> |input| >= MaxVarintBytes && forall j :: 0 <= j < MaxVarintBytes ==> input[j] >= 0x80)
      && (r.Panic? ==> r.crash == SliceOutOfRange)
  {
  }

  /** What ToInt computes from a Varint's bytes. */
  function Decode(value: seq<byte>): (r: Outcome<int32>)
  {
    var k := FirstClear(value, ToIntRounds);
    if k < ToIntRounds && k < |value| then Ok(Int32Of(GroupSum(value[..k + 1]) % Two32))
    else if |value| < ToIntRounds then Panic(IndexOutOfRange)
    else Fail(VarintTooLong)
  }

  /** The loop that NewVarint and FromInt share: fill a [5]byte buffer with
      the groups of uint32(input) and return its first n+1 bytes.
      `x & 0xFFFFFF80 != 0` is `x >= 0x80` for a uint32. */
  method FillGroups(input: int32) returns (enc: seq<byte>)
    ensures enc == Encoding(input)
  {
    var buf := new byte[MaxVarintBytes];
    var n := 0;
    var x: uint32 := Uint32Of(input);
    while x >= 0x80
      invariant 0 <= n && n + |Groups(x)| <= MaxVarintBytes
      invariant buf[..n] + Groups(x) == Encoding(input)
      decreases x
    {
      ghost var done := buf[..n];
      var b := 0x80 + x % 0x80;
      GroupsStep(done, x);
      buf[n] := b;
      assert buf[..n + 1] == done + [b];
      x := x / 0x80;
      n := n + 1;
    }
    ghost var done := buf[..n];
    buf[n] := x;
    assert buf[..n + 1] == done + [x];
    enc := buf[..n + 1];
  }

  lemma GroupsStep(done: seq<byte>, x: uint32)
    requires x >= 0x80
    ensures done + Groups(x) == (done + [0x80 + x % 0x80]) + Groups(x / 0x80)
  {
  }

  /** NewVarint: the Varint holding the encoding of input. */
  method NewVarint(input: int32) returns (v: Varint)
    ensures v.value == Encoding(input)
    ensures v.length == |v.value| && 1 <= v.length <= MaxVarintBytes
  {
    var enc := FillGroups(input);
    v := Varint(enc, |enc|);
  }

  /** ReadVarint over the bytes a reader yields before it fails; `rest` is
      what the reader still holds after a successful read. */
  method ReadVarint(input: seq<byte>) returns (r: Outcome<Varint>, rest: seq<byte>)
    ensures r == Scan(input)
    ensures r.Ok? ==> rest == input[r.value.length..]
  {
    var buf := new byte[MaxVarintBytes];
    var n := 0;
    while n < MaxVarintBytes
      invariant 0 <= n <= MaxVarintBytes && n <= |input|
      invariant forall j :: 0 <= j < n ==> input[j] >= 0x80
      invariant buf[..n] == input[..n]
    {
      if n >= |input| {
        FirstClearIs(input, MaxVarintBytes, n);
        return Fail(ReadFailed), [];
      }
      buf[n] := input[n];
      if buf[n] < 0x80 {
        break;
      }
      n := n + 1;
    }
    if n == MaxVarintBytes {
      // n++ makes 6, and buf[0:6] is out of range for a [5]byte
      FirstClearIs(input, MaxVarintBytes, n);
      return Panic(SliceOutOfRange), input[n..];
    }
    assert buf[..n + 1] == input[..n + 1];
    FirstClearIs(input, MaxVarintBytes, n);
    n := n + 1;
    r := Ok(Varint(buf[..n], n));
    rest := input[n..];
  }

  /** FromInt: copy the encoding of input over the front of an existing
      Varint's value slice, here the array that backs it. Go's copy moves
      min(len(value), len(encoding)) bytes; neither the slice's length nor
      the struct's length field changes. */
  method FromInt(value: array<byte>, input: int32)
    modifies value
    ensures forall i :: 0 <= i < value.Length ==>
      value[i] == if i < |Encoding(input)| then Encoding(input)[i] else old(value[i])
    ensures old(value[..]) == Encoding(input) ==> value[..] == old(value[..])
  {
    var enc := FillGroups(input);
    var m := if value.Length < |enc| then value.Length else |enc|;
    forall i | 0 <= i < m {
      value[i] := enc[i];
    }
  }

  /** FirstClear is determined by the property its contract states. */
  lemma FirstClearIs(s: seq<byte>, limit: nat, k: nat)
    requires k <= limit && k <= |s|
    requires forall j :: 0 <= j < k ==> s[j] >= 0x80
    requires k < limit && k < |s| ==> s[k] < 0x80
    ensures FirstClear(s, limit) == k
  {
  }

  /** One round of ToInt keeps the accumulator equal to the group sum of the
      bytes read so far, modulo 2^32. */
  lemma AccumulateStep(s: seq<byte>, b: byte, x: int32, shift: nat)
    requires shift == 7 * |s|
    requires Uint32Of(x) == GroupSum(s) % Two32
    ensures Uint32Of(OrGroup(x, b, shift)) == GroupSum(s + [b]) % Two32
  {
    var g := b % 0x80;
    var term := g * Pow2(shift);
    var a := Uint32Of(x);
    var c := Uint32Of(Shl32(g, shift));
    var u := Uint32Of(OrGroup(x, b, shift));
    assert u == a + c by {
      OrGroupAdds(s, b, x, shift);
    }
    assert c == term % Two32 by {
      if shift >= 32 {
        HighBitsVanish(g, shift);
      }
    }
    calc {
      u;
      { ModBelow(u); }
      (a + c) % Two32;
      (GroupSum(s) % Two32 + term % Two32) % Two32;
      { ModAdd(GroupSum(s), term); }
      (GroupSum(s) + term) % Two32;
      { GroupSumSnoc(s, b); }
      GroupSum(s + [b]) % Two32;
    }
  }

  /** The shifted group lands on bits of x that are still clear, so the OR
      adds it. */
  lemma OrGroupAdds(s: seq<byte>, b: byte, x: int32, shift: nat)
    requires shift == 7 * |s|
    requires Uint32Of(x) == GroupSum(s) % Two32
    ensures Uint32Of(OrGroup(x, b, shift)) == Uint32Of(x) + Uint32Of(Shl32(b % 0x80, shift))
  {
    var g := b % 0x80;
    var a := Uint32Of(x);
    var c := Uint32Of(Shl32(g, shift));
    Pow2Of32();
    if shift >= 32 {
      OrDisjoint(a, 0, 0, 32, 32);
    } else {
      assert GroupSum(s) < Two32 by {
        GroupSumBound(s);
        Pow2Monotone(shift, 32);
      }
      assert a == GroupSum(s) && a < Pow2(shift) by {
        GroupSumBound(s);
        ModBelow(GroupSum(s));
      }
      assert c == (g % Pow2(32 - shift)) * Pow2(shift) by {
        ShiftedLowBits(g, shift);
      }
      OrDisjoint(a, c, g % Pow2(32 - shift), shift, 32);
    }
  }

  /** The group sum of n bytes is below 2^(7n). */
  lemma {:induction false} GroupSumBound(s: seq<byte>)
    ensures GroupSum(s) < Pow2(7 * |s|)
    decreases |s|
  {
    if s != [] {
      GroupSumBound(s[1..]);
      Pow2Add(7 * (|s| - 1), 7);
      Pow2Of32();
    }
  }

  /** The byte at position i contributes (b & 0x7F) * 128^i. */
  lemma {:induction false} GroupSumSnoc(s: seq<byte>, b: byte)
    ensures GroupSum(s + [b]) == GroupSum(s) + (b % 0x80) * Pow2(7 * |s|)
    decreases |s|
  {
    if s != [] {
      var g := b % 0x80;
      var p := Pow2(7 * (|s| - 1));
      assert (s + [b])[1..] == s[1..] + [b];
      GroupSumSnoc(s[1..], b);
      Pow2Add(7 * (|s| - 1), 7);
      Pow2Of32();
      assert Pow2(7 * |s|) == 0x80 * p;
      MulAssoc(g, 0x80, p);
      assert 0x80 * (g * p) == g * Pow2(7 * |s|);
    }
  }

  /** The group sum of NewVarint's bytes is uint32(input). */
  lemma {:induction false} GroupsSum(u: uint32)
    ensures GroupSum(Groups(u)) == u
    decreases u
  {
    if u >= 0x80 {
      GroupsSum(u / 0x80);
      assert Groups(u)[1..] == Groups(u / 0x80);
    }
  }

  /** ToInt recovers every int32 from NewVarint's bytes, without error. */
  lemma DecodeEncoding(x: int32)
    ensures Decode(Encoding(x)) == Ok(x)
  {
    var u := Uint32Of(x);
    GroupsShape(u);
    DecodeTerminated(Groups(u));
    GroupsSum(u);
    assert GroupSum(Groups(u)) % Two32 == u;
    Int32OfUint32(x);
  }

  /** ToInt on bytes whose last byte, and only that one, has a clear high
      bit, and which are at most ten long: the group sum, as an int32. */
  lemma DecodeTerminated(e: seq<byte>)
    requires 1 <= |e| <= ToIntRounds
    requires forall i :: 0 <= i < |e| - 1 ==> e[i] >= 0x80
    requires e[|e| - 1] < 0x80
    ensures Decode(e) == Ok(Int32Of(GroupSum(e) % Two32))
  {
    FirstClearIs(e, ToIntRounds, |e| - 1);
    assert e[..|e|] == e;
  }

  /** ReadVarint on a stream that starts with an encoding reads exactly that
      encoding, and ToInt turns it back into the value. */
  lemma ReadBack(x: int32, tail: seq<byte>)
    ensures Scan(Encoding(x) + tail) == Ok(VarintOf(x))
    ensures Decode(VarintOf(x).value) == Ok(x)
    ensures (Encoding(x) + tail)[VarintOf(x).length..] == tail
  {
    EncodingTerminated(x);
    ScanTerminated(Encoding(x), tail);
  }

  /** A well-formed Varint as it appears on the wire: one to five bytes,
      the continuation bit set on every byte but the last. */
  predicate Terminated(v: seq<byte>) {
    && 1 <= |v| <= MaxVarintBytes
    && v[|v| - 1] < 0x80
    && forall j :: 0 <= j < |v| - 1 ==> v[j] >= 0x80
  }

  /** The int32 that the 7-bit groups of v spell, bits above 32 dropped. */
  function ValueOf(v: seq<byte>): (x: int32) {
    Int32Of(GroupSum(v) % Two32)
  }

  /** A well-formed Varint at the front of a stream is read whole and no
      further, and ToInt gives the value its groups spell. */
  lemma ScanTerminated(v: seq<byte>, tail: seq<byte>)
    requires Terminated(v)
    ensures Scan(v + tail) == Ok(Varint(v, |v|))
    ensures Decode(v) == Ok(ValueOf(v))
    ensures (v + tail)[|v|..] == tail
  {
    FirstClearIs(v + tail, MaxVarintBytes, |v| - 1);
    assert (v + tail)[..|v|] == v;
    DecodeTerminated(v);
  }

  /** Every encoding is well formed and spells the value it encodes. */
  lemma EncodingTerminated(x: int32)
    ensures Terminated(Encoding(x))
    ensures ValueOf(Encoding(x)) == x
  {
    var u := Uint32Of(x);
    GroupsShape(u);
    GroupsSum(u);
    assert GroupSum(Groups(u)) % Two32 == u;
    Int32OfUint32(x);
  }

  /** ToInt never fails on a Varint that ReadVarint produced: its error
      return and its out-of-range index are unreachable from there. */
  lemma DecodeScanned(input: seq<byte>)
    requires Scan(input).Ok?
    ensures Decode(Scan(input).value.value).Ok?
  {
    var v := Scan(input).value.value;
    FirstClearIs(v, ToIntRounds, |v| - 1);
  }

  /** The encodings listed in client_test.go. */
  lemma EncodingTable()
    ensures Encoding(0) == [0x00]
    ensures Encoding(128) == [0x80, 0x01]
    ensures Encoding(2097151) == [0xFF, 0xFF, 0x7F]
    ensures Encoding(-1) == [0xFF, 0xFF, 0xFF, 0xFF, 0x0F]
    ensures Encoding(-2147483648) == [0x80, 0x80, 0x80, 0x80, 0x08]
  {
  }
}
