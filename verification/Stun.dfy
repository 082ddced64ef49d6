/** Finding the mapped address in a STUN response. */
module Stun {
  import opened Wrappers
  import opened Bytes
  import opened Bits

  const MAGIC_COOKIE: u32 := 0x2112_A442
  const BINDING_SUCCESS: u16 := 0x0101
  const XOR_MAPPED_ADDRESS: u16 := 0x0020
  const FAMILY_IPV4: byte := 0x01
  const FAMILY_IPV6: byte := 0x02
  const HEADER_SIZE := 20

  datatype SocketAddr = SocketAddr(ip: u32, port: u16)

  /** IndexOutOfRange stands for the panic of an index past the end of the response. */
  datatype StunError = TooShort | UnexpectedType(messageType: u16) | NotFound | IndexOutOfRange

  // ----- Exclusive-or on words -----

  function XorU16(x: u16, y: u16): u16 {
    WordSizes();
    XorFits(x, y, 16);
    Combine(Xor, x, y)
  }

  function XorU32(x: u32, y: u32): u32 {
    WordSizes();
    XorFits(x, y, 32);
    Combine(Xor, x, y)
  }

  lemma XorFits(x: nat, y: nat, width: nat)
    requires x < Pow2(width) && y < Pow2(width)
    ensures Combine(Xor, x, y) < Pow2(width)
  {
    FitsIff(x, width);
    FitsIff(y, width);
    CombineFits(Xor, x, y, width);
    FitsIff(Combine(Xor, x, y), width);
  }

  // ----- The walker -----

  function U16At(b: bytes, i: nat): u16
    requires i + 2 <= |b|
  {
    U16FromBe(b[i..i + 2])
  }

  function PaddingOf(length: nat): (p: nat)
    ensures p < 4 && (length + p) % 4 == 0
  {
    (4 - length % 4) % 4
  }

  /** The address of the IPv4 attribute whose value starts at `value`. */
  function AddressAt(response: bytes, value: nat): SocketAddr
    requires value + 8 <= |response|
  {
    SocketAddr(XorU32(U32FromBe(response[value + 4..value + 8]), MAGIC_COOKIE),
               XorU16(U16At(response, value + 2), MAGIC_COOKIE / 0x1_0000))
  }

  /** The walk from `offset` on, as a function of the bytes. */
  function Walk(response: bytes, offset: nat): Result<SocketAddr, StunError>
    decreases |response| - offset
  {
    if offset + 4 > |response| then Failure(NotFound)
    else
      var attrType, attrLen, value := U16At(response, offset), U16At(response, offset + 2), offset + 4;
      if attrType == XOR_MAPPED_ADDRESS && value + 1 >= |response| then Failure(IndexOutOfRange)
      else if attrType == XOR_MAPPED_ADDRESS && response[value + 1] == FAMILY_IPV4 then
        if value + 8 > |response| then Failure(IndexOutOfRange)
        else Success(AddressAt(response, value))
      else Walk(response, value + attrLen + PaddingOf(attrLen))
  }

  function ParseSpec(response: bytes): Result<SocketAddr, StunError> {
    if |response| < HEADER_SIZE then Failure(TooShort)
    else if U16At(response, 0) != BINDING_SUCCESS then Failure(UnexpectedType(U16At(response, 0)))
    else Walk(response, HEADER_SIZE)
  }

  method ParseResponse(response: bytes) returns (r: Result<SocketAddr, StunError>)
    ensures r == ParseSpec(response)
  {
    if |response| < HEADER_SIZE {
      return Failure(TooShort);
    }
    var msgType := U16FromBe(response[0..2]);
    if msgType != BINDING_SUCCESS {
      return Failure(UnexpectedType(msgType));
    }

    var offset := HEADER_SIZE;
    while offset + 4 <= |response|
      invariant HEADER_SIZE <= offset
      invariant ParseSpec(response) == Walk(response, offset)
      decreases |response| - offset
    {
      var attrType := U16FromBe(response[offset..offset + 2]);
      var attrLen := U16FromBe(response[offset + 2..offset + 4]);
      ghost var start := offset;
      offset := offset + 4;

      if attrType == XOR_MAPPED_ADDRESS {
        if offset + 1 >= |response| {
          return Failure(IndexOutOfRange);
        }
        if response[offset + 1] == FAMILY_IPV4 {
          if offset + 8 > |response| {
            return Failure(IndexOutOfRange);
          }
          var portXor := U16FromBe(response[offset + 2..offset + 4]);
          var ipXor := U32FromBe(response[offset + 4..offset + 8]);
          var port := XorU16(portXor, MAGIC_COOKIE / 0x1_0000);
          var ipRaw := XorU32(ipXor, MAGIC_COOKIE);
          return Success(SocketAddr(ipRaw, port));
        }
      }

      offset := offset + attrLen;
      var padding := (4 - attrLen % 4) % 4;
      offset := offset + padding;
      assert offset == start + 4 + attrLen + PaddingOf(attrLen);
    }
    r := Failure(NotFound);
  }

  // ----- Messages and their encoding -----

  /** An attribute as RFC 5389 sections 15 and 15.2 define it: an IPv4 mapped address, an IPv6
      one (its address field as sent), or an attribute of any other type. The padding bytes may
      have any value. */
  datatype Attribute =
    | MappedV4(reserved: byte, addr: SocketAddr)
    | MappedV6(reserved: byte, xport: u16, xaddress: bytes)
    | Other(attrType: u16, value: bytes, padding: bytes)
  {
    predicate WellFormed() {
      match this
      case MappedV4(_, _) => true
      case MappedV6(_, _, xaddress) => |xaddress| == 16
      case Other(attrType, value, padding) =>
        attrType != XOR_MAPPED_ADDRESS && |value| < 0x1_0000 && |padding| == PaddingOf(|value|)
    }

    function Type(): u16 {
      if this.Other? then attrType else XOR_MAPPED_ADDRESS
    }

    /** The address and port go out exclusive-or'ed with the magic cookie. */
    function Value(): bytes {
      match this
      case MappedV4(reserved, addr) =>
        [reserved, FAMILY_IPV4] + U16ToBe(XorU16(addr.port, MAGIC_COOKIE / 0x1_0000))
          + U32ToBe(XorU32(addr.ip, MAGIC_COOKIE))
      case MappedV6(reserved, xport, xaddress) => [reserved, FAMILY_IPV6] + U16ToBe(xport) + xaddress
      case Other(_, value, _) => value
    }

    function Padding(): bytes {
      if this.Other? then padding else []
    }

    function Encode(): bytes
      requires WellFormed()
    {
      U16ToBe(Type()) + U16ToBe(|Value()|) + Value() + Padding()
    }
  }

  predicate AllWellFormed(attrs: seq<Attribute>) {
    forall k :: 0 <= k < |attrs| ==> attrs[k].WellFormed()
  }

  function EncodeAll(attrs: seq<Attribute>): bytes
    requires AllWellFormed(attrs)
  {
    if attrs == [] then [] else attrs[0].Encode() + EncodeAll(attrs[1..])
  }

  /** A Binding Success message: its type, the rest of its header (length, cookie and transaction
      ID, which the walker does not look at), its attributes. */
  function EncodeMessage(header: bytes, attrs: seq<Attribute>): bytes
    requires |header| == HEADER_SIZE - 2 && AllWellFormed(attrs)
  {
    U16ToBe(BINDING_SUCCESS) + header + EncodeAll(attrs)
  }

  /** What a client is to learn from the message. */
  function FirstV4(attrs: seq<Attribute>): Result<SocketAddr, StunError> {
    if attrs == [] then Failure(NotFound)
    else if attrs[0].MappedV4? then Success(attrs[0].addr)
    else FirstV4(attrs[1..])
  }

  // ----- The walker undoes the encoder -----

  lemma Parts(t: bytes, l: bytes, v: bytes, p: bytes, rest: bytes)
    requires |t| == 2 && |l| == 2
    ensures var b := t + l + v + p + rest;
            && b[0..2] == t && b[2..4] == l && b[4..4 + |v|] == v && b[4 + |v| + |p|..] == rest
  {
  }

  /** A slice of a slice. */
  lemma Subslice(b: bytes, start: nat, i: nat, j: nat)
    requires start <= |b| && i <= j <= |b| - start
    ensures b[start..][i..j] == b[start + i..start + j] && b[start..][j..] == b[start + j..]
  {
  }

  lemma Sizes(a: Attribute)
    requires a.WellFormed()
    ensures |a.Value()| < 0x1_0000 && |a.Padding()| == PaddingOf(|a.Value()|)
  {
  }

  /** What the walker reads at `offset`. */
  predicate ReadsAs(response: bytes, offset: nat, attrType: u16, value: bytes) {
    && offset + 4 + |value| <= |response|
    && U16At(response, offset) == attrType && U16At(response, offset + 2) == |value|
    && response[offset + 4..offset + 4 + |value|] == value
  }

  lemma EncodedReadsAs(a: Attribute, rest: bytes)
    requires a.WellFormed()
    ensures var b, next := a.Encode() + rest, 4 + |a.Value()| + PaddingOf(|a.Value()|);
            ReadsAs(b, 0, a.Type(), a.Value()) && next <= |b| && b[next..] == rest
  {
    Sizes(a);
    Parts(U16ToBe(a.Type()), U16ToBe(|a.Value()|), a.Value(), a.Padding(), rest);
    U16RoundTrip(a.Type(), [0, 0]);
    U16RoundTrip(|a.Value()|, [0, 0]);
  }

  lemma ReadsAsShifted(response: bytes, offset: nat, attrType: u16, value: bytes)
    requires offset <= |response| && ReadsAs(response[offset..], 0, attrType, value)
    ensures ReadsAs(response, offset, attrType, value)
  {
    Subslice(response, offset, 0, 2);
    Subslice(response, offset, 2, 4);
    Subslice(response, offset, 4, 4 + |value|);
  }

  function NextOffset(offset: nat, a: Attribute): nat {
    offset + 4 + |a.Value()| + PaddingOf(|a.Value()|)
  }

  lemma AttributeAt(response: bytes, offset: nat, a: Attribute, rest: bytes)
    requires a.WellFormed() && offset <= |response| && response[offset..] == a.Encode() + rest
    ensures ReadsAs(response, offset, a.Type(), a.Value())
    ensures NextOffset(offset, a) <= |response| && response[NextOffset(offset, a)..] == rest
  {
    EncodedReadsAs(a, rest);
    ReadsAsShifted(response, offset, a.Type(), a.Value());
    Subslice(response, offset, 0, 4 + |a.Value()| + PaddingOf(|a.Value()|));
  }

  lemma DecodesV4(value: bytes, reserved: byte, addr: SocketAddr)
    requires value == MappedV4(reserved, addr).Value()
    ensures |value| == 8 && value[1] == FAMILY_IPV4
    ensures XorU16(U16FromBe(value[2..4]), MAGIC_COOKIE / 0x1_0000) == addr.port
    ensures XorU32(U32FromBe(value[4..8]), MAGIC_COOKIE) == addr.ip
  {
    var xport, xip := XorU16(addr.port, MAGIC_COOKIE / 0x1_0000), XorU32(addr.ip, MAGIC_COOKIE);
    assert value[2..4] == U16ToBe(xport) && value[4..8] == U32ToBe(xip);
    U16RoundTrip(xport, [0, 0]);
    U32RoundTrip(xip, [0, 0, 0, 0]);
    XorTwice(addr.port, MAGIC_COOKIE / 0x1_0000);
    XorTwice(addr.ip, MAGIC_COOKIE);
  }

  lemma WalkAt(response: bytes, offset: nat, a: Attribute)
    requires a.WellFormed() && ReadsAs(response, offset, a.Type(), a.Value())
    ensures Walk(response, offset)
         == if a.MappedV4? then Success(a.addr)
            else Walk(response, NextOffset(offset, a))
  {
    var value := offset + 4;
    if !a.Other? {
      ValueBytes(response, value, a.Value());
    }
    if a.MappedV4? {
      DecodesV4(a.Value(), a.reserved, a.addr);
    }
  }

  lemma ValueBytes(response: bytes, value: nat, v: bytes)
    requires |v| >= 8 && value + |v| <= |response| && response[value..value + |v|] == v
    ensures response[value + 1] == v[1]
    ensures response[value + 2..value + 4] == v[2..4] && response[value + 4..value + 8] == v[4..8]
  {
    assert forall k {:trigger v[k]} :: 0 <= k < |v| ==> v[k] == response[value + k];
  }

  /** The first of the attributes encoded at `offset` is read there, and the others follow it. */
  lemma FirstAt(response: bytes, offset: nat, attrs: seq<Attribute>)
    requires AllWellFormed(attrs) && attrs != []
    requires offset <= |response| && response[offset..] == EncodeAll(attrs)
    ensures ReadsAs(response, offset, attrs[0].Type(), attrs[0].Value())
    ensures NextOffset(offset, attrs[0]) <= |response|
    ensures response[NextOffset(offset, attrs[0])..] == EncodeAll(attrs[1..])
  {
    assert attrs[0].WellFormed();
    assert EncodeAll(attrs) == attrs[0].Encode() + EncodeAll(attrs[1..]);
    hide *;
    AttributeAt(response, offset, attrs[0], EncodeAll(attrs[1..]));
  }

  /** The attributes are read one after the other from `offset` to the end. */
  predicate AreReadAt(response: bytes, offset: nat, attrs: seq<Attribute>)
    decreases |attrs|
  {
    if attrs == [] then offset == |response|
    else
      ReadsAs(response, offset, attrs[0].Type(), attrs[0].Value())
      && AreReadAt(response, NextOffset(offset, attrs[0]), attrs[1..])
  }

  lemma {:induction false} EncodingIsRead(response: bytes, offset: nat, attrs: seq<Attribute>)
    requires AllWellFormed(attrs)
    requires offset <= |response| && response[offset..] == EncodeAll(attrs)
    ensures AreReadAt(response, offset, attrs)
    decreases |attrs|
  {
    if attrs != [] {
      FirstAt(response, offset, attrs);
      EncodingIsRead(response, NextOffset(offset, attrs[0]), attrs[1..]);
    }
  }

  lemma {:induction false} WalkAll(response: bytes, offset: nat, attrs: seq<Attribute>)
    requires AllWellFormed(attrs) && AreReadAt(response, offset, attrs)
    ensures Walk(response, offset) == FirstV4(attrs)
    decreases |attrs|
  {
    if attrs != [] {
      WalkAt(response, offset, attrs[0]);
      WalkAll(response, NextOffset(offset, attrs[0]), attrs[1..]);
    }
  }

  /** On every Binding Success message built from well-formed attributes the walker stays inside
      the message and returns the address and port of the first IPv4 mapped address, or the
      not-found error when there is none. */
  lemma ParsesMessage(header: bytes, attrs: seq<Attribute>)
    requires |header| == HEADER_SIZE - 2 && AllWellFormed(attrs)
    ensures ParseSpec(EncodeMessage(header, attrs)) == FirstV4(attrs)
  {
    var response := EncodeMessage(header, attrs);
    assert response[0..2] == U16ToBe(BINDING_SUCCESS);
    U16RoundTrip(BINDING_SUCCESS, [0, 0]);
    assert response[HEADER_SIZE..] == EncodeAll(attrs);
    EncodingIsRead(response, HEADER_SIZE, attrs);
    WalkAll(response, HEADER_SIZE, attrs);
  }

  // ----- Any bytes at all -----

  /** Where the values of the attributes start that the length fields lead to. */
  function ValueOffsets(response: bytes, offset: nat): (vs: seq<nat>)
    ensures forall k :: 0 <= k < |vs| ==> 4 <= vs[k] <= |response|
    decreases |response| - offset
  {
    if offset + 4 > |response| then []
    else
      var attrLen := U16At(response, offset + 2);
      [offset + 4] + ValueOffsets(response, offset + 4 + attrLen + PaddingOf(attrLen))
  }

  predicate IsMapped(response: bytes, value: nat)
    requires 4 <= value <= |response|
  {
    U16At(response, value - 4) == XOR_MAPPED_ADDRESS
  }

  /** A mapped address that ends before its family, or before an IPv4 address is complete. */
  predicate IsTruncated(response: bytes, value: nat)
    requires 4 <= value <= |response|
  {
    IsMapped(response, value)
    && (|response| < value + 2 || (response[value + 1] == FAMILY_IPV4 && |response| < value + 8))
  }

  predicate IsAnswer(response: bytes, value: nat)
    requires 4 <= value <= |response|
  {
    IsMapped(response, value) && value + 8 <= |response| && response[value + 1] == FAMILY_IPV4
  }

  /** The first value in the list that decides the walk. */
  function FirstDecisive(response: bytes, vs: seq<nat>): (r: Option<nat>)
    requires forall k :: 0 <= k < |vs| ==> 4 <= vs[k] <= |response|
    ensures r.Some? ==> r.value in vs && (IsTruncated(response, r.value) || IsAnswer(response, r.value))
    ensures r.None? ==> forall k :: 0 <= k < |vs| ==> !IsTruncated(response, vs[k]) && !IsAnswer(response, vs[k])
  {
    if vs == [] then None
    else if IsTruncated(response, vs[0]) || IsAnswer(response, vs[0]) then Some(vs[0])
    else FirstDecisive(response, vs[1..])
  }

  lemma WalkStep(response: bytes, offset: nat)
    requires offset + 4 <= |response|
    ensures var value := offset + 4;
            Walk(response, offset) == (
              if IsTruncated(response, value) then Failure(IndexOutOfRange)
              else if IsAnswer(response, value) then Success(AddressAt(response, value))
              else
                var attrLen := U16At(response, offset + 2);
                Walk(response, value + attrLen + PaddingOf(attrLen)))
  {
  }

  lemma FirstDecisiveStep(response: bytes, v: nat, vs: seq<nat>)
    requires 4 <= v <= |response| && forall k :: 0 <= k < |vs| ==> 4 <= vs[k] <= |response|
    ensures FirstDecisive(response, [v] + vs)
         == if IsTruncated(response, v) || IsAnswer(response, v) then Some(v) else FirstDecisive(response, vs)
  {
    assert ([v] + vs)[1..] == vs;
  }

  /** On any bytes: of the attributes the length fields lead to, the first one that is a complete
      IPv4 mapped address or a truncated mapped address decides; the walk leaves the message in
      the second case only, and finds nothing if there is neither. */
  lemma {:induction false} WalkOutcome(response: bytes, offset: nat)
    ensures var first := FirstDecisive(response, ValueOffsets(response, offset));
            Walk(response, offset) == (
              if first.None? then Failure(NotFound)
              else if IsTruncated(response, first.value) then Failure(IndexOutOfRange)
              else Success(AddressAt(response, first.value)))
    decreases |response| - offset
  {
    if offset + 4 <= |response| {
      var attrLen := U16At(response, offset + 2);
      var next := offset + 4 + attrLen + PaddingOf(attrLen);
      WalkStep(response, offset);
      FirstDecisiveStep(response, offset + 4, ValueOffsets(response, next));
      WalkOutcome(response, next);
    }
  }

  // ----- The answer in bytes -----

  lemma PortBytes(b: bytes)
    requires |b| == 2
    ensures XorU16(U16FromBe(b), MAGIC_COOKIE / 0x1_0000)
         == 0x100 * Combine(Xor, b[0], 0x21) + Combine(Xor, b[1], 0x12)
  {
    assert U16FromBe(b) == 0x100 * (b[0] as int) + b[1] && MAGIC_COOKIE / 0x1_0000 == 0x2112;
    hide Combine;
    CombineBytes(Xor, b[0], 0x21, b[1], 0x12);
  }

  lemma AddressBytes(b: bytes)
    requires |b| == 4
    ensures XorU32(U32FromBe(b), MAGIC_COOKIE)
         == 0x100_0000 * Combine(Xor, b[0], 0x21) + 0x1_0000 * Combine(Xor, b[1], 0x12)
            + 0x100 * Combine(Xor, b[2], 0xA4) + Combine(Xor, b[3], 0x42)
  {
    hide Combine;
    var high: nat := 0x100 * (b[0] as int) + b[1];
    assert U16FromBe(b[..2]) == high && U16FromBe(b[2..]) == 0x100 * (b[2] as int) + b[3];
    assert U32FromBe(b) == 0x100 * (0x100 * high + b[2]) + b[3];
    CombineBytes(Xor, b[0], 0x21, b[1], 0x12);
    CombineBytes(Xor, high, 0x2112, b[2], 0xA4);
    CombineBytes(Xor, 0x100 * high + b[2], 0x2112A4, b[3], 0x42);
  }

  /** The address of a value in bytes: exclusive-or'ed with those of the magic cookie, most
      significant first, the port with its first two and the address with all four. */
  predicate IsAddressOf(addr: SocketAddr, v: bytes)
    requires |v| == 8
  {
    && addr.port == 0x100 * Combine(Xor, v[2], 0x21) + Combine(Xor, v[3], 0x12)
    && addr.ip == 0x100_0000 * Combine(Xor, v[4], 0x21) + 0x1_0000 * Combine(Xor, v[5], 0x12)
                  + 0x100 * Combine(Xor, v[6], 0xA4) + Combine(Xor, v[7], 0x42)
  }

  lemma AnswerInBytes(response: bytes, value: nat)
    requires value + 8 <= |response|
    ensures IsAddressOf(AddressAt(response, value), response[value..value + 8])
  {
    PortBytes(response[value + 2..value + 4]);
    AddressBytes(response[value + 4..value + 8]);
  }

  /** Every Binding Success message whose first attribute is an IPv4 mapped address, in bytes. */
  lemma ParsesBytes(header: bytes, v: bytes, tail: bytes)
    requires |header| == 18 && |v| == 8 && v[1] == 0x01
    ensures var r := ParseSpec([0x01, 0x01] + header + [0x00, 0x20, 0x00, 0x08] + v + tail);
            r.Success? && IsAddressOf(r.value, v)
  {
    var r := [0x01, 0x01] + header + [0x00, 0x20, 0x00, 0x08] + v + tail;
    assert r[0..2] == [0x01, 0x01] && r[20..22] == [0x00, 0x20] && r[24..32] == v;
    assert r[25] == v[1];
    AnswerInBytes(r, 24);
  }

  /** What is refused before the walk: less than a header, and any other type of message. */
  lemma RefusedBecause(response: bytes)
    ensures ParseSpec(response) == Failure(TooShort) <==> |response| < 20
    ensures |response| >= 20 && response[0..2] != [0x01, 0x01] ==>
      var r := ParseSpec(response);
      r.Failure? && r.error.UnexpectedType? && U16ToBe(r.error.messageType) == response[0..2]
  {
    if |response| >= 20 {
      U16RoundTrip(0, response[0..2]);
      assert U16ToBe(BINDING_SUCCESS) == [0x01, 0x01];
      U16RoundTrip(BINDING_SUCCESS, [0, 0]);
      WalkOutcome(response, HEADER_SIZE);
    }
  }

  /** The walk does leave the message: a Binding Success message that ends with the header of a
      mapped address, or with its family. */
  lemma LeavesTheMessage()
    ensures ParseSpec([0x01, 0x01] + Zeros(18) + [0x00, 0x20, 0x00, 0x00]) == Failure(IndexOutOfRange)
    ensures ParseSpec([0x01, 0x01] + Zeros(18) + [0x00, 0x20, 0x00, 0x08, 0x00, 0x01]) == Failure(IndexOutOfRange)
  {
    var r := [0x01, 0x01] + Zeros(18) + [0x00, 0x20, 0x00, 0x00];
    assert r[0..2] == [0x01, 0x01] && r[20..22] == [0x00, 0x20];
    var s := [0x01, 0x01] + Zeros(18) + [0x00, 0x20, 0x00, 0x08, 0x00, 0x01];
    assert s[0..2] == [0x01, 0x01] && s[20..22] == [0x00, 0x20] && s[25] == 0x01;
  }
}
