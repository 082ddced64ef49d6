/** The serialised form of the transfer metadata. The serialiser itself is a library and not
    part of the repository; this is its wire format for the types used here: integers as
    little-endian base-128 varints, strings as a length and their UTF-8 bytes, fields in
    declaration order. Each decoder returns the value and the unread bytes. */
module Postcard {
  import opened Wrappers
  import opened Bytes

  function PutVarint(n: nat): bytes {
    if n < 0x80 then [n] else [n % 0x80 + 0x80] + PutVarint(n / 0x80)
  }

  /** `limit` is the exclusive bound of the integer type, divided by 128 for each byte read:
      once at most seven bits remain, the byte must be the last one and must fit them. */
  function TakeVarint(b: bytes, limit: nat): (r: Option<(nat, bytes)>)
    requires limit > 0
    ensures r.Some? ==> r.value.0 < limit && |r.value.1| < |b|
  {
    if b == [] then None
    else if limit <= 0x80 then
      if b[0] < limit then Some((b[0], b[1..])) else None
    else if b[0] < 0x80 then Some((b[0], b[1..]))
    else
      var (high, rest) :- TakeVarint(b[1..], limit / 0x80);
      Some((b[0] - 0x80 + 0x80 * high, rest))
  }

  /** A power of two, as far as the varint decoder is concerned. */
  predicate IsWordLimit(limit: nat) {
    limit > 0 && (limit <= 0x80 || (limit % 0x80 == 0 && IsWordLimit(limit / 0x80)))
  }

  lemma WordLimits()
    ensures IsWordLimit(U32_LIMIT) && IsWordLimit(U64_LIMIT)
  {
  }

  lemma HighPart(n: nat, limit: nat)
    requires 0x80 <= n < limit && IsWordLimit(limit)
    ensures limit > 0x80 && IsWordLimit(limit / 0x80) && n / 0x80 < limit / 0x80
  {
  }

  lemma TakeContinued(b: bytes, limit: nat, high: nat, rest: bytes)
    requires b != [] && b[0] >= 0x80 && limit > 0x80 && TakeVarint(b[1..], limit / 0x80) == Some((high, rest))
    ensures TakeVarint(b, limit) == Some((b[0] as int - 0x80 + 0x80 * high, rest))
  {
  }

  lemma {:induction false} VarintRoundTrip(n: nat, limit: nat, tail: bytes)
    requires n < limit && IsWordLimit(limit)
    ensures TakeVarint(PutVarint(n) + tail, limit) == Some((n, tail))
  {
    var b := PutVarint(n) + tail;
    if n < 0x80 {
      assert b[1..] == tail;
    } else {
      var low, high: nat := n % 0x80, n / 0x80;
      assert PutVarint(n) == [low + 0x80] + PutVarint(high);
      hide *;
      HighPart(n, limit);
      VarintRoundTrip(high, limit / 0x80, tail);
      assert b[0] == low + 0x80 && b[1..] == PutVarint(high) + tail;
      TakeContinued(b, limit, high, tail);
    }
  }

  /** A 32-bit varint is at most five bytes long. */
  lemma VarintSize(n: u32)
    ensures 1 <= |PutVarint(n)| <= 5
  {
    assert n / 0x80 / 0x80 / 0x80 / 0x80 < 0x10;
    assert |PutVarint(n / 0x80 / 0x80 / 0x80 / 0x80)| == 1;
    assert |PutVarint(n / 0x80 / 0x80 / 0x80)| <= 2;
    assert |PutVarint(n / 0x80 / 0x80)| <= 3;
  }

  predicate Continuation(x: byte) {
    0x80 <= x < 0xC0
  }

  /** Well-formed UTF-8, as RFC 3629 section 4 lists it: no overlong forms, no surrogates,
      nothing above U+10FFFF. */
  predicate IsUtf8(s: bytes) {
    if s == [] then true
    else if s[0] < 0x80 then IsUtf8(s[1..])
    else if 0xC2 <= s[0] < 0xE0 && |s| >= 2 && Continuation(s[1]) then IsUtf8(s[2..])
    else if 0xE0 <= s[0] < 0xF0 && |s| >= 3 && Continuation(s[1]) && Continuation(s[2])
            && (s[0] == 0xE0 ==> s[1] >= 0xA0) && (s[0] == 0xED ==> s[1] < 0xA0) then IsUtf8(s[3..])
    else if 0xF0 <= s[0] < 0xF5 && |s| >= 4 && Continuation(s[1]) && Continuation(s[2]) && Continuation(s[3])
            && (s[0] == 0xF0 ==> s[1] >= 0x90) && (s[0] == 0xF4 ==> s[1] < 0x90) then IsUtf8(s[4..])
    else false
  }

  /** A Unicode scalar value. */
  type Scalar = c: int | 0 <= c < 0x11_0000 && !(0xD800 <= c < 0xE000)

  /** Its UTF-8 bytes (RFC 3629 section 3). */
  function Utf8(c: Scalar): bytes {
    if c < 0x80 then [c]
    else if c < 0x800 then [0xC0 + c / 0x40, SixBits(c)]
    else if c < 0x1_0000 then [0xE0 + c / 0x40 / 0x40, SixBits(c / 0x40), SixBits(c)]
    else [0xF0 + c / 0x40 / 0x40 / 0x40, SixBits(c / 0x40 / 0x40), SixBits(c / 0x40), SixBits(c)]
  }

  /** A continuation byte with the low six bits. */
  function SixBits(x: nat): byte {
    0x80 + x % 0x40
  }

  function Utf8All(cs: seq<Scalar>): bytes {
    if cs == [] then [] else Utf8(cs[0]) + Utf8All(cs[1..])
  }

  lemma AfterScalar(c: Scalar, rest: bytes)
    ensures IsUtf8(Utf8(c) + rest) == IsUtf8(rest)
  {
    var s := Utf8(c) + rest;
    if c < 0x80 {
      assert s[1..] == rest;
    } else if c < 0x800 {
      assert s[2..] == rest;
    } else if c < 0x1_0000 {
      assert s[3..] == rest;
    } else {
      assert s[4..] == rest;
    }
  }

  lemma {:induction false} Utf8AllIsUtf8(cs: seq<Scalar>)
    ensures IsUtf8(Utf8All(cs))
  {
    if cs != [] {
      Utf8AllIsUtf8(cs[1..]);
      AfterScalar(cs[0], Utf8All(cs[1..]));
    }
  }

  lemma LastSixBits(high: nat, x: byte)
    requires Continuation(x)
    ensures var c := 0x40 * high + (x as int - 0x80);
            c / 0x40 == high && SixBits(c) == x
  {
  }

  lemma ThreeBytes(x: byte, y: byte, z: byte) returns (c: Scalar)
    requires 0xE0 <= x < 0xF0 && Continuation(y) && Continuation(z)
    requires (x == 0xE0 ==> y >= 0xA0) && (x == 0xED ==> y < 0xA0)
    ensures Utf8(c) == [x, y, z]
  {
    hide SixBits;
    var high: nat := 0x40 * (x as int - 0xE0) + (y as int - 0x80);
    c := 0x40 * high + (z as int - 0x80);
    LastSixBits(x as int - 0xE0, y);
    LastSixBits(high, z);
  }

  lemma FourBytes(x: byte, y: byte, z: byte, w: byte) returns (c: Scalar)
    requires 0xF0 <= x < 0xF5 && Continuation(y) && Continuation(z) && Continuation(w)
    requires (x == 0xF0 ==> y >= 0x90) && (x == 0xF4 ==> y < 0x90)
    ensures Utf8(c) == [x, y, z, w]
  {
    hide SixBits;
    var high: nat := 0x40 * (x as int - 0xF0) + (y as int - 0x80);
    var middle: nat := 0x40 * high + (z as int - 0x80);
    c := 0x40 * middle + (w as int - 0x80);
    LastSixBits(x as int - 0xF0, y);
    LastSixBits(high, z);
    LastSixBits(middle, w);
  }

  lemma FirstScalar(s: bytes) returns (c: Scalar, rest: bytes)
    requires IsUtf8(s) && s != []
    ensures s == Utf8(c) + rest && |rest| < |s| && IsUtf8(rest)
  {
    if s[0] < 0x80 {
      c := s[0];
    } else if s[0] < 0xE0 {
      c := (s[0] as int - 0xC0) * 0x40 + (s[1] as int - 0x80);
    } else if s[0] < 0xF0 {
      c := ThreeBytes(s[0], s[1], s[2]);
    } else {
      c := FourBytes(s[0], s[1], s[2], s[3]);
    }
    rest := s[|Utf8(c)|..];
  }

  lemma OneMoreScalar(c: Scalar, cs: seq<Scalar>)
    ensures Utf8All([c] + cs) == Utf8(c) + Utf8All(cs)
  {
    assert ([c] + cs)[1..] == cs;
  }

  lemma {:induction false} Scalars(s: bytes) returns (cs: seq<Scalar>)
    requires IsUtf8(s)
    ensures Utf8All(cs) == s
  {
    if s == [] {
      cs := [];
    } else {
      hide *;
      var c, rest := FirstScalar(s);
      cs := Scalars(rest);
      OneMoreScalar(c, cs);
      cs := [c] + cs;
    }
  }

  /** The strings accepted are exactly the encodings of sequences of Unicode scalar values. */
  lemma IsUtf8Iff(s: bytes)
    ensures IsUtf8(s) <==> exists cs: seq<Scalar> :: Utf8All(cs) == s
  {
    hide *;
    if IsUtf8(s) {
      var cs := Scalars(s);
    } else if cs: seq<Scalar> :| Utf8All(cs) == s {
      Utf8AllIsUtf8(cs);
    }
  }

  /** A string value: valid UTF-8 of a length a 64-bit word can hold. */
  type Text = s: bytes | |s| < U64_LIMIT && IsUtf8(s)

  function PutText(s: Text): bytes {
    PutVarint(|s|) + s
  }

  function TakeText(b: bytes): (r: Option<(Text, bytes)>)
    ensures r.Some? ==> |r.value.1| <= |b|
  {
    var (length, rest) :- TakeVarint(b, U64_LIMIT);
    if length <= |rest| && IsUtf8(rest[..length]) then Some((rest[..length], rest[length..])) else None
  }

  lemma TextRoundTrip(s: Text, tail: bytes)
    ensures TakeText(PutText(s) + tail) == Some((s, tail))
  {
    WordLimits();
    VarintRoundTrip(|s|, U64_LIMIT, s + tail);
    assert PutText(s) + tail == PutVarint(|s|) + (s + tail);
    assert (s + tail)[..|s|] == s && (s + tail)[|s|..] == tail;
  }
}
