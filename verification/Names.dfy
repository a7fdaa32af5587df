/** Which names the device understands, against the definition of UTF-8. */
module Names {
  import opened GuestMemory
  import opened Chain
  import opened Messages
  import opened Requests

  /** Behind `fixed` bytes of structure a name is understood exactly when the header's
      length covers the name and its NUL, the bytes are there, the only NUL is the last,
      and the rest is UTF-8. */
  lemma NameExactly(h: InHeader, left: Bytes, fixed: nat, name: Bytes)
    ensures NameOf(h, left, fixed) == NameOk(name) <==>
              && h.len == IN_HEADER_SIZE + fixed + |name| + 1
              && name + [0] <= left && 0 !in name && Utf8(name)
    ensures NameOf(h, left, fixed).NamePanic? <==> h.len < IN_HEADER_SIZE + fixed
  {
    hide BytesToStr, Utf8;
    if h.len >= IN_HEADER_SIZE + fixed && |left| >= h.len - IN_HEADER_SIZE - fixed {
      NulExactly(left[..h.len - IN_HEADER_SIZE - fixed], name);
    }
  }

  lemma NulExactly(b: Bytes, name: Bytes)
    ensures BytesToStr(b) == Some(name) <==> b == name + [0] && 0 !in name && Utf8(name)
  {
    hide Utf8;
    if b != [] {
      assert b == b[..|b| - 1] + [b[|b| - 1]];
    }
    if b == name + [0] {
      assert b[..|b| - 1] == name;
    }
  }

  // ---- UTF-8 against its definition ---------------------------------------

  /** A Unicode scalar value: a code point that is not a surrogate. */
  predicate Scalar(c: nat) { c < 0xD800 || 0xE000 <= c <= 0x10FFFF }

  /** The encoding of one scalar value (section 3 of RFC 3629). */
  function EncodeScalar(c: nat): (r: Bytes)
    requires Scalar(c)
    ensures 1 <= |r| <= 4
  {
    if c < 0x80 then [c as u8]
    else if c < 0x800 then [(0xC0 + c / 0x40) as u8, (0x80 + c % 0x40) as u8]
    else if c < 0x10000 then
      [(0xE0 + c / 0x1000) as u8, (0x80 + c / 0x40 % 0x40) as u8, (0x80 + c % 0x40) as u8]
    else
      [(0xF0 + c / 0x40000) as u8, (0x80 + c / 0x1000 % 0x40) as u8,
       (0x80 + c / 0x40 % 0x40) as u8, (0x80 + c % 0x40) as u8]
  }

  ghost predicate Scalars(cs: seq<nat>) { forall i :: 0 <= i < |cs| ==> Scalar(cs[i]) }

  ghost function EncodeAll(cs: seq<nat>): Bytes
    requires Scalars(cs)
  {
    if cs == [] then [] else EncodeScalar(cs[0]) + EncodeAll(cs[1..])
  }

  /** The first scalar value of a well-formed string. */
  function FirstScalar(b: Bytes): (c: nat)
    requires b != [] && Utf8(b)
  {
    if b[0] < 0x80 then b[0] as nat
    else if b[0] < 0xE0 then (b[0] as nat - 0xC0) * 0x40 + (b[1] as nat - 0x80)
    else if b[0] < 0xF0 then
      (b[0] as nat - 0xE0) * 0x1000 + (b[1] as nat - 0x80) * 0x40 + (b[2] as nat - 0x80)
    else
      (b[0] as nat - 0xF0) * 0x40000 + (b[1] as nat - 0x80) * 0x1000
      + (b[2] as nat - 0x80) * 0x40 + (b[3] as nat - 0x80)
  }

  /** Base-64 digits, most significant first. */
  lemma Digits(x: nat, y: nat, z: nat)
    requires y < 0x40 && z < 0x40
    ensures var c := x * 0x1000 + y * 0x40 + z;
      c / 0x1000 == x && c / 0x40 == x * 0x40 + y && c / 0x40 % 0x40 == y && c % 0x40 == z
  {
  }

  lemma TwoBytes(b: Bytes)
    requires |b| >= 2 && 0xC2 <= b[0] <= 0xDF && Cont(b[1])
    ensures var c := (b[0] as nat - 0xC0) * 0x40 + (b[1] as nat - 0x80);
      0x80 <= c < 0x800 && EncodeScalar(c) == b[..2]
  {
    Digits(0, b[0] as nat - 0xC0, b[1] as nat - 0x80);
  }

  lemma ThreeBytes(b: Bytes)
    requires |b| >= 3 && 0xE0 <= b[0] <= 0xEF && Cont(b[1]) && Cont(b[2])
    requires (b[0] == 0xE0 ==> b[1] >= 0xA0) && (b[0] == 0xED ==> b[1] <= 0x9F)
    ensures var c := (b[0] as nat - 0xE0) * 0x1000 + (b[1] as nat - 0x80) * 0x40 + (b[2] as nat - 0x80);
      0x800 <= c < 0x10000 && Scalar(c) && EncodeScalar(c) == b[..3]
  {
    Digits(b[0] as nat - 0xE0, b[1] as nat - 0x80, b[2] as nat - 0x80);
  }

  lemma FourBytes(b: Bytes)
    requires |b| >= 4 && 0xF0 <= b[0] <= 0xF4 && Cont(b[1]) && Cont(b[2]) && Cont(b[3])
    requires (b[0] == 0xF0 ==> b[1] >= 0x90) && (b[0] == 0xF4 ==> b[1] <= 0x8F)
    ensures var c := (b[0] as nat - 0xF0) * 0x40000 + (b[1] as nat - 0x80) * 0x1000
                     + (b[2] as nat - 0x80) * 0x40 + (b[3] as nat - 0x80);
      0x10000 <= c <= 0x10FFFF && EncodeScalar(c) == b[..4]
  {
    var high := (b[0] as nat - 0xF0) * 0x40 + (b[1] as nat - 0x80);
    Digits(high, b[2] as nat - 0x80, b[3] as nat - 0x80);
    Digits(0, b[0] as nat - 0xF0, b[1] as nat - 0x80);
    Digits(b[0] as nat - 0xF0, b[1] as nat - 0x80, b[2] as nat - 0x80);
  }

  /** A well-formed string starts with the encoding of a scalar value. */
  lemma {:induction false} FirstEncoded(b: Bytes)
    requires b != [] && Utf8(b)
    ensures var c := FirstScalar(b);
      && Scalar(c) && EncodeScalar(c) <= b && Utf8(b[|EncodeScalar(c)|..])
  {
    if b[0] >= 0xF0 {
      FourBytes(b);
    } else if b[0] >= 0xE0 {
      ThreeBytes(b);
    } else if b[0] >= 0x80 {
      TwoBytes(b);
    } else {
      assert EncodeScalar(b[0] as nat) == b[..1];
    }
    hide EncodeScalar;
  }

  /** The bytes at the start of a well-formed string that make up one character. */
  predicate OneChar(e: Bytes) {
    || (|e| == 1 && e[0] < 0x80)
    || (|e| == 2 && 0xC2 <= e[0] <= 0xDF && Cont(e[1]))
    || (|e| == 3 && 0xE0 <= e[0] <= 0xEF && Cont(e[1]) && Cont(e[2])
        && (e[0] == 0xE0 ==> e[1] >= 0xA0) && (e[0] == 0xED ==> e[1] <= 0x9F))
    || (|e| == 4 && 0xF0 <= e[0] <= 0xF4 && Cont(e[1]) && Cont(e[2]) && Cont(e[3])
        && (e[0] == 0xF0 ==> e[1] >= 0x90) && (e[0] == 0xF4 ==> e[1] <= 0x8F))
  }

  lemma EncodedChar(c: nat)
    requires Scalar(c)
    ensures OneChar(EncodeScalar(c))
  {
  }

  lemma CharFirst(e: Bytes, rest: Bytes)
    requires OneChar(e)
    ensures Utf8(e + rest) <==> Utf8(rest)
  {
    var b := e + rest;
    assert b[|e|..] == rest;
  }

  /** The test on names accepts exactly the encodings of sequences of scalar values:
      nothing overlong, no surrogate, nothing past U+10FFFF, nothing cut off. */
  lemma {:induction false} Utf8Exactly(b: Bytes)
    ensures Utf8(b) <==> exists cs: seq<nat> :: Scalars(cs) && EncodeAll(cs) == b
  {
    if Utf8(b) {
      Decodes(b);
    }
    forall cs: seq<nat> | Scalars(cs) && EncodeAll(cs) == b ensures Utf8(b) {
      EncodesUtf8(cs);
    }
  }

  lemma {:induction false} Decodes(b: Bytes)
    requires Utf8(b)
    ensures exists cs: seq<nat> :: Scalars(cs) && EncodeAll(cs) == b
    decreases |b|
  {
    hide Utf8, FirstScalar, EncodeScalar, Scalar;
    if b == [] {
      assert Scalars([]) && EncodeAll([]) == b;
    } else {
      FirstEncoded(b);
      var c := FirstScalar(b);
      var n := |EncodeScalar(c)|;
      Decodes(b[n..]);
      var cs: seq<nat> :| Scalars(cs) && EncodeAll(cs) == b[n..];
      EncodeNext(c, cs);
      assert EncodeScalar(c) + b[n..] == b;
    }
  }

  lemma EncodeNext(c: nat, cs: seq<nat>)
    requires Scalar(c) && Scalars(cs)
    ensures Scalars([c] + cs) && EncodeAll([c] + cs) == EncodeScalar(c) + EncodeAll(cs)
  {
    hide Scalar;
    assert ([c] + cs)[1..] == cs;
  }

  lemma {:induction false} EncodesUtf8(cs: seq<nat>)
    requires Scalars(cs)
    ensures Utf8(EncodeAll(cs))
  {
    hide OneChar, EncodeScalar;
    if cs != [] {
      EncodesUtf8(cs[1..]);
      EncodedChar(cs[0]);
      CharFirst(EncodeScalar(cs[0]), EncodeAll(cs[1..]));
    }
  }
}
