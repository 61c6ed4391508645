/** UTF-8 as the wiki uses it: `str::as_bytes` when a page is written and
    `std::str::from_utf8` when a page is read back. Both follow the encoding
    table of RFC 3629 (section 3 for encoding, section 4 for the byte
    sequences a decoder accepts). Dafny's `char` is a Unicode scalar value,
    exactly the set of values a Rust `char` can hold. */
module Utf8 {
  import opened Errors

  type byte = b: int | 0 <= b < 0x100

  predicate IsContinuation(b: byte) { 0x80 <= b < 0xC0 }

  /** The one to four bytes that encode one scalar value. */
  function EncodeChar(c: char): (r: seq<byte>)
    ensures 1 <= |r| <= 4
    ensures (r[0] < 0x80) == (|r| == 1)
  {
    var n := c as int;
    if n < 0x80 then [n]
    else if n < 0x800 then [0xC0 + n / 0x40, 0x80 + n % 0x40]
    else if n < 0x1_0000 then [0xE0 + n / 0x1000, 0x80 + n / 0x40 % 0x40, 0x80 + n % 0x40]
    else [0xF0 + n / 0x4_0000, 0x80 + n / 0x1000 % 0x40, 0x80 + n / 0x40 % 0x40, 0x80 + n % 0x40]
  }

  /** `str::as_bytes`: the concatenated encodings of the characters. */
  function Encode(s: string): (r: seq<byte>)
    ensures s == [] <==> r == []
  {
    if s == [] then [] else EncodeChar(s[0]) + Encode(s[1..])
  }

  /** Decodes the scalar value at the start of `b`, giving it and the number
      of bytes it takes; None when the bytes there are not well-formed UTF-8
      (a stray continuation byte, an overlong form, a surrogate, a value above
      U+10FFFF, or a truncated sequence). */
  function DecodeFirst(b: seq<byte>): (r: Option<(char, nat)>)
    requires |b| > 0
    ensures r.Some? ==> 1 <= r.value.1 <= |b| && r.value.1 <= 4
  {
    var b0: int := b[0];
    if b0 < 0x80 then
      Some((b0 as char, 1))
    else if 0xC2 <= b0 < 0xE0 then
      if |b| >= 2 && IsContinuation(b[1])
      then Some((((b0 - 0xC0) * 0x40 + (b[1] as int - 0x80)) as char, 2))
      else None
    else if 0xE0 <= b0 < 0xF0 then
      if && |b| >= 3 && IsContinuation(b[1]) && IsContinuation(b[2])
         && (b0 == 0xE0 ==> b[1] >= 0xA0)
         && (b0 == 0xED ==> b[1] < 0xA0)
      then Some((((b0 - 0xE0) * 0x1000 + (b[1] as int - 0x80) * 0x40 + (b[2] as int - 0x80)) as char, 3))
      else None
    else if 0xF0 <= b0 < 0xF5 then
      if && |b| >= 4 && IsContinuation(b[1]) && IsContinuation(b[2]) && IsContinuation(b[3])
         && (b0 == 0xF0 ==> b[1] >= 0x90)
         && (b0 == 0xF4 ==> b[1] < 0x90)
      then Some((((b0 - 0xF0) * 0x4_0000 + (b[1] as int - 0x80) * 0x1000 + (b[2] as int - 0x80) * 0x40 + (b[3] as int - 0x80)) as char, 4))
      else None
    else
      None
  }

  /** `std::str::from_utf8`: the text the bytes encode, or None (the
      Utf8Error) when they are not well-formed UTF-8. */
  function Decode(b: seq<byte>): (r: Option<string>)
    decreases |b|
  {
    if b == [] then Some([])
    else
      match DecodeFirst(b)
      case None => None
      case Some((c, k)) =>
        match Decode(b[k..])
        case None => None
        case Some(rest) => Some([c] + rest)
  }

  /** Dividing by 0x40 past a multiple of 0x40. */
  lemma DivMod40(q: int, r: int)
    requires 0 <= r
    ensures (q * 0x40 + r) / 0x40 == q + r / 0x40 && (q * 0x40 + r) % 0x40 == r % 0x40
  {
  }

  lemma DivMod1000(q: int, r: int)
    requires 0 <= r
    ensures (q * 0x1000 + r) / 0x1000 == q + r / 0x1000
  {
  }

  lemma DivMod40000(q: int, r: int)
    requires 0 <= r < 0x4_0000
    ensures (q * 0x4_0000 + r) / 0x4_0000 == q
  {
  }

  lemma DecodeFirstOfEncodeChar2(c: char, rest: seq<byte>)
    requires 0x80 <= c as int < 0x800
    ensures DecodeFirst(EncodeChar(c) + rest) == Some((c, 2))
  {
    var n := c as int;
    var b := EncodeChar(c) + rest;
    assert b[0] == 0xC0 + n / 0x40 && b[1] == 0x80 + n % 0x40;
  }

  /** A value below 0x4_0000 as three base-0x40 digits. */
  lemma Digits3(n: int)
    requires 0 <= n < 0x4_0000
    ensures n == (n / 0x1000) * 0x1000 + (n / 0x40 % 0x40) * 0x40 + n % 0x40
    ensures n / 0x1000 < 0x40
  {
    DivMod40(n / 0x1000 * 0x40, n % 0x1000 / 0x40 * 0x40 + n % 0x40);
  }

  /** A value of 0x1_0000 or more that is a scalar value, as four base-0x40
      digits; the first digit is 0 to 4, and the second is at least 0x10 after
      a 0 and below 0x10 after a 4. */
  lemma Digits4(n: int)
    requires 0x1_0000 <= n < 0x11_0000
    ensures n == (n / 0x4_0000) * 0x4_0000 + (n / 0x1000 % 0x40) * 0x1000 + (n / 0x40 % 0x40) * 0x40 + n % 0x40
    ensures n / 0x4_0000 < 5
    ensures n / 0x4_0000 == 0 ==> n / 0x1000 % 0x40 >= 0x10
    ensures n / 0x4_0000 == 4 ==> n / 0x1000 % 0x40 < 0x10
  {
    var w, m := n / 0x4_0000, n % 0x4_0000;
    assert n == w * 0x4_0000 + m;
    Digits3(m);
    DivMod1000(w * 0x40, m);
    DivMod40(w, m / 0x1000);
    assert n / 0x1000 % 0x40 == m / 0x1000;
    DivMod40(w * 0x1000, m);
    DivMod40(w * 0x40, m / 0x40);
    assert n / 0x40 % 0x40 == m / 0x40 % 0x40;
    assert n % 0x40 == m % 0x40;
  }

  lemma DecodeFirstOfEncodeChar3(c: char, rest: seq<byte>)
    requires 0x800 <= c as int < 0x1_0000
    ensures DecodeFirst(EncodeChar(c) + rest) == Some((c, 3))
  {
    var n := c as int;
    Digits3(n);
    var b := EncodeChar(c) + rest;
    assert b[0] == 0xE0 + n / 0x1000 && b[1] == 0x80 + n / 0x40 % 0x40 && b[2] == 0x80 + n % 0x40;
  }

  lemma DecodeFirstOfEncodeChar4(c: char, rest: seq<byte>)
    requires 0x1_0000 <= c as int
    ensures DecodeFirst(EncodeChar(c) + rest) == Some((c, 4))
  {
    var n := c as int;
    Digits4(n);
    var b := EncodeChar(c) + rest;
    assert b[0] == 0xF0 + n / 0x4_0000 && b[1] == 0x80 + n / 0x1000 % 0x40;
    assert b[2] == 0x80 + n / 0x40 % 0x40 && b[3] == 0x80 + n % 0x40;
  }

  /** The decoder reads back the character an encoding starts with, and
      consumes exactly its bytes. */
  lemma DecodeFirstOfEncodeChar(c: char, rest: seq<byte>)
    ensures DecodeFirst(EncodeChar(c) + rest) == Some((c, |EncodeChar(c)|))
  {
    var n := c as int;
    if n < 0x80 {
    } else if n < 0x800 {
      DecodeFirstOfEncodeChar2(c, rest);
    } else if n < 0x1_0000 {
      DecodeFirstOfEncodeChar3(c, rest);
    } else {
      DecodeFirstOfEncodeChar4(c, rest);
    }
  }

  lemma EncodeCharOfDecodeFirst2(b: seq<byte>)
    requires |b| >= 2 && 0xC2 <= b[0] < 0xE0 && DecodeFirst(b).Some?
    ensures EncodeChar(DecodeFirst(b).value.0) == b[..2]
  {
    var x, y := b[0] as int - 0xC0, b[1] as int - 0x80;
    var n := DecodeFirst(b).value.0 as int;
    assert n == x * 0x40 + y;
    DivMod40(x, y);
  }

  lemma EncodeCharOfDecodeFirst3(b: seq<byte>)
    requires |b| >= 3 && 0xE0 <= b[0] < 0xF0 && DecodeFirst(b).Some?
    ensures EncodeChar(DecodeFirst(b).value.0) == b[..3]
  {
    var x, y, z := b[0] as int - 0xE0, b[1] as int - 0x80, b[2] as int - 0x80;
    var n := DecodeFirst(b).value.0 as int;
    assert n == (x * 0x40 + y) * 0x40 + z;
    DivMod40(x * 0x40 + y, z);
    DivMod40(x, y);
    DivMod1000(x, y * 0x40 + z);
    assert 0x800 <= n < 0x1_0000;
  }

  lemma EncodeCharOfDecodeFirst4(b: seq<byte>)
    requires |b| >= 4 && 0xF0 <= b[0] < 0xF5 && DecodeFirst(b).Some?
    ensures EncodeChar(DecodeFirst(b).value.0) == b[..4]
  {
    var w, x, y, z := b[0] as int - 0xF0, b[1] as int - 0x80, b[2] as int - 0x80, b[3] as int - 0x80;
    var n := DecodeFirst(b).value.0 as int;
    var q := (w * 0x40 + x) * 0x40 + y;
    assert n == q * 0x40 + z;
    DivMod40(q, z);
    DivMod40(w * 0x40 + x, y);
    DivMod40(w, x);
    DivMod1000(w * 0x40 + x, y * 0x40 + z);
    DivMod40000(w, x * 0x1000 + y * 0x40 + z);
    assert 0x1_0000 <= n;
  }

  /** Whatever DecodeFirst accepts is the encoding of the value it returns. */
  lemma EncodeCharOfDecodeFirst(b: seq<byte>)
    requires |b| > 0 && DecodeFirst(b).Some?
    ensures EncodeChar(DecodeFirst(b).value.0) == b[..DecodeFirst(b).value.1]
  {
    var b0: int := b[0];
    if b0 < 0x80 {
    } else if b0 < 0xE0 {
      EncodeCharOfDecodeFirst2(b);
    } else if b0 < 0xF0 {
      EncodeCharOfDecodeFirst3(b);
    } else {
      EncodeCharOfDecodeFirst4(b);
    }
  }

  /** Round trip: text written with `as_bytes` decodes to the same text. */
  lemma {:induction false} DecodeOfEncode(s: string)
    ensures Decode(Encode(s)) == Some(s)
  {
    if s != [] {
      var e := EncodeChar(s[0]);
      var tail := Encode(s[1..]);
      assert Encode(s) == e + tail;
      DecodeFirstOfEncodeChar(s[0], tail);
      assert Encode(s)[|e|..] == tail;
      DecodeOfEncode(s[1..]);
      assert [s[0]] + s[1..] == s;
    }
  }

  /** Unfolds `Decode` once on bytes it accepts. */
  lemma DecodeCons(b: seq<byte>)
    requires b != [] && Decode(b).Some?
    ensures DecodeFirst(b).Some? && Decode(b[DecodeFirst(b).value.1..]).Some?
    ensures Decode(b).value == [DecodeFirst(b).value.0] + Decode(b[DecodeFirst(b).value.1..]).value
  {
  }

  lemma EncodeCons(c: char, rest: string)
    ensures Encode([c] + rest) == EncodeChar(c) + Encode(rest)
  {
    assert ([c] + rest)[1..] == rest;
  }

  /** An encoding split after its first character. */
  lemma EncodeConsSplit(b: seq<byte>, c: char, k: nat, rest: string)
    requires k <= |b| && EncodeChar(c) == b[..k] && Encode(rest) == b[k..]
    ensures Encode([c] + rest) == b
  {
    EncodeCons(c, rest);
    assert b[..k] + b[k..] == b;
  }

  /** The other direction: the decoder accepts only canonical encodings, so
      decoding and re-encoding gives back the very bytes. */
  lemma {:induction false} EncodeOfDecode(b: seq<byte>)
    requires Decode(b).Some?
    ensures Encode(Decode(b).value) == b
    decreases |b|
  {
    if b != [] {
      DecodeCons(b);
      var c := DecodeFirst(b).value.0;
      var k := DecodeFirst(b).value.1;
      EncodeCharOfDecodeFirst(b);
      EncodeOfDecode(b[k..]);
      EncodeConsSplit(b, c, k, Decode(b[k..]).value);
    }
  }

  /** `from_utf8` succeeds exactly on the byte strings that are the encoding
      of some text. */
  lemma DecodeSucceedsIffEncoding(b: seq<byte>)
    ensures Decode(b).Some? <==> exists s :: Encode(s) == b
  {
    if Decode(b).Some? {
      EncodeOfDecode(b);
    }
    if exists s :: Encode(s) == b {
      var s :| Encode(s) == b;
      DecodeOfEncode(s);
    }
  }

  /** Distinct texts have distinct encodings. */
  lemma EncodeInjective(a: string, b: string)
    requires Encode(a) == Encode(b)
    ensures a == b
  {
    DecodeOfEncode(a);
    DecodeOfEncode(b);
  }
}
