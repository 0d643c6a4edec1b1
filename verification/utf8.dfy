/**
 UTF-8, the encoding Python's `str.encode()` applies before a string is fed to HMAC.
 A `char` here is a Unicode scalar value, so encoding never fails; Python strings holding
 lone surrogates, on which `str.encode()` raises, are outside this model.
 */
module Utf8 {
  import opened Wrappers
  import opened Bytes

  /** A continuation byte carrying six payload bits. */
  function Cont(bits: int): byte
    requires 0 <= bits < 64
  {
    0x80 + bits
  }

  /** The one to four bytes that encode `c`. */
  function EncodeChar(c: char): (bs: seq<byte>)
    ensures 1 <= |bs| <= 4
  {
    var n := c as int;
    if n < 0x80 then [n]
    else if n < 0x800 then [0xC0 + n / 64, Cont(n % 64)]
    else if n < 0x10000 then [0xE0 + n / 4096, Cont(n / 64 % 64), Cont(n % 64)]
    else [0xF0 + n / 262144, Cont(n / 4096 % 64), Cont(n / 64 % 64), Cont(n % 64)]
  }

  /** `s.encode()`: the concatenated encodings of its characters. */
  function Encode(s: string): (bs: seq<byte>)
    ensures |s| <= |bs| <= 4 * |s|
  {
    if |s| == 0 then [] else EncodeChar(s[0]) + Encode(s[1..])
  }

  predicate IsCont(b: byte)
  {
    0x80 <= b < 0xC0
  }

  /** A scalar value from its decoded bits, rejecting overlong forms, surrogates and values past U+10FFFF. */
  function ToChar(n: int, min: int): Option<char>
  {
    if n < 0 || n < min || n > 0x10FFFF || (0xD800 <= n < 0xE000) then None
    else Some(n as char)
  }

  /** The first character of `bs` and the number of bytes it occupies. */
  function DecodeFirst(bs: seq<byte>): (r: Option<(char, nat)>)
    requires |bs| > 0
    ensures r.Some? ==> 1 <= r.value.1 <= |bs|
  {
    var b0 := bs[0] as int;
    if b0 < 0x80 then Some((b0 as char, 1))
    else if 0xC0 <= b0 < 0xE0 && |bs| >= 2 && IsCont(bs[1]) then
      match ToChar((b0 - 0xC0) * 64 + (bs[1] as int - 0x80), 0x80)
      case Some(c) => Some((c, 2))
      case None => None
    else if 0xE0 <= b0 < 0xF0 && |bs| >= 3 && IsCont(bs[1]) && IsCont(bs[2]) then
      match ToChar((b0 - 0xE0) * 4096 + (bs[1] as int - 0x80) * 64 + (bs[2] as int - 0x80), 0x800)
      case Some(c) => Some((c, 3))
      case None => None
    else if 0xF0 <= b0 < 0xF8 && |bs| >= 4 && IsCont(bs[1]) && IsCont(bs[2]) && IsCont(bs[3]) then
      match ToChar((b0 - 0xF0) * 262144 + (bs[1] as int - 0x80) * 4096 + (bs[2] as int - 0x80) * 64 + (bs[3] as int - 0x80), 0x10000)
      case Some(c) => Some((c, 4))
      case None => None
    else None
  }

  /** `bs.decode()` in strict mode: None where Python raises UnicodeDecodeError. */
  function Decode(bs: seq<byte>): (r: Option<string>)
    decreases |bs|
  {
    if |bs| == 0 then Some([])
    else
      match DecodeFirst(bs)
      case None => None
      case Some((c, n)) =>
        match Decode(bs[n..])
        case None => None
        case Some(rest) => Some([c] + rest)
  }

  /** Decoding reads back one encoded character, whatever follows it. */
  lemma DecodeEncodeChar(c: char, rest: seq<byte>)
    ensures DecodeFirst(EncodeChar(c) + rest) == Some((c, |EncodeChar(c)|))
  {
    var n := c as int;
    if n < 0x80 {
    } else if n < 0x800 {
      DecodeTwo(c, rest);
    } else if n < 0x10000 {
      DecodeThree(c, rest);
    } else {
      DecodeFour(c, rest);
    }
  }

  lemma DecodeTwo(c: char, rest: seq<byte>)
    requires 0x80 <= c as int < 0x800
    ensures DecodeFirst(EncodeChar(c) + rest) == Some((c, 2))
  {
    var n := c as int;
    assert n == (n / 64) * 64 + n % 64;
  }

  lemma DecodeThree(c: char, rest: seq<byte>)
    requires 0x800 <= c as int < 0x10000
    ensures DecodeFirst(EncodeChar(c) + rest) == Some((c, 3))
  {
    var n := c as int;
    var q := n / 64;
    assert n == q * 64 + n % 64;
    assert q == (q / 64) * 64 + q % 64;
    assert n / 4096 == q / 64;
    assert n == (n / 4096) * 4096 + (n / 64 % 64) * 64 + n % 64;
  }

  lemma DecodeFour(c: char, rest: seq<byte>)
    requires 0x10000 <= c as int
    ensures DecodeFirst(EncodeChar(c) + rest) == Some((c, 4))
  {
    var n := c as int;
    var q := n / 64;
    var p := q / 64;
    assert n == q * 64 + n % 64;
    assert q == p * 64 + q % 64;
    assert p == (p / 64) * 64 + p % 64;
    assert n / 4096 == p;
    assert n / 262144 == p / 64;
    assert n == (n / 262144) * 262144 + (n / 4096 % 64) * 4096 + (n / 64 % 64) * 64 + n % 64;
  }

  /** Decoding an encoding gives back the text. */
  lemma {:induction false} DecodeEncode(s: string)
    ensures Decode(Encode(s)) == Some(s)
  {
    if |s| > 0 {
      var e := EncodeChar(s[0]);
      var bs := Encode(s);
      DecodeEncodeChar(s[0], Encode(s[1..]));
      assert bs[|e|..] == Encode(s[1..]);
      DecodeEncode(s[1..]);
      assert s == [s[0]] + s[1..];
    }
  }

  /** Distinct strings have distinct encodings, so the MAC input determines the check-string. */
  lemma EncodeInjective(s: string, t: string)
    requires Encode(s) == Encode(t)
    ensures s == t
  {
    DecodeEncode(s);
    DecodeEncode(t);
  }
}
