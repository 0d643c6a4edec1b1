/**
 Bytes and their lowercase hexadecimal rendering, as produced by Python's
 `hmac.HMAC.hexdigest()`.
 */
module Bytes {
  import opened Wrappers
  import opened Seqs

  type byte = x: int | 0 <= x < 256

  /** The alphabet of `hexdigest()`, indexed by nibble value. */
  const HexDigits: string := "0123456789abcdef"

  /** A lowercase hexadecimal digit: `0-9` or `a-f`. */
  predicate IsHexDigit(c: char)
  {
    '0' <= c <= '9' || 'a' <= c <= 'f'
  }

  /** Every character is a lowercase hexadecimal digit. */
  predicate IsLowerHex(s: string)
  {
    forall i :: 0 <= i < |s| ==> IsHexDigit(s[i])
  }

  /** The digit for a nibble. */
  function Digit(n: nat): (c: char)
    requires n < 16
    ensures IsHexDigit(c)
  {
    if n < 10 then ('0' as int + n) as char else ('a' as int + (n - 10)) as char
  }

  /** The digits are those of the `hexdigest()` alphabet, in order. */
  lemma DigitsAreTheAlphabet()
    ensures |HexDigits| == 16
    ensures forall n :: 0 <= n < 16 ==> Digit(n) == HexDigits[n]
  {
  }

  /** The two digits of one byte, high nibble first. */
  function HexPair(b: byte): string
  {
    [Digit(b / 16), Digit(b % 16)]
  }

  /** `bytes.hex()`: two lowercase digits per byte, in order. */
  function Hex(bs: seq<byte>): (h: string)
    ensures |h| == 2 * |bs|
    ensures IsLowerHex(h)
  {
    if |bs| == 0 then "" else HexPair(bs[0]) + Hex(bs[1..])
  }

  /** The value of a lowercase hexadecimal digit. */
  function DigitValue(c: char): (r: Option<nat>)
    ensures r.Some? <==> IsHexDigit(c)
    ensures r.Some? ==> r.value < 16 && Digit(r.value) == c
  {
    if '0' <= c <= '9' then Some(c as int - '0' as int)
    else if 'a' <= c <= 'f' then Some(c as int - 'a' as int + 10)
    else None
  }

  /** `bytes.fromhex` restricted to lowercase digits: the inverse of Hex. */
  function Unhex(h: string): (r: Option<seq<byte>>)
    ensures r.Some? ==> |h| == 2 * |r.value|
    decreases |h|
  {
    if |h| == 0 then Some([])
    else if |h| == 1 then None
    else
      match (DigitValue(h[0]), DigitValue(h[1]), Unhex(h[2..]))
      case (Some(hi), Some(lo), Some(rest)) => Some([hi * 16 + lo] + rest)
      case _ => None
  }

  /** Reading a digit gives back its nibble. */
  lemma DigitValueOfDigit(d: nat)
    requires d < 16
    ensures DigitValue(Digit(d)) == Some(d)
  {
  }

  /** A byte built from two nibbles splits back into them. */
  lemma Nibbles(hi: nat, lo: nat)
    requires hi < 16 && lo < 16
    ensures (hi * 16 + lo) / 16 == hi && (hi * 16 + lo) % 16 == lo
  {
  }

  /** Reading back a rendering gives the bytes that were rendered. */
  lemma {:induction false} UnhexHex(bs: seq<byte>)
    ensures Unhex(Hex(bs)) == Some(bs)
  {
    if |bs| > 0 {
      var b := bs[0];
      var h := Hex(bs);
      UnhexHex(bs[1..]);
      assert h == HexPair(b) + Hex(bs[1..]);
      assert h[2..] == Hex(bs[1..]);
      DigitValueOfDigit(b / 16);
      DigitValueOfDigit(b % 16);
      Uncons(bs);
    }
  }

  /** Rendering what was read gives back the text: a string Unhex accepts is a Hex rendering. */
  lemma {:induction false} HexUnhex(h: string)
    requires Unhex(h).Some?
    ensures Hex(Unhex(h).value) == h
    decreases |h|
  {
    if |h| > 0 {
      var hi := DigitValue(h[0]).value;
      var lo := DigitValue(h[1]).value;
      HexUnhex(h[2..]);
      var b: byte := hi * 16 + lo;
      assert HexPair(b) == [h[0], h[1]] by {
        Nibbles(hi, lo);
      }
      assert Unhex(h).value == [b] + Unhex(h[2..]).value;
      Uncons2(h);
    }
  }

  /** Distinct byte strings have distinct renderings. */
  lemma HexInjective(a: seq<byte>, b: seq<byte>)
    requires Hex(a) == Hex(b)
    ensures a == b
  {
    UnhexHex(a);
    UnhexHex(b);
  }
}
