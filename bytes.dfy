/** Optional values, for lookups that may find nothing. */
module Options {
  datatype Option<+T> = None | Some(value: T)
}

/**
 * Byte strings as the honeypot sees them: the payload of a socket read,
 * its ASCII lower-casing (Python's `bytes.lower`), substring search
 * (Python's `in` on bytes) and the lower-case hex text of `bytes.hex()`.
 */
module Bytes {
  import opened Options

  type Byte = b: int | 0 <= b < 256

  /**
   * The bytes of a Python `b'...'` literal written with the same characters:
   * each character's code, which for the plain ASCII literals used here is
   * the character itself (the low byte is kept for any wider character).
   */
  function Ascii(s: string): (r: seq<Byte>)
    ensures |r| == |s|
    ensures forall i :: 0 <= i < |s| && s[i] as int < 256 ==> r[i] == s[i] as int
  {
    seq(|s|, i requires 0 <= i < |s| => s[i] as int % 256)
  }

  predicate IsUpper(b: Byte) {
    'A' as int <= b <= 'Z' as int
  }

  /** `bytes.lower()` on one byte: only A-Z move, by 32; every other byte is kept. */
  function AsciiLower(b: Byte): Byte {
    if IsUpper(b) then b + 32 else b
  }

  function Lower(s: seq<Byte>): seq<Byte> {
    seq(|s|, i requires 0 <= i < |s| => AsciiLower(s[i]))
  }

  /** Lower-casing keeps the length, turns each of A-Z into its lower-case letter and keeps every other byte. */
  lemma LowerShape(s: seq<Byte>)
    ensures |Lower(s)| == |s|
    ensures forall i :: 0 <= i < |s| ==> !IsUpper(Lower(s)[i])
    ensures forall i :: 0 <= i < |s| && !IsUpper(s[i]) ==> Lower(s)[i] == s[i]
    ensures forall i :: 0 <= i < |s| && IsUpper(s[i]) ==> Lower(s)[i] == s[i] + 32
  {
  }

  /** Lower-casing twice is lower-casing once. */
  lemma LowerIdempotent(s: seq<Byte>)
    ensures Lower(Lower(s)) == Lower(s)
  {
    LowerShape(s);
    LowerShape(Lower(s));
  }

  /**
   * Python's `needle in hay` for bytes: some window of `hay` equals `needle`.
   * Written as the scan from the front, so that concrete payloads can be
   * decided by unfolding; ContainsIff gives the window form.
   */
  predicate Contains(hay: seq<Byte>, needle: seq<Byte>)
    decreases |hay|
  {
    if |needle| > |hay| then false
    else if hay[..|needle|] == needle then true
    else |hay| > 0 && Contains(hay[1..], needle)
  }

  /** A window that matches at offset `i` makes `needle` contained. */
  lemma {:induction false} ContainsAt(hay: seq<Byte>, needle: seq<Byte>, i: nat)
    requires i + |needle| <= |hay|
    requires hay[i..i + |needle|] == needle
    ensures Contains(hay, needle)
    decreases i
  {
    if i > 0 && hay[..|needle|] != needle {
      assert hay[1..][i - 1..i - 1 + |needle|] == hay[i..i + |needle|];
      ContainsAt(hay[1..], needle, i - 1);
    }
  }

  /** A contained needle has a matching window. */
  lemma {:induction false} ContainsWitness(hay: seq<Byte>, needle: seq<Byte>) returns (i: nat)
    requires Contains(hay, needle)
    ensures i + |needle| <= |hay| && hay[i..i + |needle|] == needle
    decreases |hay|
  {
    if hay[..|needle|] == needle {
      i := 0;
    } else {
      var j := ContainsWitness(hay[1..], needle);
      assert hay[1..][j..j + |needle|] == hay[j + 1..j + 1 + |needle|];
      i := j + 1;
    }
  }

  /** `needle` sits in `hay` at offset `i`. */
  predicate MatchesAt(hay: seq<Byte>, needle: seq<Byte>, i: int) {
    0 <= i && i + |needle| <= |hay| && hay[i..i + |needle|] == needle
  }

  /** Both directions: containment is exactly the existence of a matching window. */
  lemma ContainsIff(hay: seq<Byte>, needle: seq<Byte>)
    ensures Contains(hay, needle) <==> exists i :: MatchesAt(hay, needle, i)
  {
    if Contains(hay, needle) {
      var i := ContainsWitness(hay, needle);
      assert MatchesAt(hay, needle, i);
    }
    if exists i :: MatchesAt(hay, needle, i) {
      var i :| MatchesAt(hay, needle, i);
      ContainsAt(hay, needle, i);
    }
  }

  /** The empty needle is in every payload, as in Python (`b'' in x`). */
  lemma ContainsEmpty(hay: seq<Byte>)
    ensures Contains(hay, [])
  {
    ContainsAt(hay, [], 0);
  }

  /** The empty payload contains no non-empty needle. */
  lemma EmptyContainsNothing(needle: seq<Byte>)
    requires |needle| > 0
    ensures !Contains([], needle)
  {
  }

  /** A payload that contains a non-empty needle contains its first byte. */
  lemma {:induction false} ContainsFirstByte(hay: seq<Byte>, needle: seq<Byte>)
    requires |needle| > 0 && Contains(hay, needle)
    ensures needle[0] in hay
    decreases |hay|
  {
    if hay[..|needle|] != needle {
      ContainsFirstByte(hay[1..], needle);
    }
  }

  /** A payload that lacks the first byte of a needle cannot contain the needle. */
  lemma MissingFirstByte(hay: seq<Byte>, needle: seq<Byte>)
    requires |needle| > 0 && needle[0] !in hay
    ensures !Contains(hay, needle)
  {
    if Contains(hay, needle) {
      ContainsFirstByte(hay, needle);
    }
  }

  // ---- hex text, as produced by Python's bytes.hex() ----

  type Nibble = n: int | 0 <= n < 16

  /** The lower-case hex digits: 0-9 and a-f. */
  predicate IsHexDigit(c: char) {
    '0' <= c <= '9' || 'a' <= c <= 'f'
  }

  /** The digit for one nibble, `0123456789abcdef`[n]. */
  function HexDigit(n: Nibble): (c: char)
    ensures IsHexDigit(c)
  {
    if n < 10 then ('0' as int + n) as char else ('a' as int + n - 10) as char
  }

  /** The two lower-case hex digits of one byte, high nibble first. */
  function HexByte(b: Byte): (h: string)
    ensures |h| == 2
  {
    [HexDigit(b / 16), HexDigit(b % 16)]
  }

  /** `data.hex()`: two lower-case hex digits per byte, in order. */
  function Hex(s: seq<Byte>): (h: string)
    ensures |h| == 2 * |s|
  {
    if s == [] then "" else HexByte(s[0]) + Hex(s[1..])
  }

  /** The value of one lower-case hex digit; anything else is not a digit. */
  function DigitValue(c: char): (v: Option<Nibble>)
    ensures v.Some? <==> IsHexDigit(c)
    ensures v.Some? ==> HexDigit(v.value) == c
  {
    if '0' <= c <= '9' then Some(c as int - '0' as int)
    else if 'a' <= c <= 'f' then Some(c as int - 'a' as int + 10)
    else None
  }

  /**
   * The inverse of Hex: pairs of lower-case hex digits back to bytes.
   * Text of odd length or with any other character is rejected.
   */
  function Unhex(h: string): Option<seq<Byte>>
    decreases |h|
  {
    if h == [] then Some([])
    else if |h| == 1 then None
    else match (DigitValue(h[0]), DigitValue(h[1]), Unhex(h[2..]))
      case (Some(hi), Some(lo), Some(rest)) =>
        var b: Byte := hi as int * 16 + lo as int;
        Some([b] + rest)
      case _ => None
  }

  /** Both digits of HexByte decode back to the nibbles of the byte. */
  lemma HexByteDigits(b: Byte)
    ensures DigitValue(HexByte(b)[0]) == Some(b / 16)
    ensures DigitValue(HexByte(b)[1]) == Some(b % 16)
  {
  }

  /** Hex text uses only the sixteen lower-case hex digits (so never a newline). */
  lemma {:induction false} HexDigitsOnly(s: seq<Byte>)
    ensures forall k :: 0 <= k < |Hex(s)| ==> IsHexDigit(Hex(s)[k])
  {
    if s != [] {
      HexDigitsOnly(s[1..]);
      var h := Hex(s);
      forall k | 0 <= k < |h| ensures IsHexDigit(h[k]) {
        if k >= 2 {
          assert h[k] == Hex(s[1..])[k - 2];
        }
      }
    }
  }

  /** Decoding the hex of a payload gives the payload back. */
  lemma {:induction false} UnhexHex(s: seq<Byte>)
    ensures Unhex(Hex(s)) == Some(s)
  {
    if s != [] {
      var h := Hex(s);
      assert h[0] == HexByte(s[0])[0] && h[1] == HexByte(s[0])[1];
      assert h[2..] == Hex(s[1..]);
      UnhexHex(s[1..]);
      HexByteDigits(s[0]);
      assert s == [s[0] / 16 * 16 + s[0] % 16] + s[1..];
    }
  }

  /** Every text that decodes is the hex of what it decodes to: Hex is onto its decodable texts. */
  lemma {:induction false} HexUnhex(h: string, s: seq<Byte>)
    requires Unhex(h) == Some(s)
    ensures Hex(s) == h
    decreases |h|
  {
    if h != [] {
      var hi := DigitValue(h[0]).value;
      var lo := DigitValue(h[1]).value;
      var rest := Unhex(h[2..]).value;
      HexUnhex(h[2..], rest);
      var b: Byte := hi as int * 16 + lo as int;
      assert s == [b] + rest;
      assert b / 16 == hi && b % 16 == lo;
      assert HexByte(b) == h[..2];
      assert s[1..] == rest;
      assert h == h[..2] + h[2..];
    }
  }

  /** Hex is injective: different payloads never share a hex text. */
  lemma HexInjective(a: seq<Byte>, b: seq<Byte>)
    requires Hex(a) == Hex(b)
    ensures a == b
  {
    UnhexHex(a);
    UnhexHex(b);
  }
}
