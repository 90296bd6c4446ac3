/**
 Bytes and their hexadecimal text form, as produced by `bytes.hex()` and read
 back by `bytes.fromhex()`: the encoding the wallet store uses for addresses,
 public keys and encrypted private keys.
 */
module Hex {
  import opened Wrappers

  type byte = x: int | 0 <= x < 256
  type Bytes = seq<byte>

  /** True iff `c` is one of `0-9a-f`. */
  predicate IsLowerHexDigit(c: char) {
    '0' <= c <= '9' || 'a' <= c <= 'f'
  }

  /** True iff every character of `s` is one of `0-9a-f`. */
  predicate IsLowerHex(s: string) {
    forall i :: 0 <= i < |s| ==> IsLowerHexDigit(s[i])
  }

  /** The lower-case hex digit for a nibble; `DigitValue` reads it back. */
  function NibbleChar(n: int): (c: char)
    requires 0 <= n < 16
    ensures IsLowerHexDigit(c)
    ensures DigitValue(c) == Some(n)
  {
    if n < 10 then ('0' as int + n) as char else ('a' as int + n - 10) as char
  }

  /** `bytes.hex()`: two lower-case digits per byte, high nibble first. */
  function ToHex(b: Bytes): (s: string)
    ensures |s| == 2 * |b|
    ensures IsLowerHex(s)
  {
    if b == [] then ""
    else [NibbleChar(b[0] / 16), NibbleChar(b[0] % 16)] + ToHex(b[1..])
  }

  /** The upper-case hex digit for a nibble, which `bytes.fromhex` accepts as well. */
  function UpperNibbleChar(n: int): (c: char)
    requires 0 <= n < 16
    ensures DigitValue(c) == Some(n)
  {
    if n < 10 then ('0' as int + n) as char else ('A' as int + n - 10) as char
  }

  /** Hex text with upper-case digits, as `bytes.hex().upper()` writes it. */
  function ToUpperHex(b: Bytes): (s: string)
    ensures |s| == 2 * |b|
  {
    if b == [] then ""
    else [UpperNibbleChar(b[0] / 16), UpperNibbleChar(b[0] % 16)] + ToUpperHex(b[1..])
  }

  /** The value of a hex digit in either case, as `bytes.fromhex` accepts it. */
  function DigitValue(c: char): (v: Option<int>)
    ensures v.Some? ==> 0 <= v.value < 16
  {
    if '0' <= c <= '9' then Some(c as int - '0' as int)
    else if 'a' <= c <= 'f' then Some(c as int - 'a' as int + 10)
    else if 'A' <= c <= 'F' then Some(c as int - 'A' as int + 10)
    else None
  }

  /** ASCII whitespace as `bytes.fromhex` skips it: space, and tab through carriage return. */
  predicate IsAsciiSpace(c: char) {
    c == ' ' || 9 <= c as int <= 13
  }

  /**
   `bytes.fromhex()`: whitespace between byte pairs is skipped; every other
   character must belong to a complete two-digit pair, otherwise the whole
   conversion fails (`None` models the ValueError).
   */
  function FromHex(s: string): (r: Option<Bytes>)
    ensures r.Some? ==> |r.value| <= |s| / 2
    decreases |s|
  {
    if s == [] then Some([])
    else if IsAsciiSpace(s[0]) then FromHex(s[1..])
    else if |s| < 2 then None
    else
      match (DigitValue(s[0]), DigitValue(s[1]))
      case (Some(hi), Some(lo)) =>
        (match FromHex(s[2..])
         case None => None
         case Some(rest) => Some([hi * 16 + lo] + rest))
      case _ => None
  }

  /** Text without whitespace that converts holds exactly two digits per byte. */
  lemma {:induction false} FromHexLength(s: string)
    requires FromHex(s).Some?
    requires forall i :: 0 <= i < |s| ==> !IsAsciiSpace(s[i])
    ensures |s| == 2 * |FromHex(s).value|
    decreases |s|
  {
    if s != [] {
      assert !IsAsciiSpace(s[0]);
      FromHexLength(s[2..]);
    }
  }

  /** One character that is neither whitespace nor a hex digit makes the whole conversion fail. */
  lemma {:induction false} FromHexRejectsNonHex(s: string, i: nat)
    requires i < |s| && !IsAsciiSpace(s[i]) && DigitValue(s[i]).None?
    ensures FromHex(s).None?
    decreases |s|
  {
    if IsAsciiSpace(s[0]) {
      FromHexRejectsNonHex(s[1..], i - 1);
    } else if 2 <= |s| && 2 <= i && DigitValue(s[0]).Some? && DigitValue(s[1]).Some? {
      FromHexRejectsNonHex(s[2..], i - 2);
    }
  }

  /** Whitespace in front of the text, or between two complete pairs, is skipped. */
  lemma FromHexSkipsSpace(c: char, s: string)
    requires IsAsciiSpace(c)
    ensures FromHex([c] + s) == FromHex(s)
  {
  }

  /** Whitespace inside a pair is not skipped: the conversion fails. */
  lemma FromHexSpaceInsidePair(d: char, c: char, s: string)
    requires DigitValue(d).Some? && IsAsciiSpace(c)
    ensures FromHex([d, c] + s).None?
  {
  }

  /** Upper-case digits are read as well: text written with them reads back as the original bytes. */
  lemma {:induction false} FromHexToUpperHex(b: Bytes)
    ensures FromHex(ToUpperHex(b)) == Some(b)
  {
    if b != [] {
      var s := ToUpperHex(b);
      var hi, lo := b[0] / 16, b[0] % 16;
      assert s == [UpperNibbleChar(hi), UpperNibbleChar(lo)] + ToUpperHex(b[1..]);
      assert !IsAsciiSpace(s[0]);
      assert s[2..] == ToUpperHex(b[1..]);
      FromHexToUpperHex(b[1..]);
      assert [hi * 16 + lo] + b[1..] == b;
    }
  }

  /** Reading back what `ToHex` wrote gives the original bytes. */
  lemma {:induction false} FromHexToHex(b: Bytes)
    ensures FromHex(ToHex(b)) == Some(b)
  {
    if b != [] {
      var s := ToHex(b);
      var hi, lo := b[0] / 16, b[0] % 16;
      assert s == [NibbleChar(hi), NibbleChar(lo)] + ToHex(b[1..]);
      assert s[2..] == ToHex(b[1..]);
      FromHexToHex(b[1..]);
      assert [hi * 16 + lo] + b[1..] == b;
    }
  }
}
