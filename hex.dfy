/**
 * `print_hex` (openssl.hpp) and the part of a `std::ostream` it relies on:
 * formatted insertion of an integer in the stream's number base, padded to
 * the stream's field width with its fill character.
 */
module HexFormat {
  import opened Wrappers
  import opened Crypto
  import AddressDerivation

  /** The `basefield` of the stream's format flags. */
  datatype Base = Oct | Dec | Hex {
    function Radix(): (r: nat)
      ensures r in {8, 10, 16}
    {
      match this
      case Oct => 8
      case Dec => 10
      case Hex => 16
    }
  }

  /** A lowercase digit: `0-9a-f`. */
  predicate IsHexDigit(c: char)
  {
    '0' <= c <= '9' || 'a' <= c <= 'f'
  }

  /** The character for digit value `d`, lowercase as without `std::uppercase`. */
  function DigitChar(d: nat): (c: char)
    requires d < 16
    ensures IsHexDigit(c)
    ensures d < 10 <==> '0' <= c <= '9'
  {
    if d < 10 then ('0' as int + d) as char else ('a' as int + d - 10) as char
  }

  /** The value of a lowercase digit, or None for any other character. */
  function DigitValue(c: char): (v: Option<nat>)
    ensures v.Some? <==> IsHexDigit(c)
    ensures v.Some? ==> v.value < 16
  {
    if '0' <= c <= '9' then Some(c as int - '0' as int)
    else if 'a' <= c <= 'f' then Some(c as int - 'a' as int + 10)
    else None
  }

  /** `DigitChar` undoes `DigitValue` on every lowercase hex digit. */
  lemma CharRoundTrip(c: char)
    requires IsHexDigit(c)
    ensures DigitChar(DigitValue(c).value) == c
  {
  }

  /** `DigitValue` undoes `DigitChar`. */
  lemma DigitRoundTrip(d: nat)
    requires d < 16
    ensures DigitValue(DigitChar(d)) == Some(d)
  {
  }

  /** A byte splits into its high and low nibble, and back. */
  lemma Nibbles(hi: nat, lo: nat)
    requires hi < 16 && lo < 16
    ensures (hi * 16 + lo) / 16 == hi && (hi * 16 + lo) % 16 == lo
  {
  }

  /** Euclidean division of `v` by a radix: quotient, remainder, and the quotient shrinks. */
  lemma DivStep(v: nat, radix: nat)
    requires 2 <= radix <= 16
    ensures v == (v / radix) * radix + v % radix
    ensures v >= radix ==> v / radix < v
  {
  }

  /** The digits of `v` in base `radix`, most significant first, without leading zeros. */
  function Digits(v: nat, radix: nat): (s: seq<char>)
    requires 2 <= radix <= 16
    ensures 1 <= |s|
    ensures forall k :: 0 <= k < |s| ==> IsHexDigit(s[k])
    decreases v
  {
    if v < radix then [DigitChar(v)]
    else
      DivStep(v, radix);
      Digits(v / radix, radix) + [DigitChar(v % radix)]
  }

  /** The number a digit string denotes in base `radix`. */
  function ValueOf(s: seq<char>, radix: nat): (v: nat)
    requires forall k :: 0 <= k < |s| ==> IsHexDigit(s[k])
  {
    if s == [] then 0 else ValueOf(s[..|s| - 1], radix) * radix + DigitValue(s[|s| - 1]).value
  }

  /** `Digits` is the base-`radix` representation of its argument. */
  lemma {:induction false} DigitsValue(v: nat, radix: nat)
    requires 2 <= radix <= 16
    ensures ValueOf(Digits(v, radix), radix) == v
    decreases v
  {
    var s := Digits(v, radix);
    if v < radix {
      DigitRoundTrip(v);
      assert s[..0] == [];
    } else {
      var q, m := v / radix, v % radix;
      DivStep(v, radix);
      DigitsValue(q, radix);
      DigitRoundTrip(m);
      assert s[..|s| - 1] == Digits(q, radix);
    }
  }

  /**
   * The characters a formatted insertion of `v` produces: its digits in
   * `base`, right-aligned in a field of `width` characters filled with
   * `fill`.
   */
  function Format(v: nat, base: Base, width: nat, fill: char): (s: seq<char>)
    ensures |Digits(v, base.Radix())| <= |s|
    ensures width <= |s|
  {
    var digits := Digits(v, base.Radix());
    if width > |digits| then seq(width - |digits|, _ => fill) + digits else digits
  }

  /**
   * A formatted insertion is exactly as long as the wider of the field and
   * the digits; it ends with the digits and is padded in front with `fill`.
   */
  lemma FormatLayout(v: nat, base: Base, width: nat, fill: char)
    ensures var s, d := Format(v, base, width, fill), Digits(v, base.Radix());
      && |s| == (if width > |d| then width else |d|)
      && s[|s| - |d|..] == d
      && forall k :: 0 <= k < |s| - |d| ==> s[k] == fill
  {
  }

  /** An output stream: the characters written so far and its formatting state. */
  class OStream {
    var text: seq<char>
    var width: nat
    var fill: char
    var base: Base

    /** A fresh stream: empty, width 0, fill ' ', decimal. */
    constructor ()
      ensures text == [] && width == 0 && fill == ' ' && base == Dec
    {
      text, width, fill, base := [], 0, ' ', Dec;
    }

    /**
     * `os << n` for a non-negative int: appends the formatted number and
     * resets the field width to 0; fill and base stay.
     */
    method PutInt(n: nat)
      modifies this
      ensures text == old(text) + Format(n, old(base), old(width), old(fill))
      ensures width == 0 && fill == old(fill) && base == old(base)
    {
      text := text + Format(n, base, width, fill);
      width := 0;
    }
  }

  /** Two lowercase hex digits of a byte, high nibble first. */
  function HexByte(b: byte): (s: seq<char>)
    ensures |s| == 2 && IsHexDigit(s[0]) && IsHexDigit(s[1])
  {
    [DigitChar(b / 16), DigitChar(b % 16)]
  }

  /** The hex text of a byte sequence: the bytes' `HexByte`s in order. */
  function HexString(a: seq<byte>): (s: seq<char>)
    ensures |s| == 2 * |a|
  {
    if a == [] then [] else HexString(a[..|a| - 1]) + HexByte(a[|a| - 1])
  }

  /**
   * With base hex, fill '0' and width 2 the stream writes a byte as
   * `HexByte`: a byte below 16 gets a leading '0'.
   */
  lemma FormatByte(b: byte)
    ensures Format(b, Hex, 2, '0') == HexByte(b)
    ensures b < 16 ==> Format(b, Hex, 2, '0')[0] == '0'
  {
    if b >= 16 {
      assert Digits(b, 16) == Digits(b / 16, 16) + [DigitChar(b % 16)];
    }
  }

  /**
   * `os << std::setfill('0') << std::setw(2) << (int)b` on a stream in hex:
   * appends the byte's two hex digits and leaves the fill at '0' and the
   * width at 0.
   */
  method PutHexByte(os: OStream, b: byte)
    requires os.base == Hex
    modifies os
    ensures os.text == old(os.text) + HexByte(b)
    ensures os.width == 0 && os.fill == '0' && os.base == Hex
  {
    os.fill := '0';
    os.width := 2;
    os.PutInt(b);
    FormatByte(b);
  }

  /**
   * `print_hex(os, a)`: writes every byte as two zero-padded lowercase hex
   * digits, then gives the stream back its width and fill and leaves it in
   * decimal.  Returns the same stream.
   */
  method PrintHex(os: OStream, a: seq<byte>) returns (r: OStream)
    modifies os
    ensures r == os
    ensures os.text == old(os.text) + HexString(a)
    ensures os.width == old(os.width) && os.fill == old(os.fill)
    ensures os.base == Dec
  {
    var w := os.width;
    var f := os.fill;

    os.base := Hex;
    for i := 0 to |a|
      invariant os.text == old(os.text) + HexString(a[..i])
      invariant os.base == Hex
    {
      PutHexByte(os, a[i]);
      assert a[..i + 1][..i] == a[..i];
    }
    assert a[..|a|] == a;

    os.width := w;
    os.fill := f;
    os.base := Dec;
    r := os;
  }

  /** Characters 2i and 2i+1 of the hex text are the digits of byte i. */
  lemma {:induction false} HexStringAt(a: seq<byte>, i: nat)
    requires i < |a|
    ensures HexString(a)[2 * i..2 * i + 2] == HexByte(a[i])
  {
    if i < |a| - 1 {
      HexStringAt(a[..|a| - 1], i);
      assert a[..|a| - 1][i] == a[i];
    }
  }

  /** Every character written is a lowercase hex digit. */
  lemma HexStringAlphabet(a: seq<byte>)
    ensures forall k :: 0 <= k < |HexString(a)| ==> IsHexDigit(HexString(a)[k])
  {
  }

  /** An address is always printed as 50 characters. */
  lemma AddressHexLength(a: AddressDerivation.Address)
    ensures |HexString(a)| == 50
  {
  }

  /** Reads lowercase hex text back into bytes; None for odd length or a non-digit. */
  function UnHex(s: seq<char>): (a: Option<seq<byte>>)
  {
    if s == [] then Some([])
    else if |s| < 2 then None
    else
      var prefix, hi, lo := UnHex(s[..|s| - 2]), DigitValue(s[|s| - 2]), DigitValue(s[|s| - 1]);
      if prefix.Some? && hi.Some? && lo.Some? then Some(prefix.value + [hi.value * 16 + lo.value]) else None
  }

  /** The two digits of `HexByte(b)` read back as the nibbles of `b`. */
  lemma ReadHexByte(b: byte)
    ensures DigitValue(HexByte(b)[0]).Some? && DigitValue(HexByte(b)[1]).Some?
    ensures DigitValue(HexByte(b)[0]).value * 16 + DigitValue(HexByte(b)[1]).value == b
  {
    Nibbles(b / 16, b % 16);
    DigitRoundTrip(b / 16);
    DigitRoundTrip(b % 16);
  }

  /** Reading a text extended by two digits extends what is read by one byte. */
  lemma UnHexSnoc(t: seq<char>, pair: seq<char>)
    requires |pair| == 2 && UnHex(t).Some?
    requires DigitValue(pair[0]).Some? && DigitValue(pair[1]).Some?
    ensures UnHex(t + pair) == Some(UnHex(t).value + [DigitValue(pair[0]).value * 16 + DigitValue(pair[1]).value])
  {
    var s := t + pair;
    assert s[..|s| - 2] == t;
  }

  /** The hex text determines the bytes: reading it back gives them. */
  lemma {:induction false} UnHexHexString(a: seq<byte>)
    ensures UnHex(HexString(a)) == Some(a)
  {
    if a != [] {
      var init, b := a[..|a| - 1], a[|a| - 1];
      var t, pair := HexString(init), HexByte(b);
      assert HexString(a) == t + pair;
      UnHexHexString(init);
      ReadHexByte(b);
      UnHexSnoc(t, pair);
      assert init + [b] == a;
    }
  }

  /** `UnHex` accepts every even-length text of lowercase hex digits. */
  lemma {:induction false} UnHexTotal(s: seq<char>)
    requires |s| % 2 == 0
    requires forall k :: 0 <= k < |s| ==> IsHexDigit(s[k])
    ensures UnHex(s).Some?
    decreases |s|
  {
    if s != [] {
      UnHexTotal(s[..|s| - 2]);
    }
  }

  /** Conversely, every text `UnHex` accepts is the hex text of what it reads. */
  lemma {:induction false} HexStringUnHex(s: seq<char>, a: seq<byte>)
    requires UnHex(s) == Some(a)
    ensures HexString(a) == s
    decreases |s|
  {
    if s != [] {
      var prefix := UnHex(s[..|s| - 2]).value;
      var hi := DigitValue(s[|s| - 2]).value;
      var lo := DigitValue(s[|s| - 1]).value;
      HexStringUnHex(s[..|s| - 2], prefix);
      CharRoundTrip(s[|s| - 2]);
      CharRoundTrip(s[|s| - 1]);
      Nibbles(hi, lo);
      assert a == prefix + [hi * 16 + lo];
      assert a[..|a| - 1] == prefix;
      assert HexByte(hi * 16 + lo) == [s[|s| - 2], s[|s| - 1]];
      assert s == s[..|s| - 2] + [s[|s| - 2], s[|s| - 1]];
    }
  }
}
