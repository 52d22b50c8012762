/**
 * Octets and the few ASCII constants the wire codec looks at.
 * Rust's `u64` becomes an unbounded `nat` checked against `U64_MAX`
 * wherever the source checks for overflow.
 */
module Bytes {

  type Byte = b: int | 0 <= b < 256

  const U64_MAX: nat := 0xFFFF_FFFF_FFFF_FFFF

  const HTAB: Byte := 9
  const LF: Byte := 10
  const CR: Byte := 13
  const SP: Byte := 32
  const SEMICOLON: Byte := 59
  const CRLF: seq<Byte> := [CR, LF]

  // ASCII codes of the digit and letter ranges.
  const DIGIT_0: Byte := 48
  const DIGIT_9: Byte := 57
  const UPPER_A: Byte := 65
  const UPPER_F: Byte := 70
  const UPPER_Z: Byte := 90
  const LOWER_A: Byte := 97
  const LOWER_F: Byte := 102

  predicate IsDecDigit(b: Byte)
  {
    DIGIT_0 <= b <= DIGIT_9
  }

  /** `0-9`, `a-f` and `A-F`. */
  predicate IsHexDigit(b: Byte)
  {
    IsDecDigit(b) || LOWER_A <= b <= LOWER_F || UPPER_A <= b <= UPPER_F
  }

  function HexValue(b: Byte): (v: nat)
    requires IsHexDigit(b)
    ensures v < 16
  {
    if IsDecDigit(b) then b - DIGIT_0
    else if LOWER_A <= b <= LOWER_F then b - LOWER_A + 10
    else b - UPPER_A + 10
  }

  /** The digit `{:X}` prints for a value below 16: `0-9` then upper-case `A-F`. */
  function UpperHexDigit(v: nat): (b: Byte)
    requires v < 16
    ensures IsHexDigit(b) && HexValue(b) == v
  {
    if v < 10 then DIGIT_0 + v else UPPER_A + (v - 10)
  }

  /** The decimal digit printed for a value below 10. */
  function DecDigit(v: nat): (b: Byte)
    requires v < 10
    ensures IsDecDigit(b) && b - DIGIT_0 == v
  {
    DIGIT_0 + v
  }

  /** ASCII lower-casing of one byte. */
  function ToLower(b: Byte): (r: Byte)
    ensures UPPER_A <= b <= UPPER_Z ==> r == b + 32
    ensures !(UPPER_A <= b <= UPPER_Z) ==> r == b
  {
    if UPPER_A <= b <= UPPER_Z then b + 32 else b
  }

  function LowerCase(s: seq<Byte>): (r: seq<Byte>)
    ensures |r| == |s|
    ensures forall i | 0 <= i < |s| :: r[i] == ToLower(s[i])
  {
    if s == [] then [] else [ToLower(s[0])] + LowerCase(s[1..])
  }

  /** Equality up to ASCII case, as `eq_ignore_ascii_case`. */
  predicate EqualsIgnoreCase(a: seq<Byte>, b: seq<Byte>)
  {
    |a| == |b| && forall i | 0 <= i < |a| :: ToLower(a[i]) == ToLower(b[i])
  }

  predicate StartsWith(s: seq<Byte>, prefix: seq<Byte>)
  {
    |prefix| <= |s| && s[..|prefix|] == prefix
  }

  /** Whether `needle` occurs somewhere in `s`, as `str::contains`. */
  predicate Contains(s: seq<Byte>, needle: seq<Byte>)
    decreases |s|
  {
    StartsWith(s, needle) || (s != [] && Contains(s[1..], needle))
  }

  // Numerals: digits read left to right, each one multiplying the value so far by the base.

  predicate AllHex(ds: seq<Byte>)
  {
    forall i | 0 <= i < |ds| :: IsHexDigit(ds[i])
  }

  predicate AllDec(ds: seq<Byte>)
  {
    forall i | 0 <= i < |ds| :: IsDecDigit(ds[i])
  }

  /** The value of hex digits `ds` read after a prefix worth `acc`. */
  function HexFold(acc: nat, ds: seq<Byte>): nat
    requires AllHex(ds)
    decreases |ds|
  {
    if ds == [] then acc else HexFold(acc * 16 + HexValue(ds[0]), ds[1..])
  }

  /** The value of decimal digits `ds` read after a prefix worth `acc`. */
  function DecFold(acc: nat, ds: seq<Byte>): nat
    requires AllDec(ds)
    decreases |ds|
  {
    if ds == [] then acc else DecFold(acc * 10 + (ds[0] - DIGIT_0), ds[1..])
  }

  lemma {:induction false} HexFoldGrows(acc: nat, ds: seq<Byte>)
    requires AllHex(ds)
    ensures HexFold(acc, ds) >= acc
    decreases |ds|
  {
    if ds != [] {
      HexFoldGrows(acc * 16 + HexValue(ds[0]), ds[1..]);
    }
  }

  lemma {:induction false} DecFoldGrows(acc: nat, ds: seq<Byte>)
    requires AllDec(ds)
    ensures DecFold(acc, ds) >= acc
    decreases |ds|
  {
    if ds != [] {
      DecFoldGrows(acc * 10 + (ds[0] - DIGIT_0), ds[1..]);
    }
  }

  /** Appending a digit multiplies the value by 16 and adds the digit. */
  lemma {:induction false} HexFoldSnoc(acc: nat, ds: seq<Byte>, d: Byte)
    requires AllHex(ds) && IsHexDigit(d)
    ensures AllHex(ds + [d]) && HexFold(acc, ds + [d]) == HexFold(acc, ds) * 16 + HexValue(d)
    decreases |ds|
  {
    assert AllHex(ds + [d]) by {
      forall i | 0 <= i < |ds + [d]| ensures IsHexDigit((ds + [d])[i]) {
        if i < |ds| { assert (ds + [d])[i] == ds[i]; }
      }
    }
    if ds == [] {
      assert ds + [d] == [d];
      assert [d][1..] == [];
    } else {
      assert (ds + [d])[1..] == ds[1..] + [d];
      HexFoldSnoc(acc * 16 + HexValue(ds[0]), ds[1..], d);
    }
  }

  /** Appending a digit multiplies the value by 10 and adds the digit. */
  lemma {:induction false} DecFoldSnoc(acc: nat, ds: seq<Byte>, d: Byte)
    requires AllDec(ds) && IsDecDigit(d)
    ensures AllDec(ds + [d]) && DecFold(acc, ds + [d]) == DecFold(acc, ds) * 10 + (d - DIGIT_0)
    decreases |ds|
  {
    assert AllDec(ds + [d]) by {
      forall i | 0 <= i < |ds + [d]| ensures IsDecDigit((ds + [d])[i]) {
        if i < |ds| { assert (ds + [d])[i] == ds[i]; }
      }
    }
    if ds == [] {
      assert ds + [d] == [d];
      assert [d][1..] == [];
    } else {
      assert (ds + [d])[1..] == ds[1..] + [d];
      DecFoldSnoc(acc * 10 + (ds[0] - DIGIT_0), ds[1..], d);
    }
  }

  /**
   * A value written in upper-case hex without leading zeros, as Rust's `{:X}`
   * formats an integer.
   */
  function UpperHex(n: nat): (r: seq<Byte>)
    ensures r != [] && AllHex(r) && HexFold(0, r) == n
    ensures r[0] == DIGIT_0 <==> n == 0
    ensures n == 0 ==> r == [DIGIT_0]
    decreases n
  {
    if n < 16 then [UpperHexDigit(n)]
    else
      var p := UpperHex(n / 16);
      HexFoldSnoc(0, p, UpperHexDigit(n % 16));
      p + [UpperHexDigit(n % 16)]
  }

  /** A value written in decimal without leading zeros, as Rust's `Display` formats an integer. */
  function Decimal(n: nat): (r: seq<Byte>)
    ensures r != [] && AllDec(r) && DecFold(0, r) == n
    ensures r[0] == DIGIT_0 <==> n == 0
    ensures n == 0 ==> r == [DIGIT_0]
    decreases n
  {
    if n < 10 then [DecDigit(n)]
    else
      var p := Decimal(n / 10);
      DecFoldSnoc(0, p, DecDigit(n % 10));
      p + [DecDigit(n % 10)]
  }

  /** `u8::is_ascii_whitespace`, the set `trim_ascii` strips: space, tab, LF, form feed, CR. */
  predicate IsAsciiWhitespace(b: Byte)
  {
    b == SP || b == HTAB || b == LF || b == 12 || b == CR
  }

  /** The ASCII characters `char::is_whitespace` accepts, the set `str::trim` strips from ASCII text: also vertical tab. */
  predicate IsTrimWhitespace(b: Byte)
  {
    b == SP || (HTAB <= b <= CR)
  }

  /** The text of ASCII bytes. */
  function Text(b: seq<Byte>): (s: string)
    ensures |s| == |b|
    ensures forall i | 0 <= i < |b| :: s[i] as int == b[i]
  {
    if b == [] then [] else [b[0] as char] + Text(b[1..])
  }
}
