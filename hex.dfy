/**
 * Hexadecimal text as read by Python's `int(text, 16)` and as printed by a
 * symbol-table lister (fixed-width, zero-padded, lower-case).
 */
module Hex {
  import opened Wrappers

  predicate IsHexDigit(c: char)
  {
    '0' <= c <= '9' || 'a' <= c <= 'f' || 'A' <= c <= 'F'
  }

  predicate AllHexDigits(s: string)
  {
    forall i :: 0 <= i < |s| ==> IsHexDigit(s[i])
  }

  /** The value of one digit; upper and lower case letters are worth the same. */
  function DigitValue(c: char): (d: nat)
    requires IsHexDigit(c)
    ensures d < 16
    ensures ('0' <= c <= '9') == (d < 10)
  {
    if '0' <= c <= '9' then c as int - '0' as int
    else if 'a' <= c <= 'f' then c as int - 'a' as int + 10
    else c as int - 'A' as int + 10
  }

  /** The lower-case digit for `d`. */
  function DigitChar(d: nat): (c: char)
    requires d < 16
    ensures IsHexDigit(c) && DigitValue(c) == d
    ensures !('A' <= c <= 'F')
  {
    if d < 10 then (d + '0' as int) as char else (d - 10 + 'a' as int) as char
  }

  function Pow16(n: nat): (p: nat)
    ensures p > 0
  {
    if n == 0 then 1 else 16 * Pow16(n - 1)
  }

  /** The number a string of hex digits denotes, most significant digit first. */
  function HexValue(s: string): (v: nat)
    requires AllHexDigits(s)
    ensures v < Pow16(|s|)
    decreases |s|
  {
    if s == [] then 0
    else
      assert AllHexDigits(s[..|s| - 1]);
      HexValue(s[..|s| - 1]) * 16 + DigitValue(s[|s| - 1])
  }

  /**
   * `int(s, 16)` on a plain digit string: it succeeds exactly when `s` is a
   * non-empty string of hex digits, and then yields a number below 16^|s|.
   */
  function ParseHex(s: string): (r: Option<nat>)
    ensures r.Some? <==> s != [] && AllHexDigits(s)
    ensures r.Some? ==> r.value == HexValue(s) && r.value < Pow16(|s|)
  {
    if s != [] && AllHexDigits(s) then Some(HexValue(s)) else None
  }

  /** The `width` low-order hex digits of `v`, zero-padded, as a symbol lister prints an address. */
  function FormatHex(v: nat, width: nat): (s: string)
    ensures |s| == width && AllHexDigits(s)
  {
    if width == 0 then [] else FormatHex(v / 16, width - 1) + [DigitChar(v % 16)]
  }

  /** Reading back a printed address gives the address. */
  lemma {:induction false} HexValueOfFormat(v: nat, width: nat)
    requires v < Pow16(width)
    ensures HexValue(FormatHex(v, width)) == v
  {
    if width > 0 {
      var s := FormatHex(v, width);
      assert s[..|s| - 1] == FormatHex(v / 16, width - 1);
      HexValueOfFormat(v / 16, width - 1);
    }
  }

  /** `int(FormatHex(v, w), 16) == v` for every address that fits in `w` digits. */
  lemma ParseFormatRoundTrip(v: nat, width: nat)
    requires width > 0 && v < Pow16(width)
    ensures ParseHex(FormatHex(v, width)) == Some(v)
  {
    HexValueOfFormat(v, width);
  }

  /** Leading zeros do not change the value read. */
  lemma {:induction false} LeadingZero(s: string)
    requires AllHexDigits(s)
    ensures AllHexDigits("0" + s) && HexValue("0" + s) == HexValue(s)
  {
    var z := "0" + s;
    assert AllHexDigits(z);
    if s != [] {
      assert z[..|z| - 1] == "0" + s[..|s| - 1];
      LeadingZero(s[..|s| - 1]);
    }
  }

  /** Appending a digit shifts the value one hex place and adds the digit. */
  lemma HexValueSnoc(s: string, c: char)
    requires AllHexDigits(s) && IsHexDigit(c)
    ensures AllHexDigits(s + [c])
    ensures HexValue(s + [c]) == HexValue(s) * 16 + DigitValue(c)
  {
    assert (s + [c])[..|s|] == s;
  }

  /** The value of an 8-digit address, the width a 32-bit symbol listing prints. */
  lemma HexValueOf8(t: string)
    requires |t| == 8 && AllHexDigits(t)
    ensures HexValue(t) ==
      DigitValue(t[0]) * 0x1000_0000 + DigitValue(t[1]) * 0x100_0000 + DigitValue(t[2]) * 0x10_0000
      + DigitValue(t[3]) * 0x1_0000 + DigitValue(t[4]) * 0x1000 + DigitValue(t[5]) * 0x100
      + DigitValue(t[6]) * 0x10 + DigitValue(t[7])
  {
    assert t[..1] == t[..0] + [t[0]];
    HexValueSnoc(t[..0], t[0]);
    assert t[..2] == t[..1] + [t[1]];
    HexValueSnoc(t[..1], t[1]);
    assert t[..3] == t[..2] + [t[2]];
    HexValueSnoc(t[..2], t[2]);
    assert t[..4] == t[..3] + [t[3]];
    HexValueSnoc(t[..3], t[3]);
    assert t[..5] == t[..4] + [t[4]];
    HexValueSnoc(t[..4], t[4]);
    assert t[..6] == t[..5] + [t[5]];
    HexValueSnoc(t[..5], t[5]);
    assert t[..7] == t[..6] + [t[6]];
    HexValueSnoc(t[..6], t[6]);
    assert t[..8] == t[..7] + [t[7]];
    HexValueSnoc(t[..7], t[7]);
    assert t[..8] == t;
  }

  /** The address in the sample symbol listing line `80000004 T _bin_file_size`. */
  lemma ParseSampleAddress()
    ensures ParseHex("80000004") == Some(0x80000004)
  {
    HexValueOf8("80000004");
  }

  /** The base load address used by `RejectOffsetAtEnd`, `PatchAt0x10` and `OverrunRun`, `08000000`. */
  lemma ParseBaseAddress()
    ensures ParseHex("08000000") == Some(0x08000000)
  {
    HexValueOf8("08000000");
  }

  /** The symbol address `08000400`, 0x400 past the base. */
  lemma ParseAddressAtEnd()
    ensures ParseHex("08000400") == Some(0x08000400)
  {
    HexValueOf8("08000400");
  }

  /** The symbol address `08000010`, 0x10 past the base. */
  lemma ParseAddressAt0x10()
    ensures ParseHex("08000010") == Some(0x08000010)
  {
    HexValueOf8("08000010");
  }

  /** The symbol address `080003fd`, three bytes before the end of a 1024-byte image at the base. */
  lemma ParseAddressOverrun()
    ensures ParseHex("080003fd") == Some(0x080003fd)
  {
    HexValueOf8("080003fd");
  }
}
