/**
 * 128-bit identifiers (`System.Guid`) and their default text form.
 *
 * A Guid is modelled by the 128-bit number that its "D" text form spells
 * out digit by digit, so that `Guid.ToString()` is a plain base-16 rendering.
 */
module Guids {
  import opened Wrappers

  /** 16 to the power n. */
  function Pow16(n: nat): (p: nat)
    ensures p >= 1
  {
    if n == 0 then 1 else 16 * Pow16(n - 1)
  }

  lemma {:induction false} Pow16Add(a: nat, b: nat)
    ensures Pow16(a + b) == Pow16(a) * Pow16(b)
    decreases a
  {
    if a > 0 {
      Pow16Add(a - 1, b);
    }
  }

  /** 16^32 is the number of distinct Guids. */
  lemma Pow16Bound()
    ensures Pow16(32) == 0x1_0000_0000_0000_0000_0000_0000_0000_0000
  {
    assert Pow16(2) == 256;
    Pow16Add(2, 2);
    Pow16Add(4, 4);
    Pow16Add(8, 8);
    Pow16Add(16, 16);
  }

  newtype Guid = x: int | 0 <= x < 0x1_0000_0000_0000_0000_0000_0000_0000_0000

  /** `Guid.Empty`, the default value of the type. */
  const EmptyGuid: Guid := 0

  function HexChar(d: nat): char
    requires d < 16
  {
    "0123456789abcdef"[d]
  }

  function HexValue(c: char): nat {
    if '0' <= c <= '9' then (c as int - '0' as int) as nat
    else if 'a' <= c <= 'f' then (c as int - 'a' as int + 10) as nat
    else 0
  }

  /** The lowest n hexadecimal digits of v, most significant first. */
  function Hex(v: nat, n: nat): (s: string)
    ensures |s| == n
  {
    if n == 0 then [] else Hex(v / 16, n - 1) + [HexChar(v % 16)]
  }

  function ParseHex(s: string): nat
    decreases |s|
  {
    if s == [] then 0 else ParseHex(s[..|s| - 1]) * 16 + HexValue(s[|s| - 1])
  }

  lemma {:induction false} HexRoundTrip(v: nat, n: nat)
    requires v < Pow16(n)
    ensures ParseHex(Hex(v, n)) == v
  {
    if n > 0 {
      var s := Hex(v, n);
      assert s[..|s| - 1] == Hex(v / 16, n - 1);
      assert v / 16 < Pow16(n - 1);
      HexRoundTrip(v / 16, n - 1);
      assert HexValue(HexChar(v % 16)) == v % 16;
    }
  }

  /**
   * `Guid.ToString()`: 32 lower-case hexadecimal digits in groups of
   * 8-4-4-4-12 separated by dashes.
   */
  function GuidText(g: Guid): (s: string)
    ensures |s| == 36
  {
    var d := Hex(g as nat, 32);
    d[..8] + "-" + d[8..12] + "-" + d[12..16] + "-" + d[16..20] + "-" + d[20..]
  }

  /** The 32 digits of a "D" form text, without its dashes. */
  function GuidDigits(s: string): string
    requires |s| == 36
  {
    s[..8] + s[9..13] + s[14..18] + s[19..23] + s[24..]
  }

  /** `Guid.Parse` restricted to the "D" form that GuidText produces. */
  function ParseGuid(s: string): Option<Guid> {
    if |s| == 36 && s[8] == '-' && s[13] == '-' && s[18] == '-' && s[23] == '-' then
      var v := ParseHex(GuidDigits(s));
      if v < 0x1_0000_0000_0000_0000_0000_0000_0000_0000 then Some(v as Guid) else None
    else None
  }

  /** The text form of a Guid parses back to that Guid. */
  lemma GuidTextRoundTrip(g: Guid)
    ensures ParseGuid(GuidText(g)) == Some(g)
  {
    var s := GuidText(g);
    GuidTextDigits(g);
    assert s[8] == '-' && s[13] == '-' && s[18] == '-' && s[23] == '-';
    Pow16Bound();
    HexRoundTrip(g as nat, 32);
  }

  /** Removing the dashes from the text form gives back the 32 digits. */
  lemma GuidTextDigits(g: Guid)
    ensures GuidDigits(GuidText(g)) == Hex(g as nat, 32)
  {
    var d := Hex(g as nat, 32);
    var s := GuidText(g);
    assert s[..8] == d[..8] && s[9..13] == d[8..12] && s[14..18] == d[12..16];
    assert s[19..23] == d[16..20] && s[24..] == d[20..];
    assert d == d[..8] + d[8..12] + d[12..16] + d[16..20] + d[20..];
  }

  /** Two Guids have the same text form exactly when they are equal. */
  lemma GuidTextInjective(a: Guid, b: Guid)
    ensures GuidText(a) == GuidText(b) <==> a == b
  {
    GuidTextRoundTrip(a);
    GuidTextRoundTrip(b);
  }
}
