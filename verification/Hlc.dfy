/**
 * The hybrid logical timestamp: 48 bits of milliseconds above a 16-bit counter in one u64
 * (Kulkarni and Demirbas, 2014), with its 16-digit hexadecimal text.
 */
module Hlc {
  import opened Base
  import opened Strings

  const LOGICAL_MAX: u16 := 0xFFFF
  const PHYSICAL_LIMIT: nat := 0x1_0000_0000_0000
  const MAX_DRIFT_MS: nat := 60_000

  /** The shift discards physical bits above 48, as a u64 shift does. */
  function FromParts(physicalMs: u64, logical: u16): u64 {
    (physicalMs * 0x1_0000) % 0x1_0000_0000_0000_0000 + logical
  }

  function PhysicalMs(h: u64): (p: u64)
    ensures p < PHYSICAL_LIMIT
  {
    h / 0x1_0000
  }

  function Logical(h: u64): u16 {
    h % 0x1_0000
  }

  lemma FromPartsTruncates(physicalMs: u64, logical: u16)
    ensures PhysicalMs(FromParts(physicalMs, logical)) == physicalMs % PHYSICAL_LIMIT
    ensures Logical(FromParts(physicalMs, logical)) == logical
  {
    var q, r := physicalMs / PHYSICAL_LIMIT, physicalMs % PHYSICAL_LIMIT;
    assert physicalMs * 0x1_0000 == q * 0x1_0000_0000_0000_0000 + r * 0x1_0000;
  }

  lemma FromPartsFits(physicalMs: u64, logical: u16)
    requires physicalMs < PHYSICAL_LIMIT
    ensures FromParts(physicalMs, logical) == physicalMs * 0x1_0000 + logical
    ensures PhysicalMs(FromParts(physicalMs, logical)) == physicalMs
    ensures Logical(FromParts(physicalMs, logical)) == logical
  {
  }

  lemma PackedParts(h: u64)
    ensures h == PhysicalMs(h) * 0x1_0000 + Logical(h)
    ensures FromParts(PhysicalMs(h), Logical(h)) == h
  {
  }

  /** Packing loses nothing exactly when the physical part fits its 48 bits. */
  lemma PackingRoundTrips(physicalMs: u64, logical: u16)
    ensures (PhysicalMs(FromParts(physicalMs, logical)) == physicalMs
             && Logical(FromParts(physicalMs, logical)) == logical)
       <==> physicalMs < PHYSICAL_LIMIT
  {
    FromPartsTruncates(physicalMs, logical);
  }

  /** Comparing the packed integers compares the physical part first, then the counter. */
  lemma IntegerOrderIsPairOrder(a: u64, b: u64)
    ensures CompareInt(a, b) ==
            if PhysicalMs(a) != PhysicalMs(b) then CompareInt(PhysicalMs(a), PhysicalMs(b))
            else CompareInt(Logical(a), Logical(b))
  {
    PackedParts(a);
    PackedParts(b);
  }

  // ---- hexadecimal text -------------------------------------------------------------------

  function HexDigit(d: nat): char
    requires d < 16
  {
    "0123456789abcdef"[d]
  }

  function HexValue(c: char): Option<nat> {
    if '0' <= c <= '9' then Some(c as int - '0' as int)
    else if 'a' <= c <= 'f' then Some(c as int - 'a' as int + 10)
    else if 'A' <= c <= 'F' then Some(c as int - 'A' as int + 10)
    else None
  }

  /** The low `width` hexadecimal digits of `n`, most significant first. */
  function Hex(n: nat, width: nat): (s: string)
    ensures |s| == width
    ensures forall i :: 0 <= i < width ==> HexValue(s[i]).Some? && s[i] != 'x'
  {
    if width == 0 then "" else Hex(n / 16, width - 1) + [HexDigit(n % 16)]
  }

  /** `{:016x}` */
  function Display(h: u64): string {
    Hex(h, 16)
  }

  /** `trim_start_matches("0x")`, which removes every leading repetition. */
  function TrimPrefix(s: string): string {
    if |s| >= 2 && s[0] == '0' && s[1] == 'x' then TrimPrefix(s[2..]) else s
  }

  function FromRadix16(s: string): Option<nat> {
    if s == "" then Some(0)
    else
      var high := FromRadix16(s[..|s| - 1]);
      var low := HexValue(s[|s| - 1]);
      if high.Some? && low.Some? then Some(16 * high.value + low.value) else None
  }

  /** `u64::from_str_radix(_, 16)`: one optional plus sign, at least one digit, no overflow. */
  function Parse(text: string): Option<u64> {
    var s := TrimPrefix(text);
    var digits := if |s| > 1 && s[0] == '+' then s[1..] else s;
    var n := FromRadix16(digits);
    if digits == "" || n.None? || n.value >= 0x1_0000_0000_0000_0000 then None else Some(n.value)
  }

  function Power16(width: nat): (p: nat)
    ensures p > 0
  {
    if width == 0 then 1 else 16 * Power16(width - 1)
  }

  lemma HexDigitValue(d: nat)
    requires d < 16
    ensures HexValue(HexDigit(d)) == Some(d)
  {
    var digits := "0123456789abcdef";
    assert forall i :: 0 <= i < 10 ==> digits[i] as int == '0' as int + i;
    assert forall i :: 10 <= i < 16 ==> digits[i] as int == 'a' as int + i - 10;
  }

  lemma {:induction false} HexParses(n: nat, width: nat)
    requires n < Power16(width)
    ensures FromRadix16(Hex(n, width)) == Some(n)
  {
    if width > 0 {
      var high, low := n / 16, n % 16;
      HexParses(high, width - 1);
      var s := Hex(n, width);
      assert s[..|s| - 1] == Hex(high, width - 1) && s[|s| - 1] == HexDigit(low);
      HexDigitValue(low);
      assert FromRadix16(s) == Some(16 * high + low);
    }
  }

  lemma Power16Of16()
    ensures Power16(16) == 0x1_0000_0000_0000_0000
  {
    assert Power16(4) == 0x1_0000;
    assert Power16(8) == 0x1_0000_0000;
    assert Power16(12) == 0x1_0000_0000_0000;
  }

  /** Printing and parsing back gives the same timestamp. */
  lemma DisplayParses(h: u64)
    ensures Parse(Display(h)) == Some(h)
  {
    Power16Of16();
    HexParses(h, 16);
    assert Display(h)[1] != 'x';
    assert HexValue(Display(h)[0]).Some?;
  }

  /** A digit or a letter from `a` to `f`, a capital or not. */
  predicate IsHexDigit(c: char) {
    '0' <= c <= '9' || 'a' <= c <= 'f' || 'A' <= c <= 'F'
  }

  /** Only digits are read, and any number of them. */
  lemma {:induction false} RadixReads(s: string)
    ensures FromRadix16(s).Some? <==> forall i :: 0 <= i < |s| ==> IsHexDigit(s[i])
  {
    if s != "" {
      var front := s[..|s| - 1];
      RadixReads(front);
      assert forall i :: 0 <= i < |front| ==> front[i] == s[i];
    }
  }

  /** Digits in any casing are the number they are in another. */
  lemma {:induction false} RadixIgnoresCase(s: string, t: string)
    requires |s| == |t| && forall i :: 0 <= i < |s| ==> HexValue(s[i]) == HexValue(t[i])
    ensures FromRadix16(s) == FromRadix16(t)
  {
    if s != "" {
      RadixIgnoresCase(s[..|s| - 1], t[..|t| - 1]);
    }
  }

  /** The same characters, some letters perhaps as capitals. */
  predicate SomeCapitals(text: string, s: string) {
    |text| == |s| && forall i :: 0 <= i < |s| ==>
      text[i] == s[i] || ('a' <= s[i] <= 'f' && text[i] as int == s[i] as int - 32)
  }

  /** The displayed text parses back with any of its letters as capitals. */
  lemma AnyCasingParses(h: u64, text: string)
    requires SomeCapitals(text, Display(h))
    ensures Parse(text) == Some(h)
  {
    Power16Of16();
    HexParses(h, 16);
    RadixIgnoresCase(text, Display(h));
    assert HexValue(text[0]).Some? && HexValue(text[1]).Some?;
  }

  /** One plus sign may stand before what does not start with one, and `0x` before any text. */
  lemma PrefixesParse(text: string)
    ensures Parse("0x" + text) == Parse(text)
    ensures text != "" && IsHexDigit(text[0]) && TrimPrefix(text) == text ==> Parse("+" + text) == Parse(text)
  {
    assert ("0x" + text)[2..] == text;
    assert ("+" + text)[1..] == text;
  }

  /** A text that parses has a digit, and nothing but digits after its prefix and its sign. */
  lemma ParsedTextIsHex(text: string)
    requires Parse(text).Some?
    ensures var s := TrimPrefix(text);
            && s != "" && (forall i :: 0 < i < |s| ==> IsHexDigit(s[i]))
            && (IsHexDigit(s[0]) || (s[0] == '+' && |s| > 1))
  {
    var s := TrimPrefix(text);
    var digits := if |s| > 1 && s[0] == '+' then s[1..] else s;
    RadixReads(digits);
    forall i | 0 < i < |s| ensures IsHexDigit(s[i]) {
      assert digits == s[1..] ==> digits[i - 1] == s[i];
    }
  }

  lemma HexDigitOrder(a: nat, b: nat)
    requires a < 16 && b < 16
    ensures CompareInt(HexDigit(a) as int, HexDigit(b) as int) == CompareInt(a, b)
  {
    var digits := "0123456789abcdef";
    assert forall d :: 0 <= d < 10 ==> digits[d] as int == '0' as int + d;
    assert forall d :: 10 <= d < 16 ==> digits[d] as int == 'a' as int + d - 10;
  }

  lemma {:induction false} HexOrder(a: nat, b: nat, width: nat)
    requires a < Power16(width) && b < Power16(width)
    ensures CompareStr(Hex(a, width), Hex(b, width)) == CompareInt(a, b)
  {
    if width > 0 {
      HexOrder(a / 16, b / 16, width - 1);
      HexDigitOrder(a % 16, b % 16);
      CompareStrEqual(Hex(a / 16, width - 1), Hex(b / 16, width - 1));
      CompareStrLast(Hex(a / 16, width - 1), Hex(b / 16, width - 1), HexDigit(a % 16), HexDigit(b % 16));
    }
  }

  /** The displayed texts sort as the timestamps do. */
  lemma DisplayOrder(a: u64, b: u64)
    ensures CompareStr(Display(a), Display(b)) == CompareInt(a, b)
  {
    Power16Of16();
    HexOrder(a, b, 16);
  }
}
