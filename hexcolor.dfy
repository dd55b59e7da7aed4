/** parseHexToRgb: a colour setting such as "#FFD93D" or "#fd3" read as red,
    green and blue, with the cyan (0, 212, 255) as the fallback. JavaScript
    strings are sequences of UTF-16 code units, and parseInt with radix 16
    is modelled with its whitespace, sign and "0x" handling. */
module HexColor {
  import opened Geometry

  /** One UTF-16 code unit. */
  newtype CodeUnit = x: int | 0 <= x < 0x1_0000

  datatype Rgb = Rgb(r: int, g: int, b: int)

  /** The colour returned for a missing or malformed setting. */
  const Fallback: Rgb := Rgb(0, 212, 255)

  const Hash: CodeUnit := 35
  const Plus: CodeUnit := 43
  const Minus: CodeUnit := 45
  const DigitZero: CodeUnit := 48

  /** The code units parseInt skips at the start: white space and line
      terminators. */
  predicate IsSpace(c: CodeUnit) {
    c == 9 || c == 10 || c == 11 || c == 12 || c == 13 || c == 32 || c == 160 || c == 5760 ||
    (8192 <= c <= 8202) || c == 8232 || c == 8233 || c == 8239 || c == 8287 || c == 12288 || c == 65279
  }

  predicate IsHexDigit(c: CodeUnit) {
    (48 <= c <= 57) || (65 <= c <= 70) || (97 <= c <= 102)
  }

  /** The value of a hexadecimal digit, either case. */
  function DigitValue(c: CodeUnit): (d: int)
    requires IsHexDigit(c)
    ensures 0 <= d < 16
  {
    if c <= 57 then c as int - 48 else if c <= 70 then c as int - 55 else c as int - 87
  }

  /** The lower-case digit for 0 <= d < 16. */
  function Digit(d: int): (c: CodeUnit)
    requires 0 <= d < 16
    ensures IsHexDigit(c) && DigitValue(c) == d
  {
    if d < 10 then (48 + d) as CodeUnit else (87 + d) as CodeUnit
  }

  /** String.prototype.trimStart as parseInt applies it. */
  function TrimStart(s: seq<CodeUnit>): (t: seq<CodeUnit>)
    ensures |t| <= |s|
    ensures |t| > 0 ==> !IsSpace(t[0])
  {
    if |s| > 0 && IsSpace(s[0]) then TrimStart(s[1..]) else s
  }

  /** Trimming drops white space from the start and nothing else: what is
      left is a suffix of s, and every unit before it is white space. */
  lemma {:induction false} TrimStartDropsSpace(s: seq<CodeUnit>)
    ensures var t := TrimStart(s);
            t == s[|s| - |t|..] && forall i | 0 <= i < |s| - |t| :: IsSpace(s[i])
  {
    if |s| > 0 && IsSpace(s[0]) {
      var t := TrimStart(s[1..]);
      TrimStartDropsSpace(s[1..]);
      assert t == s[1..][|s| - 1 - |t|..];
      assert s[1..][|s| - 1 - |t|..] == s[|s| - |t|..];
      forall i | 0 <= i < |s| - |t|
        ensures IsSpace(s[i])
      {
        if i > 0 {
          assert s[i] == s[1..][i - 1];
        }
      }
    }
  }

  /** The number of hexadecimal digits s starts with. */
  function LeadingDigits(s: seq<CodeUnit>): (n: nat)
    ensures n <= |s| && forall i | 0 <= i < n :: IsHexDigit(s[i])
    ensures n < |s| ==> !IsHexDigit(s[n])
  {
    if |s| > 0 && IsHexDigit(s[0]) then 1 + LeadingDigits(s[1..]) else 0
  }

  /** The value of a string of hexadecimal digits, most significant first. */
  function DigitsValue(ds: seq<CodeUnit>): (v: nat)
    requires forall i | 0 <= i < |ds| :: IsHexDigit(ds[i])
  {
    if |ds| == 0 then 0 else 16 * DigitsValue(ds[..|ds| - 1]) + DigitValue(ds[|ds| - 1])
  }

  /** 16^n */
  function Pow16(n: nat): (p: nat)
    ensures p >= 1
  {
    if n == 0 then 1 else 16 * Pow16(n - 1)
  }

  lemma {:induction false} DigitsValueBound(ds: seq<CodeUnit>)
    requires forall i | 0 <= i < |ds| :: IsHexDigit(ds[i])
    ensures DigitsValue(ds) < Pow16(|ds|)
  {
    if |ds| > 0 {
      DigitsValueBound(ds[..|ds| - 1]);
    }
  }

  /** The value of the hexadecimal digits v starts with; None (NaN) when
      it starts with none. */
  function Unsigned(v: seq<CodeUnit>): (r: Option<int>)
    ensures r.None? <==> |v| == 0 || !IsHexDigit(v[0])
    ensures r.Some? ==> 0 <= r.value < Pow16(|v|)
  {
    var n := LeadingDigits(v);
    if n == 0 then None
    else
      DigitsValueBound(v[..n]);
      Pow16Mono(n, |v|);
      Some(DigitsValue(v[..n]))
  }

  /** A run of digits that ends the string or is followed by a non-digit
      is read whole. */
  lemma {:induction false} LeadingDigitsRun(ds: seq<CodeUnit>, rest: seq<CodeUnit>)
    requires forall i | 0 <= i < |ds| :: IsHexDigit(ds[i])
    requires rest == [] || !IsHexDigit(rest[0])
    ensures LeadingDigits(ds + rest) == |ds|
    decreases |ds|
  {
    if |ds| > 0 {
      assert (ds + rest)[1..] == ds[1..] + rest;
      LeadingDigitsRun(ds[1..], rest);
    } else {
      assert ds + rest == rest;
    }
  }

  /** The value parseInt reads is that of the longest run of leading
      digits; whatever follows the run is ignored. */
  lemma UnsignedRun(ds: seq<CodeUnit>, rest: seq<CodeUnit>)
    requires |ds| > 0 && forall i | 0 <= i < |ds| :: IsHexDigit(ds[i])
    requires rest == [] || !IsHexDigit(rest[0])
    ensures Unsigned(ds + rest) == Some(DigitsValue(ds))
  {
    LeadingDigitsRun(ds, rest);
    assert (ds + rest)[..|ds|] == ds;
  }

  /** Drops a leading "0x" or "0X". */
  function AfterPrefix(u: seq<CodeUnit>): (v: seq<CodeUnit>)
    ensures |v| <= |u|
  {
    if |u| >= 2 && u[0] == DigitZero && (u[1] == 120 || u[1] == 88) then u[2..] else u
  }

  function Negate(r: Option<int>): Option<int> {
    if r.Some? then Some(-r.value) else None
  }

  /** parseInt(s, 16): None for NaN. Leading white space is skipped, then a
      sign, then a "0x" or "0X" prefix; the value is that of the longest run
      of hexadecimal digits that follows, and NaN when there is none. */
  function ParseIntHex(s: seq<CodeUnit>): (r: Option<int>)
    ensures r.Some? ==> -(Pow16(|s|) as int) < r.value < Pow16(|s|)
  {
    var t := TrimStart(s);
    if |t| > 0 && t[0] == Minus then
      Pow16Mono(|AfterPrefix(t[1..])|, |s|);
      Negate(Unsigned(AfterPrefix(t[1..])))
    else if |t| > 0 && t[0] == Plus then
      Pow16Mono(|AfterPrefix(t[1..])|, |s|);
      Unsigned(AfterPrefix(t[1..]))
    else
      Pow16Mono(|AfterPrefix(t)|, |s|);
      Unsigned(AfterPrefix(t))
  }

  lemma {:induction false} Pow16Mono(m: nat, n: nat)
    requires m <= n
    ensures Pow16(m) <= Pow16(n)
    decreases n
  {
    if m < n {
      Pow16Mono(m, n - 1);
    }
  }

  /** A string that starts with a digit has no white space, sign or
      prefix to skip (the digit 0 followed by x or X aside). */
  lemma ParseFromDigit(s: seq<CodeUnit>)
    requires |s| > 0 && IsHexDigit(s[0])
    ensures ParseIntHex(s) == Unsigned(AfterPrefix(s))
  {
    assert !IsSpace(s[0]) && s[0] != Minus && s[0] != Plus;
    assert TrimStart(s) == s;
  }

  /** parseInt skips leading white space. */
  lemma ParseSkipsSpace(c: CodeUnit, s: seq<CodeUnit>)
    requires IsSpace(c)
    ensures ParseIntHex([c] + s) == ParseIntHex(s)
  {
    assert ([c] + s)[1..] == s;
  }

  /** A minus sign negates what follows it (after an optional 0x). */
  lemma ParseMinus(u: seq<CodeUnit>)
    ensures ParseIntHex([Minus] + u) == Negate(Unsigned(AfterPrefix(u)))
  {
    assert !IsSpace(Minus);
    assert TrimStart([Minus] + u) == [Minus] + u;
    assert ([Minus] + u)[1..] == u;
  }

  /** A plus sign is skipped. */
  lemma ParsePlus(u: seq<CodeUnit>)
    ensures ParseIntHex([Plus] + u) == Unsigned(AfterPrefix(u))
  {
    assert !IsSpace(Plus);
    assert TrimStart([Plus] + u) == [Plus] + u;
    assert ([Plus] + u)[1..] == u;
  }

  /** NaN when, after the white space, there is no sign and no digit. */
  lemma ParseNaN(s: seq<CodeUnit>)
    requires |s| > 0 && !IsSpace(s[0]) && s[0] != Minus && s[0] != Plus && !IsHexDigit(s[0])
    ensures ParseIntHex(s).None?
  {
    assert TrimStart(s) == s;
    assert AfterPrefix(s) == s;
  }

  /** The value of two leading digits. */
  lemma UnsignedTwoDigits(s: seq<CodeUnit>)
    requires |s| == 2 && IsHexDigit(s[0]) && IsHexDigit(s[1])
    ensures Unsigned(s) == Some(16 * DigitValue(s[0]) + DigitValue(s[1]))
  {
    assert LeadingDigits(s) == 2 by {
      assert LeadingDigits(s[1..][1..]) == 0;
    }
    assert s[..2] == s;
    assert DigitsValue(s[..1]) == DigitValue(s[0]) by {
      assert s[..1][..0] == [];
    }
  }

  /** Two hexadecimal digits parse to their value. */
  lemma ParseTwoDigits(c0: CodeUnit, c1: CodeUnit)
    requires IsHexDigit(c0) && IsHexDigit(c1)
    ensures ParseIntHex([c0, c1]) == Some(16 * DigitValue(c0) + DigitValue(c1))
  {
    var s := [c0, c1];
    ParseFromDigit(s);
    assert AfterPrefix(s) == s by {
      assert c1 != 120 && c1 != 88;
    }
    UnsignedTwoDigits(s);
  }

  /** The text channel k is read from: the digits at 2k and 2k + 1 in the
      six-digit form, digit k doubled in the three-digit form. */
  function ChannelText(h: seq<CodeUnit>, k: nat): (t: seq<CodeUnit>)
    requires |h| == 6 || |h| == 3
    requires k < 3
    ensures |t| == 2
  {
    if |h| == 6 then h[2 * k..2 * k + 2] else [h[k], h[k]]
  }

  /** Channel k, with its fallback for NaN. */
  function Channel(h: seq<CodeUnit>, k: nat, fallback: int): int
    requires |h| == 6 || |h| == 3
    requires k < 3
  {
    var parsed := ParseIntHex(ChannelText(h, k));
    if parsed.Some? then parsed.value else fallback
  }

  /** parseHexToRgb; None stands for a value that is not a string. */
  function ParseHexToRgb(hex: Option<seq<CodeUnit>>): (c: Rgb)
    ensures -255 <= c.r <= 255 && -255 <= c.g <= 255 && -255 <= c.b <= 255
    ensures hex.None? || hex.value == [] ==> c == Fallback
  {
    if hex.None? || hex.value == [] then Fallback
    else
      var h := if hex.value[0] == Hash then hex.value[1..] else hex.value;
      if |h| != 6 && |h| != 3 then Fallback
      else
        ChannelBound(h, 0, 0);
        ChannelBound(h, 1, 212);
        ChannelBound(h, 2, 255);
        Rgb(Channel(h, 0, 0), Channel(h, 1, 212), Channel(h, 2, 255))
  }

  lemma ChannelBound(h: seq<CodeUnit>, k: nat, fallback: int)
    requires |h| == 6 || |h| == 3
    requires k < 3 && 0 <= fallback <= 255
    ensures -255 <= Channel(h, k, fallback) <= 255
  {
    assert Pow16(2) == 256;
  }

  /** A channel of the six-digit form written with two digits is their
      value. */
  lemma ChannelSix(h: seq<CodeUnit>, k: nat, i: nat, fallback: int)
    requires |h| == 6 && k < 3 && i == 2 * k && IsHexDigit(h[i]) && IsHexDigit(h[i + 1])
    ensures Channel(h, k, fallback) == 16 * DigitValue(h[i]) + DigitValue(h[i + 1])
  {
    assert ChannelText(h, k) == [h[i], h[i + 1]];
    ParseTwoDigits(h[i], h[i + 1]);
  }

  /** A channel of the three-digit form written with a digit is 17 times
      its value. */
  lemma ChannelShort(h: seq<CodeUnit>, k: nat, fallback: int)
    requires |h| == 3 && k < 3 && IsHexDigit(h[k])
    ensures Channel(h, k, fallback) == 17 * DigitValue(h[k])
  {
    assert ChannelText(h, k) == [h[k], h[k]];
    ParseTwoDigits(h[k], h[k]);
  }

  /** With or without one leading '#', a three- or six-unit setting is read
      channel by channel. */
  lemma ReadChannels(hex: seq<CodeUnit>, h: seq<CodeUnit>)
    requires |h| == 6 || |h| == 3
    requires hex == [Hash] + h || (hex == h && h[0] != Hash)
    ensures ParseHexToRgb(Some(hex)) == Rgb(Channel(h, 0, 0), Channel(h, 1, 212), Channel(h, 2, 255))
  {
    if hex != h {
      assert hex[1..] == h;
    }
  }

  /** Six digits read as three two-digit channels. */
  lemma SixChannels(h: seq<CodeUnit>)
    requires |h| == 6 && forall i | 0 <= i < 6 :: IsHexDigit(h[i])
    ensures Channel(h, 0, 0) == 16 * DigitValue(h[0]) + DigitValue(h[1])
    ensures Channel(h, 1, 212) == 16 * DigitValue(h[2]) + DigitValue(h[3])
    ensures Channel(h, 2, 255) == 16 * DigitValue(h[4]) + DigitValue(h[5])
  {
    ChannelSix(h, 0, 0, 0);
    assert Channel(h, 0, 0) == 16 * DigitValue(h[0]) + DigitValue(h[1]);
    ChannelSix(h, 1, 2, 212);
    assert Channel(h, 1, 212) == 16 * DigitValue(h[2]) + DigitValue(h[3]);
    ChannelSix(h, 2, 4, 255);
  }

  /** The "#rrggbb" text of a colour, lower-case, as a colour picker
      writes it. */
  function Format6(c: Rgb): (s: seq<CodeUnit>)
    requires 0 <= c.r < 256 && 0 <= c.g < 256 && 0 <= c.b < 256
    ensures |s| == 7 && s[0] == Hash
  {
    [Hash, Digit(c.r / 16), Digit(c.r % 16), Digit(c.g / 16), Digit(c.g % 16), Digit(c.b / 16), Digit(c.b % 16)]
  }

  /** A byte is sixteen times its high digit plus its low digit. */
  lemma ByteDigits(v: int)
    requires 0 <= v < 256
    ensures IsHexDigit(Digit(v / 16)) && IsHexDigit(Digit(v % 16))
    ensures 16 * DigitValue(Digit(v / 16)) + DigitValue(Digit(v % 16)) == v
  {
  }

  /** Reading back "#rrggbb" gives the colour. */
  lemma ParseFormat6(c: Rgb)
    requires 0 <= c.r < 256 && 0 <= c.g < 256 && 0 <= c.b < 256
    ensures ParseHexToRgb(Some(Format6(c))) == c
  {
    var hr, lr := Digit(c.r / 16), Digit(c.r % 16);
    var hg, lg := Digit(c.g / 16), Digit(c.g % 16);
    var hb, lb := Digit(c.b / 16), Digit(c.b % 16);
    var h := [hr, lr, hg, lg, hb, lb];
    assert Format6(c) == [Hash] + h;
    ByteDigits(c.r);
    ByteDigits(c.g);
    ByteDigits(c.b);
    assert h[0] == hr && h[1] == lr && h[2] == hg && h[3] == lg && h[4] == hb && h[5] == lb;
    ParseSixDigits(h);
  }

  /** The short form "#rgb" reads each digit doubled: 17 times its value. */
  lemma ParseShortForm(d0: CodeUnit, d1: CodeUnit, d2: CodeUnit)
    requires IsHexDigit(d0) && IsHexDigit(d1) && IsHexDigit(d2)
    ensures ParseHexToRgb(Some([Hash, d0, d1, d2])) == Rgb(17 * DigitValue(d0), 17 * DigitValue(d1), 17 * DigitValue(d2))
  {
    var h := [d0, d1, d2];
    assert [Hash, d0, d1, d2] == [Hash] + h;
    ReadChannels([Hash, d0, d1, d2], h);
    ChannelShort(h, 0, 0);
    ChannelShort(h, 1, 212);
    ChannelShort(h, 2, 255);
  }

  /** A setting whose length, after one leading '#' is dropped, is neither
      3 nor 6 gives the fallback colour. */
  lemma WrongLengthFallback(hex: seq<CodeUnit>)
    requires var h := if |hex| > 0 && hex[0] == Hash then hex[1..] else hex; |h| != 3 && |h| != 6
    ensures ParseHexToRgb(Some(hex)) == Fallback
  {
  }

  /** A sign is read inside a channel: "-f0000" has red -15 and green and
      blue 0. */
  lemma NegativeRed()
    ensures ParseHexToRgb(Some([Minus, 102, 48, 48, 48, 48])) == Rgb(-15, 0, 0)
  {
    var h: seq<CodeUnit> := [Minus, 102, 48, 48, 48, 48];
    ReadChannels(h, h);
    assert ChannelText(h, 0) == [Minus] + [102];
    ParseMinus([102]);
    UnsignedRun([102], []);
    assert [102 as CodeUnit] + [] == [102];
    assert DigitsValue([102]) == 15 by {
      assert [102 as CodeUnit][..0] == [];
    }
    ChannelSix(h, 1, 2, 212);
    ChannelSix(h, 2, 4, 255);
  }

  /** Six hexadecimal digits, with or without '#', give channels in
      [0, 255], each the value of its digit pair. */
  lemma ParseSixDigits(h: seq<CodeUnit>)
    requires |h| == 6 && forall i | 0 <= i < 6 :: IsHexDigit(h[i])
    ensures ParseHexToRgb(Some(h)) == ParseHexToRgb(Some([Hash] + h))
    ensures var c := ParseHexToRgb(Some(h));
            c.r == 16 * DigitValue(h[0]) + DigitValue(h[1]) &&
            c.g == 16 * DigitValue(h[2]) + DigitValue(h[3]) &&
            c.b == 16 * DigitValue(h[4]) + DigitValue(h[5]) &&
            0 <= c.r <= 255 && 0 <= c.g <= 255 && 0 <= c.b <= 255
  {
    assert IsHexDigit(h[0]);
    ReadChannels(h, h);
    ReadChannels([Hash] + h, h);
    SixChannels(h);
  }
}
