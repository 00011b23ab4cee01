/**
 * `adjustBrightness` of TetrisComponent, used to shade the faces of a brick:
 * a `#rrggbb` colour has the same amount added to each channel, each channel
 * clamped to 0 .. 255, and the result written back as `#rrggbb`.
 */
module Brightness {

  predicate IsHexDigit(c: char) {
    '0' <= c <= '9' || 'a' <= c <= 'f' || 'A' <= c <= 'F'
  }

  predicate AllHexDigits(s: string) {
    forall i :: 0 <= i < |s| ==> IsHexDigit(s[i])
  }

  function DigitValue(c: char): (v: nat)
    requires IsHexDigit(c)
    ensures v < 16
  {
    if '0' <= c <= '9' then c as int - '0' as int
    else if 'a' <= c <= 'f' then c as int - 'a' as int + 10
    else c as int - 'A' as int + 10
  }

  /** The lower-case digit `toString(16)` writes. */
  function HexDigit(d: nat): (c: char)
    requires d < 16
    ensures IsHexDigit(c) && DigitValue(c) == d
  {
    "0123456789abcdef"[d]
  }

  /** `parseInt(s, 16)` of a string of hex digits. */
  function ParseHex(s: string): nat
    requires AllHexDigits(s)
  {
    if s == [] then 0 else ParseHex(s[..|s| - 1]) * 16 + DigitValue(s[|s| - 1])
  }

  /** `n.toString(16)`: the shortest base-16 numeral, no padding. */
  function ToHex(n: nat): (r: string)
    ensures |r| > 0
    decreases n
  {
    if n < 16 then [HexDigit(n)] else ToHex(n / 16) + [HexDigit(n % 16)]
  }

  lemma {:induction false} ToHexDigits(n: nat)
    ensures AllHexDigits(ToHex(n))
    decreases n
  {
    if n >= 16 {
      ToHexDigits(n / 16);
    }
  }

  /** Reading back what `toString(16)` wrote gives the number. */
  lemma {:induction false} ToHexRoundTrip(n: nat)
    ensures AllHexDigits(ToHex(n)) && ParseHex(ToHex(n)) == n
    decreases n
  {
    ToHexDigits(n);
    if n >= 16 {
      ToHexRoundTrip(n / 16);
      var r := ToHex(n);
      assert r[..|r| - 1] == ToHex(n / 16);
    }
  }

  /** A colour as the bricks use it: `#` and six hex digits. */
  predicate IsColor(color: string) {
    |color| == 7 && color[0] == '#' && AllHexDigits(color[1..])
  }

  /** The channel written by digits 1-2, 3-4 or 5-6 of a colour. */
  function Channel(color: string, k: nat): (v: nat)
    requires IsColor(color) && k < 3
    ensures v < 256
  {
    assert IsHexDigit(color[1..][2 * k]) && IsHexDigit(color[1..][2 * k + 1]);
    16 * DigitValue(color[2 * k + 1]) + DigitValue(color[2 * k + 2])
  }

  function Red(color: string): nat requires IsColor(color) { Channel(color, 0) }
  function Green(color: string): nat requires IsColor(color) { Channel(color, 1) }
  function Blue(color: string): nat requires IsColor(color) { Channel(color, 2) }

  /** `R < 255 ? (R < 1 ? 0 : R) : 255` */
  function Clamp(v: int): int {
    if v < 255 then (if v < 1 then 0 else v) else 255
  }

  /** A channel as two zero-padded digits. */
  function Hex2(x: nat): string
    requires x < 256
  {
    [HexDigit(x / 16), HexDigit(x % 16)]
  }

  /**
   * `adjustBrightness(color, percent)` with `amt` standing for
   * `Math.round(2.55 * percent)`: the channels are unpacked with shifts and
   * masks, clamped, packed above a leading 1 and printed without that 1.
   */
  function AdjustBrightness(color: string, amt: int): (adjusted: string)
    requires IsColor(color)
    ensures adjusted ==
      "#" + Hex2(Clamp(Red(color) + amt)) + Hex2(Clamp(Green(color) + amt)) + Hex2(Clamp(Blue(color) + amt))
    ensures IsColor(adjusted)
    ensures Red(adjusted) == Clamp(Red(color) + amt)
    ensures Green(adjusted) == Clamp(Green(color) + amt)
    ensures Blue(adjusted) == Clamp(Blue(color) + amt)
  {
    var num := ParseHex(color[1..]);
    var r := num / 0x10000 + amt;
    var g := (num / 0x100) % 0x100 + amt;
    var b := num % 0x100 + amt;
    Readjusted(color, amt, r, g, b);
    ChannelsOfHex(Clamp(Red(color) + amt), Clamp(Green(color) + amt), Clamp(Blue(color) + amt));
    "#" + ToHex(Pack(r, g, b))[1..]
  }

  /** `0x1000000 + clamped R * 0x10000 + clamped G * 0x100 + clamped B` */
  function Pack(r: int, g: int, b: int): nat {
    0x1000000 + Clamp(r) * 0x10000 + Clamp(g) * 0x100 + Clamp(b)
  }

  /** Division by 16 from a quotient and remainder in range. */
  lemma DivMod16(n: int, q: int, r: int)
    requires n == 16 * q + r && 0 <= r < 16
    ensures n / 16 == q && n % 16 == r
  {
  }

  /** Division by 256 from a quotient and remainder in range. */
  lemma DivMod256(n: int, q: int, r: int)
    requires n == 256 * q + r && 0 <= r < 256
    ensures n / 256 == q && n % 256 == r
  {
  }

  /** Division by 65536 from a quotient and remainder in range. */
  lemma DivMod65536(n: int, q: int, r: int)
    requires n == 65536 * q + r && 0 <= r < 65536
    ensures n / 65536 == q && n % 65536 == r
  {
  }

  /** One more digit of a numeral multiplies what was read by 16 and adds the digit. */
  lemma ParseNextDigit(s: string, k: nat)
    requires AllHexDigits(s) && k < |s|
    ensures AllHexDigits(s[..k]) && AllHexDigits(s[..k + 1])
    ensures ParseHex(s[..k + 1]) == 16 * ParseHex(s[..k]) + DigitValue(s[k])
  {
    assert s[..k + 1][..k] == s[..k];
  }

  /** The six digits after `#` hold the channels at 16, 8 and 0 bits. */
  lemma ColorValue(color: string)
    requires IsColor(color)
    ensures ParseHex(color[1..]) == Red(color) * 0x10000 + Green(color) * 0x100 + Blue(color)
  {
    var s := color[1..];
    assert s[..0] == [] && s[..6] == s;
    ParseNextDigit(s, 0);
    ParseNextDigit(s, 1);
    ParseNextDigit(s, 2);
    ParseNextDigit(s, 3);
    ParseNextDigit(s, 4);
    ParseNextDigit(s, 5);
  }

  /** `toString(16)` of `16 * q + r` is that of `q` followed by the digit `r`. */
  lemma ToHexDigit(n: nat, q: nat, r: nat)
    requires n == 16 * q + r && r < 16 && q > 0
    ensures ToHex(n) == ToHex(q) + [HexDigit(r)]
  {
    DivMod16(n, q, r);
  }

  /** The number a sequence of base-16 digits denotes, most significant first. */
  function DigitsValue(ds: seq<nat>): nat {
    if ds == [] then 0 else 16 * DigitsValue(ds[..|ds| - 1]) + ds[|ds| - 1]
  }

  predicate AreDigits(ds: seq<nat>) {
    forall i :: 0 <= i < |ds| ==> ds[i] < 16
  }

  function Numeral(ds: seq<nat>): (r: string)
    requires AreDigits(ds)
    ensures |r| == |ds|
  {
    seq(|ds|, i requires 0 <= i < |ds| => HexDigit(ds[i]))
  }

  /** Digits without a leading zero print back as themselves. */
  lemma {:induction false} ToHexOfDigits(ds: seq<nat>)
    requires |ds| > 0 && AreDigits(ds) && ds[0] > 0
    ensures DigitsValue(ds) > 0 && ToHex(DigitsValue(ds)) == Numeral(ds)
    decreases |ds|
  {
    if |ds| == 1 {
      assert ds[..0] == [];
    } else {
      var init := ds[..|ds| - 1];
      assert init[0] == ds[0];
      ToHexOfDigits(init);
      ToHexDigit(DigitsValue(ds), DigitsValue(init), ds[|ds| - 1]);
      NumeralSnoc(ds);
    }
  }

  /** The numeral of a digit sequence is the numeral of all but its last digit, then that digit. */
  lemma NumeralSnoc(ds: seq<nat>)
    requires |ds| > 0 && AreDigits(ds)
    ensures Numeral(ds) == Numeral(ds[..|ds| - 1]) + [HexDigit(ds[|ds| - 1])]
  {
  }

  /** The number the digits 1 x1 x0 y1 y0 z1 z0 denote. */
  lemma PackedValue(x1: nat, x0: nat, y1: nat, y0: nat, z1: nat, z0: nat)
    ensures DigitsValue([1, x1, x0, y1, y0, z1, z0]) ==
      0x1000000 + 0x100000 * x1 + 0x10000 * x0 + 0x1000 * y1 + 0x100 * y0 + 0x10 * z1 + z0
  {
    var ds: seq<nat> := [1, x1, x0, y1, y0, z1, z0];
    assert DigitsValue([1]) == 1 by { assert [1][..0] == []; }
    assert DigitsValue([1, x1]) == 16 + x1 by { assert [1, x1][..1] == [1]; }
    assert DigitsValue([1, x1, x0]) == 0x100 + 0x10 * x1 + x0 by { assert [1, x1, x0][..2] == [1, x1]; }
    assert DigitsValue([1, x1, x0, y1]) == 0x1000 + 0x100 * x1 + 0x10 * x0 + y1 by {
      assert [1, x1, x0, y1][..3] == [1, x1, x0];
    }
    assert DigitsValue([1, x1, x0, y1, y0]) == 0x10000 + 0x1000 * x1 + 0x100 * x0 + 0x10 * y1 + y0 by {
      assert [1, x1, x0, y1, y0][..4] == [1, x1, x0, y1];
    }
    assert DigitsValue([1, x1, x0, y1, y0, z1]) ==
      0x100000 + 0x10000 * x1 + 0x1000 * x0 + 0x100 * y1 + 0x10 * y0 + z1 by {
      assert [1, x1, x0, y1, y0, z1][..5] == [1, x1, x0, y1, y0];
    }
    assert ds[..6] == [1, x1, x0, y1, y0, z1];
  }

  /** Six digits packed above a leading 1 print as 1 and those six digits. */
  lemma PackedDigits(n: nat, x1: nat, x0: nat, y1: nat, y0: nat, z1: nat, z0: nat)
    requires x1 < 16 && x0 < 16 && y1 < 16 && y0 < 16 && z1 < 16 && z0 < 16
    requires n == 0x1000000 + 0x100000 * x1 + 0x10000 * x0 + 0x1000 * y1 + 0x100 * y0 + 0x10 * z1 + z0
    ensures ToHex(n) == ['1', HexDigit(x1), HexDigit(x0), HexDigit(y1), HexDigit(y0), HexDigit(z1), HexDigit(z0)]
  {
    PackedValue(x1, x0, y1, y0, z1, z0);
    PrintedDigits(x1, x0, y1, y0, z1, z0);
  }

  lemma PrintedDigits(x1: nat, x0: nat, y1: nat, y0: nat, z1: nat, z0: nat)
    requires x1 < 16 && x0 < 16 && y1 < 16 && y0 < 16 && z1 < 16 && z0 < 16
    ensures ToHex(DigitsValue([1, x1, x0, y1, y0, z1, z0])) ==
      ['1', HexDigit(x1), HexDigit(x0), HexDigit(y1), HexDigit(y0), HexDigit(z1), HexDigit(z0)]
  {
    ToHexOfDigits([1, x1, x0, y1, y0, z1, z0]);
  }

  /** The shifts and masks of `adjustBrightness` take the channels apart. */
  lemma Unpack(color: string)
    requires IsColor(color)
    ensures var num := ParseHex(color[1..]);
      num / 0x10000 == Red(color) && (num / 0x100) % 0x100 == Green(color) && num % 0x100 == Blue(color)
  {
    ColorValue(color);
    var num := ParseHex(color[1..]);
    var red, green, blue := Red(color), Green(color), Blue(color);
    DivMod65536(num, red, green * 0x100 + blue);
    DivMod256(num, red * 0x100 + green, blue);
    DivMod256(red * 0x100 + green, red, green);
  }

  /** Clamped channels packed and printed without the leading 1 are the three channels' two digits each. */
  lemma Repack(r: int, g: int, b: int)
    ensures ToHex(Pack(r, g, b))[1..] == Hex2(Clamp(r)) + Hex2(Clamp(g)) + Hex2(Clamp(b))
  {
    var x, y, z := Clamp(r), Clamp(g), Clamp(b);
    DivMod16(x, x / 16, x % 16);
    DivMod16(y, y / 16, y % 16);
    DivMod16(z, z / 16, z % 16);
    PackedDigits(Pack(r, g, b), x / 16, x % 16, y / 16, y % 16, z / 16, z % 16);
  }

  /** A colour written from three channels reads back as those channels. */
  lemma ChannelsOfHex(x: nat, y: nat, z: nat)
    requires x < 256 && y < 256 && z < 256
    ensures var c := "#" + Hex2(x) + Hex2(y) + Hex2(z);
      IsColor(c) && Red(c) == x && Green(c) == y && Blue(c) == z
  {
    DivMod16(x, x / 16, x % 16);
    DivMod16(y, y / 16, y % 16);
    DivMod16(z, z / 16, z % 16);
  }

  /**
   * The computation of `adjustBrightness` on the unpacked, shifted channels
   * prints the three clamped channels two digits each.
   */
  lemma Readjusted(color: string, amt: int, r: int, g: int, b: int)
    requires IsColor(color)
    requires var num := ParseHex(color[1..]);
      r == num / 0x10000 + amt && g == (num / 0x100) % 0x100 + amt && b == num % 0x100 + amt
    ensures "#" + ToHex(Pack(r, g, b))[1..] ==
      "#" + Hex2(Clamp(Red(color) + amt)) + Hex2(Clamp(Green(color) + amt)) + Hex2(Clamp(Blue(color) + amt))
  {
    Unpack(color);
    assert r == Red(color) + amt && g == Green(color) + amt && b == Blue(color) + amt;
    Repack(r, g, b);
  }
}
