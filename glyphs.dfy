/**
 * Character-level decoding shared by both text/lo-res pages: bit tests, the
 * inverse/flashing classification of a screen code, glyph rows from the
 * character ROM, the lo-res nibble pattern, and the plain-text screen dump
 * (js/canvas.ts:186-196, 487-530; js/gl.ts:84-95, 318-361).
 */
module Glyphs {
  import opened Screen

  function Pow2(k: nat): (r: nat)
    ensures r >= 1
  {
    if k == 0 then 1 else 2 * Pow2(k - 1)
  }

  /** Bit k of a non-negative integer: `(x >> k) & 1`. */
  predicate Bit(x: int, k: int) {
    k >= 0 && (x / Pow2(k)) % 2 == 1
  }

  /** A screen or charset byte read from a sequence; outside it reads 0. */
  function At(s: seq<byte>, i: int): (v: int)
    ensures 0 <= v < 256
  {
    if 0 <= i < |s| then s[i] as int else 0
  }

  /* ---------------------------------------------------------------------
   * Screen codes.
   * ------------------------------------------------------------------- */

  /** `_checkInverse`. */
  predicate CheckInverse(e: bool, col80: bool, altChar: bool, blink: bool, val: int) {
    if e then !col80 && !altChar && (val / 64) % 4 == 1 && blink
    else !(val >= 0x80 || ((val / 64) % 2 == 1 && blink))
  }

  /** The code classes of the character generator: on a II/II+ codes
      0x00-0x3F are inverse, 0x40-0x7F flash (inverse in one blink phase)
      and 0x80-0xFF are normal; an enhanced IIe in 40 columns without the
      alternate set only flashes 0x40-0x7F and takes inverse 0x00-0x3F from
      the ROM itself. */
  lemma CheckInverseClasses(e: bool, col80: bool, altChar: bool, blink: bool, val: int)
    requires 0 <= val < 256
    ensures !e ==> (CheckInverse(e, col80, altChar, blink, val) <==>
                    val < 0x40 || (val < 0x80 && !blink))
    ensures e ==> (CheckInverse(e, col80, altChar, blink, val) <==>
                   !col80 && !altChar && blink && 0x40 <= val < 0x80)
  {
  }

  /** Without the alternate character set, flashing codes 0x40-0x7F use the
      glyphs of 0x00-0x3F. */
  function Unflash(val: int, altChar: bool): (code: int)
    requires 0 <= val < 256
    ensures 0 <= code < 256 && code % 0x40 == val % 0x40
    ensures altChar || !(0x40 <= code < 0x80)
    ensures code != val ==> !altChar && 0x40 <= val < 0x80
  {
    if !altChar && val >= 0x40 && val < 0x80 then val - 0x40 else val
  }

  /** Row j of the glyph of code `code`: `charset[code * 8 + j]`. */
  function GlyphRow(charset: seq<byte>, code: int, j: int): int {
    At(charset, code * 8 + j)
  }

  /** `mapCharCode`: the printable character a screen code shows. */
  function MapCharCode(e: bool, c: int): (r: int)
    requires 0 <= c < 256
    ensures 0x20 <= r < 0x80 && r % 0x20 == c % 0x20
    ensures !e ==> r < 0x60
    ensures 0x20 <= c % 0x80 && (e || c % 0x80 < 0x60) ==> r == c % 0x80
  {
    var c1 := c % 0x80;
    var c2 := if c1 < 0x20 then c1 + 0x40 else c1;
    if !e && c2 >= 0x60 then c2 - 0x40 else c2
  }

  /* ---------------------------------------------------------------------
   * Lo-res nibbles.
   * ------------------------------------------------------------------- */

  /** The colour nibble of block row j: the low nibble for the upper four
      rows and the high nibble for the lower four. */
  function Nibble(val: int, j: int): (n: int)
    requires 0 <= val < 256
    ensures 0 <= n < 16
  {
    if j < 4 then val % 16 else val / 16
  }

  /** The monochrome bit pattern: the nibble repeated four times
      (`b |= b << 4; b |= b << 8`), shifted by two for odd columns. */
  function Replicated(val: int, j: int, col: int): int
    requires 0 <= val < 256
  {
    var b := Nibble(val, j) * 0x1111;
    if col % 2 == 1 then b / 4 else b
  }

  lemma {:induction false} RepeatedNibbleBit(n: int, k: int)
    requires 0 <= n < 16 && 0 <= k < 16
    ensures Bit(n * 0x1111, k) == Bit(n, k % 4)
  {
    var q := k / 4;
    var r := k % 4;
    var x := n * 0x1111;
    assert Pow2(4) == 16 by { assert Pow2(2) == 4; }
    if q == 0 {
      PowSplit(0, r, 1);
      assert x == n + 16 * (n * 0x111);
      ShiftMod(x, n, n * 0x111, r);
    } else if q == 1 {
      PowSplit(4, r, 16);
      assert x == n + 16 * (n + 16 * (n * 0x11));
      ShiftMod(x / 16, n, n * 0x11, r);
      DivMod(x, 16, n + 16 * (n * 0x11), n);
      PowDiv(x, 16, Pow2(r));
    } else if q == 2 {
      PowSplit(8, r, 256);
      assert x == n * 0x11 + 256 * (n * 0x11);
      DivMod(x, 256, n * 0x11, n * 0x11);
      assert x / 256 == n + 16 * n;
      ShiftMod(x / 256, n, n, r);
      PowDiv(x, 256, Pow2(r));
    } else {
      PowSplit(12, r, 4096);
      DivMod(x, 4096, n, n * 0x111);
      ShiftMod(x / 4096, n, 0, r);
      PowDiv(x, 4096, Pow2(r));
    }
  }

  lemma PowSplit(a: nat, r: nat, pa: nat)
    requires Pow2(a) == pa && r < 4
    ensures Pow2(a + r) == pa * Pow2(r)
    decreases r
  {
    if r > 0 {
      PowSplit(a, r - 1, pa);
    }
  }

  /** x / (a * b) == (x / a) / b for positive a, b. */
  lemma PowDiv(x: int, a: int, b: int)
    requires 0 <= x && 0 < a && 0 < b
    ensures x / (a * b) == (x / a) / b
  {
    var y, t := x / a, x % a;
    var q, r := y / b, y % b;
    Regroup(x, a, b, y, t, q, r);
    DivMod(x, a * b, q, a * r + t);
  }

  /** x = a(bq + r) + t with t < a and r < b splits as (ab)q + (ar + t). */
  lemma Regroup(x: int, a: int, b: int, y: int, t: int, q: int, r: int)
    requires 0 < a && 0 < b && x == a * y + t && 0 <= t < a && y == b * q + r && 0 <= r < b
    ensures x == q * (a * b) + (a * r + t) && 0 <= a * r + t < a * b
  {
    assert a * y == q * (a * b) + a * r;
    MulMono(r + 1, b, a);
  }

  lemma MulMono(u: int, v: int, a: int)
    requires 0 <= u <= v && 0 < a
    ensures 0 <= a * u <= a * v
  {
    assert a * v - a * u == a * (v - u);
  }

  /** Bit r (< 4) of n + 16 * m is bit r of the low nibble n. */
  lemma ShiftMod(x: int, n: int, m: int, r: int)
    requires 0 <= n < 16 && 0 <= m && 0 <= r < 4 && x == n + 16 * m
    ensures Bit(x, r) == Bit(n, r)
  {
    assert Pow2(1) == 2 && Pow2(2) == 4 && Pow2(3) == 8 && Pow2(4) == 16;
    BitSplitLow(n, m, 4, r);
  }

  /** The monochrome lo-res pattern: half-pixel k (< 14) of block row j is
      white exactly when bit (k + shift) mod 4 of the row's nibble is set,
      the shift being 2 in odd columns, so patterns continue seamlessly
      across neighbouring blocks. */
  lemma ReplicatedBit(val: int, j: int, col: int, k: int)
    requires 0 <= val < 256 && 0 <= k < 14 && 0 <= col
    ensures Bit(Replicated(val, j, col), k) ==
            Bit(Nibble(val, j), (k + (if col % 2 == 1 then 2 else 0)) % 4)
  {
    var n := Nibble(val, j);
    if col % 2 == 1 {
      assert Pow2(2) == 4;
      PowDiv(n * 0x1111, 4, Pow2(k));
      PowSplit(2, 0, 4);
      PowTwoAdd(2, k);
      RepeatedNibbleBit(n, k + 2);
    } else {
      RepeatedNibbleBit(n, k);
    }
  }

  lemma PowTwoAdd(a: nat, b: nat)
    ensures Pow2(a + b) == Pow2(a) * Pow2(b)
    decreases b
  {
    if b > 0 {
      PowTwoAdd(a, b - 1);
    }
  }

  /** Bit k of `lo + 2^s * hi` (lo below 2^s) is bit k of lo under s and
      bit k - s of hi from s on: the fields of a packed word do not overlap. */
  lemma BitSplit(lo: int, hi: int, s: nat, k: nat)
    requires 0 <= lo < Pow2(s) && 0 <= hi
    ensures Bit(lo + Pow2(s) * hi, k) == if k < s then Bit(lo, k) else Bit(hi, k - s)
  {
    if k < s {
      BitSplitLow(lo, hi, s, k);
    } else {
      BitSplitHigh(lo, hi, s, k);
    }
  }

  lemma BitSplitLow(lo: int, hi: int, s: nat, k: nat)
    requires 0 <= lo < Pow2(s) && 0 <= hi && k < s
    ensures Bit(lo + Pow2(s) * hi, k) == Bit(lo, k)
  {
    var pk := Pow2(k);
    var d := Pow2(s - k - 1);
    PowTwoAdd(k, s - k);
    assert Pow2(s - k) == 2 * d;
    var e := d * hi;
    ScaleSplit(lo, hi, pk, d, Pow2(s), e);
    DivMod(lo + Pow2(s) * hi, pk, lo / pk + 2 * e, lo % pk);
    DivMod(lo / pk + 2 * e, 2, lo / pk / 2 + e, (lo / pk) % 2);
  }

  lemma ScaleSplit(lo: int, hi: int, pk: int, d: int, ps: int, e: int)
    requires 0 <= lo && 0 < pk && ps == pk * (2 * d) && e == d * hi
    ensures lo + ps * hi == (lo / pk + 2 * e) * pk + lo % pk
  {
    assert ps * hi == (2 * e) * pk;
  }

  lemma BitSplitHigh(lo: int, hi: int, s: nat, k: nat)
    requires 0 <= lo < Pow2(s) && 0 <= hi && s <= k
    ensures Bit(lo + Pow2(s) * hi, k) == Bit(hi, k - s)
  {
    var ps := Pow2(s);
    var x := lo + ps * hi;
    PowTwoAdd(s, k - s);
    assert x == hi * ps + lo;
    DivMod(x, ps, hi, lo);
    PowDiv(x, ps, Pow2(k - s));
  }

  /** Bit k of x / 2^s is bit k + s of x. */
  lemma BitShift(x: int, s: nat, k: nat)
    requires 0 <= x
    ensures Bit(x / Pow2(s), k) == Bit(x, k + s)
  {
    var p := Pow2(s);
    Recompose(x, p);
    BitSplitHigh(x % p, x / p, s, k + s);
  }

  /** Bit k of x mod 2^s is bit k of x below s, and clear from s on. */
  lemma BitLow(x: int, s: nat, k: nat)
    requires 0 <= x
    ensures Bit(x % Pow2(s), k) == (k < s && Bit(x, k))
  {
    var p := Pow2(s);
    if k < s {
      Recompose(x, p);
      BitSplitLow(x % p, x / p, s, k);
    } else {
      PowTwoAdd(s, k - s);
      BelowPow(x % p, s, k);
    }
  }

  lemma Recompose(x: int, p: int)
    requires 0 <= x && 0 < p
    ensures x == x % p + p * (x / p) && 0 <= x / p
  {
  }

  /** A value below 2^s has no bit at or above s. */
  lemma BelowPow(v: int, s: nat, k: nat)
    requires 0 <= v < Pow2(s) && s <= k
    ensures !Bit(v, k)
  {
    PowMono(s, k);
    DivMod(v, Pow2(k), 0, v);
  }

  lemma {:induction false} PowMono(s: nat, k: nat)
    requires s <= k
    ensures Pow2(s) <= Pow2(k)
    decreases k
  {
    if s < k {
      PowMono(s, k - 1);
    }
  }

  /** The auxiliary-bank lo-res colour nibbles are rotated by one bit
      (`((val & 0x77) << 1) | ((val & 0x88) >> 3)`). */
  function Swizzle(val: int): (s: int)
    requires 0 <= val < 256
    ensures 0 <= s < 256
  {
    RotateNibble(val % 16) + 16 * RotateNibble(val / 16)
  }

  /** One nibble rotated left by one bit. */
  function RotateNibble(n: int): (r: int)
    requires 0 <= n < 16
    ensures 0 <= r < 16
  {
    2 * (n % 8) + n / 8
  }

  /** Bit k of a rotated nibble is bit k - 1 of the nibble, bit 0 being
      the old bit 3. */
  lemma RotateNibbleBit(n: int, k: int)
    requires 0 <= n < 16 && 0 <= k < 4
    ensures Bit(RotateNibble(n), k) == Bit(n, (k + 3) % 4)
  {
    assert Pow2(1) == 2 && Pow2(3) == 8;
    BitSplit(n / 8, n % 8, 1, k);
    if k == 0 {
      BitShift(n, 3, 0);
    } else {
      BitLow(n, 3, k - 1);
    }
  }

  /** Bit k of a swizzled byte is the next lower bit of the same nibble,
      wrapping round within the nibble: bit 0 takes bit 3, bit 4 takes bit 7. */
  lemma SwizzleBit(val: int, k: int)
    requires 0 <= val < 256 && 0 <= k < 8
    ensures Bit(Swizzle(val), k) <==> Bit(val, 4 * (k / 4) + (k + 3) % 4)
  {
    SwizzleSplit(val);
    var j := 4 * (k / 4) + (k + 3) % 4;
    if k < 4 {
      assert j == (k + 3) % 4;
      SwizzleLowBit(val, val % 16, val / 16, k);
    } else {
      assert j == 4 + (k - 4 + 3) % 4;
      SwizzleHighBit(val, val % 16, val / 16, k - 4);
    }
  }

  lemma SwizzleLowBit(val: int, lo: int, hi: int, k: int)
    requires 0 <= lo < 16 && 0 <= hi < 16 && 0 <= k < 4 && Pow2(4) == 16
    requires val == lo + Pow2(4) * hi && Swizzle(val) == RotateNibble(lo) + Pow2(4) * RotateNibble(hi)
    ensures Bit(Swizzle(val), k) == Bit(val, (k + 3) % 4)
  {
    BitSplitLow(RotateNibble(lo), RotateNibble(hi), 4, k);
    BitSplitLow(lo, hi, 4, (k + 3) % 4);
    RotateNibbleBit(lo, k);
  }

  lemma SwizzleHighBit(val: int, lo: int, hi: int, k: int)
    requires 0 <= lo < 16 && 0 <= hi < 16 && 0 <= k < 4 && Pow2(4) == 16
    requires val == lo + Pow2(4) * hi && Swizzle(val) == RotateNibble(lo) + Pow2(4) * RotateNibble(hi)
    ensures Bit(Swizzle(val), k + 4) == Bit(val, 4 + (k + 3) % 4)
  {
    BitSplitHigh(RotateNibble(lo), RotateNibble(hi), 4, k + 4);
    BitSplitHigh(lo, hi, 4, 4 + (k + 3) % 4);
    RotateNibbleBit(hi, k);
  }

  /** A byte and its swizzle as low nibble plus 2^4 times high nibble. */
  lemma SwizzleSplit(val: int)
    requires 0 <= val < 256
    ensures Pow2(4) == 16
    ensures val == val % 16 + Pow2(4) * (val / 16) && val / 16 < 16
    ensures Swizzle(val) == RotateNibble(val % 16) + Pow2(4) * RotateNibble(val / 16)
  {
    assert Pow2(4) == 16 by { assert Pow2(2) == 4; }
  }

  /* ---------------------------------------------------------------------
   * `getText`: the 24 lines of the text screen.
   * ------------------------------------------------------------------- */

  /** The screen code shown in text column `col` of the line at `base`: in
      80 columns even columns come from the auxiliary bank. */
  function CodeAt(wide: bool, b0: seq<byte>, b1: seq<byte>, base: int, col: int): int {
    if wide then At(if col % 2 == 0 then b1 else b0, base + col / 2)
    else At(b0, base + col)
  }

  function TextLine(wide: bool, e: bool, b0: seq<byte>, b1: seq<byte>, row: int): (line: string)
    requires 0 <= row
    ensures |line| == (if wide then 80 else 40)
    ensures forall i :: 0 <= i < |line| ==> 0x20 <= line[i] as int < 0x80
  {
    var width := if wide then 80 else 40;
    seq(width, i => MapCharCode(e, CodeAt(wide, b0, b1, RowToBase(row), i)) as char)
  }

  /** `trimEnd` on a line of printable ASCII: only spaces are whitespace there. */
  function TrimEnd(s: string): (t: string)
    ensures |t| <= |s| && t == s[..|t|]
    ensures t == [] || t[|t| - 1] != ' '
    ensures forall i :: |t| <= i < |s| ==> s[i] == ' '
  {
    if |s| > 0 && s[|s| - 1] == ' ' then TrimEnd(s[..|s| - 1]) else s
  }

  /** The first n lines, each trimmed and ended by a newline. */
  function DumpRows(wide: bool, e: bool, b0: seq<byte>, b1: seq<byte>, n: nat): string {
    if n == 0 then "" else
      DumpRows(wide, e, b0, b1, n - 1) + TrimEnd(TextLine(wide, e, b0, b1, n - 1)) + "\n"
  }

  function TextDump(wide: bool, e: bool, b0: seq<byte>, b1: seq<byte>): string {
    DumpRows(wide, e, b0, b1, 24)
  }

  /** The dump holds exactly one newline per screen line and otherwise only
      printable characters. */
  lemma {:induction false} DumpRowsShape(wide: bool, e: bool, b0: seq<byte>, b1: seq<byte>, n: nat)
    ensures Shaped(DumpRows(wide, e, b0, b1, n), n)
  {
    if n > 0 {
      DumpRowsShape(wide, e, b0, b1, n - 1);
      ShapedStep(DumpRows(wide, e, b0, b1, n - 1), TextLine(wide, e, b0, b1, n - 1), n - 1);
    }
  }

  lemma ShapedStep(prev: string, full: string, n: nat)
    requires Shaped(prev, n)
    requires forall i :: 0 <= i < |full| ==> 0x20 <= full[i] as int < 0x80
    ensures Shaped(prev + TrimEnd(full) + "\n", n + 1)
  {
    TrimPrintable(full);
    AppendLine(prev, TrimEnd(full), n);
  }

  lemma TrimPrintable(full: string)
    requires forall i :: 0 <= i < |full| ==> 0x20 <= full[i] as int < 0x80
    ensures forall i :: 0 <= i < |TrimEnd(full)| ==> 0x20 <= TrimEnd(full)[i] as int < 0x80
  {
    var line := TrimEnd(full);
    assert forall i :: 0 <= i < |line| ==> line[i] == full[i];
  }

  /** n newlines, every other character printable. */
  predicate Shaped(d: string, n: nat) {
    multiset(d)['\n'] == n && forall i :: 0 <= i < |d| ==> d[i] == '\n' || 0x20 <= d[i] as int < 0x80
  }

  lemma AppendLine(prev: string, line: string, n: nat)
    requires Shaped(prev, n)
    requires forall i :: 0 <= i < |line| ==> 0x20 <= line[i] as int < 0x80
    ensures Shaped(prev + line + "\n", n + 1)
  {
    PrintableHasNoNewline(line);
    var d := prev + line + "\n";
    assert multiset(d) == multiset(prev) + multiset(line) + multiset("\n");
    assert multiset("\n")['\n'] == 1;
    assert multiset(d)['\n'] == multiset(prev)['\n'] + multiset(line)['\n'] + multiset("\n")['\n'];
    forall i | 0 <= i < |d|
      ensures d[i] == '\n' || 0x20 <= d[i] as int < 0x80
    {
      if i < |prev| {
        assert d[i] == prev[i];
      } else if i < |prev| + |line| {
        assert d[i] == line[i - |prev|];
      }
    }
  }

  lemma PrintableHasNoNewline(line: string)
    requires forall i :: 0 <= i < |line| ==> 0x20 <= line[i] as int < 0x80
    ensures multiset(line)['\n'] == 0
  {
    assert '\n' !in line;
  }

  /** `getText` over the page's main and auxiliary banks. */
  method ScreenText(wide: bool, e: bool, buf0: array<byte>, buf1: array<byte>) returns (s: string)
    ensures s == TextDump(wide, e, buf0[..], buf1[..])
  {
    s := "";
    var row := 0;
    while row < 24
      invariant 0 <= row <= 24
      invariant s == DumpRows(wide, e, buf0[..], buf1[..], row)
    {
      var line := ScreenLine(wide, e, buf0, buf1, row);
      assert DumpRows(wide, e, buf0[..], buf1[..], row + 1) == s + TrimEnd(line) + "\n";
      s := s + TrimEnd(line) + "\n";
      row := row + 1;
    }
  }

  /** One line of `getText` before trimming. */
  method ScreenLine(wide: bool, e: bool, buf0: array<byte>, buf1: array<byte>, row: int) returns (line: string)
    requires 0 <= row
    ensures line == TextLine(wide, e, buf0[..], buf1[..], row)
  {
    var base := RowToBase(row);
    line := "";
    var width := if wide then 80 else 40;
    var col := 0;
    ghost var full := TextLine(wide, e, buf0[..], buf1[..], row);
    while col < width
      invariant 0 <= col <= width && |full| == width
      invariant line == full[..col]
    {
      var code: int;
      if wide {
        var bank := if col % 2 == 0 then buf1 else buf0;
        code := if 0 <= base + col / 2 < bank.Length then bank[base + col / 2] as int else 0;
      } else {
        code := if 0 <= base + col < buf0.Length then buf0[base + col] as int else 0;
      }
      assert code == CodeAt(wide, buf0[..], buf1[..], base, col);
      assert full[..col + 1] == full[..col] + [full[col]];
      line := line + [MapCharCode(e, code) as char];
      col := col + 1;
    }
    assert line == full;
  }
}
