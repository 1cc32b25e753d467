/**
 * Packed colour codes and RGBA layering (utils.js).
 *
 * A colour code is a JavaScript number holding a 32-bit pattern: the high
 * byte is the opacity (0..100), the low 24 bits are the RGB value.  The
 * bitwise operators of JavaScript are written out on unbounded integers:
 * `c & 0xffffff` is `c % 2^24`, `c >> 24` is the floor quotient of the
 * two's-complement value of `c`, and `x << k` is the two's-complement value
 * of `x * 2^k`.
 */
module Colors {

  const Two8: int := 0x100
  const Two16: int := 0x1_0000
  const Two24: int := 0x100_0000
  const Two31: int := 0x8000_0000
  const Two32: int := 0x1_0000_0000

  // ---------------------------------------------------------------------
  // 32-bit integer conversions

  /** ECMAScript ToInt32 on an integer: its two's-complement 32-bit value. */
  function ToInt32(x: int): (r: int)
    ensures -Two31 <= r < Two31
    ensures -Two31 <= x < Two31 ==> r == x
  {
    var m := x % Two32;
    if m >= Two31 then m - Two32 else m
  }

  /** ECMAScript ToUint32 on an integer: what a `Uint32Array` stores. */
  function ToUint32(x: int): (r: int)
    ensures 0 <= r < Two32
    ensures 0 <= x < Two32 ==> r == x
  {
    x % Two32
  }

  /** ECMAScript ToUint16 on an integer: what a `Uint16Array` stores. */
  function ToUint16(x: int): (r: int)
    ensures 0 <= r < Two16
    ensures 0 <= x < Two16 ==> r == x
  {
    x % Two16
  }

  /** `x << k` for the shift amounts used here, given as `scale == 2^k`. */
  function ShiftLeft(x: int, scale: int): (r: int)
    ensures -Two31 <= r < Two31
  {
    ToInt32(x * scale)
  }

  /** A shift whose product fits in 32 bits is exact. */
  lemma ShiftLeftExact(x: int, scale: int)
    requires -Two31 <= x * scale < Two31
    ensures ShiftLeft(x, scale) == x * scale
  {
  }

  /** Division with remainder is unique (the lemma behind every unpacking below). */
  lemma {:induction false} DivModUnique(x: int, q: int, r: int, m: int)
    requires 0 < m && 0 <= r < m && x == q * m + r
    ensures x / m == q && x % m == r
  {
    var q', r' := x / m, x % m;
    assert (q - q') * m == r' - r;
    if q' < q {
      MulAtLeast(q - q', m);
    } else if q < q' {
      MulAtLeast(q' - q, m);
    }
  }

  lemma MulAtLeast(d: int, m: int)
    requires 1 <= d && 0 < m
    ensures d * m >= m
  {
    assert d * m == (d - 1) * m + m;
  }

  /** A product with a positive factor has the sign of the other factor. */
  lemma MulNonPositive(d: int, w: int)
    requires w > 0
    ensures d <= 0 ==> d * w <= 0
  {
    if d < 0 {
      MulAtLeast(-d, w);
    }
  }

  // ---------------------------------------------------------------------
  // Colour codes

  /** `getHex`: the RGB part of a colour code. */
  function GetHex(c: int): (h: int)
    ensures 0 <= h < Two24
  {
    c % Two24
  }

  /** `getOpacity`: the (signed) high byte of a colour code. */
  function GetOpacity(c: int): (o: int)
    ensures -128 <= o < 128
    ensures 0 <= c < Two31 ==> o == c / Two24
  {
    ToInt32(c) / Two24
  }

  /** `checkOpacity`: clamp an opacity into 0..100. */
  function CheckOpacity(o: int): (r: int)
    ensures 0 <= r <= 100
    ensures 0 <= o <= 100 ==> r == o
    ensures o < 0 ==> r == 0
    ensures o > 100 ==> r == 100
  {
    if o < 0 then 0 else if o > 100 then 100 else o
  }

  lemma CheckOpacityIdempotent(o: int)
    ensures CheckOpacity(CheckOpacity(o)) == CheckOpacity(o)
  {
  }

  /** A shifted opacity is a whole number of 2^24 steps. */
  lemma {:induction false} ShiftLeft24(n: int)
    ensures ShiftLeft(n, Two24) % Two24 == 0
    ensures -128 <= n < 128 ==> ShiftLeft(n, Two24) == n * Two24
  {
    var b := n % Two8;
    var q := n / Two8;
    assert n == q * Two8 + b;
    assert n * Two24 == q * Two32 + b * Two24;
    DivModUnique(n * Two24, q, b * Two24, Two32);
    var s := ShiftLeft(n, Two24);
    if b >= 128 {
      assert s == (b - Two8) * Two24;
      DivModUnique(s, b - Two8, 0, Two24);
    } else {
      assert s == b * Two24;
      DivModUnique(s, b, 0, Two24);
    }
    if -128 <= n < 128 {
      if n >= 0 {
        DivModUnique(n, 0, n, Two8);
      } else {
        DivModUnique(n, -1, n + Two8, Two8);
      }
    }
  }

  /**
   * Packing an RGB value and a non-negative opacity byte as `h + (o << 24)`
   * is undone by `getHex` and `getOpacity`.
   */
  lemma {:induction false} PackUnpack(h: int, o: int)
    requires 0 <= h < Two24 && -128 <= o < 128
    ensures GetHex(h + ShiftLeft(o, Two24)) == h
    ensures GetOpacity(h + ShiftLeft(o, Two24)) == o
  {
    ShiftLeft24(o);
    DivModUnique(h + o * Two24, o, h, Two24);
  }

  /** A colour code whose opacity byte is 0..100 is `hex + opacity * 2^24`. */
  lemma {:induction false} CodeSplits(c: int)
    requires 0 <= c < Two32 && 0 <= GetOpacity(c) <= 100
    ensures c < Two31
    ensures c == GetOpacity(c) * Two24 + GetHex(c)
  {
    assert c >= Two31 ==> ToInt32(c) < 0;
    DivModUnique(c, c / Two24, c % Two24, Two24);
  }

  /**
   * `fadeColor`: scale a colour's own opacity by a percentage, keeping its
   * RGB part.  The quotient is taken exactly; the source computes it in
   * floating point.
   */
  function FadeColor(c: int, percent: int): (r: int)
    ensures GetHex(r) == GetHex(c)
    ensures 0 <= GetOpacity(c) && 0 <= percent <= 100 ==>
              0 <= GetOpacity(r) <= GetOpacity(c)
  {
    var faded := (GetOpacity(c) * percent) / 100;
    FadeKeepsHex(GetHex(c), faded);
    FadeBounds(c, percent);
    GetHex(c) + ShiftLeft(faded, Two24)
  }

  lemma {:induction false} FadeKeepsHex(h: int, n: int)
    requires 0 <= h < Two24
    ensures GetHex(h + ShiftLeft(n, Two24)) == h
  {
    ShiftLeft24(n);
    var s := ShiftLeft(n, Two24);
    DivModUnique(s, s / Two24, 0, Two24);
    DivModUnique(h + s, s / Two24, h, Two24);
  }

  lemma {:induction false} FadeBounds(c: int, p: int)
    ensures var o := GetOpacity(c);
            0 <= o && 0 <= p <= 100 ==>
              0 <= GetOpacity(GetHex(c) + ShiftLeft((o * p) / 100, Two24)) <= o
  {
    var o := GetOpacity(c);
    if 0 <= o && 0 <= p <= 100 {
      FadedLevel(o, p);
      PackUnpack(GetHex(c), (o * p) / 100);
    }
  }

  /** `p` percent of a non-negative opacity, rounded down, lies between 0 and the opacity. */
  lemma {:induction false} FadedLevel(o: int, p: int)
    requires 0 <= o && 0 <= p <= 100
    ensures 0 <= (o * p) / 100 <= o
  {
    if o > 0 {
      MulNonPositive(p - 100, o);
      assert o * p == (p - 100) * o + 100 * o;
      if p > 0 {
        MulAtLeast(p, o);
      }
    }
  }

  // ---------------------------------------------------------------------
  // RGBA values

  /**
   * A JavaScript number as an RGBA field holds it: a real value, or NaN.
   * `undefined` behaves as NaN in every operation applied to it here
   * (arithmetic, `!`, `>`, `Math.round`, `<<`).
   */
  datatype Num = Fin(v: real) | NaN {
    /** JavaScript truthiness: neither 0 nor NaN. */
    predicate Truthy() { Fin? && v != 0.0 }
  }

  /** JavaScript `a != b` on numbers: NaN differs from everything, itself included. */
  predicate NumNe(a: Num, b: Num)
  {
    !(a.Fin? && b.Fin? && a.v == b.v)
  }

  /** An integer as a JavaScript number. */
  function N(i: int): Num { Fin(i as real) }

  /** An RGBA record (`new RGBA(...)`). */
  datatype Rgba = Rgba(r: Num, g: Num, b: Num, a: Num)

  /** `new RGBA(code)`: unpack a colour code into its channels and opacity. */
  function Decode(c: int): (x: Rgba)
    ensures x.r.Fin? && x.g.Fin? && x.b.Fin? && x.a.Fin?
    ensures 0.0 <= x.r.v <= 255.0 && 0.0 <= x.g.v <= 255.0 && 0.0 <= x.b.v <= 255.0
    ensures x.a == N(GetOpacity(c))
  {
    var hex := GetHex(c);
    Rgba(N(hex / Two16), N((hex / Two8) % Two8), N(hex % Two8), N(GetOpacity(c)))
  }

  /** `Math.round`: round half up. */
  function Round(x: real): (n: int)
    ensures n as real <= x + 0.5 < n as real + 1.0
  {
    (x + 0.5).Floor
  }

  /** `Math.round(x) << k` with `scale == 2^k`: NaN shifts to 0. */
  function RoundShift(x: Num, scale: int): (r: int)
    ensures -Two31 <= r < Two31
    ensures x.NaN? ==> r == 0
  {
    if x.NaN? then 0 else ShiftLeft(Round(x.v), scale)
  }

  /**
   * `toCode`: repack an RGBA record.  The blue channel is added without a
   * shift, so a NaN there makes the whole code NaN.
   */
  function ToCode(x: Rgba): (c: Num)
    ensures c.NaN? <==> x.b.NaN?
  {
    if x.b.NaN? then NaN
    else N(RoundShift(x.a, Two24) + RoundShift(x.r, Two16) + RoundShift(x.g, Two8) + Round(x.b.v))
  }

  /** Unpacking a colour code whose opacity is 0..100 and packing it again gives it back. */
  lemma {:induction false} DecodeToCode(c: int)
    requires 0 <= c < Two32 && 0 <= GetOpacity(c) <= 100
    ensures ToCode(Decode(c)) == N(c)
  {
    CodeSplits(c);
    var hex, o := GetHex(c), GetOpacity(c);
    var b, t := hex % Two8, hex / Two8;
    var g, r := t % Two8, t / Two8;
    assert hex == t * Two8 + b;
    assert t == r * Two8 + g;
    assert hex == r * Two16 + (g * Two8 + b);
    DivModUnique(hex, r, g * Two8 + b, Two16);
    assert 0 <= r < Two8;
    var x := Decode(c);
    assert x == Rgba(N(r), N(g), N(b), N(o));
    assert RoundShift(x.a, Two24) == o * Two24;
    assert RoundShift(x.r, Two16) == r * Two16;
    assert RoundShift(x.g, Two8) == g * Two8;
    assert Round(x.b.v) == b;
  }

  /** `calcValue` of `layeredRGBA`: move `top` towards `bottom` by (100 - a)%. */
  function Blend(top: Num, bottom: Num, a: real): (r: Num)
    ensures r.NaN? <==> top.NaN? || bottom.NaN?
    ensures r.Fin? && a == 100.0 ==> r == top
    ensures r.Fin? && a == 0.0 ==> r == bottom
  {
    if top.NaN? || bottom.NaN? then NaN
    else Fin(top.v + (bottom.v - top.v) * (100.0 - a) / 100.0)
  }

  /**
   * `layeredRGBA`: the "over" operator.  A top with opacity 0 (or NaN)
   * leaves the bottom; a top above 99 hides it; otherwise each channel is
   * blended and the result is opaque.
   */
  function Layered(top: Rgba, bottom: Rgba): (x: Rgba)
    ensures !top.a.Truthy() ==> x == bottom
    ensures top.a.Fin? && top.a.v > 99.0 ==> x == top
  {
    if !top.a.Truthy() then bottom
    else if top.a.v > 99.0 then top
    else Rgba(Blend(top.r, bottom.r, top.a.v), Blend(top.g, bottom.g, top.a.v),
              Blend(top.b, bottom.b, top.a.v), N(100))
  }

  /** A channel lies between two bounds. */
  predicate Between(x: Num, lo: real, hi: real)
  {
    x.Fin? && lo <= x.v <= hi
  }

  lemma {:induction false} BlendBetween(t: Num, b: Num, a: real)
    requires t.Fin? && b.Fin? && 0.0 < a <= 100.0
    ensures Between(Blend(t, b, a), Min(t.v, b.v), Max(t.v, b.v))
  {
    var w := (100.0 - a) / 100.0;
    assert 0.0 <= w < 1.0;
    var d := b.v - t.v;
    assert Blend(t, b, a) == Fin(t.v + d * w);
    if 0.0 <= d {
      assert 0.0 <= d * w <= d;
    } else {
      assert d <= d * w <= 0.0;
    }
  }

  /**
   * A translucent top over a bottom gives an opaque colour whose channels
   * lie between the top's and the bottom's, so channels in 0..255 stay in
   * 0..255.
   */
  lemma {:induction false} LayeredBlends(top: Rgba, bottom: Rgba)
    requires top.a.Fin? && 0.0 < top.a.v <= 99.0
    requires top.r.Fin? && top.g.Fin? && top.b.Fin?
    requires bottom.r.Fin? && bottom.g.Fin? && bottom.b.Fin?
    ensures Layered(top, bottom).a == N(100)
    ensures Between(Layered(top, bottom).r, Min(top.r.v, bottom.r.v), Max(top.r.v, bottom.r.v))
    ensures Between(Layered(top, bottom).g, Min(top.g.v, bottom.g.v), Max(top.g.v, bottom.g.v))
    ensures Between(Layered(top, bottom).b, Min(top.b.v, bottom.b.v), Max(top.b.v, bottom.b.v))
  {
    var a := top.a.v;
    assert Layered(top, bottom)
      == Rgba(Blend(top.r, bottom.r, a), Blend(top.g, bottom.g, a), Blend(top.b, bottom.b, a), N(100));
    BlendBetween(top.r, bottom.r, a);
    BlendBetween(top.g, bottom.g, a);
    BlendBetween(top.b, bottom.b, a);
  }

  function Min(x: real, y: real): real { if x <= y then x else y }
  function Max(x: real, y: real): real { if x <= y then y else x }

  /** All channels are numbers in 0..255 and the opacity is a number in 0..100. */
  predicate InRange(x: Rgba)
  {
    Between(x.r, 0.0, 255.0) && Between(x.g, 0.0, 255.0) && Between(x.b, 0.0, 255.0)
    && Between(x.a, 0.0, 100.0)
  }

  /** Layering keeps channels in 0..255 and opacity in 0..100. */
  lemma {:induction false} LayeredInRange(top: Rgba, bottom: Rgba)
    requires InRange(top) && InRange(bottom)
    ensures InRange(Layered(top, bottom))
  {
    if top.a.Truthy() && top.a.v <= 99.0 {
      LayeredBlends(top, bottom);
    }
  }
}
