/**
 * Colour helpers handed to drawing code (tools.js): packing a colour from a
 * hex value or from channels, and the named presets.
 *
 * tools.js's own `getRGBA` and `setRGBA` compute exactly what utils.js's
 * `new RGBA(code)` and `toCode` compute, so they are `Colors.Decode` and
 * `Colors.ToCode` here.
 */
module Tools {
  import opened Colors
  import opened Wrappers

  /** `hex(h, opacity)`: attach a clamped opacity to an RGB value. */
  function Hex(h: int, opacity: int): (c: int)
    ensures 0 <= h < Two24 ==> GetHex(c) == h && GetOpacity(c) == CheckOpacity(opacity)
  {
    if 0 <= h < Two24 then PackUnpack(h, CheckOpacity(opacity)); h + ShiftLeft(CheckOpacity(opacity), Two24)
    else h + ShiftLeft(CheckOpacity(opacity), Two24)
  }

  /** `rgba(r, g, b, a)`: pack channels and a clamped opacity. */
  function PackRgba(r: int, g: int, b: int, a: int): (p: int)
    ensures 0 <= r < 256 && 0 <= g < 256 && 0 <= b < 256 ==>
      0 <= p < Two31 && GetHex(p) == r * Two16 + g * Two8 + b && GetOpacity(p) == CheckOpacity(a)
  {
    if 0 <= r < 256 && 0 <= g < 256 && 0 <= b < 256 then
      PackedChannels(r, g, b, CheckOpacity(a));
      ShiftLeft(CheckOpacity(a), Two24) + ShiftLeft(r, Two16) + ShiftLeft(g, Two8) + b
    else
      ShiftLeft(CheckOpacity(a), Two24) + ShiftLeft(r, Two16) + ShiftLeft(g, Two8) + b
  }

  /** Channels in 0..255 shifted into place form an RGB value below 2^24 under the opacity byte. */
  lemma {:induction false} PackedChannels(r: int, g: int, b: int, o: int)
    requires 0 <= r < 256 && 0 <= g < 256 && 0 <= b < 256 && 0 <= o <= 100
    ensures var p := ShiftLeft(o, Two24) + ShiftLeft(r, Two16) + ShiftLeft(g, Two8) + b;
            0 <= p < Two31 && GetHex(p) == r * Two16 + g * Two8 + b && GetOpacity(p) == o
  {
    var hex := r * Two16 + g * Two8 + b;
    assert ShiftLeft(r, Two16) == r * Two16;
    assert ShiftLeft(g, Two8) == g * Two8;
    ShiftLeft24(o);
    PackUnpack(hex, o);
  }

  /**
   * Channels in 0..255 packed by `rgba` come back unchanged from `getRGBA`,
   * and the opacity comes back clamped.
   */
  lemma {:induction false} PackRgbaDecodes(r: int, g: int, b: int, a: int)
    requires 0 <= r < 256 && 0 <= g < 256 && 0 <= b < 256
    ensures Decode(PackRgba(r, g, b, a)) == Rgba(N(r), N(g), N(b), N(CheckOpacity(a)))
  {
    var o := CheckOpacity(a);
    var low := g * Two8 + b;
    var hex := r * Two16 + low;
    assert ShiftLeft(r, Two16) == r * Two16;
    assert ShiftLeft(g, Two8) == g * Two8;
    assert PackRgba(r, g, b, a) == hex + ShiftLeft(o, Two24);
    PackUnpack(hex, o);
    DivModUnique(hex, r, low, Two16);
    DivModUnique(hex, r * Two8 + g, b, Two8);
    DivModUnique(r * Two8 + g, r, g, Two8);
  }

  /** `colorPresets`: the named RGB values. */
  const Presets: map<string, int> := map[
    "white" := 0xffffff,
    "gray" := 0x808080,
    "black" := 0,
    "red" := 0xff0000,
    "orange" := 0xffa500,
    "yellow" := 0xffff00,
    "green" := 0x00ff00,
    "cyan" := 0x00ffff,
    "blue" := 0x0000ff,
    "magenta" := 0xff00ff
  ]

  /**
   * `color(name, opacity)`: a preset with an opacity that is NOT clamped.
   * An unknown name gives `undefined + ...`, which is NaN: `None` here.
   */
  function Color(name: string, opacity: int): (c: Option<int>)
    ensures c.Some? <==> name in Presets
    ensures c.Some? ==> GetHex(c.value) == Presets[name]
    ensures c.Some? && -128 <= opacity < 128 ==> GetOpacity(c.value) == opacity
  {
    if name in Presets then
      PresetShifted(Presets[name], opacity);
      Some(Presets[name] + ShiftLeft(opacity, Two24))
    else None
  }

  /** Any opacity shifted over an RGB value leaves the value as `getHex` sees it; a byte-sized one comes back from `getOpacity`. */
  lemma {:induction false} PresetShifted(h: int, opacity: int)
    requires 0 <= h < Two24
    ensures GetHex(h + ShiftLeft(opacity, Two24)) == h
    ensures -128 <= opacity < 128 ==> GetOpacity(h + ShiftLeft(opacity, Two24)) == opacity
  {
    var s := ShiftLeft(opacity, Two24);
    ShiftLeft24(opacity);
    DivModUnique(h + s, s / Two24, h, Two24);
    if -128 <= opacity < 128 {
      PackUnpack(h, opacity);
    }
  }

  /** `colors`: every preset at full opacity. */
  function PresetColors(): (m: map<string, int>)
    ensures m.Keys == Presets.Keys
  {
    map name | name in Presets :: Hex(Presets[name], 100)
  }

  /** Every entry of `colors` is its preset's RGB value at opacity 100. */
  lemma PresetColorsOpaque(name: string)
    requires name in Presets
    ensures GetHex(PresetColors()[name]) == Presets[name]
    ensures GetOpacity(PresetColors()[name]) == 100
  {
    assert 0 <= Presets[name] < Two24;
  }

  /**
   * `color` keeps an opacity above 100 where `hex` clamps it: red at 120
   * comes out with opacity 120 from `color` and 100 from `hex`.
   */
  lemma ColorDoesNotClamp()
    ensures Color("red", 120).Some?
    ensures GetOpacity(Color("red", 120).value) == 120
    ensures GetOpacity(Hex(0xff0000, 120)) == 100
  {
    assert "red" in Presets;
    PackUnpack(0xff0000, 120);
  }
}
