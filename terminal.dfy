/**
 * What main.js and manager.js share about the terminal: brushes, the colour
 * modes and the 256-colour quantiser, and the escape tokens emitted for one
 * cell together with what a terminal does with them.
 *
 * Output is a sequence of tokens rather than a string: `Reset` is ESC[0m,
 * `SetFg`/`SetBg` the colour escapes of the active colour mode, `MoveTo(x, y)`
 * is ESC[y+1;x+1H, and `Glyph(u)` the character with UTF-16 code unit `u`.
 */
module Terminal {
  import opened Colors
  import opened Wrappers
  import opened Compositor

  // ---------------------------------------------------------------------
  // Brushes

  datatype Brush = Brush(fg: int, bg: int)

  /** The engine's default colours: white at opacity 100 on transparent. */
  const DefaultFg: int := 1694498815
  const DefaultBg: int := 0

  /**
   * main.js `processBrush`: a colour that is not given (`null` or
   * `undefined`) falls back to the default; a buffer opacity below 100
   * fades both colours.
   */
  function EngineBrush(fg: Option<int>, bg: Option<int>, opacity: int, defaultFg: int, defaultBg: int): (b: Brush)
    ensures var f, k := if fg.Some? then fg.value else defaultFg, if bg.Some? then bg.value else defaultBg;
      && GetHex(b.fg) == GetHex(f) && GetHex(b.bg) == GetHex(k)
      && (CheckOpacity(opacity) == 100 ==> b == Brush(f, k))
      && (0 <= opacity < 100 && 0 <= GetOpacity(f) ==> 0 <= GetOpacity(b.fg) <= GetOpacity(f))
      && (0 <= opacity < 100 && 0 <= GetOpacity(k) ==> 0 <= GetOpacity(b.bg) <= GetOpacity(k))
  {
    var f := if fg.Some? then fg.value else defaultFg;
    var k := if bg.Some? then bg.value else defaultBg;
    if CheckOpacity(opacity) < 100 then Brush(FadeColor(f, opacity), FadeColor(k, opacity))
    else Brush(f, k)
  }

  /**
   * manager.js `processBrush`: a colour that is falsy, including a colour
   * that is not given (which defaults to 0), falls back to the default.
   */
  function ManagerBrush(fg: int, bg: int, opacity: int, defaultFg: int, defaultBg: int): (b: Brush)
    ensures var f, k := if fg == 0 then defaultFg else fg, if bg == 0 then defaultBg else bg;
      && GetHex(b.fg) == GetHex(f) && GetHex(b.bg) == GetHex(k)
      && (CheckOpacity(opacity) == 100 ==> b == Brush(f, k))
      && (0 <= opacity < 100 && 0 <= GetOpacity(f) ==> 0 <= GetOpacity(b.fg) <= GetOpacity(f))
      && (0 <= opacity < 100 && 0 <= GetOpacity(k) ==> 0 <= GetOpacity(b.bg) <= GetOpacity(k))
  {
    EngineBrush(if fg == 0 then None else Some(fg), if bg == 0 then None else Some(bg), opacity, defaultFg, defaultBg)
  }

  /**
   * The two brushes differ on an explicit colour 0: main.js keeps it at any
   * buffer opacity (fading 0 gives 0), while manager.js replaces it with the
   * default foreground, faded or not.
   */
  lemma BrushesDifferOnZero(opacity: int)
    ensures EngineBrush(Some(0), Some(0), opacity, DefaultFg, DefaultBg) == Brush(0, 0)
    ensures GetHex(ManagerBrush(0, 0, opacity, DefaultFg, DefaultBg).fg) == GetHex(DefaultFg) != 0
    ensures CheckOpacity(opacity) == 100 ==> ManagerBrush(0, 0, opacity, DefaultFg, DefaultBg) == Brush(DefaultFg, DefaultBg)
  {
  }

  // ---------------------------------------------------------------------
  // Colour modes

  datatype ColorMode = TrueColor | Palette256 | Palette8

  /** `colorModeNames`, in the order of `ansiColorStringFunctions`. */
  const ModeNames: seq<string> := ["24 bit", "8 bit", "8 color"]

  function ModeName(m: ColorMode): string
  {
    match m
    case TrueColor => ModeNames[0]
    case Palette256 => ModeNames[1]
    case Palette8 => ModeNames[2]
  }

  /** `setColorMode`: a known name selects its mode; an unknown name changes nothing. */
  function SetColorMode(mode: ColorMode, name: string): (m: ColorMode)
    ensures name !in ModeNames ==> m == mode
    ensures name in ModeNames ==> ModeName(m) == name
  {
    if name == ModeNames[0] then TrueColor
    else if name == ModeNames[1] then Palette256
    else if name == ModeNames[2] then Palette8
    else mode
  }

  // ---------------------------------------------------------------------
  // 256-colour quantiser (hexTo256Color)

  function Abs(x: int): nat { if x < 0 then -x else x }

  /** `colorOptions`: the channel levels of the 6x6x6 colour cube. */
  const ColorOptions: seq<int> := [0, 95, 135, 175, 215, 255]
  /** `greyOptions`: the 24 levels of the grey ramp, 8, 18, ..., 238, one per code 232..255. */
  function GreyOptions(): (o: seq<int>)
    ensures |o| == 24 && forall i :: 0 <= i < 24 ==> o[i] == 8 + 10 * i
  {
    seq(24, i => 8 + 10 * i)
  }

  ghost predicate Ascending(o: seq<int>)
  {
    forall i, j :: 0 <= i < j < |o| ==> o[i] <= o[j]
  }

  /**
   * The loop of `findClosest` from candidate `i`, whose distance is `last`:
   * move to the next option while it is no farther away.
   */
  function Closest(num: int, o: seq<int>, i: nat, last: int): (r: (nat, int))
    requires i + 1 < |o|
    ensures i <= r.0 < |o|
    decreases |o| - i
  {
    var delta := Abs(num - o[i + 1]);
    if delta > last then (i, last)
    else if i + 2 < |o| then Closest(num, o, i + 1, delta)
    else (i + 1, delta)
  }

  /** `findClosest` as written: the walk starts with distance `num`, not `|num - options[0]|`. */
  function FindClosestAsWritten(num: int, o: seq<int>): (r: (nat, int))
    requires |o| >= 2
    ensures r.0 < |o|
  {
    Closest(num, o, 0, num)
  }

  /** `findClosest` with the walk starting from the first option's own distance. */
  function Nearest(num: int, o: seq<int>): (r: (nat, int))
    requires |o| >= 2
    ensures r.0 < |o|
  {
    Closest(num, o, 0, Abs(num - o[0]))
  }

  /**
   * On ascending options the walk stops at a nearest option: once the next
   * option is farther, every later one is farther still.
   */
  lemma {:induction false} ClosestIsNearest(num: int, o: seq<int>, i: nat, last: int)
    requires i + 1 < |o| && Ascending(o)
    requires last == Abs(num - o[i]) && forall j :: 0 <= j <= i ==> last <= Abs(num - o[j])
    ensures var r := Closest(num, o, i, last);
            r.1 == Abs(num - o[r.0]) && forall j :: 0 <= j < |o| ==> r.1 <= Abs(num - o[j])
    decreases |o| - i
  {
    var delta := Abs(num - o[i + 1]);
    if delta > last {
      assert num < o[i + 1];
      forall j | i + 1 <= j < |o| ensures last <= Abs(num - o[j]) {
        assert o[i + 1] <= o[j];
      }
    } else if i + 2 < |o| {
      ClosestIsNearest(num, o, i + 1, delta);
    }
  }

  /** The corrected `findClosest` returns a nearest option and its distance. */
  lemma NearestIsNearest(num: int, o: seq<int>)
    requires |o| >= 2 && Ascending(o)
    ensures var r := Nearest(num, o);
            r.1 == Abs(num - o[r.0]) && forall j :: 0 <= j < |o| ==> r.1 <= Abs(num - o[j])
  {
    ClosestIsNearest(num, o, 0, Abs(num - o[0]));
  }

  /**
   * `findClosest`'s do-while loop as written, starting from distance `num`.
   * When the first option is 0 and `num` is not negative, as for every
   * channel against the cube levels, that start is the first option's own
   * distance, and the walk ends on a nearest option of an ascending list.
   */
  method FindClosest(num: int, options: seq<int>) returns (index: nat, delta: int)
    requires |options| >= 2
    ensures (index, delta) == FindClosestAsWritten(num, options)
    ensures index < |options|
    ensures options[0] == 0 && num >= 0 ==> (index, delta) == Nearest(num, options)
    ensures options[0] == 0 && num >= 0 && Ascending(options) ==>
              delta == Abs(num - options[index])
              && forall j :: 0 <= j < |options| ==> delta <= Abs(num - options[j])
  {
    if options[0] == 0 && num >= 0 && Ascending(options) {
      NearestIsNearest(num, options);
    }
    var lastDelta := num;
    var i := 0;
    while true
      invariant i + 1 < |options|
      invariant Closest(num, options, i, lastDelta) == FindClosestAsWritten(num, options)
      decreases |options| - i
    {
      var d := Abs(num - options[i + 1]);
      if d > lastDelta {
        return i, lastDelta;
      }
      lastDelta := d;
      i := i + 1;
      if !(i < |options| - 1) {
        return i, lastDelta;
      }
    }
  }

  /** `colorIndexToCode`: cube levels 0..5 per channel name a code of the 6x6x6 cube, 16..231. */
  function CubeCode(ri: int, gi: int, bi: int): (code: int)
    ensures 0 <= ri < 6 && 0 <= gi < 6 && 0 <= bi < 6 ==> 16 <= code < 232
  {
    16 + 36 * ri + 6 * gi + bi
  }

  /** `findClosest` as written or corrected, by a flag. */
  function Pick(num: int, o: seq<int>, asWritten: bool): (r: (nat, int))
    requires |o| >= 2
    ensures r.0 < |o|
  {
    if asWritten then FindClosestAsWritten(num, o) else Nearest(num, o)
  }

  /**
   * `hexTo256Color` on the channels of a hex value, for cube levels `co`
   * and grey ramp `go`: a coloured value maps each channel to its nearest
   * cube level; a grey one takes the grey ramp entry if it is strictly
   * nearer than the nearest cube grey.
   */
  function QuantizeWith(r: int, g: int, b: int, asWritten: bool, co: seq<int>, go: seq<int>): (code: int)
    requires |co| == 6 && |go| == 24
    ensures 16 <= code < 256
  {
    if r != g || r != b then
      CubeCode(Pick(r, co, asWritten).0, Pick(g, co, asWritten).0, Pick(b, co, asWritten).0)
    else
      var color := Pick(r, co, asWritten);
      var grey := Pick(r, go, asWritten);
      if grey.1 < color.1 then 232 + grey.0 else CubeCode(color.0, color.0, color.0)
  }

  /** `hexTo256Color` as written: a code of the 256-colour palette outside the 16 system colours. */
  function HexTo256AsWritten(hex: int): (code: int)
    requires 0 <= hex < Two24
    ensures 16 <= code < 256
  {
    QuantizeWith(hex / Two16, (hex / Two8) % Two8, hex % Two8, true, ColorOptions, GreyOptions())
  }

  /** `hexTo256Color` with the corrected walk start. */
  function HexTo256(hex: int): (code: int)
    requires 0 <= hex < Two24
    ensures 16 <= code < 256
  {
    QuantizeWith(hex / Two16, (hex / Two8) % Two8, hex % Two8, false, ColorOptions, GreyOptions())
  }

  /** The cube cell a code in 16..231 stands for. */
  function CubeCell(code: int): (int, int, int)
  {
    ((code - 16) / 36, ((code - 16) / 6) % 6, (code - 16) % 6)
  }

  lemma CubeCellOfCode(ri: int, gi: int, bi: int)
    requires 0 <= ri < 6 && 0 <= gi < 6 && 0 <= bi < 6
    ensures 16 <= CubeCode(ri, gi, bi) < 232
    ensures CubeCell(CubeCode(ri, gi, bi)) == (ri, gi, bi)
  {
    DivModUnique(36 * ri + 6 * gi + bi, ri, 6 * gi + bi, 36);
    DivModUnique(36 * ri + 6 * gi + bi, 6 * ri + gi, bi, 6);
    DivModUnique(6 * ri + gi, ri, gi, 6);
  }

  lemma OptionsAscending()
    ensures Ascending(ColorOptions) && Ascending(GreyOptions())
  {
  }

  /** The nearest level of `o` to `num`, as a property of an index. */
  ghost predicate IsNearest(num: int, o: seq<int>, k: int)
  {
    0 <= k < |o| && forall j :: 0 <= j < |o| ==> Abs(num - o[k]) <= Abs(num - o[j])
  }

  /**
   * What `hexTo256Color` computes for a coloured value, stated on the code it
   * returns: the code is a cube colour whose cell holds, channel by channel,
   * a nearest cube level.
   */
  lemma ColoredNearest(r: int, g: int, b: int, co: seq<int>, go: seq<int>)
    requires |co| == 6 && |go| == 24 && Ascending(co) && Ascending(go)
    requires r != g || r != b
    ensures var code := QuantizeWith(r, g, b, false, co, go);
            var cell := CubeCell(code);
            code < 232 && IsNearest(r, co, cell.0) && IsNearest(g, co, cell.1) && IsNearest(b, co, cell.2)
  {
    NearestIsNearest(r, co);
    NearestIsNearest(g, co);
    NearestIsNearest(b, co);
    CubeCellOfCode(Nearest(r, co).0, Nearest(g, co).0, Nearest(b, co).0);
  }

  /**
   * What `hexTo256Color` computes for a grey value: the grey ramp entry
   * nearest to it when that is strictly nearer than every cube level, and
   * otherwise the nearest cube grey, which is then no farther than any ramp
   * entry.
   */
  lemma GreyNearest(v: int, co: seq<int>, go: seq<int>)
    requires |co| == 6 && |go| == 24 && Ascending(co) && Ascending(go)
    ensures var code := QuantizeWith(v, v, v, false, co, go);
            var cell := CubeCell(code);
            && (code >= 232 ==>
                  IsNearest(v, go, code - 232)
                  && forall j :: 0 <= j < 6 ==> Abs(v - go[code - 232]) < Abs(v - co[j]))
            && (code < 232 ==>
                  cell.0 == cell.1 == cell.2 && IsNearest(v, co, cell.0)
                  && forall j :: 0 <= j < 24 ==> Abs(v - co[cell.0]) <= Abs(v - go[j]))
  {
    NearestIsNearest(v, co);
    NearestIsNearest(v, go);
    var c := Nearest(v, co).0;
    CubeCellOfCode(c, c, c);
  }

  /**
   * The nearest-level property of `hexTo256Color` for one triple of
   * channels, cube levels `co` and grey ramp `go`: a coloured triple gets a
   * nearest cube level per channel; a grey one gets the ramp entry only when
   * it is strictly nearer than every cube level, and otherwise the nearest
   * cube grey.
   */
  ghost predicate PaletteNearest(r: int, g: int, b: int, co: seq<int>, go: seq<int>, code: int)
    requires |co| == 6 && |go| == 24
  {
    var cell := CubeCell(code);
    && (r != g || r != b ==>
          code < 232 && IsNearest(r, co, cell.0) && IsNearest(g, co, cell.1) && IsNearest(b, co, cell.2))
    && (r == g == b && code >= 232 ==>
          IsNearest(r, go, code - 232) && forall j :: 0 <= j < 6 ==> Abs(r - go[code - 232]) < Abs(r - co[j]))
    && (r == g == b && code < 232 ==>
          cell.0 == cell.1 == cell.2 && IsNearest(r, co, cell.0)
          && forall j :: 0 <= j < 24 ==> Abs(r - co[cell.0]) <= Abs(r - go[j]))
  }

  lemma QuantizeNearest(r: int, g: int, b: int, co: seq<int>, go: seq<int>)
    requires |co| == 6 && |go| == 24 && Ascending(co) && Ascending(go)
    ensures PaletteNearest(r, g, b, co, go, QuantizeWith(r, g, b, false, co, go))
  {
    if r != g || r != b {
      ColoredNearest(r, g, b, co, go);
    } else {
      GreyNearest(r, co, go);
    }
  }

  /** `hexTo256Color` picks, channel by channel, a nearest level of the 256-colour palette. */
  lemma HexTo256Nearest(hex: int)
    requires 0 <= hex < Two24
    ensures PaletteNearest(hex / Two16, (hex / Two8) % Two8, hex % Two8, ColorOptions, GreyOptions(), HexTo256(hex))
  {
    OptionsAscending();
    QuantizeNearest(hex / Two16, (hex / Two8) % Two8, hex % Two8, ColorOptions, GreyOptions());
  }

  /**
   * The start `num` is the right one against the cube levels, which begin
   * at 0: as written and corrected agree on every coloured value and only
   * the grey ramp, which begins at 8, tells them apart.
   */
  lemma ColoredAsWrittenAgrees(hex: int)
    requires 0 <= hex < Two24
    requires hex / Two16 != (hex / Two8) % Two8 || hex / Two16 != hex % Two8
    ensures HexTo256AsWritten(hex) == HexTo256(hex)
  {
    var r, g, b := hex / Two16, (hex / Two8) % Two8, hex % Two8;
    assert Pick(r, ColorOptions, true) == Pick(r, ColorOptions, false);
    assert Pick(g, ColorOptions, true) == Pick(g, ColorOptions, false);
    assert Pick(b, ColorOptions, true) == Pick(b, ColorOptions, false);
  }

  /**
   * As written, the grey 0x050505 is sent to cube black (16) although grey
   * ramp entry 232 (level 8) is nearer: the grey walk's starting distance
   * is 5 where it should be 3, so the ramp never looks better than black.
   */
  lemma GreyStartAsWritten()
    ensures HexTo256AsWritten(0x050505) == 16
    ensures HexTo256(0x050505) == 232
  {
    assert 0x050505 / Two16 == 5 && (0x050505 / Two8) % Two8 == 5 && 0x050505 % Two8 == 5;
    assert GreyOptions()[0] == 8 && GreyOptions()[1] == 18;
  }

  // ---------------------------------------------------------------------
  // Escape tokens for one cell (addToCurrentRender)

  datatype AnsiColor =
    | Rgb(hex: int)          // ESC[38;2;r;g;bm / ESC[48;2;r;g;bm
    | Index256(code: int)    // ESC[38;5;nm / ESC[48;5;nm
    | Basic8(hex: int)       // ESC[30+nm / ESC[40+nm, n from the HSV rule

  datatype Token = Reset | SetBg(color: AnsiColor) | SetFg(color: AnsiColor) | MoveTo(x: int, y: int) | Glyph(unit: int)

  /** The escape a colour mode uses for a hex value. */
  function Ansi(mode: ColorMode, hex: int): (c: AnsiColor)
    requires 0 <= hex < Two24
    ensures c.Index256? <==> mode == Palette256
    ensures c.Index256? ==> 16 <= c.code < 256
    ensures !c.Index256? ==> c.hex == hex && (c.Rgb? <==> mode == TrueColor)
  {
    match mode
    case TrueColor => Rgb(hex)
    case Palette256 => Index256(HexTo256(hex))
    case Palette8 => Basic8(hex)
  }

  /**
   * `>> 24` and `& 0xffffff` on a resolved colour.  Resolved colours are
   * whole numbers or NaN, and both operators read NaN as 0.
   */
  function NumOpacity(x: Num): (o: int)
    ensures -128 <= o < 128
    ensures x.NaN? ==> o == 0
  {
    if x.NaN? then 0 else GetOpacity(x.v.Floor)
  }

  function NumHex(x: Num): (h: int)
    ensures 0 <= h < Two24
    ensures x.NaN? ==> h == 0
  {
    if x.NaN? then 0 else GetHex(x.v.Floor)
  }

  datatype Pos = Pos(x: int, y: int)

  /** `terminalX`, `terminalY` (`null` before the first glyph), `terminalFg`, `terminalBg`. */
  datatype TermState = TermState(pos: Option<Pos>, fg: Num, bg: Num)

  /** `setTerminalData()` with its defaults. */
  const InitialTerm: TermState := TermState(None, N(0), N(0))

  /**
   * The colour escapes for a cell: nothing when both colours are what the
   * terminal already has; a reset when the new background is transparent.
   */
  function ColorTokens(st: TermState, fg: Num, bg: Num, mode: ColorMode): (toks: seq<Token>)
    ensures !NumNe(fg, st.fg) && !NumNe(bg, st.bg) ==> toks == []
    ensures Reset in toks <==> (NumNe(fg, st.fg) || NumNe(bg, st.bg)) && NumOpacity(bg) == 0
    ensures |toks| <= 2
  {
    var fgChanged, bgChanged := NumNe(fg, st.fg), NumNe(bg, st.bg);
    if fgChanged || bgChanged then
      var reset := NumOpacity(bg) == 0;
      var first := if reset then [Reset] else if bgChanged then [SetBg(Ansi(mode, NumHex(bg)))] else [];
      var second := if (fgChanged && NumOpacity(fg) != 0) || (fg.Truthy() && reset)
                    then [SetFg(Ansi(mode, NumHex(fg)))] else [];
      first + second
    else []
  }

  /** `x != terminalX + 1 || y != terminalY`: the cursor is not just after the last glyph. */
  predicate NeedsMove(st: TermState, x: int, y: int): (b: bool)
    ensures !b <==> st.pos == Some(Pos(x - 1, y))
  {
    st.pos.None? || x != st.pos.value.x + 1 || y != st.pos.value.y
  }

  /** The tokens `addToCurrentRender` pushes for a cell, and the terminal data after it. */
  function Emit(st: TermState, o: Output, x: int, y: int, mode: ColorMode): (r: (seq<Token>, TermState))
    ensures r.1 == TermState(Some(Pos(x, y)), o.fg, o.bg)
    ensures |r.0| >= 1 && r.0[|r.0| - 1] == Glyph(ToUint16(o.code))
  {
    var move := if NeedsMove(st, x, y) then [MoveTo(x, y)] else [];
    (ColorTokens(st, o.fg, o.bg, mode) + move + [Glyph(ToUint16(o.code))], TermState(Some(Pos(x, y)), o.fg, o.bg))
  }

  // ---------------------------------------------------------------------
  // What a terminal does with the tokens

  /** Active attributes; `None` is the terminal's default colour. */
  datatype Attr = Attr(fg: Option<AnsiColor>, bg: Option<AnsiColor>)
  datatype Shown = Shown(unit: int, attr: Attr)
  datatype Tty = Tty(cursor: Pos, attr: Attr, cells: map<Pos, Shown>)

  function Interpret(t: Tty, tok: Token): Tty
  {
    match tok
    case Reset => t.(attr := Attr(None, None))
    case SetBg(c) => t.(attr := t.attr.(bg := Some(c)))
    case SetFg(c) => t.(attr := t.attr.(fg := Some(c)))
    case MoveTo(x, y) => t.(cursor := Pos(x, y))
    case Glyph(u) => t.(cells := t.cells[t.cursor := Shown(u, t.attr)], cursor := Pos(t.cursor.x + 1, t.cursor.y))
  }

  function Run(t: Tty, toks: seq<Token>): Tty
    decreases |toks|
  {
    if toks == [] then t else Run(Interpret(t, toks[0]), toks[1..])
  }

  lemma {:induction false} RunAppend(t: Tty, a: seq<Token>, b: seq<Token>)
    ensures Run(t, a + b) == Run(Run(t, a), b)
    decreases |a|
  {
    if a == [] {
      assert a + b == b;
    } else {
      assert (a + b)[1..] == a[1..] + b;
      RunAppend(Interpret(t, a[0]), a[1..], b);
    }
  }

  /** A background is shown as the mode's escape, or the default when transparent. */
  ghost predicate ShowsBg(a: Attr, bg: Num, mode: ColorMode)
  {
    if NumOpacity(bg) == 0 then a.bg == None else a.bg == Some(Ansi(mode, NumHex(bg)))
  }

  /** A visible foreground is shown as the mode's escape. */
  ghost predicate ShowsFg(a: Attr, fg: Num, mode: ColorMode)
  {
    NumOpacity(fg) != 0 ==> a.fg == Some(Ansi(mode, NumHex(fg)))
  }

  /** The terminal data agrees with the terminal: cursor after the last glyph, colours active. */
  ghost predicate Synced(st: TermState, t: Tty, mode: ColorMode)
  {
    && (st.pos.Some? ==> t.cursor == Pos(st.pos.value.x + 1, st.pos.value.y))
    && ShowsFg(t.attr, st.fg, mode)
    && ShowsBg(t.attr, st.bg, mode)
  }

  lemma InitialSynced(cursor: Pos, cells: map<Pos, Shown>, mode: ColorMode)
    ensures Synced(InitialTerm, Tty(cursor, Attr(None, None), cells), mode)
  {
  }

  lemma ColorTokensSync(st: TermState, t: Tty, fg: Num, bg: Num, mode: ColorMode)
    requires Synced(st, t, mode)
    ensures var t' := Run(t, ColorTokens(st, fg, bg, mode));
            ShowsFg(t'.attr, fg, mode) && ShowsBg(t'.attr, bg, mode)
            && t'.cursor == t.cursor && t'.cells == t.cells
  {
    var fgChanged, bgChanged := NumNe(fg, st.fg), NumNe(bg, st.bg);
    if fgChanged || bgChanged {
      var reset := NumOpacity(bg) == 0;
      var first := if reset then [Reset] else if bgChanged then [SetBg(Ansi(mode, NumHex(bg)))] else [];
      var second := if (fgChanged && NumOpacity(fg) != 0) || (fg.Truthy() && reset)
                    then [SetFg(Ansi(mode, NumHex(fg)))] else [];
      RunAppend(t, first, second);
      assert NumOpacity(fg) != 0 ==> fg.Truthy();
    }
  }

  /**
   * The tokens emitted for a cell, run on a terminal the engine is in sync
   * with, put the glyph at (x, y) in the cell's colours, change no other
   * cell, and leave the engine in sync: colour escapes and cursor moves are
   * left out only where the terminal already has them.
   */
  lemma EmitShows(st: TermState, t: Tty, o: Output, x: int, y: int, mode: ColorMode)
    requires Synced(st, t, mode)
    ensures var (toks, st') := Emit(st, o, x, y, mode);
            var t' := Run(t, toks);
            && Synced(st', t', mode)
            && t'.cells == t.cells[Pos(x, y) := Shown(ToUint16(o.code), t'.attr)]
            && ShowsFg(t'.attr, o.fg, mode) && ShowsBg(t'.attr, o.bg, mode)
  {
    var colors := ColorTokens(st, o.fg, o.bg, mode);
    var move := if NeedsMove(st, x, y) then [MoveTo(x, y)] else [];
    ColorTokensSync(st, t, o.fg, o.bg, mode);
    var t1 := Run(t, colors);
    RunAppend(t, colors, move);
    var t2 := Run(t1, move);
    assert t2.cursor == Pos(x, y) && t2.attr == t1.attr && t2.cells == t.cells;
    RunAppend(t, colors + move, [Glyph(ToUint16(o.code))]);
  }

  /** Emitting cells one after another from a synced state keeps the engine in sync. */
  function EmitAll(st: TermState, cells: seq<(Output, int, int)>, mode: ColorMode): (r: (seq<Token>, TermState))
    decreases |cells|
  {
    if cells == [] then ([], st)
    else
      var first := Emit(st, cells[0].0, cells[0].1, cells[0].2, mode);
      var rest := EmitAll(first.1, cells[1..], mode);
      (first.0 + rest.0, rest.1)
  }

  lemma {:induction false} EmitAllSynced(st: TermState, t: Tty, cells: seq<(Output, int, int)>, mode: ColorMode)
    requires Synced(st, t, mode)
    ensures Synced(EmitAll(st, cells, mode).1, Run(t, EmitAll(st, cells, mode).0), mode)
    decreases |cells|
  {
    if cells != [] {
      var (toks, st1) := Emit(st, cells[0].0, cells[0].1, cells[0].2, mode);
      EmitShows(st, t, cells[0].0, cells[0].1, cells[0].2, mode);
      EmitAllSynced(st1, Run(t, toks), cells[1..], mode);
      RunAppend(t, toks, EmitAll(st1, cells[1..], mode).0);
    }
  }

  /** Two cells side by side on a row: the second needs no cursor move. */
  lemma AdjacentNoMove(st: TermState, o: Output, o': Output, x: int, y: int, mode: ColorMode)
    ensures var st' := Emit(st, o, x, y, mode).1;
            !NeedsMove(st', x + 1, y) && Emit(st', o', x + 1, y, mode).0 ==
              ColorTokens(st', o'.fg, o'.bg, mode) + [Glyph(ToUint16(o'.code))]
  {
  }
}
