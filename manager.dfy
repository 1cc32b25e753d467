/**
 * The earlier screen manager of manager.js (`BufferManager`).
 *
 * Like the display engine it owns one Construction per screen cell and a
 * cache of what each cell shows, but it has no ghost pass: every request
 * resolves its cell and emits it at once, so the whole cache always shows
 * what the constructions resolve to.  Its `processBrush` is the falsy-default
 * variant (`Terminal.ManagerBrush`), and its `point` and `pixel` records are
 * the two constructors of `Compositor.Contribution`.
 */
module Manager {
  import opened Colors
  import opened Wrappers
  import opened Compositor
  import opened Terminal
  import opened Screen

  class BufferManager {
    /** `screenWidth`, `screenHeight`. */
    const width: int
    const height: int
    /** The half-block blend used when resolving cells. */
    const blur: (Rgba, Rgba) -> Rgba
    /** What a cell's construction resolves to: `determineOutput` as a function of its list. */
    ghost const resolve: seq<Entry> -> Output
    /** `screenConstruction`. */
    const constructions: seq<Construction>
    /** What every construction holds, cell by cell. */
    ghost var screen: seq<seq<Entry>>
    /** `screenCodes`, `screenFGs`, `screenBGs`. */
    const cache: array<Cell>
    /** `currentRender`. */
    var render: seq<Token>
    /** Everything written to the terminal so far. */
    var written: seq<Token>
    /** `terminalX`, `terminalY`, `terminalFg`, `terminalBg`. */
    var term: TermState
    /** Which of `ansiColorStringFunctions` is active. */
    var mode: ColorMode
    var defaultFg: int
    var defaultBg: int

    /** One distinct construction per cell, and `screen` is what they hold. */
    ghost predicate Linked()
      reads this`screen, constructions
    {
      && width >= 1 && height >= 1
      && |constructions| == width * height == |screen|
      && (forall k, l :: 0 <= k < l < |constructions| ==> constructions[k] != constructions[l])
      && screen == EntriesOf(constructions)
    }

    /** `resolve` is `determineOutput` with this manager's blend; it depends on constants only. */
    ghost predicate Resolves()
    {
      forall s {:trigger Resolve(s, blur)} :: resolve(s) == Resolve(s, blur)
    }

    /**
     * The manager's invariant: the constructions are linked to `screen`, and
     * every cell of the cache shows what its construction resolves to.
     */
    ghost predicate Valid()
      reads this`screen, cache, constructions
    {
      && Linked()
      && cache.Length == |screen|
      && Cached(cache[..], screen, [], resolve)
    }

    /** `setSize`, `resetColor`, `setColorMode('24 bit')` and `setTerminalData()` at start-up. */
    constructor (w: int, h: int, blur: (Rgba, Rgba) -> Rgba)
      requires w >= 1 && h >= 1
      ensures Valid() && Resolves() && fresh(cache)
      ensures width == w && height == h && this.blur == blur
      ensures forall k :: 0 <= k < |constructions| ==> fresh(constructions[k])
      ensures |screen| == w * h && forall k :: 0 <= k < |screen| ==> screen[k] == []
      ensures forall k :: 0 <= k < cache.Length ==> cache[k] == BlankCell
      ensures render == [] && written == [] && term == InitialTerm && mode == TrueColor
      ensures defaultFg == DefaultFg && defaultBg == DefaultBg
    {
      width := w;
      height := h;
      this.blur := blur;
      resolve := s => Resolve(s, blur);
      var cs := NewConstructions(w * h);
      constructions := cs;
      screen := EntriesOf(cs);
      var a := NewCache(w * h);
      cache := a;
      render := [];
      written := [];
      term := InitialTerm;
      mode := TrueColor;
      defaultFg := DefaultFg;
      defaultBg := DefaultBg;
      new;
      BlankIsEmpty(blur);
      assert Store(resolve([])) == BlankCell;
      BlankCached(cache[..], screen, resolve);
    }

    /** `setFg`. */
    method SetFg(fg: int)
      modifies this`defaultFg
      ensures defaultFg == fg
    {
      defaultFg := fg;
    }

    /** `setBg`. */
    method SetBg(bg: int)
      modifies this`defaultBg
      ensures defaultBg == bg
    {
      defaultBg := bg;
    }

    /** `setColor`. */
    method SetColor(fg: int, bg: int)
      modifies this`defaultFg, this`defaultBg
      ensures defaultFg == fg && defaultBg == bg
    {
      defaultFg := fg;
      defaultBg := bg;
    }

    /** `resetColor`: back to white on transparent. */
    method ResetColor()
      modifies this`defaultFg, this`defaultBg
      ensures defaultFg == DefaultFg && defaultBg == DefaultBg
    {
      SetColor(DefaultFg, DefaultBg);
    }

    /** `setColorMode`. */
    method SetColorMode(name: string)
      modifies this`mode
      ensures mode == Terminal.SetColorMode(old(mode), name)
    {
      if name == ModeNames[0] {
        mode := TrueColor;
      } else if name == ModeNames[1] {
        mode := Palette256;
      } else if name == ModeNames[2] {
        mode := Palette8;
      }
    }

    /** The colour part of `addToCurrentRender`: reset, background, foreground. */
    method PushColors(fg: Num, bg: Num)
      modifies this`render
      ensures render == old(render) + ColorTokens(term, fg, bg, mode)
    {
      var fgChanged := NumNe(fg, term.fg);
      var bgChanged := NumNe(bg, term.bg);
      if !(fgChanged || bgChanged) {
        return;
      }
      var reset := NumOpacity(bg) == 0;
      var first: seq<Token> := [];
      if reset {
        first := [Reset];
      } else if bgChanged {
        first := [Token.SetBg(Ansi(mode, NumHex(bg)))];
      }
      render := render + first;
      if (fgChanged && NumOpacity(fg) != 0) || (fg.Truthy() && reset) {
        render := render + [Token.SetFg(Ansi(mode, NumHex(fg)))];
      }
    }

    /** `addToCurrentRender`: the colour escapes, a cursor move if needed, and the glyph. */
    method AddToCurrentRender(out: Output, x: int, y: int)
      modifies this`render, this`term
      ensures render == old(render) + Emit(old(term), out, x, y, mode).0
      ensures term == Emit(old(term), out, x, y, mode).1
    {
      PushColors(out.fg, out.bg);
      if NeedsMove(term, x, y) {
        render := render + [MoveTo(x, y)];
      }
      render := render + [Glyph(ToUint16(out.code))];
      term := TermState(Some(Pos(x, y)), out.fg, out.bg);
    }

    /**
     * `requestRender`: emit the cell only if it differs from the cache, and
     * store it in the cache either way.
     */
    method RequestRender(out: Output, x: int, y: int)
      requires width >= 1 && cache.Length == width * height && ScreenIndex(x, y, width, height).Some?
      modifies this`render, this`term, cache
      ensures var i := ScreenIndex(x, y, width, height).value;
              var d := Draw(old(cache[..]), old(term), mode, out, x, y, i);
              render == old(render) + d.tokens && term == d.term
              && cache[..] == old(cache[..])[i := Store(out)]
    {
      var i := ScreenIndex(x, y, width, height).value;
      if Differs(cache[i], out) {
        AddToCurrentRender(out, x, y);
      }
      cache[i] := Store(out);
    }

    /** `screenConstruction[index].apply(id, zIndex, data)`, with `screen` following it. */
    method ApplyAt(i: nat, id: int, z: int, data: Option<Contribution>)
      requires Linked() && i < |screen|
      modifies this`screen, constructions[i]
      ensures Linked()
      ensures screen == old(screen)[i := Applied(old(screen)[i], id, z, data)]
    {
      constructions[i].Apply(id, z, data);
      screen := screen[i := constructions[i].entries];
    }

    /**
     * `requestDraw`: apply the contribution to its cell, resolve the cell
     * and hand it to `requestRender`.  Off screen nothing changes.
     */
    method RequestDraw(id: int, data: Option<Contribution>, x: int, y: int, z: int)
      requires Valid() && Resolves()
      modifies this`render, this`term, this`screen, cache, constructions
      ensures Valid()
      ensures Pass(render, cache[..], term)
           == DirectStep(Pass(old(render), old(cache[..]), old(term)), old(screen), mode,
                         DrawRequest(id, data, x, y, z), resolve, width, height)
      ensures screen == ApplyRequest(old(screen), DrawRequest(id, data, x, y, z), width, height)
    {
      var idx := ScreenIndex(x, y, width, height);
      if idx.None? {
        return;
      }
      var i := idx.value;
      ghost var r := DrawRequest(id, data, x, y, z);
      DrawRequestCached(cache[..], screen, [], resolve, r, width, height);
      ApplyAt(i, id, z, data);
      assert screen == ApplyRequest(old(screen), r, width, height);
      var out := constructions[i].DetermineOutput(blur);
      DrawStores(old(cache[..]), old(term), mode, out, x, y, i);
      RequestRender(out, x, y);
    }

    /**
     * The requests of one buffer's `handleRender`, in order: each resolved
     * and emitted at once.
     */
    method IssueDraws(rs: seq<DrawRequest>)
      requires Valid() && Resolves()
      modifies this`render, this`term, this`screen, cache, constructions
      ensures Valid()
      ensures (screen, Pass(render, cache[..], term))
           == DirectPass(Pass(old(render), old(cache[..]), old(term)), old(screen), mode, rs, resolve, width, height)
    {
      var k := 0;
      while k < |rs|
        invariant 0 <= k <= |rs| && Valid()
        invariant DirectPass(Pass(render, cache[..], term), screen, mode, rs[k..], resolve, width, height)
               == DirectPass(Pass(old(render), old(cache[..]), old(term)), old(screen), mode, rs, resolve, width, height)
      {
        assert rs[k..][1..] == rs[k + 1..];
        RequestDraw(rs[k].id, rs[k].data, rs[k].x, rs[k].y, rs[k].z);
        k := k + 1;
      }
    }

    /** `executeRender`: write out the collected tokens. */
    method ExecuteRender()
      modifies this`render, this`written
      ensures written == old(written) + old(render) && render == []
    {
      written := written + render;
      render := [];
    }

    /**
     * What handing over the requests `rs` did: the screen is the screen
     * after them, and the cache, the terminal data and the written tokens
     * are those of their direct pass, with nothing left to write out.
     */
    twostate predicate Presented(rs: seq<DrawRequest>)
      reads this, cache
    {
      && old(width >= 1 && |screen| == width * height == cache.Length)
      && var r := DirectPass(Pass(old(render), old(cache[..]), old(term)), old(screen), mode, rs, resolve, width, height);
         && screen == r.0 && cache[..] == r.1.cache && term == r.1.term
         && written == old(written) + r.1.tokens && render == []
    }

    /**
     * What a buffer's `render` or `paint` does on the manager's side: its
     * requests, then `executeRender`.  Afterwards the whole cache shows what
     * the screen resolves to.
     */
    method Present(rs: seq<DrawRequest>)
      requires Valid() && Resolves()
      modifies this`render, this`written, this`term, this`screen, cache, constructions
      ensures Valid() && Presented(rs)
      ensures forall k :: 0 <= k < cache.Length ==> cache[k] == Store(resolve(screen[k]))
    {
      IssueDraws(rs);
      ExecuteRender();
    }
  }
}
