/**
 * The display engine of main.js (`TerminalDisplayEngine`).
 *
 * The engine owns one Construction per screen cell and a cache of what
 * each cell shows.  A direct draw applies a buffer's contribution, resolves
 * the cell and emits it at once if it differs from the cache.  A ghost draw
 * only applies the contribution and remembers the cell; the ghost pass then
 * resolves and emits every remembered cell in one go.  Emitted tokens
 * collect in `render` (`currentRender`) until `ExecuteRender` writes them out;
 * `written` is everything written so far.
 *
 * Buffers are seen through the requests their ghost callbacks issue
 * (`Surface`).
 */
module Engine {
  import opened Colors
  import opened Wrappers
  import opened Compositor
  import opened Terminal
  import opened Screen

  /** `bufferFunctions`: the callback a queued buffer is given. */
  datatype QueueMethod = RenderMethod | PaintMethod

  /**
   * A buffer as the engine calls it: whether it is `persistent`, and the
   * requests its `ghostRender` and `ghostPaint` callbacks issue.
   */
  datatype Surface = Surface(persistent: bool, ghostRender: seq<DrawRequest>, ghostPaint: seq<DrawRequest>)

  function Callback(s: Surface, m: QueueMethod): seq<DrawRequest>
  {
    if m == RenderMethod then s.ghostRender else s.ghostPaint
  }

  /** What `callBuffers` issues for one buffer: nothing if it is persistent, else its callback. */
  function Unless(s: Surface, m: QueueMethod): seq<DrawRequest>
  {
    if s.persistent then [] else Callback(s, m)
  }

  /** What `callBuffers` issues: the callback of every buffer that is not persistent, in order. */
  function GroupRequests(buffers: seq<Surface>, m: QueueMethod): (r: seq<DrawRequest>)
    ensures (forall b :: b in buffers ==> b.persistent) ==> r == []
    ensures forall q :: q in r ==> exists b :: b in buffers && !b.persistent && q in Callback(b, m)
    decreases |buffers|
  {
    if buffers == [] then [] else Unless(buffers[0], m) + GroupRequests(buffers[1..], m)
  }

  /** What `executeQueue` issues: the callback of every queued buffer, persistent or not. */
  function QueueRequests(queue: seq<(Surface, QueueMethod)>): (r: seq<DrawRequest>)
    ensures forall q :: q in r ==> exists e :: e in queue && q in Callback(e.0, e.1)
    decreases |queue|
  {
    if queue == [] then []
    else Callback(queue[0].0, queue[0].1) + QueueRequests(queue[1..])
  }

  /** Drawing after tokens already collected appends to them. */
  lemma ExtendTokens(p: Pass, prefix: seq<Token>, mode: ColorMode, outs: seq<Output>, i: nat, width: int)
    requires width >= 1 && |outs| == |p.cache| && i < |p.cache|
    ensures var q := Extend(p, mode, outs, i, width);
            Extend(p.(tokens := prefix + p.tokens), mode, outs, i, width) == q.(tokens := prefix + q.tokens)
  {
    var d := Draw(p.cache, p.term, mode, outs[i], i % width, i / width, i);
    assert prefix + p.tokens + d.tokens == prefix + (p.tokens + d.tokens);
  }

  class DisplayEngine {
    /** `screenWidth`, `screenHeight` (the terminal's columns and rows). */
    const width: int
    const height: int
    /** The half-block blend `blurRGBA` used when resolving cells. */
    const blur: (Rgba, Rgba) -> Rgba
    /** What a cell's construction resolves to: `determineOutput` as a function of its list. */
    ghost const resolve: seq<Entry> -> Output
    /** `screenConstruction`. */
    const constructions: seq<Construction>
    /** What every construction holds, cell by cell. */
    ghost var screen: seq<seq<Entry>>
    /** `screenCodes`, `screenFGs`, `screenBGs`. */
    const cache: array<Cell>
    /** `currentRender`. */
    var render: seq<Token>
    /** Everything written to the terminal so far. */
    var written: seq<Token>
    /** `terminalX`, `terminalY`, `terminalFg`, `terminalBg`. */
    var term: TermState
    /** Which of `ansiColorStringFunctions` is active. */
    var mode: ColorMode
    /** `ghostRenderIndeces`, in insertion order. */
    var pending: seq<nat>
    /** `customGroupQueue`. */
    var queue: seq<(Surface, QueueMethod)>
    var pauseRenders: bool
    var defaultFg: int
    var defaultBg: int

    /**
     * One distinct construction per cell, and `screen` is what they hold.
     */
    ghost predicate Linked()
      reads this`screen, constructions
    {
      && width >= 1 && height >= 1
      && |constructions| == width * height == |screen|
      && (forall k, l :: 0 <= k < l < |constructions| ==> constructions[k] != constructions[l])
      && screen == EntriesOf(constructions)
    }

    /**
     * `resolve` is `determineOutput` with this engine's blend.  It depends on
     * constants only, so once the constructor has established it no method
     * needs to promise it again.
     */
    ghost predicate Resolves()
    {
      forall s {:trigger Resolve(s, blur)} :: resolve(s) == Resolve(s, blur)
    }

    /**
     * The screen's invariant: the constructions are linked to `screen`, and
     * every cell not waiting for a ghost render is cached as what it
     * resolves to.
     */
    ghost predicate Valid()
      reads this`screen, this`pending, cache, constructions
    {
      && Linked()
      && cache.Length == |screen|
      && PendingOk(pending, cache.Length)
      && Cached(cache[..], screen, pending, resolve)
    }

    /** `setSize`, `resetColor`, `setColorMode('24 bit')` and `setTerminalData()` at start-up. */
    constructor (w: int, h: int, blur: (Rgba, Rgba) -> Rgba)
      requires w >= 1 && h >= 1
      ensures Valid() && Resolves() && fresh(cache)
      ensures width == w && height == h && this.blur == blur
      ensures forall k :: 0 <= k < |constructions| ==> fresh(constructions[k])
      ensures |screen| == w * h && forall k :: 0 <= k < |screen| ==> screen[k] == []
      ensures forall k :: 0 <= k < cache.Length ==> cache[k] == BlankCell
      ensures render == [] && written == [] && term == InitialTerm && mode == TrueColor
      ensures pending == [] && queue == [] && !pauseRenders
      ensures defaultFg == DefaultFg && defaultBg == DefaultBg
    {
      width := w;
      height := h;
      this.blur := blur;
      resolve := s => Resolve(s, blur);
      var cs := NewConstructions(w * h);
      constructions := cs;
      screen := EntriesOf(cs);
      var a := NewCache(w * h);
      cache := a;
      render := [];
      written := [];
      term := InitialTerm;
      mode := TrueColor;
      pending := [];
      queue := [];
      pauseRenders := false;
      defaultFg := DefaultFg;
      defaultBg := DefaultBg;
      new;
      BlankIsEmpty(blur);
      assert Store(resolve([])) == BlankCell;
      BlankCached(cache[..], screen, resolve);
    }

    /** `setFg`. */
    method SetFg(fg: int)
      modifies this`defaultFg
      ensures defaultFg == fg
    {
      defaultFg := fg;
    }

    /** `setBg`. */
    method SetBg(bg: int)
      modifies this`defaultBg
      ensures defaultBg == bg
    {
      defaultBg := bg;
    }

    /** `setColor`. */
    method SetColor(fg: int, bg: int)
      modifies this`defaultFg, this`defaultBg
      ensures defaultFg == fg && defaultBg == bg
    {
      defaultFg := fg;
      defaultBg := bg;
    }

    /** `resetColor`: back to white on transparent. */
    method ResetColor()
      modifies this`defaultFg, this`defaultBg
      ensures defaultFg == DefaultFg && defaultBg == DefaultBg
    {
      SetColor(DefaultFg, DefaultBg);
    }

    /** `setColorMode`. */
    method SetColorMode(name: string)
      modifies this`mode
      ensures mode == Terminal.SetColorMode(old(mode), name)
    {
      if name == ModeNames[0] {
        mode := TrueColor;
      } else if name == ModeNames[1] {
        mode := Palette256;
      } else if name == ModeNames[2] {
        mode := Palette8;
      }
    }

    /** `sample`: the cached colours of a cell, zeros off screen. */
    function Sample(x: int, y: int): (r: (int, int))
      requires width >= 1 && cache.Length == width * height
      reads this, cache
      ensures ScreenIndex(x, y, width, height).None? ==> r == (0, 0)
      ensures ScreenIndex(x, y, width, height).Some? ==>
                var i := ScreenIndex(x, y, width, height).value;
                r == (cache[i].fg, cache[i].bg)
    {
      match ScreenIndex(x, y, width, height)
      case None => (0, 0)
      case Some(i) => (cache[i].fg, cache[i].bg)
    }

    /** A sampled cell that is not waiting for a ghost render shows what it resolves to. */
    lemma SampleResolved(x: int, y: int)
      requires Valid() && 0 <= x < width && 0 <= y < height
      requires ScreenIndex(x, y, width, height).value !in pending
      ensures var o := Store(resolve(screen[ScreenIndex(x, y, width, height).value]));
              Sample(x, y) == (o.fg, o.bg)
    {
    }

    /** The colour part of `addToCurrentRender`: reset, background, foreground. */
    method PushColors(fg: Num, bg: Num)
      modifies this`render
      ensures render == old(render) + ColorTokens(term, fg, bg, mode)
    {
      var fgChanged := NumNe(fg, term.fg);
      var bgChanged := NumNe(bg, term.bg);
      if !(fgChanged || bgChanged) {
        return;
      }
      var reset := NumOpacity(bg) == 0;
      var first: seq<Token> := [];
      if reset {
        first := [Reset];
      } else if bgChanged {
        first := [Token.SetBg(Ansi(mode, NumHex(bg)))];
      }
      render := render + first;
      if (fgChanged && NumOpacity(fg) != 0) || (fg.Truthy() && reset) {
        render := render + [Token.SetFg(Ansi(mode, NumHex(fg)))];
      }
    }

    /** `addToCurrentRender`: emit and cache a cell unless the cache already shows it. */
    method AddToCurrentRender(out: Output, x: int, y: int, i: nat)
      requires i < cache.Length
      modifies this`render, this`term, cache
      ensures var d := Draw(old(cache[..]), old(term), mode, out, x, y, i);
              render == old(render) + d.tokens && cache[..] == d.cache && term == d.term
    {
      if !Differs(cache[i], out) {
        return;
      }
      PushColors(out.fg, out.bg);
      if NeedsMove(term, x, y) {
        render := render + [MoveTo(x, y)];
      }
      render := render + [Glyph(ToUint16(out.code))];
      term := TermState(Some(Pos(x, y)), out.fg, out.bg);
      cache[i] := Store(out);
    }

    /** `screenConstruction[index].apply(id, zIndex, data)`, with `screen` following it. */
    method ApplyAt(i: nat, id: int, z: int, data: Option<Contribution>)
      requires Linked() && i < |screen|
      modifies this`screen, constructions[i]
      ensures Linked()
      ensures screen == old(screen)[i := Applied(old(screen)[i], id, z, data)]
    {
      constructions[i].Apply(id, z, data);
      screen := screen[i := constructions[i].entries];
    }

    /** `requestDraw`: apply the contribution to its cell, resolve the cell and emit it. */
    method RequestDraw(id: int, data: Option<Contribution>, x: int, y: int, z: int)
      requires Valid() && Resolves()
      modifies this`render, this`term, this`screen, cache, constructions
      ensures Valid() && pending == old(pending)
      ensures Pass(render, cache[..], term)
           == DirectStep(Pass(old(render), old(cache[..]), old(term)), old(screen), mode,
                         DrawRequest(id, data, x, y, z), resolve, width, height)
      ensures screen == ApplyRequest(old(screen), DrawRequest(id, data, x, y, z), width, height)
    {
      var idx := ScreenIndex(x, y, width, height);
      if idx.None? {
        return;
      }
      var i := idx.value;
      ghost var r := DrawRequest(id, data, x, y, z);
      DrawRequestCached(cache[..], screen, pending, resolve, r, width, height);
      ghost var c0 := cache[..];
      ApplyAt(i, id, z, data);
      assert screen == ApplyRequest(old(screen), r, width, height);
      var out := constructions[i].DetermineOutput(blur);
      assert out == resolve(screen[i]);
      DrawStores(cache[..], term, mode, out, x, y, i);
      label Resolved:
      AddToCurrentRender(out, x, y, i);
      assert cache[..] == c0[i := Store(resolve(screen[i]))];
      assert unchanged@Resolved(this`screen, constructions);
    }

    /** `requestGhostDraw`: apply the contribution and remember the cell for the ghost pass. */
    method RequestGhostDraw(id: int, data: Option<Contribution>, x: int, y: int, z: int)
      requires Valid()
      modifies this`pending, this`screen, constructions
      ensures Valid()
      ensures screen == ApplyRequest(old(screen), DrawRequest(id, data, x, y, z), width, height)
      ensures pending == AddPending(old(pending), DrawRequest(id, data, x, y, z), width, height)
    {
      var idx := ScreenIndex(x, y, width, height);
      if idx.None? {
        return;
      }
      var i := idx.value;
      ghost var r := DrawRequest(id, data, x, y, z);
      GhostRequestCached(cache[..], screen, pending, resolve, r, width, height);
      ApplyAt(i, id, z, data);
      assert screen == ApplyRequest(old(screen), r, width, height);
      if i !in pending {
        pending := pending + [i];
      }
    }

    /** `executeRender`: write out the collected tokens. */
    method ExecuteRender()
      modifies this`render, this`written
      ensures written == old(written) + old(render) && render == []
    {
      written := written + render;
      render := [];
    }

    /**
     * The requests of a pixel buffer's `render` or `paint`, in order: each
     * resolved and emitted at once.  Cells waiting for the ghost pass stay
     * waiting.
     */
    method IssueDraws(rs: seq<DrawRequest>)
      requires Valid() && Resolves()
      modifies this`render, this`term, this`screen, cache, constructions
      ensures Valid() && pending == old(pending)
      ensures (screen, Pass(render, cache[..], term))
           == DirectPass(Pass(old(render), old(cache[..]), old(term)), old(screen), mode, rs, resolve, width, height)
    {
      var k := 0;
      while k < |rs|
        invariant 0 <= k <= |rs| && Valid() && pending == old(pending)
        invariant DirectPass(Pass(render, cache[..], term), screen, mode, rs[k..], resolve, width, height)
               == DirectPass(Pass(old(render), old(cache[..]), old(term)), old(screen), mode, rs, resolve, width, height)
      {
        assert rs[k..][1..] == rs[k + 1..];
        RequestDraw(rs[k].id, rs[k].data, rs[k].x, rs[k].y, rs[k].z);
        k := k + 1;
      }
    }

    /**
     * What handing over the direct requests `rs` did: the screen is the
     * screen after them, and the cache, the terminal data and the written
     * tokens are those of their direct pass, with nothing left to write out.
     */
    twostate predicate Presented(rs: seq<DrawRequest>)
      reads this, cache
    {
      && old(width >= 1 && |screen| == width * height == cache.Length)
      && var r := DirectPass(Pass(old(render), old(cache[..]), old(term)), old(screen), mode, rs, resolve, width, height);
         && screen == r.0 && cache[..] == r.1.cache && term == r.1.term
         && written == old(written) + r.1.tokens && render == []
    }

    /** A pixel buffer's `render` or `paint` on the engine's side: its requests, then `executeRender`. */
    method Present(rs: seq<DrawRequest>)
      requires Valid() && Resolves()
      modifies this`render, this`written, this`term, this`screen, cache, constructions
      ensures Valid() && Presented(rs) && pending == old(pending)
    {
      IssueDraws(rs);
      ExecuteRender();
    }

    /** The body of `executeGhostRender`'s loop: resolve a waiting cell and hand it to `addToCurrentRender`. */
    method DrawWaiting(i: nat)
      requires width >= 1 && cache.Length == |screen| && i < |screen|
      requires screen == EntriesOf(constructions) && Resolves() && CellInRange(cache[i])
      modifies this`render, this`term, cache
      ensures Pass(render, cache[..], term) == Extend(Pass(old(render), old(cache[..]), old(term)), mode, ResolveAll(screen, resolve), i, width)
      ensures cache[..] == old(cache[..])[i := Store(resolve(screen[i]))]
    {
      var x, y := i % width, i / width;
      var out := constructions[i].DetermineOutput(blur);
      DrawStores(cache[..], term, mode, out, x, y, i);
      AddToCurrentRender(out, x, y, i);
    }

    /**
     * The pass so far: after the first `k` waiting cells, the tokens, cache
     * and terminal data are those of the ghost pass over them, and only the
     * rest still wait.
     */
    ghost predicate PassedTo(cache0: seq<Cell>, term0: TermState, render0: seq<Token>, k: nat)
      requires width >= 1 && |cache0| == cache.Length == |screen| && k <= |pending| && PendingOk(pending, cache.Length)
      reads this, cache
    {
      var p := GhostPass(cache0, term0, mode, ResolveAll(screen, resolve), pending[..k], width);
      && Pass(render, cache[..], term) == p.(tokens := render0 + p.tokens)
      && Cached(cache[..], screen, pending[k..], resolve)
    }

    /** One turn of `executeGhostRender`'s loop: draw the `k`-th waiting cell. */
    method DrawNext(ghost cache0: seq<Cell>, ghost term0: TermState, ghost render0: seq<Token>, k: nat)
      requires width >= 1 && |cache0| == cache.Length == |screen| && k < |pending| && PendingOk(pending, cache.Length)
      requires screen == EntriesOf(constructions) && Resolves()
      requires PassedTo(cache0, term0, render0, k)
      modifies this`render, this`term, cache
      ensures PassedTo(cache0, term0, render0, k + 1)
    {
      var outs := ResolveAll(screen, resolve);
      StoreNextCached(cache[..], screen, pending, k, resolve);
      ghost var p := GhostPass(cache0, term0, mode, outs, pending[..k], width);
      assert pending[..k + 1][..k] == pending[..k];
      ExtendTokens(p, render0, mode, outs, pending[k], width);
      ghost var q := Extend(p, mode, outs, pending[k], width);
      assert GhostPass(cache0, term0, mode, outs, pending[..k + 1], width) == q;
      ghost var stored := cache[..][pending[k] := Store(resolve(screen[pending[k]]))];
      assert Cached(stored, screen, pending[k + 1..], resolve);
      DrawWaiting(pending[k]);
      assert cache[..] == stored;
      assert Pass(render, cache[..], term) == q.(tokens := render0 + q.tokens);
    }

    /**
     * The loop of `executeGhostRender`: each waiting cell, in order.  Once
     * every waiting cell is drawn, the whole cache shows what the screen
     * resolves to.
     */
    method DrawPending()
      requires width >= 1 && cache.Length == |screen| && PendingOk(pending, cache.Length)
      requires screen == EntriesOf(constructions) && Resolves()
      requires Cached(cache[..], screen, pending, resolve)
      modifies this`render, this`term, cache
      ensures var p := GhostPass(old(cache[..]), old(term), mode, ResolveAll(screen, resolve), pending, width);
              render == old(render) + p.tokens && cache[..] == p.cache && term == p.term
      ensures Cached(cache[..], screen, [], resolve)
    {
      ghost var cache0, term0, render0 := cache[..], term, render;
      assert pending[..0] == [] && pending[0..] == pending;
      var k := 0;
      while k < |pending|
        invariant 0 <= k <= |pending| && PassedTo(cache0, term0, render0, k)
      {
        DrawNext(cache0, term0, render0, k);
        k := k + 1;
      }
      assert pending[..k] == pending && pending[k..] == [];
    }

    /**
     * `executeGhostRender`: resolve and emit every remembered cell, write
     * everything out and forget the cells.  Afterwards the whole cache shows
     * what the constructions resolve to.
     */
    method ExecuteGhostRender()
      requires Valid() && Resolves()
      modifies this`render, this`written, this`term, this`pending, cache
      ensures Valid() && pending == [] && render == []
      ensures var p := GhostPass(old(cache[..]), old(term), mode, ResolveAll(screen, resolve), old(pending), width);
              written == old(written) + (old(render) + p.tokens) && cache[..] == p.cache && term == p.term
      ensures forall k :: 0 <= k < cache.Length ==> cache[k] == Store(resolve(screen[k]))
    {
      DrawPending();
      ExecuteRender();
      pending := [];
    }

    /** A buffer's ghost callback: one `requestGhostDraw` per request it issues. */
    method IssueGhost(rs: seq<DrawRequest>)
      requires Valid()
      modifies this`pending, this`screen, constructions
      ensures Valid()
      ensures screen == ApplyRequests(old(screen), rs, width, height)
      ensures pending == AddAllPending(old(pending), rs, width, height)
    {
      var k := 0;
      while k < |rs|
        invariant 0 <= k <= |rs| && Valid()
        invariant ApplyRequests(screen, rs[k..], width, height) == ApplyRequests(old(screen), rs, width, height)
        invariant AddAllPending(pending, rs[k..], width, height) == AddAllPending(old(pending), rs, width, height)
      {
        assert rs[k..][1..] == rs[k + 1..];
        RequestGhostDraw(rs[k].id, rs[k].data, rs[k].x, rs[k].y, rs[k].z);
        k := k + 1;
      }
    }

    /** The body of `callBuffers`' loop: a buffer's callback unless it is persistent. */
    method CallOne(buffer: Surface, m: QueueMethod)
      requires Valid()
      modifies this`pending, this`screen, constructions
      ensures Valid()
      ensures screen == ApplyRequests(old(screen), Unless(buffer, m), width, height)
      ensures pending == AddAllPending(old(pending), Unless(buffer, m), width, height)
    {
      if !buffer.persistent {
        IssueGhost(Callback(buffer, m));
      }
    }

    /** The loop of `callBuffers`: the ghost callback of every buffer that is not persistent, in order. */
    method IssueBuffers(buffers: seq<Surface>, m: QueueMethod)
      requires Valid()
      modifies this`pending, this`screen, constructions
      ensures Valid()
      ensures screen == ApplyRequests(old(screen), GroupRequests(buffers, m), width, height)
      ensures pending == AddAllPending(old(pending), GroupRequests(buffers, m), width, height)
    {
      var k := 0;
      while k < |buffers|
        invariant 0 <= k <= |buffers| && Valid()
        invariant ApplyRequests(screen, GroupRequests(buffers[k..], m), width, height)
               == ApplyRequests(old(screen), GroupRequests(buffers, m), width, height)
        invariant AddAllPending(pending, GroupRequests(buffers[k..], m), width, height)
               == AddAllPending(old(pending), GroupRequests(buffers, m), width, height)
      {
        assert buffers[k..][1..] == buffers[k + 1..];
        assert GroupRequests(buffers[k..], m) == Unless(buffers[k], m) + GroupRequests(buffers[k + 1..], m);
        ApplyRequestsAppend(screen, Unless(buffers[k], m), GroupRequests(buffers[k + 1..], m), width, height);
        AddAllPendingAppend(pending, Unless(buffers[k], m), GroupRequests(buffers[k + 1..], m), width, height);
        CallOne(buffers[k], m);
        k := k + 1;
      }
    }

    /**
     * `callBuffers` (behind `massRender`, `massPaint`, `groupRender` and
     * `groupPaint`): unless renders are paused, run the callback of every
     * buffer that is not persistent, then the ghost pass.
     */
    method CallBuffers(buffers: seq<Surface>, m: QueueMethod)
      requires Valid() && Resolves()
      modifies this`render, this`written, this`term, this`pending, this`screen, cache, constructions
      ensures Valid()
      ensures old(pauseRenders) ==>
                unchanged(this) && unchanged(cache) && unchanged(constructions)
      ensures !old(pauseRenders) ==>
                var rs := GroupRequests(buffers, m);
                var next := ApplyRequests(old(screen), rs, width, height);
                var p := GhostPass(old(cache[..]), old(term), mode, ResolveAll(next, resolve),
                                   AddAllPending(old(pending), rs, width, height), width);
                && screen == next
                && pending == [] && render == []
                && written == old(written) + (old(render) + p.tokens)
                && forall k :: 0 <= k < cache.Length ==> cache[k] == Store(resolve(screen[k]))
    {
      if pauseRenders {
        return;
      }
      ghost var cache0 := cache[..];
      IssueBuffers(buffers, m);
      assert cache[..] == cache0;
      ExecuteGhostRender();
    }

    /** `addToQueue`. */
    method AddToQueue(buffer: Surface, m: QueueMethod)
      modifies this`queue
      ensures queue == old(queue) + [(buffer, m)]
    {
      queue := queue + [(buffer, m)];
    }

    /** The loop of `executeQueue`: each queued buffer's callback, in order. */
    method IssueQueue(queue: seq<(Surface, QueueMethod)>)
      requires Valid()
      modifies this`pending, this`screen, constructions
      ensures Valid()
      ensures screen == ApplyRequests(old(screen), QueueRequests(queue), width, height)
      ensures pending == AddAllPending(old(pending), QueueRequests(queue), width, height)
    {
      var k := 0;
      while k < |queue|
        invariant 0 <= k <= |queue| && Valid()
        invariant ApplyRequests(screen, QueueRequests(queue[k..]), width, height)
               == ApplyRequests(old(screen), QueueRequests(queue), width, height)
        invariant AddAllPending(pending, QueueRequests(queue[k..]), width, height)
               == AddAllPending(old(pending), QueueRequests(queue), width, height)
      {
        assert queue[k..][1..] == queue[k + 1..];
        var rs := Callback(queue[k].0, queue[k].1);
        ApplyRequestsAppend(screen, rs, QueueRequests(queue[k + 1..]), width, height);
        AddAllPendingAppend(pending, rs, QueueRequests(queue[k + 1..]), width, height);
        IssueGhost(rs);
        k := k + 1;
      }
    }

    /**
     * `executeQueue`: unless renders are paused, run each queued buffer's
     * callback (persistent or not), then the ghost pass, then empty the
     * queue.  A paused engine keeps its queue.
     */
    method ExecuteQueue()
      requires Valid() && Resolves()
      modifies this`render, this`written, this`term, this`pending, this`screen, this`queue, cache, constructions
      ensures Valid()
      ensures old(pauseRenders) ==>
                unchanged(this) && unchanged(cache) && unchanged(constructions)
      ensures !old(pauseRenders) ==>
                var rs := QueueRequests(old(queue));
                var next := ApplyRequests(old(screen), rs, width, height);
                var p := GhostPass(old(cache[..]), old(term), mode, ResolveAll(next, resolve),
                                   AddAllPending(old(pending), rs, width, height), width);
                && screen == next
                && pending == [] && render == [] && queue == []
                && written == old(written) + (old(render) + p.tokens)
                && forall k :: 0 <= k < cache.Length ==> cache[k] == Store(resolve(screen[k]))
    {
      if pauseRenders {
        return;
      }
      ghost var cache0 := cache[..];
      IssueQueue(queue);
      assert cache[..] == cache0;
      queue := [];
      ExecuteGhostRender();
    }
  }
}
