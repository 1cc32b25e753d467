/**
 * The screen as main.js and manager.js keep it: one Construction per cell
 * in row-major order, and a cache of what each cell last showed
 * (`screenCodes`, `screenFGs`, `screenBGs`).  Apart from the two start-up
 * allocations everything here is on values; the classes in engine.dfy and
 * manager.dfy hold the state.
 */
module Screen {
  import opened Colors
  import opened Wrappers
  import opened Compositor
  import opened Terminal

  // ---------------------------------------------------------------------
  // Screen geometry

  /** `getScreenIndex`: the row-major index of an on-screen cell, `null` off screen. */
  function ScreenIndex(x: int, y: int, width: int, height: int): (r: Option<nat>)
    requires width >= 1
    ensures r.Some? <==> 0 <= x < width && 0 <= y < height
    ensures r.Some? ==> r.value < width * height && r.value % width == x && r.value / width == y
  {
    if x < 0 || x > width - 1 then None
    else if y < 0 || y > height - 1 then None
    else
      ScreenIndexInRange(x, y, width, height);
      Some(y * width + x)
  }

  lemma ScreenIndexInRange(x: int, y: int, width: int, height: int)
    requires 0 <= x < width && 0 <= y < height
    ensures y * width + x < width * height
    ensures (y * width + x) % width == x && (y * width + x) / width == y
  {
    DivModUnique(y * width + x, y, x, width);
    assert (height - y) * width == height * width - y * width;
    MulAtLeast(height - y, width);
    assert width * height == height * width;
  }

  /** Every cell index is the screen index of its own column and row. */
  lemma ScreenIndexOfPosition(i: nat, width: int, height: int)
    requires width >= 1 && i < width * height
    ensures i / width < height
    ensures ScreenIndex(i % width, i / width, width, height) == Some(i)
  {
    var x, y := i % width, i / width;
    assert i == y * width + x;
    assert (height - y) * width == height * width - y * width;
    assert width * height == height * width;
    MulNonPositive(height - y, width);
    ScreenIndexInRange(x, y, width, height);
  }

  // ---------------------------------------------------------------------
  // The screen cache (screenCodes / screenFGs / screenBGs)

  /** One cell of the screen cache, as the typed arrays hold it. */
  datatype Cell = Cell(code: int, fg: int, bg: int)

  /** `fill(32)` on the codes, 0 on the colours. */
  const BlankCell: Cell := Cell(32, 0, 0)

  predicate CellInRange(c: Cell)
  {
    0 <= c.code < Two16 && 0 <= c.fg < Two32 && 0 <= c.bg < Two32
  }

  /** A resolved colour as the Uint32 array stores it: NaN as 0, a whole number in range as itself. */
  function NumToUint32(x: Num): (r: int)
    ensures 0 <= r < Two32
    ensures x.NaN? ==> r == 0
    ensures x.Fin? && 0 <= x.v.Floor < Two32 ==> r == x.v.Floor
  {
    if x.NaN? then 0 else ToUint32(x.v.Floor)
  }

  /** Storing an output into the Uint16/Uint32 arrays. */
  function Store(o: Output): (c: Cell)
    ensures CellInRange(c)
  {
    Cell(ToUint16(o.code), NumToUint32(o.fg), NumToUint32(o.bg))
  }

  /** `differentThanScreen`: the cached values compared with `!=` against the output. */
  predicate Differs(c: Cell, o: Output): (d: bool)
    ensures o.fg.NaN? || o.bg.NaN? ==> d
    ensures !d ==> c.code == o.code
  {
    c.code != o.code || NumNe(N(c.fg), o.fg) || NumNe(N(c.bg), o.bg)
  }

  /**
   * As written, an opaque pixel over a transparent bottom half resolves
   * with a NaN background: the opaque top hides the undefined start, but
   * the bottom half keeps it.  No cached value equals NaN, so the cell
   * differs from whatever the cache holds, and it is emitted again whenever
   * a later request or ghost pass resolves that cell.
   */
  lemma OpaquePixelRedrawnAsWritten(blur: (Rgba, Rgba) -> Rgba)
    ensures var o := ResolveAsWritten([Entry(1, 0, Pixel(Green, 0))], blur);
            o == Output(UpperHalf, N(Green), NaN) && forall c :: Differs(c, o)
  {
    Unpacks(0x00ff00, 100);
    Unpacks(0, 0);
    var acc := ProcessPixel(Start(UndefinedRgba), Green, 0, UndefinedRgba);
    assert Fold(Start(UndefinedRgba), [Entry(1, 0, Pixel(Green, 0))], blur, UndefinedRgba) == acc;
    assert acc.top == Decode(Green) && acc.bot == UndefinedRgba;
  }

  /** With a transparent-black start the same pixel shows over colour 0, and once stored it is not emitted again. */
  lemma OpaquePixelSettles(blur: (Rgba, Rgba) -> Rgba)
    ensures var o := Resolve([Entry(1, 0, Pixel(Green, 0))], blur);
            o == Output(UpperHalf, N(Green), N(0)) && !Differs(Store(o), o)
  {
    Unpacks(0x00ff00, 100);
    Unpacks(0, 0);
    var acc := ProcessPixel(Start(ZeroRgba), Green, 0, ZeroRgba);
    assert Fold(Start(ZeroRgba), [Entry(1, 0, Pixel(Green, 0))], blur, ZeroRgba) == acc;
    assert acc.top == Decode(Green) && acc.bot == ZeroRgba;
    assert ToCode(ZeroRgba) == N(0);
    assert (Green as real).Floor == Green;
  }

  /** Skipping a cell that does not differ loses nothing: storing it would change nothing. */
  lemma SameNeedsNoStore(c: Cell, o: Output)
    requires CellInRange(c) && !Differs(c, o)
    ensures Store(o) == c
  {
    assert o.fg == N(c.fg) && o.bg == N(c.bg);
    assert (c.fg as real).Floor == c.fg && (c.bg as real).Floor == c.bg;
  }

  /** A cell with no contributions is what the cache starts with. */
  lemma BlankIsEmpty(blur: (Rgba, Rgba) -> Rgba)
    ensures Store(Resolve([], blur)) == BlankCell
  {
    ResolveEmpty(blur);
  }

  /** `new Construction()` for every cell of the screen. */
  method NewConstructions(n: nat) returns (cs: seq<Construction>)
    ensures |cs| == n
    ensures forall k :: 0 <= k < n ==> fresh(cs[k]) && cs[k].entries == []
    ensures forall k, l :: 0 <= k < l < n ==> cs[k] != cs[l]
  {
    cs := [];
    while |cs| < n
      invariant |cs| <= n
      invariant forall k :: 0 <= k < |cs| ==> fresh(cs[k]) && cs[k].entries == []
      invariant forall k, l :: 0 <= k < l < |cs| ==> cs[k] != cs[l]
    {
      var c := new Construction();
      cs := cs + [c];
    }
  }

  /** The cache at start-up: `screenCodes.fill(32)`, zeroed colours. */
  method NewCache(n: nat) returns (a: array<Cell>)
    ensures fresh(a) && a.Length == n
    ensures forall k :: 0 <= k < n ==> a[k] == BlankCell
  {
    a := new Cell[n](_ => BlankCell);
  }

  // ---------------------------------------------------------------------
  // Requests against the whole screen

  /** The lists of every cell's construction, in screen order. */
  ghost function EntriesOf(cs: seq<Construction>): (r: seq<seq<Entry>>)
    reads cs
    ensures |r| == |cs| && forall k :: 0 <= k < |cs| ==> r[k] == cs[k].entries
  {
    if cs == [] then [] else [cs[0].entries] + EntriesOf(cs[1..])
  }

  /** What every cell resolves to. */
  function ResolveAll(screen: seq<seq<Entry>>, resolve: seq<Entry> -> Output): (r: seq<Output>)
    ensures |r| == |screen| && forall k :: 0 <= k < |screen| ==> r[k] == resolve(screen[k])
  {
    if screen == [] then [] else [resolve(screen[0])] + ResolveAll(screen[1..], resolve)
  }

  /** A request applied to the construction of its cell; off-screen requests are dropped. */
  function ApplyRequest(screen: seq<seq<Entry>>, r: DrawRequest, width: int, height: int): (s: seq<seq<Entry>>)
    requires width >= 1 && |screen| == width * height
    ensures |s| == |screen|
    ensures forall k :: 0 <= k < |s| && Some(k) != ScreenIndex(r.x, r.y, width, height) ==> s[k] == screen[k]
    ensures ScreenIndex(r.x, r.y, width, height).Some? ==>
              var i := ScreenIndex(r.x, r.y, width, height).value;
              s[i] == Applied(screen[i], r.id, r.z, r.data)
  {
    match ScreenIndex(r.x, r.y, width, height)
    case None => screen
    case Some(i) => screen[i := Applied(screen[i], r.id, r.z, r.data)]
  }

  function ApplyRequests(screen: seq<seq<Entry>>, rs: seq<DrawRequest>, width: int, height: int): (s: seq<seq<Entry>>)
    requires width >= 1 && |screen| == width * height
    ensures |s| == |screen|
    decreases |rs|
  {
    if rs == [] then screen else ApplyRequests(ApplyRequest(screen, rs[0], width, height), rs[1..], width, height)
  }

  lemma {:induction false} ApplyRequestsAppend(screen: seq<seq<Entry>>, a: seq<DrawRequest>, b: seq<DrawRequest>, width: int, height: int)
    requires width >= 1 && |screen| == width * height
    ensures ApplyRequests(screen, a + b, width, height)
         == ApplyRequests(ApplyRequests(screen, a, width, height), b, width, height)
    decreases |a|
  {
    if a == [] {
      assert a + b == b;
    } else {
      assert (a + b)[1..] == a[1..] + b;
      ApplyRequestsAppend(ApplyRequest(screen, a[0], width, height), a[1..], b, width, height);
    }
  }

  /** `ghostRenderIndeces.add`: a Set, so an index already waiting keeps its place. */
  function AddPending(pending: seq<nat>, r: DrawRequest, width: int, height: int): (p: seq<nat>)
    requires width >= 1
    ensures forall i :: i in p <==> i in pending || ScreenIndex(r.x, r.y, width, height) == Some(i)
    ensures pending <= p
    ensures PendingOk(pending, width * height) ==> PendingOk(p, width * height)
  {
    match ScreenIndex(r.x, r.y, width, height)
    case None => pending
    case Some(i) => if i in pending then pending else pending + [i]
  }

  /**
   * Every request's cell in turn.  The waiting set keeps its order and its
   * entries, and stays a set of on-screen cells.
   */
  function AddAllPending(pending: seq<nat>, rs: seq<DrawRequest>, width: int, height: int): (p: seq<nat>)
    requires width >= 1
    ensures pending <= p
    ensures PendingOk(pending, width * height) ==> PendingOk(p, width * height)
    decreases |rs|
  {
    if rs == [] then pending else AddAllPending(AddPending(pending, rs[0], width, height), rs[1..], width, height)
  }

  lemma {:induction false} AddAllPendingAppend(pending: seq<nat>, a: seq<DrawRequest>, b: seq<DrawRequest>, width: int, height: int)
    requires width >= 1
    ensures AddAllPending(pending, a + b, width, height)
         == AddAllPending(AddAllPending(pending, a, width, height), b, width, height)
    decreases |a|
  {
    if a == [] {
      assert a + b == b;
    } else {
      assert (a + b)[1..] == a[1..] + b;
      AddAllPendingAppend(AddPending(pending, a[0], width, height), a[1..], b, width, height);
    }
  }

  /** Indices waiting for a ghost render: on screen and each at most once. */
  ghost predicate PendingOk(pending: seq<nat>, size: int)
  {
    && (forall k :: 0 <= k < |pending| ==> pending[k] < size)
    && (forall k, l :: 0 <= k < l < |pending| ==> pending[k] != pending[l])
  }

  /**
   * The screen cache's invariant: every cell holds values the typed arrays
   * can store, and every cell not waiting for a ghost render is cached as
   * what its construction resolves to.
   */
  ghost predicate Cached(cache: seq<Cell>, screen: seq<seq<Entry>>, pending: seq<nat>, resolve: seq<Entry> -> Output)
  {
    && |cache| == |screen|
    && (forall k :: 0 <= k < |cache| ==> CellInRange(cache[k]))
    && (forall k :: 0 <= k < |cache| && k !in pending ==> cache[k] == Store(resolve(screen[k])))
  }

  /** Storing the next waiting cell of a pass leaves one cell fewer waiting. */
  lemma StoreNextCached(cache: seq<Cell>, screen: seq<seq<Entry>>, pending: seq<nat>, k: nat, resolve: seq<Entry> -> Output)
    requires k < |pending| && pending[k] < |cache|
    requires Cached(cache, screen, pending[k..], resolve)
    ensures Cached(cache[pending[k] := Store(resolve(screen[pending[k]]))], screen, pending[k + 1..], resolve)
  {
    assert pending[k..] == [pending[k]] + pending[k + 1..];
  }

  /** A blank cache over empty constructions keeps the invariant with nothing waiting. */
  lemma BlankCached(cache: seq<Cell>, screen: seq<seq<Entry>>, resolve: seq<Entry> -> Output)
    requires |screen| == |cache| && Store(resolve([])) == BlankCell
    requires forall k :: 0 <= k < |cache| ==> cache[k] == BlankCell && screen[k] == []
    ensures Cached(cache, screen, [], resolve)
  {
  }

  /** A ghost request keeps the cache invariant: the cell it changes is now waiting. */
  lemma GhostRequestCached(cache: seq<Cell>, screen: seq<seq<Entry>>, pending: seq<nat>, resolve: seq<Entry> -> Output,
                           r: DrawRequest, width: int, height: int)
    requires width >= 1 && |screen| == width * height
    requires Cached(cache, screen, pending, resolve)
    ensures Cached(cache, ApplyRequest(screen, r, width, height), AddPending(pending, r, width, height), resolve)
  {
  }

  /** A direct request keeps the cache invariant once its cell is stored. */
  lemma DrawRequestCached(cache: seq<Cell>, screen: seq<seq<Entry>>, pending: seq<nat>, resolve: seq<Entry> -> Output,
                          r: DrawRequest, width: int, height: int)
    requires width >= 1 && |screen| == width * height
    requires Cached(cache, screen, pending, resolve)
    requires ScreenIndex(r.x, r.y, width, height).Some?
    ensures var i := ScreenIndex(r.x, r.y, width, height).value;
            var s := ApplyRequest(screen, r, width, height);
            Cached(cache[i := Store(resolve(s[i]))], s, pending, resolve)
  {
  }

  // ---------------------------------------------------------------------
  // The ghost render pass (executeGhostRender)

  /** Tokens emitted by a pass, and the cache and terminal data after it. */
  datatype Pass = Pass(tokens: seq<Token>, cache: seq<Cell>, term: TermState)

  /**
   * `addToCurrentRender` for a cell: a cell that still shows the output is
   * skipped; any other is emitted and stored.
   */
  function Draw(cache: seq<Cell>, term: TermState, mode: ColorMode, out: Output, x: int, y: int, i: nat): (p: Pass)
    requires i < |cache|
    ensures |p.cache| == |cache|
  {
    if Differs(cache[i], out) then
      var e := Emit(term, out, x, y, mode);
      Pass(e.0, cache[i := Store(out)], e.1)
    else Pass([], cache, term)
  }

  /** Drawing a cell leaves it cached as its output and every other cell as it was. */
  lemma DrawStores(cache: seq<Cell>, term: TermState, mode: ColorMode, out: Output, x: int, y: int, i: nat)
    requires i < |cache| && CellInRange(cache[i])
    ensures Draw(cache, term, mode, out, x, y, i).cache == cache[i := Store(out)]
  {
    if !Differs(cache[i], out) {
      SameNeedsNoStore(cache[i], out);
      assert cache[i := Store(out)] == cache;
    }
  }

  /** One more waiting cell drawn after a partial pass. */
  function Extend(p: Pass, mode: ColorMode, outs: seq<Output>, i: nat, width: int): (q: Pass)
    requires width >= 1 && |outs| == |p.cache| && i < |p.cache|
    ensures |q.cache| == |p.cache|
  {
    var d := Draw(p.cache, p.term, mode, outs[i], i % width, i / width, i);
    Pass(p.tokens + d.tokens, d.cache, d.term)
  }

  /** The ghost pass: each waiting cell, in order, drawn with what it resolves to now. */
  function GhostPass(cache: seq<Cell>, term: TermState, mode: ColorMode, outs: seq<Output>, pending: seq<nat>, width: int): (p: Pass)
    requires width >= 1 && |outs| == |cache| && forall k :: 0 <= k < |pending| ==> pending[k] < |cache|
    ensures |p.cache| == |cache|
    decreases |pending|
  {
    if pending == [] then Pass([], cache, term)
    else
      var before := GhostPass(cache, term, mode, outs, pending[..|pending| - 1], width);
      Extend(before, mode, outs, pending[|pending| - 1], width)
  }

  /**
   * After the pass every waiting cell is cached as what it resolves to, and
   * every other cell is untouched.
   */
  lemma {:induction false} GhostPassStores(cache: seq<Cell>, term: TermState, mode: ColorMode, outs: seq<Output>, pending: seq<nat>, width: int)
    requires width >= 1 && |outs| == |cache| && forall k :: 0 <= k < |pending| ==> pending[k] < |cache|
    requires forall k :: 0 <= k < |cache| ==> CellInRange(cache[k])
    ensures var p := GhostPass(cache, term, mode, outs, pending, width);
            forall k :: 0 <= k < |cache| ==>
              CellInRange(p.cache[k]) && p.cache[k] == if k in pending then Store(outs[k]) else cache[k]
    decreases |pending|
  {
    if pending != [] {
      var front := pending[..|pending| - 1];
      var i := pending[|pending| - 1];
      GhostPassStores(cache, term, mode, outs, front, width);
      var before := GhostPass(cache, term, mode, outs, front, width);
      DrawStores(before.cache, before.term, mode, outs[i], i % width, i / width, i);
      assert pending == front + [i];
    }
  }

  /**
   * A ghost pass over what the screen resolves to leaves every cell cached,
   * so nothing needs to wait any more.
   */
  lemma GhostPassCached(cache: seq<Cell>, term: TermState, mode: ColorMode, screen: seq<seq<Entry>>, pending: seq<nat>,
                        resolve: seq<Entry> -> Output, width: int)
    requires width >= 1 && Cached(cache, screen, pending, resolve)
    requires forall k :: 0 <= k < |pending| ==> pending[k] < |cache|
    ensures Cached(GhostPass(cache, term, mode, ResolveAll(screen, resolve), pending, width).cache, screen, [], resolve)
  {
    GhostPassStores(cache, term, mode, ResolveAll(screen, resolve), pending, width);
  }

  /**
   * The ghost pass draws at each waiting cell's own column and row, and its
   * tokens, run on a synced terminal, keep the terminal in sync.
   */
  lemma {:induction false} GhostPassSynced(cache: seq<Cell>, st: TermState, t: Tty, mode: ColorMode, outs: seq<Output>, pending: seq<nat>, width: int)
    requires width >= 1 && |outs| == |cache| && forall k :: 0 <= k < |pending| ==> pending[k] < |cache|
    requires Synced(st, t, mode)
    ensures var p := GhostPass(cache, st, mode, outs, pending, width);
            Synced(p.term, Run(t, p.tokens), mode)
    decreases |pending|
  {
    if pending != [] {
      var front := pending[..|pending| - 1];
      var i := pending[|pending| - 1];
      GhostPassSynced(cache, st, t, mode, outs, front, width);
      var before := GhostPass(cache, st, mode, outs, front, width);
      var t1 := Run(t, before.tokens);
      var d := Draw(before.cache, before.term, mode, outs[i], i % width, i / width, i);
      if Differs(before.cache[i], outs[i]) {
        EmitShows(before.term, t1, outs[i], i % width, i / width, mode);
      }
      RunAppend(t, before.tokens, d.tokens);
    }
  }

  // ---------------------------------------------------------------------
  // Direct requests (requestDraw, one after another)

  /**
   * A direct request: its contribution applied to its cell, and the cell
   * drawn at once with what it now resolves to.  Off-screen requests change
   * nothing.
   */
  function DirectStep(p: Pass, screen: seq<seq<Entry>>, mode: ColorMode, r: DrawRequest,
                      resolve: seq<Entry> -> Output, width: int, height: int): (q: Pass)
    requires width >= 1 && |screen| == width * height == |p.cache|
    ensures |q.cache| == |p.cache|
  {
    match ScreenIndex(r.x, r.y, width, height)
    case None => p
    case Some(i) =>
      var d := Draw(p.cache, p.term, mode, resolve(ApplyRequest(screen, r, width, height)[i]), r.x, r.y, i);
      Pass(p.tokens + d.tokens, d.cache, d.term)
  }

  /** A run of direct requests: the screen after them, and the pass they draw. */
  function DirectPass(p: Pass, screen: seq<seq<Entry>>, mode: ColorMode, rs: seq<DrawRequest>,
                      resolve: seq<Entry> -> Output, width: int, height: int): (r: (seq<seq<Entry>>, Pass))
    requires width >= 1 && |screen| == width * height == |p.cache|
    ensures r.0 == ApplyRequests(screen, rs, width, height)
    ensures |r.1.cache| == |p.cache| && p.tokens <= r.1.tokens
    decreases |rs|
  {
    if rs == [] then (screen, p)
    else
      DirectPass(DirectStep(p, screen, mode, rs[0], resolve, width, height),
                 ApplyRequest(screen, rs[0], width, height), mode, rs[1..], resolve, width, height)
  }

  /**
   * Direct requests keep the cache invariant with nothing waiting: every
   * cell ends cached as what the screen after them resolves to.
   */
  lemma {:induction false} DirectPassCached(p: Pass, screen: seq<seq<Entry>>, mode: ColorMode, rs: seq<DrawRequest>,
                                            resolve: seq<Entry> -> Output, width: int, height: int)
    requires width >= 1 && |screen| == width * height == |p.cache|
    requires Cached(p.cache, screen, [], resolve)
    ensures var r := DirectPass(p, screen, mode, rs, resolve, width, height);
            Cached(r.1.cache, r.0, [], resolve)
    decreases |rs|
  {
    if rs != [] {
      var s := ApplyRequest(screen, rs[0], width, height);
      var q := DirectStep(p, screen, mode, rs[0], resolve, width, height);
      var idx := ScreenIndex(rs[0].x, rs[0].y, width, height);
      if idx.Some? {
        DrawStores(p.cache, p.term, mode, resolve(s[idx.value]), rs[0].x, rs[0].y, idx.value);
        DrawRequestCached(p.cache, screen, [], resolve, rs[0], width, height);
      }
      DirectPassCached(q, s, mode, rs[1..], resolve, width, height);
    }
  }
}
