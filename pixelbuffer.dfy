/**
 * A pixel surface of pixelBuffer.js (`PixelDisplayBuffer`).
 *
 * Every cell of the buffer is one colour, and two rows of the buffer make
 * one row of the screen: a screen cell shows a half-block pixel whose top
 * half is one buffer row and whose bottom half is the next.  The buffer
 * draws colours on `canvas` and remembers in `current` what it last handed
 * to the engine.  `render`, `paint` and `ghostRender` walk the buffer pair
 * by pair, move each pair into `current`, empty the canvas, and send a
 * pixel for every pair of which a half changed.
 *
 * Both arrays are `Uint32Array`s: a store keeps `ToUint32` of the value,
 * a store outside the array is ignored, and a read outside it is
 * `undefined`, taken as 0 here.
 */
module PixelSurface {
  import opened Colors
  import opened Wrappers
  import opened Compositor
  import opened Terminal
  import opened Screen
  import opened Canvas
  import opened Engine

  /**
   * The colour argument of `write` and `draw`: a number repeated `count`
   * times (1 when no count is given), or an array of colours.
   */
  datatype ColorInput = Repeated(color: int, count: int) | Listed(colors: seq<int>)

  /** How many colours the argument asks for: the count, or the array's length. */
  function Requested(src: ColorInput): int
  {
    match src
    case Repeated(_, count) => count
    case Listed(colors) => |colors|
  }

  /**
   * The colour stored at step `i`: `processBrush(colour, 0, opacity).fg`.
   * Past the end of an array the colour is `undefined`, and the engine's
   * default foreground takes its place.
   */
  function Ink(src: ColorInput, i: nat, opacity: int, defaultFg: int, defaultBg: int): (r: int)
    ensures var f := match src
              case Repeated(c, _) => c
              case Listed(colors) => if i < |colors| then colors[i] else defaultFg;
            GetHex(r) == GetHex(f) && (opacity >= 100 ==> r == f)
  {
    var color := match src
      case Repeated(c, _) => Some(c)
      case Listed(colors) => if i < |colors| then Some(colors[i]) else None;
    EngineBrush(color, Some(0), opacity, defaultFg, defaultBg).fg
  }

  /** The values a `write` or `draw` stores, one per loop turn. */
  function InkRun(src: ColorInput, n: nat, opacity: int, defaultFg: int, defaultBg: int): (r: seq<int>)
    ensures |r| == n
    ensures forall i :: 0 <= i < n ==> r[i] == ToUint32(Ink(src, i, opacity, defaultFg, defaultBg))
  {
    seq(n, i requires 0 <= i < n => ToUint32(Ink(src, i, opacity, defaultFg, defaultBg)))
  }

  /** `write`'s `limit`: the cells left in the buffer when wrapping, else in the cursor's row. */
  function Limit(cursor: int, wrap: bool, width: int, size: int): (r: int)
    requires width >= 1
    ensures wrap ==> cursor + r == size
    ensures !wrap && cursor >= 0 ==> 1 <= r <= width && cursor % width + r == width
  {
    if wrap then size - cursor else width - JsRem(cursor, width)
  }

  /** `write`'s `amount`. */
  function WriteAmount(src: ColorInput, cursor: int, wrap: bool, width: int, size: int): (r: int)
    requires width >= 1
    ensures r <= Requested(src) && r <= Limit(cursor, wrap, width, size)
    ensures r == Requested(src) || r == Limit(cursor, wrap, width, size)
  {
    MinInt(Requested(src), Limit(cursor, wrap, width, size))
  }

  /**
   * From a cursor inside the buffer a `write` stays inside it, and without
   * wrapping it stays on the cursor's row.
   */
  lemma WriteFits(src: ColorInput, cursor: int, wrap: bool, width: int, height: int)
    requires width >= 1 && height >= 1 && 0 <= cursor < width * height
    ensures var n := Span(WriteAmount(src, cursor, wrap, width, width * height));
            && cursor + n <= width * height
            && (!wrap ==> cursor % width + n <= width)
  {
    RowEnd(cursor, width, height);
    DivModUnique(cursor, cursor / width, JsRem(cursor, width), width);
  }

  /** A store to index `k` of a typed array: ignored outside the array. */
  function Put(a: seq<int>, k: int, v: int): (r: seq<int>)
    ensures |r| == |a|
  {
    if 0 <= k < |a| then a[k := v] else a
  }

  /** A read of index `k` of a typed array: `undefined` outside it, taken as 0. */
  function At(a: seq<int>, k: int): int
  {
    if 0 <= k < |a| then a[k] else 0
  }

  /** `paint`'s half: `(canvas || current) | 0`, where `current` is already `| 0`. */
  function PaintHalf(c: int, cur: int): (r: int)
    ensures -Two31 <= r < Two31
    ensures 0 < c < Two31 ==> r == c
    ensures c == 0 && 0 <= cur < Two31 ==> r == cur
  {
    if c != 0 then ToInt32(c) else ToInt32(cur)
  }

  /** The half a pass sends for cell `k`: `top` or `bottom`. */
  function Half(paint: bool, c: seq<int>, cur: seq<int>, k: int): (r: int)
    ensures paint && At(c, k) == 0 ==> r == Was(paint, cur, k)
    ensures !(0 <= k < |c|) && !(0 <= k < |cur|) ==> r == 0
  {
    if paint then PaintHalf(At(c, k), At(cur, k)) else At(c, k)
  }

  /** What the half is compared with: `currentTop` or `currentBottom`. */
  function Was(paint: bool, cur: seq<int>, k: int): (r: int)
    ensures paint ==> -Two31 <= r < Two31
    ensures !(0 <= k < |cur|) ==> r == 0
  {
    if paint then ToInt32(At(cur, k)) else At(cur, k)
  }

  /**
   * What `current` keeps of a half.  A painted half is a signed 32-bit value
   * and the array stores it unsigned; a rendered half was read from the
   * canvas and is stored as it is.
   */
  function Stored(paint: bool, v: int): int
  {
    if paint then ToUint32(v) else v
  }

  /** What `current` holds at cell `k` once its pair has been handled. */
  function Kept(paint: bool, c: seq<int>, cur: seq<int>, k: int): int
  {
    Stored(paint, Half(paint, c, cur, k))
  }

  /** `current` once every pair is handled. */
  function KeptAll(paint: bool, c: seq<int>, cur: seq<int>): (r: seq<int>)
    requires |c| == |cur|
    ensures |r| == |c| && forall k :: 0 <= k < |c| ==> r[k] == Kept(paint, c, cur, k)
  {
    seq(|c|, k requires 0 <= k < |c| => Kept(paint, c, cur, k))
  }

  /** A zeroed typed array. */
  function Zeros(n: nat): (r: seq<int>)
    ensures |r| == n && forall k :: 0 <= k < n ==> r[k] == 0
  {
    seq(n, _ => 0)
  }

  /** A rendered buffer keeps exactly the canvas it had. */
  lemma RenderKeepsCanvas(c: seq<int>, cur: seq<int>)
    requires |c| == |cur|
    ensures KeptAll(false, c, cur) == c
  {
  }

  /** An array whose cells before `i` hold what `b` holds, the others what `a` holds. */
  function Upto(a: seq<int>, b: seq<int>, i: int): (r: seq<int>)
    requires |a| == |b|
    ensures |r| == |a|
  {
    seq(|a|, k requires 0 <= k < |a| => if k < i then b[k] else a[k])
  }

  /**
   * Whether cell `k` belongs to a pair handled before column `j` of the
   * row starting at `i`: a top half on that row or a bottom half on the next.
   */
  predicate InPairs(k: int, i: int, j: int, width: int)
  {
    i <= k < i + j || i + width <= k < i + width + j
  }

  /** An array whose handled cells hold what `b` holds, the others what `a` holds. */
  function Over(a: seq<int>, b: seq<int>, i: int, j: int, width: int): (r: seq<int>)
    requires |a| == |b|
    ensures |r| == |a|
  {
    seq(|a|, k requires 0 <= k < |a| => if InPairs(k, i, j, width) then b[k] else a[k])
  }

  /** Handling the pair at column `j`: both its cells take their new values. */
  lemma OverStep(a: seq<int>, b: seq<int>, i: int, j: nat, width: int, top: int, bottom: int)
    requires |a| == |b| && j < width
    requires 0 <= i + j < |a| ==> top == b[i + j]
    requires 0 <= i + j + width < |a| ==> bottom == b[i + j + width]
    ensures Over(a, b, i, j + 1, width) == Put(Put(Over(a, b, i, j, width), i + j, top), i + j + width, bottom)
  {
  }

  /** Handling a whole row pair: every cell before the next row pair takes its new value. */
  lemma UptoStep(a: seq<int>, b: seq<int>, i: int, width: int)
    requires |a| == |b| && width >= 1
    ensures Over(Upto(a, b, i), b, i, width, width) == Upto(a, b, i + 2 * width)
  {
  }

  /** Before the first row pair nothing is handled; past the last one everything is. */
  lemma UptoEnds(a: seq<int>, b: seq<int>, i: int)
    requires |a| == |b|
    ensures i <= 0 ==> Upto(a, b, i) == a
    ensures i >= |a| ==> Upto(a, b, i) == b
  {
  }

  /** For values the arrays can hold, `paint` keeps the canvas where it is set and `current` elsewhere. */
  lemma PaintKeeps(c: seq<int>, cur: seq<int>, k: int)
    requires 0 <= k < |c| == |cur|
    requires 0 <= c[k] < Two32 && 0 <= cur[k] < Two32
    ensures Kept(true, c, cur, k) == if c[k] != 0 then c[k] else cur[k]
    ensures Kept(false, c, cur, k) == c[k]
  {
  }

  // -------------------------------------------------------------------
  // Rendering, pair by pair

  /** A buffer's id, position and size: all its requests depend on. */
  datatype Placement = Placement(id: int, x: int, y: int, z: int, width: int, size: int)

  /**
   * Where `handleRender` starts, `0 - bufferWidth * (bufferY & 1)`: one row
   * above the buffer when `bufferY` is odd.
   */
  function FirstRow(g: Placement): (r: int)
    ensures r == 0 || r == -g.width
    ensures g.width >= 1 ==> (r < 0 <==> g.y % 2 == 1)
  {
    if g.y % 2 == 1 then -g.width else 0
  }

  /**
   * `sendDrawRequest`: the pixel of the pair whose top half is cell `t`,
   * at the screen column of that cell and the screen row that holds its
   * two buffer rows.
   */
  function PairRequest(g: Placement, t: int, top: int, bottom: int): (r: DrawRequest)
    requires g.width >= 1
    ensures r.id == g.id && r.z == g.z && r.data == Some(Pixel(top, bottom))
    ensures r.x == g.x + t % g.width && r.y == (g.y + t / g.width) / 2
  {
    var b := t + g.width;
    DivModUnique(b, t / g.width + 1, t % g.width, g.width);
    DrawRequest(g.id, Some(Pixel(top, bottom)), g.x + b % g.width, (g.y + b / g.width - 1) / 2, g.z)
  }

  /** Whether the pair whose top half is cell `t` changed. */
  predicate Changed(g: Placement, paint: bool, c: seq<int>, cur: seq<int>, t: int)
  {
    Half(paint, c, cur, t) != Was(paint, cur, t) || Half(paint, c, cur, t + g.width) != Was(paint, cur, t + g.width)
  }

  /** What handling the pair at `t` sends: its pixel if it changed, else nothing. */
  function PairSends(g: Placement, paint: bool, c: seq<int>, cur: seq<int>, t: int): seq<DrawRequest>
    requires g.width >= 1
  {
    if Changed(g, paint, c, cur, t) then [PairRequest(g, t, Half(paint, c, cur, t), Half(paint, c, cur, t + g.width))] else []
  }

  /** Where the pass that reaches the row starting at `i` stops: the first row pair start at or past the end. */
  function Stop(g: Placement, i: int): (e: int)
    requires g.width >= 1
    ensures e >= i && e >= g.size
    decreases g.size - i
  {
    if i >= g.size then i else Stop(g, i + 2 * g.width)
  }

  /**
   * The requests a pass sends before it reaches column `j` of the row
   * starting at `i`, in order: those of the earlier row pairs, then those
   * of the first `j` pairs of this one.
   */
  function SentBefore(g: Placement, paint: bool, c: seq<int>, cur: seq<int>, i: int, j: nat): seq<DrawRequest>
    requires g.width >= 1 && j <= g.width
    decreases i - FirstRow(g), j
  {
    if j > 0 then SentBefore(g, paint, c, cur, i, j - 1) + PairSends(g, paint, c, cur, i + j - 1)
    else if i <= FirstRow(g) then []
    else SentBefore(g, paint, c, cur, i - 2 * g.width, g.width)
  }

  /** The requests of a whole pass, in the order they are sent. */
  function AllSends(g: Placement, paint: bool, c: seq<int>, cur: seq<int>): (r: seq<DrawRequest>)
    requires g.width >= 1
    ensures forall q :: q in r ==> Owned(g, q)
  {
    SentOwned(g, paint, c, cur, Stop(g, FirstRow(g)), 0);
    SentBefore(g, paint, c, cur, Stop(g, FirstRow(g)), 0)
  }

  /** A request of the buffer's own: its id and z-index, and a pixel. */
  predicate Owned(g: Placement, q: DrawRequest)
  {
    q.id == g.id && q.z == g.z && q.data.Some? && q.data.value.Pixel?
  }

  lemma {:induction false} SentOwned(g: Placement, paint: bool, c: seq<int>, cur: seq<int>, i: int, j: nat)
    requires g.width >= 1 && j <= g.width
    ensures forall q :: q in SentBefore(g, paint, c, cur, i, j) ==> Owned(g, q)
    decreases i - FirstRow(g), j
  {
    if j > 0 {
      SentOwned(g, paint, c, cur, i, j - 1);
    } else if i > FirstRow(g) {
      SentOwned(g, paint, c, cur, i - 2 * g.width, g.width);
    }
  }

  /** Finishing a row pair: the pass goes on with the next one, and stops where it would have stopped. */
  lemma NextRowPair(g: Placement, paint: bool, c: seq<int>, cur: seq<int>, i: int, next: int)
    requires g.width >= 1 && FirstRow(g) <= i < g.size && next == i + 2 * g.width
    ensures SentBefore(g, paint, c, cur, next, 0) == SentBefore(g, paint, c, cur, i, g.width)
    ensures Stop(g, next) == Stop(g, i)
  {
  }

  /**
   * Whether `i` starts a row pair: a row start whose screen row, counted
   * from `bufferY`, is even, so that the row and the next one share a
   * screen row.
   */
  predicate RowPairStart(g: Placement, i: int)
    requires g.width >= 1
  {
    i % g.width == 0 && (g.y + i / g.width) % 2 == 0
  }

  /** Whether cell `t` is the top half of a pair the pass visits. */
  predicate TopHalf(g: Placement, t: int)
    requires g.width >= 1
  {
    FirstRow(g) <= t < g.size && (g.y + t / g.width) % 2 == 0
  }

  /** A pass starts on a row pair, and row pairs are two rows apart. */
  lemma RowPairStarts(g: Placement, i: int)
    requires g.width >= 1
    ensures RowPairStart(g, FirstRow(g))
    ensures RowPairStart(g, i) ==> RowPairStart(g, i - 2 * g.width)
  {
    var w := g.width;
    assert RowPairStart(g, FirstRow(g)) by {
      if g.y % 2 == 1 {
        DivModUnique(-w, -1, 0, w);
      } else {
        DivModUnique(0, 0, 0, w);
      }
    }
    if RowPairStart(g, i) {
      RowPairBack(g, i);
    }
  }

  lemma {:induction false} RowPairBack(g: Placement, i: int)
    requires g.width >= 1 && RowPairStart(g, i)
    ensures RowPairStart(g, i - 2 * g.width)
  {
    var w := g.width;
    var q := i / w;
    assert i == q * w;
    DivModUnique(i - 2 * w, q - 2, 0, w);
  }

  /** Two different row pair starts are at least a row pair apart. */
  lemma RowPairGap(g: Placement, s: int, i: int)
    requires g.width >= 1 && RowPairStart(g, s) && RowPairStart(g, i) && s < i
    ensures s <= i - 2 * g.width
  {
    var w, a, b := g.width, i / g.width, s / g.width;
    assert i - s == (a - b) * w;
    MulNonPositive(a - b, w);
    MulAtLeast(a - b - 1, w);
    assert i - s == (a - b - 1) * w + w;
  }

  /** Rounding `t` down to a multiple of `w` lands on the start of `t`'s row. */
  lemma RowStartFloor(t: int, w: int)
    requires w >= 1
    ensures (t - t % w) % w == 0 && (t - t % w) / w == t / w && t - t % w <= t
  {
    DivModUnique(t - t % w, t / w, 0, w);
  }

  /** A multiple of `w` at or below `t` is at or below `t` rounded down to a multiple of `w`. */
  lemma FloorAbove(t: int, w: int, f: int)
    requires w >= 1 && f * w <= t
    ensures f * w <= t - t % w
  {
    var q := t / w;
    assert t - t % w == q * w;
    // f * w <= t < (q + 1) * w, so f <= q
    assert (q + 1 - f) * w == q * w + w - f * w;
    MulNonPositive(q + 1 - f, w);
    assert (f - q) * w == f * w - q * w;
    MulNonPositive(f - q, w);
  }

  /** The row pair of a top half: it starts at the beginning of the half's row. */
  lemma TopHalfRow(g: Placement, t: int)
    requires g.width >= 1 && TopHalf(g, t)
    ensures RowPairStart(g, t - t % g.width) && FirstRow(g) <= t - t % g.width < g.size
  {
    RowStartFloor(t, g.width);
    if g.y % 2 == 1 {
      FloorAbove(t, g.width, -1);
    } else {
      FloorAbove(t, g.width, 0);
    }
  }

  /** The buffer cell holding the top half of the pixel a request of this buffer draws. */
  function TopOf(g: Placement, r: DrawRequest): int
  {
    (2 * r.y - g.y) * g.width + (r.x - g.x)
  }

  /**
   * A request of a pass: this buffer's pixel for a changed pair, drawn at
   * the screen column and row of the pair's top half.
   */
  predicate FromPair(g: Placement, paint: bool, c: seq<int>, cur: seq<int>, r: DrawRequest)
    requires g.width >= 1
  {
    var t := TopOf(g, r);
    && r.id == g.id && r.z == g.z && 0 <= r.x - g.x < g.width
    && TopHalf(g, t) && Changed(g, paint, c, cur, t)
    && r.data == Some(Pixel(Half(paint, c, cur, t), Half(paint, c, cur, t + g.width)))
  }

  /** A pair that changed lies on the canvas: its top half, its bottom half or both. */
  lemma ChangedInside(g: Placement, paint: bool, c: seq<int>, cur: seq<int>, t: int)
    requires g.width >= 1 && |c| == |cur| == g.size
    ensures Changed(g, paint, c, cur, t) ==> -g.width <= t < g.size
  {
  }

  /** The pixel of a pair on a row pair is drawn where its top half lies. */
  lemma PairPosition(g: Placement, i: int, j: int, top: int, bottom: int)
    requires g.width >= 1 && RowPairStart(g, i) && 0 <= j < g.width
    ensures var r := PairRequest(g, i + j, top, bottom);
            TopOf(g, r) == i + j && 0 <= r.x - g.x < g.width && (g.y + (i + j) / g.width) % 2 == 0
  {
    var w, q := g.width, i / g.width;
    assert i == q * w;
    DivModUnique(i + j + w, q + 1, j, w);
    DivModUnique(i + j, q, j, w);
    var r := PairRequest(g, i + j, top, bottom);
    assert 2 * r.y - g.y == q;
  }

  /** What handling one pair of a row pair sends is the pixel of that pair, if it changed. */
  lemma PairSendsFromPair(g: Placement, paint: bool, c: seq<int>, cur: seq<int>, i: int, j: int)
    requires g.width >= 1 && |c| == |cur| == g.size
    requires RowPairStart(g, i) && FirstRow(g) <= i && 0 <= j < g.width
    ensures forall r :: r in PairSends(g, paint, c, cur, i + j) ==> FromPair(g, paint, c, cur, r)
  {
    var t := i + j;
    if Changed(g, paint, c, cur, t) {
      PairPosition(g, i, j, Half(paint, c, cur, t), Half(paint, c, cur, t + g.width));
      ChangedInside(g, paint, c, cur, t);
    }
  }

  /** Every request sent before column `j` of the row pair at `i` is the pixel of a changed pair, where that pair lies. */
  lemma {:induction false} SentFromPairs(g: Placement, paint: bool, c: seq<int>, cur: seq<int>, i: int, j: nat)
    requires g.width >= 1 && j <= g.width && |c| == |cur| == g.size
    requires RowPairStart(g, i) && FirstRow(g) <= i
    ensures forall r :: r in SentBefore(g, paint, c, cur, i, j) ==> FromPair(g, paint, c, cur, r)
    decreases i - FirstRow(g), j
  {
    if j > 0 {
      SentFromPairs(g, paint, c, cur, i, j - 1);
      PairSendsFromPair(g, paint, c, cur, i, j - 1);
    } else if i > FirstRow(g) {
      RowPairStarts(g, i);
      RowPairGap(g, FirstRow(g), i);
      SentFromPairs(g, paint, c, cur, i - 2 * g.width, g.width);
    }
  }

  /** Every changed pair before column `j` of the row pair at `i` has been sent. */
  lemma {:induction false} ChangedAreSent(g: Placement, paint: bool, c: seq<int>, cur: seq<int>, i: int, j: nat, s: int, k: int)
    requires g.width >= 1 && j <= g.width && RowPairStart(g, i) && RowPairStart(g, s)
    requires FirstRow(g) <= s && 0 <= k < g.width && (s < i || (s == i && k < j))
    requires Changed(g, paint, c, cur, s + k)
    ensures PairRequest(g, s + k, Half(paint, c, cur, s + k), Half(paint, c, cur, s + k + g.width))
            in SentBefore(g, paint, c, cur, i, j)
    decreases i - FirstRow(g), j
  {
    if j > 0 {
      if !(s == i && k == j - 1) {
        ChangedAreSent(g, paint, c, cur, i, j - 1, s, k);
      }
    } else {
      RowPairGap(g, s, i);
      RowPairStarts(g, i);
      ChangedAreSent(g, paint, c, cur, i - 2 * g.width, g.width, s, k);
    }
  }

  /**
   * A pass sends exactly the pairs that changed: every request is the
   * pixel of a changed pair, drawn at that pair's place on the screen, and
   * the pixel of every changed pair is among the requests.
   */
  lemma PassSendsChangedPairs(g: Placement, paint: bool, c: seq<int>, cur: seq<int>)
    requires g.width >= 1 && |c| == |cur| == g.size
    ensures forall r :: r in AllSends(g, paint, c, cur) ==> FromPair(g, paint, c, cur, r)
    ensures forall t :: TopHalf(g, t) && Changed(g, paint, c, cur, t) ==>
              PairRequest(g, t, Half(paint, c, cur, t), Half(paint, c, cur, t + g.width)) in AllSends(g, paint, c, cur)
  {
    var e := Stop(g, FirstRow(g));
    RowPairStarts(g, 0);
    StopRowPair(g, FirstRow(g));
    SentFromPairs(g, paint, c, cur, e, 0);
    forall t | TopHalf(g, t) && Changed(g, paint, c, cur, t)
      ensures PairRequest(g, t, Half(paint, c, cur, t), Half(paint, c, cur, t + g.width)) in AllSends(g, paint, c, cur)
    {
      TopHalfRow(g, t);
      var s, k := t - t % g.width, t % g.width;
      ChangedAreSent(g, paint, c, cur, e, 0, s, k);
    }
  }

  /** A pass stops on a row pair start. */
  lemma {:induction false} StopRowPair(g: Placement, i: int)
    requires g.width >= 1 && RowPairStart(g, i)
    ensures RowPairStart(g, Stop(g, i)) && i <= Stop(g, i)
    decreases g.size - i
  {
    if i < g.size {
      var w, q := g.width, i / g.width;
      assert i == q * w;
      DivModUnique(i + 2 * w, q + 2, 0, w);
      StopRowPair(g, i + 2 * w);
    }
  }

  /** When no pair changed, a pass sends nothing. */
  lemma {:induction false} QuietSendsNothing(g: Placement, paint: bool, c: seq<int>, cur: seq<int>, i: int, j: nat)
    requires g.width >= 1 && j <= g.width
    requires forall t :: !Changed(g, paint, c, cur, t)
    ensures SentBefore(g, paint, c, cur, i, j) == []
    decreases i - FirstRow(g), j
  {
    if j > 0 {
      QuietSendsNothing(g, paint, c, cur, i, j - 1);
    } else if i > FirstRow(g) {
      QuietSendsNothing(g, paint, c, cur, i - 2 * g.width, g.width);
    }
  }

  /** Rendering or painting a canvas that holds just what `current` holds sends nothing. */
  lemma SameSendsNothing(g: Placement, paint: bool, c: seq<int>)
    requires g.width >= 1
    ensures AllSends(g, paint, c, c) == []
  {
    QuietSendsNothing(g, paint, c, c, Stop(g, FirstRow(g)), 0);
  }

  /** Painting an empty canvas sends nothing: every cell keeps what it shows. */
  lemma PaintEmptySendsNothing(g: Placement, c: seq<int>, cur: seq<int>)
    requires g.width >= 1
    requires forall k :: 0 <= k < |c| ==> c[k] == 0
    ensures AllSends(g, true, c, cur) == []
  {
    QuietSendsNothing(g, true, c, cur, Stop(g, FirstRow(g)), 0);
  }

  /** A pair sees only its own two cells. */
  lemma PairAgrees(g: Placement, paint: bool, c: seq<int>, cur: seq<int>, c': seq<int>, cur': seq<int>, t: int)
    requires g.width >= 1
    requires At(c, t) == At(c', t) && At(cur, t) == At(cur', t)
    requires At(c, t + g.width) == At(c', t + g.width) && At(cur, t + g.width) == At(cur', t + g.width)
    ensures PairSends(g, paint, c, cur, t) == PairSends(g, paint, c', cur', t)
    ensures Kept(paint, c, cur, t) == Kept(paint, c', cur', t)
    ensures Kept(paint, c, cur, t + g.width) == Kept(paint, c', cur', t + g.width)
  {
  }

  class PixelBuffer {
    /** The engine the buffer draws through (its `manager` argument). */
    const engine: DisplayEngine
    /** `bufferX`, `bufferY`, `bufferZ`. */
    const x: int
    const y: int
    const z: int
    /** `bufferWidth`, `bufferHeight`, `bufferSize`. */
    const width: int
    const height: int
    const size: int
    /** `bufferId`. */
    var id: int
    const canvas: array<int>
    const current: array<int>
    /** `cursorIndex`: negative after a write with a negative count. */
    var cursor: int
    var wrap: bool
    var opacity: int
    var pauseRenders: bool

    ghost predicate Valid()
      reads this
    {
      && width >= 1 && height >= 1 && size == width * height
      && canvas.Length == size && current.Length == size && canvas != current
      && -size < cursor < size
    }

    /**
     * `createPixelBuffer`: `new PixelDisplayBuffer(manager, x, y, w, h, z)`
     * followed by `assignId`, with both arrays zeroed.
     */
    constructor (engine: DisplayEngine, x: int, y: int, w: int, h: int, z: int, id: int)
      requires w >= 1 && h >= 1
      ensures Valid() && fresh(canvas) && fresh(current)
      ensures this.engine == engine && this.x == x && this.y == y && this.z == z && this.id == id
      ensures width == w && height == h && size == w * h
      ensures forall k :: 0 <= k < size ==> canvas[k] == 0 && current[k] == 0
      ensures cursor == 0 && !wrap && opacity == 100 && !pauseRenders
    {
      this.engine := engine;
      this.x, this.y, this.z := x, y, z;
      width, height, size := w, h, w * h;
      this.id := id;
      canvas := new int[w * h](_ => 0);
      current := new int[w * h](_ => 0);
      cursor := 0;
      wrap := false;
      opacity := 100;
      pauseRenders := false;
    }

    /** `assignId`. */
    method AssignId(id: int)
      modifies this`id
      ensures this.id == id
    {
      this.id := id;
    }

    /** `clearCurrent`: forget what was handed to the engine. */
    method ClearCurrent()
      requires Valid()
      modifies current
      ensures forall k :: 0 <= k < size ==> current[k] == 0
    {
      forall k | 0 <= k < current.Length {
        current[k] := 0;
      }
    }

    /** `cursorTo`: move the cursor to a cell of the buffer; off the buffer it stays. */
    method CursorTo(cx: int, cy: int)
      requires Valid()
      modifies this`cursor
      ensures Valid()
      ensures ScreenIndex(cx, cy, width, height).Some? ==> cursor == ScreenIndex(cx, cy, width, height).value
      ensures ScreenIndex(cx, cy, width, height).None? ==> cursor == old(cursor)
    {
      var index := ScreenIndex(cx, cy, width, height);
      if index.Some? {
        cursor := index.value;
      }
    }

    /** `centerWidth`: the column that centres something `w` cells wide. */
    function CenterWidth(w: int): (c: int)
      reads this
      ensures 2 * c <= width - w < 2 * c + 2
    {
      (width - w) / 2
    }

    /** `centerHeight`: the row that centres something `h` rows high. */
    function CenterHeight(h: int): (c: int)
      reads this
      ensures 2 * c <= height - h < 2 * c + 2
    {
      (height - h) / 2
    }

    /** The colours a `write` or `draw` of `src` stores, with the buffer's opacity and the engine's defaults. */
    function InkOf(src: ColorInput, n: nat): (r: seq<int>)
      reads this, engine
      ensures |r| == n
    {
      InkRun(src, n, opacity, engine.defaultFg, engine.defaultBg)
    }

    /**
     * `write`: the colours from the cursor on, clipped to the cursor's row
     * (or to the buffer when wrapping); the cursor moves past them, and
     * wraps round with JavaScript's remainder.  At least one colour is
     * always stored.
     */
    method Write(src: ColorInput)
      requires Valid()
      modifies canvas, this`cursor
      ensures Valid()
      ensures var n := WriteAmount(src, old(cursor), wrap, width, size);
              && canvas[..] == Spread(old(canvas[..]), old(cursor), InkOf(src, Span(n)))
              && cursor == JsRem(old(cursor) + n, size)
    {
      var amount := WriteAmount(src, cursor, wrap, width, size);
      ghost var vals := InkOf(src, Span(amount));
      var i := 0;
      while i == 0 || i < amount
        invariant 0 <= i <= Span(amount) && cursor == old(cursor)
        invariant canvas[..] == Spread(old(canvas[..]), cursor, vals[..i])
        decreases Span(amount) - i
      {
        SpreadStep(old(canvas[..]), cursor, vals, i);
        if 0 <= cursor + i < size {
          canvas[cursor + i] := ToUint32(Ink(src, i, opacity, engine.defaultFg, engine.defaultBg));
        }
        i := i + 1;
      }
      assert vals[..i] == vals;
      cursor := JsRem(cursor + amount, size);
    }

    /**
     * `draw`: the colours at column `dx` of row `dy`; cells off the buffer
     * are skipped.  At least one colour is always drawn.
     */
    method Draw(src: ColorInput, dx: int, dy: int)
      requires Valid()
      modifies canvas
      ensures canvas[..] == OnRow(old(canvas[..]), dx, dy, InkOf(src, Span(Requested(src))), width)
    {
      var amount := Requested(src);
      ghost var vals := InkOf(src, Span(amount));
      var i := 0;
      while i == 0 || i < amount
        invariant 0 <= i <= Span(amount)
        invariant canvas[..] == OnRow(old(canvas[..]), dx, dy, vals[..i], width)
        decreases Span(amount) - i
      {
        OnRowStep(old(canvas[..]), dx, dy, vals, i, width, height);
        var index := ScreenIndex(dx + i, dy, width, height);
        if index.Some? {
          canvas[index.value] := ToUint32(Ink(src, i, opacity, engine.defaultFg, engine.defaultBg));
        }
        i := i + 1;
      }
      assert vals[..i] == vals;
    }

    /** `drawAbsolute`: `draw` at screen coordinates. */
    method DrawAbsolute(src: ColorInput, screenX: int, screenY: int)
      requires Valid()
      modifies canvas
      ensures canvas[..] == OnRow(old(canvas[..]), screenX - x, screenY - y, InkOf(src, Span(Requested(src))), width)
    {
      Draw(src, screenX - x, screenY - y);
    }

    /** `fill`: every cell the colour, as `processBrush` fades it. */
    method Fill(color: int)
      requires Valid()
      modifies canvas
      ensures forall k :: 0 <= k < size ==>
                canvas[k] == ToUint32(EngineBrush(Some(color), Some(color), opacity, engine.defaultFg, engine.defaultBg).fg)
    {
      var fg := EngineBrush(Some(color), Some(color), opacity, engine.defaultFg, engine.defaultBg).fg;
      forall k | 0 <= k < canvas.Length {
        canvas[k] := ToUint32(fg);
      }
    }

    // -----------------------------------------------------------------
    // Rendering, pair by pair

    /** The buffer's id, position and size, as its requests see them. */
    function Place(): (g: Placement)
      reads this
      ensures g.width == width && g.size == size
    {
      Placement(id, x, y, z, width, size)
    }

    /** `transferToCurrent`: both halves go into `current` and leave the canvas. */
    method TransferToCurrent(paint: bool, top: int, bottom: int, t: int, b: int)
      requires Valid() && b == t + width
      modifies canvas, current
      ensures canvas[..] == Put(Put(old(canvas[..]), t, 0), b, 0)
      ensures current[..] == Put(Put(old(current[..]), t, Stored(paint, top)), b, Stored(paint, bottom))
    {
      if 0 <= b < size {
        canvas[b] := 0;
      }
      if 0 <= t < size {
        canvas[t] := 0;
      }
      if 0 <= t < size {
        current[t] := Stored(paint, top);
      }
      if 0 <= b < size {
        current[b] := Stored(paint, bottom);
      }
    }

    /**
     * `render` (or `ghostRender`) and `paint` of the pair whose top half is
     * cell `t`: move it into `current`, and send its pixel if a half changed.
     */
    method PairAt(t: int, paint: bool, ghost g: Placement) returns (sent: seq<DrawRequest>)
      requires Valid() && g == Place()
      modifies canvas, current
      ensures canvas[..] == Put(Put(old(canvas[..]), t, 0), t + width, 0)
      ensures current[..] == Put(Put(old(current[..]), t, Kept(paint, old(canvas[..]), old(current[..]), t)),
                                 t + width, Kept(paint, old(canvas[..]), old(current[..]), t + width))
      ensures sent == PairSends(g, paint, old(canvas[..]), old(current[..]), t)
    {
      var b := t + width;
      var c, cur := canvas[..], current[..];
      var top, bottom := Half(paint, c, cur, t), Half(paint, c, cur, b);
      var currentTop, currentBottom := Was(paint, cur, t), Was(paint, cur, b);
      TransferToCurrent(paint, top, bottom, t, b);
      if top != currentTop || bottom != currentBottom {
        sent := [PairRequest(Place(), t, top, bottom)];
      } else {
        sent := [];
      }
    }

    /**
     * The body of `handleRender`'s inner loop: the pair at column `j` of the
     * row starting at `i`, whose cells still hold the values `c0`, `cur0`
     * they had when the pass began.
     */
    method PairInRow(i: int, j: nat, paint: bool, ghost g: Placement, ghost c0: seq<int>, ghost cur0: seq<int>)
        returns (sent: seq<DrawRequest>)
      requires Valid() && g == Place() && |c0| == |cur0| == size && j < width
      requires canvas[..] == Over(Upto(c0, Zeros(size), i), Zeros(size), i, j, width)
      requires current[..] == Over(Upto(cur0, KeptAll(paint, c0, cur0), i), KeptAll(paint, c0, cur0), i, j, width)
      modifies canvas, current
      ensures canvas[..] == Over(Upto(c0, Zeros(size), i), Zeros(size), i, j + 1, width)
      ensures current[..] == Over(Upto(cur0, KeptAll(paint, c0, cur0), i), KeptAll(paint, c0, cur0), i, j + 1, width)
      ensures sent == PairSends(g, paint, c0, cur0, i + j)
    {
      var t := i + j;
      ghost var kept := KeptAll(paint, c0, cur0);
      OverStep(Upto(c0, Zeros(size), i), Zeros(size), i, j, width, 0, 0);
      OverStep(Upto(cur0, kept, i), kept, i, j, width, Kept(paint, c0, cur0, t), Kept(paint, c0, cur0, t + width));
      PairAgrees(g, paint, canvas[..], current[..], c0, cur0, t);
      sent := PairAt(t, paint, g);
    }

    /**
     * The inner loop of `handleRender`: the pairs whose top halves lie on
     * the row starting at `i`, column by column, their requests following
     * those `rs` sent before.  Both rows end empty in the canvas and
     * handled in `current`.
     */
    method RowPairs(i: int, rs: seq<DrawRequest>, paint: bool, ghost g: Placement, ghost c0: seq<int>, ghost cur0: seq<int>)
        returns (out: seq<DrawRequest>)
      requires Valid() && g == Place() && |c0| == |cur0| == size
      requires canvas[..] == Upto(c0, Zeros(size), i)
      requires current[..] == Upto(cur0, KeptAll(paint, c0, cur0), i)
      requires rs == SentBefore(g, paint, c0, cur0, i, 0)
      modifies canvas, current
      ensures canvas[..] == Upto(c0, Zeros(size), i + 2 * width)
      ensures current[..] == Upto(cur0, KeptAll(paint, c0, cur0), i + 2 * width)
      ensures out == SentBefore(g, paint, c0, cur0, i, width)
    {
      ghost var kept := KeptAll(paint, c0, cur0);
      out := rs;
      var j := 0;
      while j < width
        invariant 0 <= j <= width
        invariant canvas[..] == Over(Upto(c0, Zeros(size), i), Zeros(size), i, j, width)
        invariant current[..] == Over(Upto(cur0, kept, i), kept, i, j, width)
        invariant out == SentBefore(g, paint, c0, cur0, i, j)
      {
        var s := PairInRow(i, j, paint, g, c0, cur0);
        out := out + s;
        j := j + 1;
      }
      UptoStep(c0, Zeros(size), i, width);
      UptoStep(cur0, kept, i, width);
    }

    /**
     * The loop of `handleRender` from the row pair starting at `i` on,
     * every other row until the end of the canvas.
     */
    method RowPairsFrom(i0: int, rs0: seq<DrawRequest>, paint: bool, ghost g: Placement, ghost c0: seq<int>, ghost cur0: seq<int>)
        returns (rs: seq<DrawRequest>, i: int)
      requires Valid() && g == Place() && |c0| == |cur0| == size && FirstRow(g) <= i0
      requires canvas[..] == Upto(c0, Zeros(size), i0)
      requires current[..] == Upto(cur0, KeptAll(paint, c0, cur0), i0)
      requires rs0 == SentBefore(g, paint, c0, cur0, i0, 0)
      modifies canvas, current
      ensures i >= size && i == Stop(g, i0)
      ensures canvas[..] == Upto(c0, Zeros(size), i)
      ensures current[..] == Upto(cur0, KeptAll(paint, c0, cur0), i)
      ensures rs == SentBefore(g, paint, c0, cur0, i, 0)
    {
      rs, i := rs0, i0;
      while i < size
        invariant canvas[..] == Upto(c0, Zeros(size), i)
        invariant current[..] == Upto(cur0, KeptAll(paint, c0, cur0), i)
        invariant FirstRow(g) <= i && Stop(g, i) == Stop(g, i0)
        invariant rs == SentBefore(g, paint, c0, cur0, i, 0)
        decreases size - i
      {
        rs := RowPairs(i, rs, paint, g, c0, cur0);
        NextRowPair(g, paint, c0, cur0, i, i + 2 * width);
        i := i + 2 * width;
      }
    }

    /**
     * `handleRender`: every other row from `FirstRow` on, so that every
     * cell is a half of exactly one pair.  The canvas ends empty, `current`
     * holds every pair as handled, and the requests are those of the pairs
     * that changed, row pair by row pair.
     */
    method HandleRender(paint: bool) returns (rs: seq<DrawRequest>)
      requires Valid()
      modifies canvas, current
      ensures canvas[..] == Zeros(size)
      ensures current[..] == KeptAll(paint, old(canvas[..]), old(current[..]))
      ensures rs == AllSends(Place(), paint, old(canvas[..]), old(current[..]))
    {
      ghost var c0, cur0 := canvas[..], current[..];
      // the do-while's first test always holds: `i` starts at or before 0
      var i := if y % 2 == 1 then -width else 0;
      UptoEnds(c0, Zeros(size), i);
      UptoEnds(cur0, KeptAll(paint, c0, cur0), i);
      rs, i := RowPairsFrom(i, [], paint, Place(), c0, cur0);
      UptoEnds(c0, Zeros(size), i);
      UptoEnds(cur0, KeptAll(paint, c0, cur0), i);
    }

    /** Whether `handleRender` returns at once: the engine's or the buffer's renders are paused. */
    predicate Paused()
      reads this, engine
    {
      engine.pauseRenders || pauseRenders
    }

    /**
     * `handleRender` once it goes ahead, for `render` (`paint` false) and
     * `paint` (`paint` true): the pass, then `executeRender`.
     */
    method Pass(paint: bool)
      requires Valid() && engine.Valid() && engine.Resolves()
      modifies canvas, current, engine`render, engine`written, engine`term, engine`screen,
               engine.cache, engine.constructions
      ensures engine.Valid() && engine.pending == old(engine.pending)
      ensures canvas[..] == Zeros(size) && current[..] == KeptAll(paint, old(canvas[..]), old(current[..]))
      ensures engine.Presented(AllSends(Place(), paint, old(canvas[..]), old(current[..])))
    {
      var rs := HandleRender(paint);
      label Handled:
      assert unchanged(engine) && unchanged(engine.cache);
      engine.Present(rs);
      assert unchanged@Handled(canvas, current);
    }

    /**
     * `ghostRender` once it goes ahead: the requests of `render`, issued as
     * ghost draws and left for the engine's ghost pass.
     */
    method GhostPass()
      requires Valid() && engine.Valid()
      modifies canvas, current, engine`pending, engine`screen, engine.constructions
      ensures engine.Valid()
      ensures var rs := AllSends(Place(), false, old(canvas[..]), old(current[..]));
              && canvas[..] == Zeros(size) && current[..] == old(canvas[..])
              && engine.screen == ApplyRequests(old(engine.screen), rs, engine.width, engine.height)
              && engine.pending == AddAllPending(old(engine.pending), rs, engine.width, engine.height)
    {
      ghost var g, c0, cur0 := Place(), canvas[..], current[..];
      var rs := HandleRender(false);
      assert rs == AllSends(g, false, c0, cur0);
      RenderKeepsCanvas(c0, cur0);
      label Handled:
      engine.IssueGhost(rs);
      assert unchanged@Handled(canvas, current);
      assert Place() == g;
    }

    /**
     * `render`: unless paused, move the canvas into `current` pair by pair
     * and hand the engine one pixel per changed pair, then have it write
     * out what they drew.
     */
    method Render()
      requires Valid() && engine.Valid() && engine.Resolves()
      modifies canvas, current, engine`render, engine`written, engine`term, engine`screen,
               engine.cache, engine.constructions
      ensures engine.Valid() && engine.pending == old(engine.pending)
      ensures old(Paused()) ==>
                unchanged(canvas) && unchanged(current) && unchanged(engine) && unchanged(engine.cache)
      ensures !old(Paused()) ==>
                && canvas[..] == Zeros(size) && current[..] == old(canvas[..])
                && engine.Presented(AllSends(Place(), false, old(canvas[..]), old(current[..])))
    {
      if engine.pauseRenders || pauseRenders {
        return;
      }
      RenderKeepsCanvas(canvas[..], current[..]);
      Pass(false);
    }

    /**
     * `paint`: like `render`, but a cell keeps what it showed wherever the
     * canvas is empty.
     */
    method Paint()
      requires Valid() && engine.Valid() && engine.Resolves()
      modifies canvas, current, engine`render, engine`written, engine`term, engine`screen,
               engine.cache, engine.constructions
      ensures engine.Valid() && engine.pending == old(engine.pending)
      ensures old(Paused()) ==>
                unchanged(canvas) && unchanged(current) && unchanged(engine) && unchanged(engine.cache)
      ensures !old(Paused()) ==>
                && canvas[..] == Zeros(size) && current[..] == KeptAll(true, old(canvas[..]), old(current[..]))
                && engine.Presented(AllSends(Place(), true, old(canvas[..]), old(current[..])))
    {
      if engine.pauseRenders || pauseRenders {
        return;
      }
      Pass(true);
    }

    /**
     * `ghostRender`: unless paused, the requests of `render`, issued as
     * ghost draws and left for the engine's ghost pass; nothing is written
     * out.
     */
    method GhostRender()
      requires Valid() && engine.Valid()
      modifies canvas, current, engine`pending, engine`screen, engine.constructions
      ensures engine.Valid()
      ensures old(Paused()) ==> unchanged(canvas) && unchanged(current) && unchanged(engine)
      ensures !old(Paused()) ==>
                var rs := AllSends(Place(), false, old(canvas[..]), old(current[..]));
                && canvas[..] == Zeros(size) && current[..] == old(canvas[..])
                && engine.screen == ApplyRequests(old(engine.screen), rs, engine.width, engine.height)
                && engine.pending == AddAllPending(old(engine.pending), rs, engine.width, engine.height)
    {
      if engine.pauseRenders || pauseRenders {
        return;
      }
      GhostPass();
    }
  }
}
