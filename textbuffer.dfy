/**
 * A text surface of buffer.js (`TextDisplayBuffer`).
 *
 * The buffer draws on `canvas` (`canvasCodes`, `canvasFGs`, `canvasBGs`)
 * and remembers in `current` what it last handed to the manager.  `render`
 * moves the canvas into `current` and clears the canvas; `paint` keeps
 * `current` wherever the canvas is empty.  Either way a draw request goes to
 * the manager for every cell whose value changed, and the manager then
 * writes out what they drew.  A cell with code 0 is empty: its request
 * withdraws the buffer's contribution from the screen cell.
 */
module TextSurface {
  import opened Colors
  import opened Wrappers
  import opened Compositor
  import opened Terminal
  import opened Screen
  import opened Canvas
  import opened Manager

  /** A cell of the three typed arrays at start-up and after it is rendered. */
  const ZeroCell: Cell := Cell(0, 0, 0)

  /** A UTF-16 code unit. */
  type CodeUnit = c: int | 0 <= c < 0x1_0000

  /** A JavaScript string as `length` and `charCodeAt` see it: a sequence of UTF-16 code units. */
  type JsString = seq<CodeUnit>

  /**
   * `string.charCodeAt(i)`: a code unit of the string; past its end NaN,
   * which the Uint16 array stores as 0.
   */
  function CodeAt(s: JsString, i: nat): (c: int)
    ensures ToUint16(c) == c
    ensures i < |s| ==> c == s[i]
    ensures i >= |s| ==> c == 0
  {
    if i < |s| then s[i] as int else 0
  }

  /** `writeToCanvas`: a code and a brush as the typed arrays store them. */
  function TextCell(code: int, b: Brush): (c: Cell)
    ensures CellInRange(c)
  {
    Cell(ToUint16(code), ToUint32(b.fg), ToUint32(b.bg))
  }

  /** The cells a `write` or `draw` of `s` stores, one per loop turn. */
  function TextRun(s: JsString, b: Brush, n: nat): (r: seq<Cell>)
    ensures |r| == n
    ensures forall i :: 0 <= i < n ==> r[i] == TextCell(CodeAt(s, i), b)
  {
    seq(n, i requires 0 <= i < n => TextCell(CodeAt(s, i), b))
  }

  /**
   * `write`'s amount: the string, cut at the end of the cursor's row, or at
   * the end of the buffer when wrapping.  It never reaches past either.
   */
  function WriteAmount(len: nat, cursor: nat, wrap: bool, width: int, height: int): (n: nat)
    requires width >= 1 && cursor < width * height
    ensures n <= len && cursor + n <= width * height
    ensures !wrap ==> cursor % width + n <= width
    ensures len >= 1 ==> n >= 1
  {
    RowEnd(cursor, width, height);
    var size := width * height;
    if wrap then MinInt(len, size - cursor) else MinInt(len, width - cursor % width)
  }

  /**
   * Without wrapping, every cell a `write` stores lies on the cursor's row:
   * text never runs on into the next row.
   */
  lemma {:induction false} WriteStaysOnRow(len: nat, cursor: nat, width: int, height: int)
    requires width >= 1 && cursor < width * height
    ensures var n := Span(WriteAmount(len, cursor, false, width, height));
            forall j :: cursor <= j < cursor + n ==> j / width == cursor / width
  {
    var n := Span(WriteAmount(len, cursor, false, width, height));
    var row := cursor / width;
    forall j | cursor <= j < cursor + n
      ensures j / width == row
    {
      DivModUnique(j, row, cursor % width + (j - cursor), width);
    }
  }

  /** `render` and `paint` of one cell: what goes into `current`. */
  function Next(paint: bool, canvas: Cell, current: Cell): (c: Cell)
    ensures paint && canvas != ZeroCell ==> c.code == (if canvas.code != 0 then canvas.code else current.code)
  {
    if paint then
      Cell(if canvas.code != 0 then canvas.code else current.code,
           if canvas.fg != 0 then canvas.fg else current.fg,
           if canvas.bg != 0 then canvas.bg else current.bg)
    else canvas
  }

  /** `current` after a whole `render` or `paint`. */
  function NextAll(paint: bool, canvas: seq<Cell>, current: seq<Cell>): (r: seq<Cell>)
    requires |canvas| == |current|
    ensures |r| == |canvas| && forall k :: 0 <= k < |r| ==> r[k] == Next(paint, canvas[k], current[k])
  {
    seq(|canvas|, k requires 0 <= k < |canvas| => Next(paint, canvas[k], current[k]))
  }

  /** A whole `render` puts the canvas into `current` as it is. */
  lemma RenderTakesCanvas(canvas: seq<Cell>, current: seq<Cell>)
    requires |canvas| == |current|
    ensures NextAll(false, canvas, current) == canvas
  {
  }

  /** Painting an empty canvas keeps `current` exactly. */
  lemma PaintEmptyKeeps(current: seq<Cell>)
    ensures NextAll(true, seq(|current|, _ => ZeroCell), current) == current
  {
  }

  class TextBuffer {
    /** The manager the buffer draws through (its `manager` argument). */
    const manager: BufferManager
    /** `bufferX`, `bufferY`, `bufferZ`. */
    const x: int
    const y: int
    const z: int
    /** `bufferWidth`, `bufferHeight`, `bufferSize`. */
    const width: int
    const height: int
    const size: int
    /** `bufferId`. */
    var id: int
    const canvas: array<Cell>
    const current: array<Cell>
    /** `cursorIndex`. */
    var cursor: int
    var wrap: bool
    var opacity: int

    ghost predicate Valid()
      reads this
    {
      && width >= 1 && height >= 1 && size == width * height
      && canvas.Length == size && current.Length == size
      && canvas != current && canvas != manager.cache && current != manager.cache
      && 0 <= cursor < size
    }

    /**
     * `createTextBuffer`: `new TextDisplayBuffer(manager, x, y, w, h, z)`
     * followed by `assignId`, with both arrays empty.
     */
    constructor (manager: BufferManager, x: int, y: int, w: int, h: int, z: int, id: int)
      requires w >= 1 && h >= 1
      ensures Valid() && fresh(canvas) && fresh(current)
      ensures this.manager == manager && this.x == x && this.y == y && this.z == z && this.id == id
      ensures width == w && height == h && size == w * h
      ensures forall k :: 0 <= k < size ==> canvas[k] == ZeroCell && current[k] == ZeroCell
      ensures cursor == 0 && !wrap && opacity == 100
    {
      this.manager := manager;
      this.x, this.y, this.z := x, y, z;
      width, height, size := w, h, w * h;
      this.id := id;
      canvas := new Cell[w * h](_ => ZeroCell);
      current := new Cell[w * h](_ => ZeroCell);
      cursor := 0;
      wrap := false;
      opacity := 100;
    }

    /** `assignId`. */
    method AssignId(id: int)
      modifies this`id
      ensures this.id == id
    {
      this.id := id;
    }

    /** `clearCurrent`: forget what was handed to the manager. */
    method ClearCurrent()
      requires Valid()
      modifies current
      ensures forall k :: 0 <= k < size ==> current[k] == ZeroCell
    {
      forall k | 0 <= k < current.Length {
        current[k] := ZeroCell;
      }
    }

    /** `cursorTo`: move the cursor to a cell of the buffer; off the buffer it stays. */
    method CursorTo(cx: int, cy: int)
      requires Valid()
      modifies this`cursor
      ensures Valid()
      ensures ScreenIndex(cx, cy, width, height).Some? ==> cursor == ScreenIndex(cx, cy, width, height).value
      ensures ScreenIndex(cx, cy, width, height).None? ==> cursor == old(cursor)
    {
      var index := ScreenIndex(cx, cy, width, height);
      if index.Some? {
        cursor := index.value;
      }
    }

    /** `centerWidth`: the column that centres something `w` cells wide. */
    function CenterWidth(w: int): (c: int)
      reads this
      ensures 2 * c <= width - w < 2 * c + 2
    {
      (width - w) / 2
    }

    /** `centerHeight`: the row that centres something `h` rows high. */
    function CenterHeight(h: int): (c: int)
      reads this
      ensures 2 * c <= height - h < 2 * c + 2
    {
      (height - h) / 2
    }

    /** The brush a write uses: the manager's `processBrush` with the buffer's opacity. */
    function BrushOf(fg: int, bg: int): Brush
      reads this, manager
    {
      ManagerBrush(fg, bg, opacity, manager.defaultFg, manager.defaultBg)
    }

    /**
     * `write`: the string from the cursor on, clipped to the cursor's row
     * (or to the buffer when wrapping); the cursor moves past it, back to
     * the first cell at the end of the buffer.  An empty string still
     * stores one empty cell at the cursor.
     */
    method Write(s: JsString, fg: int, bg: int)
      requires Valid()
      modifies canvas, this`cursor
      ensures Valid()
      ensures var n := WriteAmount(|s|, old(cursor), wrap, width, height);
              && canvas[..] == Spread(old(canvas[..]), old(cursor), TextRun(s, BrushOf(fg, bg), Span(n)))
              && cursor == (old(cursor) + n) % size
    {
      var brush := BrushOf(fg, bg);
      var amount := WriteAmount(|s|, cursor, wrap, width, height);
      ghost var vals := TextRun(s, brush, Span(amount));
      var i := 0;
      while i == 0 || i < amount
        invariant 0 <= i <= Span(amount) && cursor == old(cursor)
        invariant canvas[..] == Spread(old(canvas[..]), cursor, vals[..i])
        decreases Span(amount) - i
      {
        SpreadStep(old(canvas[..]), cursor, vals, i);
        canvas[cursor + i] := TextCell(CodeAt(s, i), brush);
        i := i + 1;
      }
      assert vals[..i] == vals;
      cursor := (cursor + amount) % size;
    }

    /**
     * `draw`: the string at column `dx` of row `dy`; cells off the buffer
     * are skipped.  An empty string still stores one empty cell.
     */
    method Draw(s: JsString, dx: int, dy: int, fg: int, bg: int)
      requires Valid()
      modifies canvas
      ensures canvas[..] == OnRow(old(canvas[..]), dx, dy, TextRun(s, BrushOf(fg, bg), Span(|s|)), width)
    {
      var brush := BrushOf(fg, bg);
      ghost var vals := TextRun(s, brush, Span(|s|));
      var i := 0;
      while i == 0 || i < |s|
        invariant 0 <= i <= Span(|s|)
        invariant canvas[..] == OnRow(old(canvas[..]), dx, dy, vals[..i], width)
        decreases Span(|s|) - i
      {
        OnRowStep(old(canvas[..]), dx, dy, vals, i, width, height);
        var index := ScreenIndex(dx + i, dy, width, height);
        if index.Some? {
          canvas[index.value] := TextCell(CodeAt(s, i), brush);
        }
        i := i + 1;
      }
      assert vals[..i] == vals;
    }

    /** `drawAbsolute`: `draw` at screen coordinates. */
    method DrawAbsolute(s: JsString, screenX: int, screenY: int, fg: int, bg: int)
      requires Valid()
      modifies canvas
      ensures canvas[..] == OnRow(old(canvas[..]), screenX - x, screenY - y, TextRun(s, BrushOf(fg, bg), Span(|s|)), width)
    {
      Draw(s, screenX - x, screenY - y, fg, bg);
    }

    /** `fill`: every cell a blank on the given background (or the manager's default). */
    method Fill(color: int)
      requires Valid()
      modifies canvas
      ensures forall k :: 0 <= k < size ==> canvas[k] == Cell(32, 0, ToUint32(BrushOf(0, color).bg))
    {
      var brush := BrushOf(0, color);
      forall k | 0 <= k < canvas.Length {
        canvas[k] := Cell(32, 0, ToUint32(brush.bg));
      }
    }

    /**
     * `sendDrawRequest`: the cell's contribution at its screen position, or
     * `null` (withdraw) when its code is 0.
     */
    function PointRequest(i: nat, c: Cell): (r: DrawRequest)
      requires width >= 1
      reads this
      ensures r.id == id && r.z == z && r.x == x + i % width && r.y == y + i / width
      ensures r.data.None? <==> c.code == 0
      ensures r.data.Some? ==> r.data.value == Point(c.code, c.fg, c.bg)
    {
      DrawRequest(id, if c.code != 0 then Some(Point(c.code, c.fg, c.bg)) else None, x + i % width, y + i / width, z)
    }

    /** The requests of a pass over the first `k` cells: one per cell whose value changes. */
    function Sends(next: seq<Cell>, prev: seq<Cell>, k: nat): (r: seq<DrawRequest>)
      requires width >= 1 && k <= |next| == |prev|
      reads this
      ensures |r| <= k
    {
      if k == 0 then []
      else Sends(next, prev, k - 1) + (if next[k - 1] != prev[k - 1] then [PointRequest(k - 1, next[k - 1])] else [])
    }

    /** A request is sent for a cell exactly when its value changes, and for nothing else. */
    lemma SendsExactly(next: seq<Cell>, prev: seq<Cell>, k: nat)
      requires width >= 1 && k <= |next| == |prev|
      ensures forall i :: 0 <= i < k ==> (PointRequest(i, next[i]) in Sends(next, prev, k) <==> next[i] != prev[i])
      ensures forall r :: r in Sends(next, prev, k) ==>
                exists i :: 0 <= i < k && next[i] != prev[i] && r == PointRequest(i, next[i])
    {
      SendsChanged(next, prev, k);
      SendsOnlyChanged(next, prev, k);
    }

    lemma {:induction false} SendsChanged(next: seq<Cell>, prev: seq<Cell>, k: nat)
      requires width >= 1 && k <= |next| == |prev|
      ensures forall i :: 0 <= i < k ==> (PointRequest(i, next[i]) in Sends(next, prev, k) <==> next[i] != prev[i])
    {
      if k > 0 {
        SendsChanged(next, prev, k - 1);
        var rest := Sends(next, prev, k - 1);
        var last := if next[k - 1] != prev[k - 1] then [PointRequest(k - 1, next[k - 1])] else [];
        assert Sends(next, prev, k) == rest + last;
        forall i | 0 <= i < k
          ensures PointRequest(i, next[i]) in rest + last <==> next[i] != prev[i]
        {
          if i < k - 1 {
            PointRequestsDiffer(i, k - 1, next[i], next[k - 1]);
            assert PointRequest(i, next[i]) !in last;
            assert PointRequest(i, next[i]) in rest <==> next[i] != prev[i];
          } else {
            assert PointRequest(i, next[i]) in last <==> next[i] != prev[i];
            assert PointRequest(i, next[i]) !in rest by {
              SendsBelow(next, prev, k - 1);
            }
          }
        }
      }
    }

    /** A pass over the first `k` cells sends nothing for cell `k` or later. */
    lemma {:induction false} SendsBelow(next: seq<Cell>, prev: seq<Cell>, k: nat)
      requires width >= 1 && k <= |next| == |prev|
      ensures forall j :: k <= j && j < |next| ==> PointRequest(j, next[j]) !in Sends(next, prev, k)
    {
      SendsOnlyChanged(next, prev, k);
      forall j | k <= j && j < |next|
        ensures PointRequest(j, next[j]) !in Sends(next, prev, k)
      {
        forall i | 0 <= i < k
          ensures PointRequest(j, next[j]) != PointRequest(i, next[i])
        {
          PointRequestsDiffer(j, i, next[j], next[i]);
        }
      }
    }

    lemma {:induction false} SendsOnlyChanged(next: seq<Cell>, prev: seq<Cell>, k: nat)
      requires width >= 1 && k <= |next| == |prev|
      ensures forall r :: r in Sends(next, prev, k) ==>
                exists i :: 0 <= i < k && next[i] != prev[i] && r == PointRequest(i, next[i])
    {
      if k > 0 {
        SendsOnlyChanged(next, prev, k - 1);
        var rest := Sends(next, prev, k - 1);
        var last := if next[k - 1] != prev[k - 1] then [PointRequest(k - 1, next[k - 1])] else [];
        assert Sends(next, prev, k) == rest + last;
      }
    }

    /** Requests for two different cells go to two different screen positions. */
    lemma {:induction false} PointRequestsDiffer(i: nat, j: nat, c: Cell, d: Cell)
      requires width >= 1 && i != j
      ensures PointRequest(i, c) != PointRequest(j, d)
    {
      if i % width == j % width && i / width == j / width {
        DivModUnique(i, j / width, j % width, width);
      }
    }

    /** `transferToCurrent`: the cell goes into `current` and the canvas cell is emptied. */
    method TransferToCurrent(i: nat, c: Cell)
      requires Valid() && i < size
      modifies canvas, current
      ensures canvas[..] == old(canvas[..])[i := ZeroCell]
      ensures current[..] == old(current[..])[i := c]
    {
      canvas[i] := ZeroCell;
      current[i] := c;
    }

    /** `render` or `paint` of one cell: move it into `current`, and send it if it changed. */
    method RenderAt(i: nat, paint: bool) returns (sent: seq<DrawRequest>)
      requires Valid() && i < size
      modifies canvas, current
      ensures var c := Next(paint, old(canvas[i]), old(current[i]));
              && canvas[..] == old(canvas[..])[i := ZeroCell]
              && current[..] == old(current[..])[i := c]
              && sent == if c != old(current[i]) then [PointRequest(i, c)] else []
    {
      var c := Next(paint, canvas[i], current[i]);
      var prev := current[i];
      TransferToCurrent(i, c);
      sent := if c != prev then [PointRequest(i, c)] else [];
    }

    /**
     * The loop of `handleRender`: every cell in turn.  The canvas ends
     * empty, `current` holds what was rendered (or painted), and the
     * requests are those of the cells that changed, in index order.
     */
    method HandleRender(paint: bool) returns (rs: seq<DrawRequest>)
      requires Valid()
      modifies canvas, current
      ensures forall k :: 0 <= k < size ==> canvas[k] == ZeroCell
      ensures current[..] == NextAll(paint, old(canvas[..]), old(current[..]))
      ensures rs == Sends(current[..], old(current[..]), size)
    {
      ghost var next := NextAll(paint, canvas[..], current[..]);
      rs := [];
      var i := 0;
      while i < size
        invariant 0 <= i <= size
        invariant forall k :: 0 <= k < i ==> canvas[k] == ZeroCell
        invariant forall k :: i <= k < size ==> canvas[k] == old(canvas[k])
        invariant forall k :: 0 <= k < size ==> current[k] == if k < i then next[k] else old(current[k])
        invariant rs == Sends(next, old(current[..]), i)
      {
        var sent := RenderAt(i, paint);
        rs := rs + sent;
        i := i + 1;
      }
      assert current[..] == next;
    }

    /**
     * `render`: move the canvas into `current` and hand the manager one
     * request per changed cell, then have it write out what they drew.
     */
    method Render()
      requires Valid() && manager.Valid() && manager.Resolves()
      modifies canvas, current, manager`render, manager`written, manager`term, manager`screen,
               manager.cache, manager.constructions
      ensures manager.Valid()
      ensures forall k :: 0 <= k < size ==> canvas[k] == ZeroCell && current[k] == old(canvas[k])
      ensures manager.Presented(Sends(old(canvas[..]), old(current[..]), size))
    {
      var rs := HandleRender(false);
      RenderTakesCanvas(old(canvas[..]), old(current[..]));
      label Handled:
      assert unchanged(manager) && unchanged(manager.cache);
      manager.Present(rs);
      assert unchanged@Handled(canvas, current);
    }

    /**
     * `paint`: like `render`, but a cell keeps what it showed wherever the
     * canvas is empty.
     */
    method Paint()
      requires Valid() && manager.Valid() && manager.Resolves()
      modifies canvas, current, manager`render, manager`written, manager`term, manager`screen,
               manager.cache, manager.constructions
      ensures manager.Valid()
      ensures forall k :: 0 <= k < size ==> canvas[k] == ZeroCell
      ensures current[..] == NextAll(true, old(canvas[..]), old(current[..]))
      ensures manager.Presented(Sends(current[..], old(current[..]), size))
    {
      var rs := HandleRender(true);
      label Handled:
      assert unchanged(manager) && unchanged(manager.cache);
      manager.Present(rs);
      assert unchanged@Handled(canvas, current);
    }
  }
}
