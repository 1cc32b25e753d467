/**
 * What a buffer's `write` and `draw` do to its canvas, stated on values.
 * Both buffers (buffer.js, pixelBuffer.js) keep their canvas as typed
 * arrays indexed row-major by `coordinateIndex`, which is
 * `Screen.ScreenIndex` over the buffer's own width and height.  A store to
 * an index outside a typed array is ignored, and so are indices outside the
 * canvas here.
 */
module Canvas {
  import opened Wrappers
  import opened Screen
  import opened Colors

  /** How often a do-while loop bounded by `amount` runs its body: at least once. */
  function Span(amount: int): (n: nat)
    ensures n >= 1 && (amount >= 1 ==> n == amount)
  {
    if amount <= 0 then 1 else amount
  }

  /** `Math.min` on integers. */
  function MinInt(a: int, b: int): int { if a <= b then a else b }

  /**
   * JavaScript's `%` on integers: the remainder has the sign of the
   * dividend, and differs from the dividend by a multiple of `m`.
   */
  function JsRem(a: int, m: int): (r: int)
    requires m >= 1
    ensures -m < r < m && (a - r) % m == 0
    ensures a >= 0 ==> r >= 0
    ensures a <= 0 ==> r <= 0
  {
    if a >= 0 then
      DivModUnique(a - a % m, a / m, 0, m);
      a % m
    else
      DivModUnique(a + (-a) % m, -((-a) / m), 0, m);
      -((-a) % m)
  }

  /** The row of cell `i` ends inside the canvas. */
  lemma RowEnd(i: nat, width: int, height: int)
    requires width >= 1 && i < width * height
    ensures i - i % width + width <= width * height
  {
    var q := i / width;
    ScreenIndexOfPosition(i, width, height);
    assert i - i % width == q * width;
    assert (height - q) * width == height * width - q * width;
    MulAtLeast(height - q, width);
    assert width * height == height * width;
  }

  /**
   * `write`: the values stored from `start` on, one index after another;
   * every other cell keeps its value.
   */
  function Spread<T>(c: seq<T>, start: int, vals: seq<T>): (r: seq<T>)
    ensures |r| == |c|
  {
    seq(|c|, j requires 0 <= j < |c| => if start <= j < start + |vals| then vals[j - start] else c[j])
  }

  /** Storing the next value of a write. */
  lemma SpreadStep<T>(c: seq<T>, start: int, vals: seq<T>, i: nat)
    requires i < |vals|
    ensures Spread(c, start, vals[..i + 1])
         == if 0 <= start + i < |c| then Spread(c, start, vals[..i])[start + i := vals[i]] else Spread(c, start, vals[..i])
  {
  }

  /** The values written are read back from the cells they went to. */
  lemma SpreadShows<T>(c: seq<T>, start: int, vals: seq<T>)
    requires 0 <= start && start + |vals| <= |c|
    ensures Spread(c, start, vals)[start..start + |vals|] == vals
    ensures Spread(c, start, vals)[..start] == c[..start]
    ensures Spread(c, start, vals)[start + |vals|..] == c[start + |vals|..]
  {
  }

  /**
   * `draw`: the values stored at columns `x`, `x + 1`, ... of row `y`,
   * clipped to the canvas; every other cell keeps its value.
   */
  function OnRow<T>(c: seq<T>, x: int, y: int, vals: seq<T>, width: int): (r: seq<T>)
    requires width >= 1
    ensures |r| == |c|
  {
    seq(|c|, j requires 0 <= j < |c| =>
      if j / width == y && x <= j % width < x + |vals| then vals[j % width - x] else c[j])
  }

  /** Storing the next value of a draw: at its coordinate index, or nowhere when that is off the canvas. */
  lemma {:induction false} OnRowStep<T>(c: seq<T>, x: int, y: int, vals: seq<T>, i: nat, width: int, height: int)
    requires width >= 1 && |c| == width * height && i < |vals|
    ensures OnRow(c, x, y, vals[..i + 1], width)
         == match ScreenIndex(x + i, y, width, height)
            case None => OnRow(c, x, y, vals[..i], width)
            case Some(k) => OnRow(c, x, y, vals[..i], width)[k := vals[i]]
  {
    var before, after := OnRow(c, x, y, vals[..i], width), OnRow(c, x, y, vals[..i + 1], width);
    var idx := ScreenIndex(x + i, y, width, height);
    if idx.None? {
      forall j | 0 <= j < |c|
        ensures after[j] == before[j]
      {
        if j / width == y && j % width == x + i {
          ScreenIndexOfPosition(j, width, height);
          assert false;
        }
      }
    } else {
      var k := idx.value;
      forall j | 0 <= j < |c|
        ensures after[j] == before[k := vals[i]][j]
      {
        if j / width == y && j % width == x + i {
          ScreenIndexOfPosition(j, width, height);
        }
      }
    }
  }

  /**
   * Every value of a draw that lands on the canvas is read back at its
   * coordinate index, and no cell off row `y` changes.
   */
  lemma OnRowShows<T>(c: seq<T>, x: int, y: int, vals: seq<T>, width: int, height: int)
    requires width >= 1 && |c| == width * height
    ensures forall i :: 0 <= i < |vals| && ScreenIndex(x + i, y, width, height).Some? ==>
              OnRow(c, x, y, vals, width)[ScreenIndex(x + i, y, width, height).value] == vals[i]
    ensures forall j :: 0 <= j < |c| && j / width != y ==> OnRow(c, x, y, vals, width)[j] == c[j]
  {
  }
}
