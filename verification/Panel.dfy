/** The display behind Adafruit_SPITFT's setAddrWindow: pixels pushed over the
    bus fill a window in raster order. */
module Panel {
  import opened CInts
  import opened Line

  /** What is on the glass, the window [x0, x1) x [y0, y1), and the write cursor. */
  datatype Panel = Panel(screen: map<Point, int>, x0: int, y0: int, x1: int, y1: int, cx: int, cy: int)

  const DARK := -1

  function Look(p: Panel, x: int, y: int): int {
    if Point(x, y) in p.screen then p.screen[Point(x, y)] else DARK
  }

  function OpenWindow(p: Panel, x: int, y: int, w: int, h: int): Panel {
    Panel(p.screen, x, y, x + w, y + h, x, y)
  }

  function Push(p: Panel, color: int): Panel {
    var q := p.(screen := p.screen[Point(p.cx, p.cy) := color]);
    if p.cx + 1 < p.x1 then q.(cx := p.cx + 1)
    else if p.cy + 1 < p.y1 then q.(cx := p.x0, cy := p.cy + 1)
    else q.(cx := p.x0, cy := p.y0)
  }

  lemma PushLook(p: Panel, color: int)
    ensures forall x, y :: Look(Push(p, color), x, y) == if x == p.cx && y == p.cy then color else Look(p, x, y)
  {
    var q := Push(p, color);
    assert q.screen == p.screen[Point(p.cx, p.cy) := color];
  }

  /** One colour pushed into a window of one pixel. */
  lemma PushPixel(p: Panel, x: int, y: int, color: int)
    ensures forall u, v :: Look(Push(OpenWindow(p, x, y, 1, 1), color), u, v) ==
                           if u == x && v == y then color else Look(p, u, v)
  {
    var w := OpenWindow(p, x, y, 1, 1);
    PushLook(w, color);
    forall u, v
      ensures Look(Push(w, color), u, v) == if u == x && v == y then color else Look(p, u, v)
    {
      assert Look(w, u, v) == Look(p, u, v);
    }
  }

  function PushAll(p: Panel, colors: seq<int>): Panel {
    if colors == [] then p else Push(PushAll(p, colors[..|colors| - 1]), colors[|colors| - 1])
  }

  lemma {:induction false} PushConcat(p: Panel, a: seq<int>, b: seq<int>)
    ensures PushAll(p, a + b) == PushAll(PushAll(p, a), b)
  {
    if b == [] {
      assert a + b == a;
    } else {
      assert (a + b)[..|a + b| - 1] == a + b[..|b| - 1];
      PushConcat(p, a, b[..|b| - 1]);
    }
  }

  /** A cursor at the start of row cy of its window. */
  predicate AtRow(p: Panel, cy: int) {
    p.x0 < p.x1 && p.y0 <= cy < p.y1 && p.cx == p.x0 && p.cy == cy
  }

  ghost predicate SameWindow(p: Panel, q: Panel) {
    p.x0 == q.x0 && p.y0 == q.y0 && p.x1 == q.x1 && p.y1 == q.y1
  }

  /** The first k colours of a row: where the cursor is then, */
  lemma {:induction false} PushRowCursor(p: Panel, cy: int, row: seq<int>, k: nat)
    requires AtRow(p, cy) && |row| == p.x1 - p.x0 && k <= |row|
    ensures var q := PushAll(p, row[..k]);
      && SameWindow(p, q)
      && (k < |row| ==> q.cx == p.x0 + k && q.cy == cy)
      && (k == |row| ==> q.cx == p.x0 && q.cy == if cy + 1 < p.y1 then cy + 1 else p.y0)
  {
    if k > 0 {
      PushRowCursor(p, cy, row, k - 1);
      assert row[..k][..k - 1] == row[..k - 1];
    }
  }

  /** and what is on the glass. */
  lemma {:induction false} PushRow(p: Panel, cy: int, row: seq<int>, k: nat, x: int, y: int)
    requires AtRow(p, cy) && |row| == p.x1 - p.x0 && k <= |row|
    ensures Look(PushAll(p, row[..k]), x, y) ==
            if y == cy && p.x0 <= x < p.x0 + k then row[x - p.x0] else Look(p, x, y)
  {
    if k > 0 {
      PushRow(p, cy, row, k - 1, x, y);
      PushRowCursor(p, cy, row, k - 1);
      assert row[..k][..k - 1] == row[..k - 1] && row[..k][k - 1] == row[k - 1];
    }
  }

  lemma PushWholeRow(p: Panel, cy: int, row: seq<int>, x: int, y: int)
    requires AtRow(p, cy) && |row| == p.x1 - p.x0
    ensures var q := PushAll(p, row);
      && SameWindow(p, q)
      && AtRow(q, if cy + 1 < p.y1 then cy + 1 else p.y0)
      && Look(q, x, y) == if y == cy && p.x0 <= x < p.x1 then row[x - p.x0] else Look(p, x, y)
  {
    PushRowCursor(p, cy, row, |row|);
    PushRow(p, cy, row, |row|, x, y);
    assert row[..|row|] == row;
  }

  function Flatten(rows: seq<seq<int>>): seq<int> {
    if rows == [] then [] else Flatten(rows[..|rows| - 1]) + rows[|rows| - 1]
  }

  predicate AllWide(rows: seq<seq<int>>, w: int) {
    forall j :: 0 <= j < |rows| ==> |rows[j]| == w
  }

  /** The panel q, after the first k rows were pushed to p from its top. */
  ghost predicate RowsShown(p: Panel, q: Panel, rows: seq<seq<int>>, k: nat, x: int, y: int)
    requires k <= |rows| && AllWide(rows, p.x1 - p.x0)
  {
    && SameWindow(p, q)
    && (k < p.y1 - p.y0 ==> AtRow(q, p.y0 + k))
    && Look(q, x, y) ==
       if p.x0 <= x < p.x1 && p.y0 <= y < p.y0 + k then rows[y - p.y0][x - p.x0] else Look(p, x, y)
  }

  lemma OneMoreRow(p: Panel, q: Panel, rows: seq<seq<int>>, k: nat, x: int, y: int)
    requires AtRow(p, p.y0) && k < |rows| <= p.y1 - p.y0 && AllWide(rows, p.x1 - p.x0)
    requires RowsShown(p, q, rows, k, x, y)
    ensures RowsShown(p, PushAll(q, rows[k]), rows, k + 1, x, y)
  {
    PushWholeRow(q, p.y0 + k, rows[k], x, y);
  }

  lemma {:induction false} PushFirstRows(p: Panel, rows: seq<seq<int>>, k: nat, x: int, y: int)
    requires AtRow(p, p.y0) && k <= |rows| <= p.y1 - p.y0 && AllWide(rows, p.x1 - p.x0)
    ensures RowsShown(p, PushAll(p, Flatten(rows[..k])), rows, k, x, y)
  {
    if k > 0 {
      PushFirstRows(p, rows, k - 1, x, y);
      OneMoreRow(p, PushAll(p, Flatten(rows[..k - 1])), rows, k - 1, x, y);
      assert rows[..k][..k - 1] == rows[..k - 1];
      PushConcat(p, Flatten(rows[..k - 1]), rows[k - 1]);
    }
  }

  /** Rows of one width, pushed from the top of the window. */
  lemma PushRows(p: Panel, rows: seq<seq<int>>, x: int, y: int)
    requires AtRow(p, p.y0) && |rows| <= p.y1 - p.y0 && AllWide(rows, p.x1 - p.x0)
    ensures var q := PushAll(p, Flatten(rows));
      && SameWindow(p, q)
      && (|rows| < p.y1 - p.y0 ==> AtRow(q, p.y0 + |rows|))
      && Look(q, x, y) ==
           if p.x0 <= x < p.x1 && p.y0 <= y < p.y0 + |rows| then rows[y - p.y0][x - p.x0] else Look(p, x, y)
  {
    PushFirstRows(p, rows, |rows|, x, y);
    assert rows[..|rows|] == rows;
  }

  // ------------------------------------------------------------ on the bus

  /** 16-bit colours go over the bus high byte first. */
  function BusBytes(colors: seq<int>): seq<int> {
    if colors == [] then [] else
    var c := colors[|colors| - 1];
    BusBytes(colors[..|colors| - 1]) + [c / 256, c % 256]
  }

  function BusPixels(bytes: seq<int>): seq<int> {
    if |bytes| < 2 then [] else
    BusPixels(bytes[..|bytes| - 2]) + [bytes[|bytes| - 2] * 256 + bytes[|bytes| - 1]]
  }

  lemma {:induction false} BusRoundTrip(colors: seq<int>)
    ensures |BusBytes(colors)| == 2 * |colors| && BusPixels(BusBytes(colors)) == colors
  {
    if colors != [] {
      var n := |colors| - 1;
      BusRoundTrip(colors[..n]);
      var bytes := BusBytes(colors);
      assert bytes[..|bytes| - 2] == BusBytes(colors[..n]);
      assert colors == colors[..n] + [colors[n]];
    }
  }

  /** The i-th byte of a run of colours. */
  lemma {:induction false} BusByteAt(colors: seq<int>, i: nat)
    requires i < 2 * |colors|
    ensures |BusBytes(colors)| == 2 * |colors|
    ensures BusBytes(colors)[i] == if i % 2 == 0 then colors[i / 2] / 256 else colors[i / 2] % 256
  {
    BusRoundTrip(colors);
    var n := |colors| - 1;
    BusRoundTrip(colors[..n]);
    if i < 2 * n {
      BusByteAt(colors[..n], i);
    }
  }

  lemma {:induction false} BusConcat(a: seq<int>, b: seq<int>)
    ensures BusBytes(a + b) == BusBytes(a) + BusBytes(b)
  {
    if b == [] {
      assert a + b == a;
    } else {
      assert (a + b)[..|a + b| - 1] == a + b[..|b| - 1];
      BusConcat(a, b[..|b| - 1]);
    }
  }
}
