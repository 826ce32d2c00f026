/**
 * The grid and cursor of `Terminal` (term.py) as values: one `Tty` is the state of a terminal and each
 * function below is what one Python method does to it. The `Terminal` class in terminal.dfy runs the
 * same operations in place and is proved against these functions.
 */
module Screen {
  import opened Wrappers
  import opened PyList

  /** What an empty cell holds. */
  const Space: char := ' '

  /** The exceptions the Python methods can raise on the paths modelled here. */
  datatype Fault =
    | TypeError         // `int + None` in `move(..., rel=True)` when a delta is omitted
    | IndexError        // `del self.buf[k]` with k outside the list
    | RegionOutOfRange  // a scroll region the model does not follow (see set_scroll)

  /** A row of `cols` spaces, `[' '] * cols`. */
  function BlankRow(cols: nat): (r: seq<char>)
    ensures |r| == cols
    ensures forall j :: 0 <= j < cols ==> r[j] == Space
  {
    seq(cols, _ => Space)
  }

  /** `g` has `rows` rows of `cols` cells each. */
  predicate IsGrid(g: seq<seq<char>>, rows: nat, cols: nat) {
    |g| == rows && forall i :: 0 <= i < rows ==> |g[i]| == cols
  }

  /** The grid `reset` builds: every cell a space. */
  function BlankGrid(rows: nat, cols: nat): (g: seq<seq<char>>)
    ensures IsGrid(g, rows, cols)
    ensures forall i, j :: 0 <= i < rows && 0 <= j < cols ==> g[i][j] == Space
  {
    seq(rows, _ => BlankRow(cols))
  }

  /** `k` rows of blanks. */
  function BlankRows(k: nat, cols: nat): (g: seq<seq<char>>)
    ensures IsGrid(g, k, cols)
  {
    seq(k, _ => BlankRow(cols))
  }

  /**
   * The state of one terminal: `buf[i][j]` is the cell at 1-based row i+1, column j+1; (row, col) is the
   * 1-based cursor; [top, bottom] is the scroll region (`self.scroll`).
   */
  datatype Tty = Tty(rows: nat, cols: nat, buf: seq<seq<char>>, row: int, col: int, top: int, bottom: int)
  {
    /**
     * The invariant every operation keeps. The column may be 0: a backspace at column 1 leaves it there
     * (term.py:93), and the next write then lands in the last column, as Python's index -1 does.
     */
    predicate Valid() {
      && rows >= 1 && cols >= 1
      && IsGrid(buf, rows, cols)
      && 1 <= top <= bottom <= rows
      && 1 <= row <= rows
      && 0 <= col <= cols
    }

    /** `u` has the same dimensions and scroll region. */
    predicate SameFrame(u: Tty) {
      u.rows == rows && u.cols == cols && u.top == top && u.bottom == bottom
    }
  }

  /** What an operation that may raise leaves behind: the new state, or the exception. */
  datatype Result = Ok(tty: Tty) | Raised(fault: Fault)

  /** `reset`: every cell becomes a space; cursor and scroll region stay. */
  function Reset(t: Tty): (u: Tty)
    requires t.Valid()
    ensures u.Valid() && t.SameFrame(u) && u.row == t.row && u.col == t.col
    ensures forall i, j :: 0 <= i < u.rows && 0 <= j < u.cols ==> u.buf[i][j] == Space
  {
    t.(buf := BlankGrid(t.rows, t.cols))
  }

  /** One pass of the loop in `del_lines`: `del buf[at - 1]`, then a blank row inserted at `bottom - 1`. */
  function DelLine(t: Tty, at: int): (u: Tty)
    requires t.Valid() && InBounds(at - 1, t.rows)
    ensures u.Valid() && t.SameFrame(u) && u.row == t.row && u.col == t.col
  {
    t.(buf := Insert(Delete(t.buf, at - 1), t.bottom - 1, BlankRow(t.cols)))
  }

  /** `del_lines(num, at)`: `num` passes of the loop, each deleting at the same index. */
  function DelLines(t: Tty, num: nat, at: int): (u: Tty)
    requires t.Valid() && (num == 0 || InBounds(at - 1, t.rows))
    ensures u.Valid() && t.SameFrame(u) && u.row == t.row && u.col == t.col
    decreases num
  {
    if num == 0 then t else DelLines(DelLine(t, at), num - 1, at)
  }

  /**
   * `del_lines(num, row)` with `row` omitted meaning the cursor row. Python raises IndexError at the first
   * `del` when the index is outside the list, before anything has changed.
   */
  function DeleteLines(t: Tty, num: nat, at: Option<int>): (res: Result)
    requires t.Valid()
    ensures res.Raised? <==> num > 0 && !InBounds(at.GetOr(t.row) - 1, t.rows)
    ensures res.Raised? ==> res.fault == IndexError
    ensures res.Ok? ==> res.tty.Valid() && t.SameFrame(res.tty) && res.tty.row == t.row && res.tty.col == t.col
  {
    var r := at.GetOr(t.row);
    if num > 0 && !InBounds(r - 1, t.rows) then Raised(IndexError) else Ok(DelLines(t, num, r))
  }

  /** One more pass of the `del_lines` loop after `num` passes. */
  lemma {:induction false} DelLinesStep(t: Tty, num: nat, at: int)
    requires t.Valid() && InBounds(at - 1, t.rows)
    ensures DelLines(t, num + 1, at) == DelLine(DelLines(t, num, at), at)
    decreases num
  {
    if num > 0 {
      DelLinesStep(DelLine(t, at), num - 1, at);
    }
  }

  /** Python's `x or 1`: a sum of 0 counts as false and becomes 1 (term.py:31-32). */
  function OrOne(x: int): (r: int)
    ensures r != 0
    ensures x != 0 ==> r == x
    ensures x == 0 ==> r == 1
  {
    if x == 0 then 1 else x
  }

  /**
   * The position `move(row, col, rel)` aims at before normalising it. With `rel` set, an omitted delta is
   * `None` and `self.row + None` raises TypeError: the result is then None.
   */
  function Target(t: Tty, r: Option<int>, c: Option<int>, rel: bool): (p: Option<(int, int)>)
    ensures p.None? <==> rel && (r.None? || c.None?)
    ensures !rel ==> p == Some((r.GetOr(t.row), c.GetOr(t.col)))
    ensures rel && p.Some? ==> p.value.0 != 0 && p.value.1 != 0
    ensures rel && p.Some? && t.row + r.value != 0 ==> p.value.0 == t.row + r.value
    ensures rel && p.Some? && t.col + c.value != 0 ==> p.value.1 == t.col + c.value
    ensures rel && p.Some? && t.row + r.value == 0 ==> p.value.0 == 1
    ensures rel && p.Some? && t.col + c.value == 0 ==> p.value.1 == 1
  {
    if !rel then Some((r.GetOr(t.row), c.GetOr(t.col)))
    else if r.None? || c.None? then None
    else Some((OrOne(t.row + r.value), OrOne(t.col + c.value)))
  }

  /**
   * The normalising half of `move` (term.py:39-54): a column past the right edge wraps to column 1 of the
   * next row, a column below 1 to the last column of the previous row; then the row is clamped to the top
   * of the scroll region, and a row past its bottom scrolls once, through `del_lines(1, top - 1)`, and
   * lands on the bottom row.
   */
  function Goto(t: Tty, r: int, c: int): (u: Tty)
    requires t.Valid()
    ensures u.Valid() && t.SameFrame(u)
    ensures t.top <= u.row <= t.bottom && 1 <= u.col <= t.cols
  {
    var r1 := if c > t.cols then r + 1 else r;
    var c1 := if c > t.cols then 1 else c;
    var r2 := if c1 < 1 then r1 - 1 else r1;
    var c2 := if c1 < 1 then t.cols else c1;
    var r3 := if r2 < t.top then t.top else r2;
    if r3 > t.bottom then
      DelLines(t, 1, t.top - 1).(row := t.bottom, col := c2)
    else
      t.(row := r3, col := c2)
  }

  /** `move(row, col, rel)`. */
  function Move(t: Tty, r: Option<int>, c: Option<int>, rel: bool): (res: Result)
    requires t.Valid()
    ensures res.Raised? <==> rel && (r.None? || c.None?)
    ensures res.Raised? ==> res.fault == TypeError
    ensures res.Ok? ==> res.tty.Valid() && t.SameFrame(res.tty)
    ensures res.Ok? ==> t.top <= res.tty.row <= t.bottom && 1 <= res.tty.col <= t.cols
  {
    match Target(t, r, c, rel)
    case None => Raised(TypeError)
    case Some(p) => Ok(Goto(t, p.0, p.1))
  }

  /** An absolute `move` cannot raise: it is `Goto` of its target. */
  lemma MoveTo(t: Tty, r: int, c: int)
    requires t.Valid()
    ensures Move(t, Some(r), Some(c), false) == Ok(Goto(t, r, c))
  {
  }

  /** `buf[row - 1][col - 1] = ch`, the assignment in `puts`. */
  function Write(t: Tty, ch: char): (u: Tty)
    requires t.Valid()
    ensures u.Valid() && t.SameFrame(u) && u.row == t.row && u.col == t.col
    ensures forall i, j :: 0 <= i < t.rows && 0 <= j < t.cols ==>
      u.buf[i][j] == if i == t.row - 1 && j == Slot(t.col - 1, t.cols) then ch else t.buf[i][j]
  {
    t.(buf := t.buf[t.row - 1 := Assign(t.buf[t.row - 1], t.col - 1, ch)])
  }

  /** One pass of the loop in `puts`: ch written at the cursor, then `move(row, col + 1)` if `advance`. */
  function Put(t: Tty, ch: char, advance: bool): (u: Tty)
    requires t.Valid()
    ensures u.Valid() && t.SameFrame(u)
  {
    var w := Write(t, ch);
    if advance then Goto(w, w.row, w.col + 1) else w
  }

  /** `puts(s, advance)`: `Put` of each character of s in turn. */
  function Puts(t: Tty, s: string, advance: bool): (u: Tty)
    requires t.Valid()
    ensures u.Valid() && t.SameFrame(u)
    decreases |s|
  {
    if s == [] then t else Puts(Put(t, s[0], advance), s[1..], advance)
  }

  /** One pass of the inner loop of `erase`: `move(r, c)`, then `puts(' ')`, whose loop runs once. */
  function Blank(t: Tty, r: int, c: int): (u: Tty)
    requires t.Valid()
    ensures u.Valid() && t.SameFrame(u)
  {
    Put(Goto(t, r, c), Space, true)
  }

  /** Python's `range(lo, hi)`. */
  function Range(lo: int, hi: int): (cs: seq<int>)
    ensures |cs| == if lo < hi then hi - lo else 0
    ensures forall k :: 0 <= k < |cs| ==> cs[k] == lo + k
  {
    seq(if lo < hi then hi - lo else 0, k => lo + k)
  }

  /** The inner loop of `erase`: for each column c of cs, `move(r, c)` and `puts(' ')`. */
  function EraseRow(t: Tty, r: int, cs: seq<int>): (u: Tty)
    requires t.Valid()
    ensures u.Valid() && t.SameFrame(u)
    decreases |cs|
  {
    if cs == [] then t else EraseRow(Blank(t, r, cs[0]), r, cs[1..])
  }

  /** The outer loop of `erase`: the inner loop over the columns cs, for each row of rs. */
  function EraseRows(t: Tty, rs: seq<int>, cs: seq<int>): (u: Tty)
    requires t.Valid()
    ensures u.Valid() && t.SameFrame(u)
    decreases |rs|
  {
    if rs == [] then t else EraseRows(EraseRow(t, rs[0], cs), rs[1..], cs)
  }

  /**
   * `erase(start, end)`: blank the half-open rectangle cell by cell, rows `range(start.row, end.row)` and
   * columns `range(start.col, end.col)`, then put the cursor back.
   */
  function Erase(t: Tty, start: (int, int), end: (int, int)): (u: Tty)
    requires t.Valid()
    ensures u.Valid() && t.SameFrame(u) && u.row == t.row && u.col == t.col
  {
    EraseRows(t, Range(start.0, end.0), Range(start.1, end.1)).(row := t.row, col := t.col)
  }

  /** `dump`: the rows one after another, each followed by a line feed. */
  function Render(buf: seq<seq<char>>): (s: string)
    ensures |s| >= |buf|
    ensures buf != [] ==> s[|s| - 1] == '\n'
    ensures buf == [] ==> s == []
  {
    if buf == [] then [] else buf[0] + "\n" + Render(buf[1..])
  }

  // ---------------------------------------------------------------------------------------------------
  // Properties of the grid and cursor operations

  /** Where row k starts in a rendering whose rows take w characters each: k * w, summed row by row. */
  function Offset(k: nat, w: nat): (o: nat) {
    if k == 0 then 0 else Offset(k - 1, w) + w
  }

  /** The row-by-row sum is the product. */
  lemma {:induction false} OffsetIsProduct(k: nat, w: nat)
    ensures Offset(k, w) == k * w
  {
    if k > 0 {
      OffsetIsProduct(k - 1, w);
      assert k * w == (k - 1) * w + w;
    }
  }

  /** s holds the rows of buf in order, each followed by a line feed. */
  predicate LaidOut(s: string, buf: seq<seq<char>>, rows: nat, cols: nat)
    requires |buf| == rows
  {
    |s| == Offset(rows, cols + 1) && forall k :: 0 <= k < rows ==> RowAt(s, k, buf[k], cols + 1)
  }

  /** line and a line feed fill characters [Offset(k, w), Offset(k + 1, w)) of s. */
  predicate RowAt(s: string, k: nat, line: seq<char>, w: nat) {
    Offset(k + 1, w) <= |s| && s[Offset(k, w) .. Offset(k + 1, w)] == line + "\n"
  }

  /** The rendering of a grid is laid out row after row. */
  lemma {:induction false} RenderLayout(buf: seq<seq<char>>, rows: nat, cols: nat)
    requires IsGrid(buf, rows, cols)
    ensures LaidOut(Render(buf), buf, rows, cols)
  {
    if rows > 0 {
      RenderLayout(buf[1..], rows - 1, cols);
      assert Render(buf) == buf[0] + "\n" + Render(buf[1..]);
      OffsetAfterFirst(rows, cols + 1);
      forall k | 0 <= k < rows
        ensures RowAt(Render(buf), k, buf[k], cols + 1)
      {
        RenderRow(buf, rows, cols, k);
      }
      assert |Render(buf)| == Offset(rows, cols + 1);
    }
  }

  /** Row k of the rendering of a grid, given the layout of the rows after the first. */
  lemma RenderRow(buf: seq<seq<char>>, rows: nat, cols: nat, k: nat)
    requires IsGrid(buf, rows, cols) && k < rows
    requires LaidOut(Render(buf[1..]), buf[1..], rows - 1, cols)
    ensures RowAt(Render(buf), k, buf[k], cols + 1)
  {
    var w := cols + 1;
    var first, rest := buf[0] + "\n", Render(buf[1..]);
    assert Render(buf) == first + rest;
    OffsetAfterFirst(k + 1, w);
    if k == 0 {
      assert Render(buf)[0 .. w] == first;
    } else {
      OffsetAfterFirst(k, w);
      assert RowAt(rest, k - 1, buf[1..][k - 1], w);
      assert buf[1..][k - 1] == buf[k];
      SliceAfter(first, rest, Offset(k - 1, w), Offset(k, w));
    }
  }

  /** Offset(k, w) == w + Offset(k - 1, w): the rows after the first are shifted by one row. */
  lemma OffsetAfterFirst(k: nat, w: nat)
    requires k > 0
    ensures Offset(k, w) == w + Offset(k - 1, w)
  {
  }

  /** A slice lying past the prefix a of a + b is a slice of b. */
  lemma SliceAfter<T>(a: seq<T>, b: seq<T>, lo: nat, hi: nat)
    requires lo <= hi <= |b|
    ensures (a + b)[|a| + lo .. |a| + hi] == b[lo .. hi]
  {
  }

  /**
   * How `move` normalises a target: a position inside the grid's columns and the scroll region is taken as
   * it is; a row above the region is clamped to its top; a row below it costs exactly one
   * `del_lines(1, top - 1)`, however far below it was, and lands on the bottom row; a column off either
   * edge wraps onto the neighbouring row.
   */
  lemma GotoCases(t: Tty, r: int, c: int)
    requires t.Valid()
    ensures 1 <= c <= t.cols && t.top <= r <= t.bottom ==> Goto(t, r, c) == t.(row := r, col := c)
    ensures 1 <= c <= t.cols && r < t.top ==> Goto(t, r, c) == t.(row := t.top, col := c)
    ensures 1 <= c <= t.cols && r > t.bottom ==>
      Goto(t, r, c) == DelLine(t, t.top - 1).(row := t.bottom, col := c)
    ensures c > t.cols ==> Goto(t, r, c) == Goto(t, r + 1, 1)
    ensures c < 1 ==> Goto(t, r, c) == Goto(t, r - 1, t.cols)
  {
  }

  /**
   * One pass of `del_lines` at a row inside or above the scroll region: rows [at, bottom] move up one,
   * the deleted row is gone and a blank row becomes the bottom of the region; rows elsewhere stay.
   */
  lemma DelLineShifts(t: Tty, at: int)
    requires t.Valid() && 1 <= at <= t.bottom
    ensures DelLine(t, at).buf == t.buf[..at - 1] + t.buf[at .. t.bottom] + [BlankRow(t.cols)] + t.buf[t.bottom..]
  {
    var u := DelLine(t, at).buf;
    var v := t.buf[..at - 1] + t.buf[at .. t.bottom] + [BlankRow(t.cols)] + t.buf[t.bottom..];
    assert |u| == |v|;
    forall m | 0 <= m < |u| ensures u[m] == v[m] {
      if m < at - 1 {
      } else if m < t.bottom - 1 {
      } else if m == t.bottom - 1 {
      } else {
      }
    }
  }

  /**
   * Scrolling with the default region (1, rows) is `del_lines(1, 0)`, which deletes `buf[-1]`: the LAST
   * row is replaced by blanks and row 1 is kept.
   */
  lemma ScrollWithFullRegion(t: Tty, r: int, c: int)
    requires t.Valid() && t.top == 1 && t.bottom == t.rows
    requires r > t.rows && 1 <= c <= t.cols
    ensures Goto(t, r, c).buf == t.buf[..t.rows - 1] + [BlankRow(t.cols)]
    ensures Goto(t, r, c).row == t.rows
  {
    var u := DelLine(t, 0).buf;
    var v := t.buf[..t.rows - 1] + [BlankRow(t.cols)];
    assert |u| == |v|;
    forall m | 0 <= m < |u| ensures u[m] == v[m] {
    }
  }

  /**
   * Scrolling a region that starts at row 1 but ends above the last row: `del_lines(1, 0)` deletes
   * `buf[-1]`, the grid's last row, which lies below the region, and inserts the blank row at index
   * bottom - 1. Rows 1..bottom-1 stay where they were, rows bottom..rows-1 move down one (row bottom
   * becoming blank), and the last row is lost.
   */
  lemma ScrollWithTopRegion(t: Tty, r: int, c: int)
    requires t.Valid() && t.top == 1 && t.bottom < t.rows
    requires r > t.bottom && 1 <= c <= t.cols
    ensures Goto(t, r, c).buf == t.buf[..t.bottom - 1] + [BlankRow(t.cols)] + t.buf[t.bottom - 1 .. t.rows - 1]
    ensures Goto(t, r, c).row == t.bottom
  {
    var u := DelLine(t, 0).buf;
    var v := t.buf[..t.bottom - 1] + [BlankRow(t.cols)] + t.buf[t.bottom - 1 .. t.rows - 1];
    assert |u| == |v|;
    forall m | 0 <= m < |u| ensures u[m] == v[m] {
    }
  }

  /**
   * Scrolling a region whose top is below row 1 deletes row `top - 1`, the row just above the region:
   * that row is lost, the region's rows move up one (into the row above it) and its bottom row becomes
   * blank; rows below the region stay.
   */
  lemma ScrollWithInnerRegion(t: Tty, r: int, c: int)
    requires t.Valid() && t.top >= 2
    requires r > t.bottom && 1 <= c <= t.cols
    ensures Goto(t, r, c).buf == t.buf[..t.top - 2] + t.buf[t.top - 1 .. t.bottom] + [BlankRow(t.cols)] + t.buf[t.bottom..]
    ensures Goto(t, r, c).row == t.bottom
  {
    DelLineShifts(t, t.top - 1);
  }

  /** One more blank row in front. */
  lemma BlankRowsCons(k: nat, cols: nat)
    requires k >= 1
    ensures BlankRows(k, cols) == [BlankRow(cols)] + BlankRows(k - 1, cols)
  {
  }

  /**
   * The sequence step behind `DelLinesRotate`: after rotating [lo, hi) once (b1), skipping k1 more
   * elements of the rotated part amounts to skipping k of the original part.
   */
  lemma RotateStep<T>(b: seq<T>, lo: nat, hi: nat, B: T, b1: seq<T>, k1: nat, k: nat, fill1: seq<T>, fill: seq<T>)
    requires lo < hi <= |b| && k1 <= hi - lo
    requires b1 == b[..lo] + b[lo + 1 .. hi] + [B] + b[hi..]
    requires k == if k1 < hi - lo then k1 + 1 else k1
    requires fill == if k1 < hi - lo then [B] + fill1 else fill1
    ensures b1[..lo] + b1[lo .. hi][k1..] + fill1 + b1[hi..] == b[..lo] + b[lo .. hi][k..] + fill + b[hi..]
  {
    assert b1[..lo] == b[..lo];
    assert b1[hi..] == b[hi..];
    assert b1[lo .. hi] == b[lo + 1 .. hi] + [B];
    if k1 < hi - lo {
      assert b1[lo .. hi][k1..] == b[lo .. hi][k..] + [B];
    } else {
      assert b1[lo .. hi][k1..] == [];
      assert b[lo .. hi][k..] == [];
    }
  }

  /**
   * `del_lines(num, at)` for a row `at` inside or above the region's bottom rotates rows [at, bottom]:
   * the first k = min(num, bottom - at + 1) of them are gone, the others move up k rows and k blank rows
   * fill the bottom of the region; rows above `at` and below `bottom` stay.
   */
  lemma {:induction false} DelLinesRotate(t: Tty, num: nat, at: int)
    requires t.Valid() && 1 <= at <= t.bottom
    ensures var k := if num < t.bottom - at + 1 then num else t.bottom - at + 1;
      DelLines(t, num, at).buf == t.buf[..at - 1] + t.buf[at - 1 .. t.bottom][k..] + BlankRows(k, t.cols) + t.buf[t.bottom..]
    decreases num
  {
    if num == 0 {
      SplitAround(t.buf, at - 1, t.bottom);
    } else {
      var t1 := DelLine(t, at);
      assert DelLines(t, num, at) == DelLines(t1, num - 1, at);
      DelLinesRotate(t1, num - 1, at);
      DelLinesRotateStep(t, num, at, t1.buf, DelLines(t1, num - 1, at).buf);
    }
  }

  /** Cutting a sequence at i and j and dropping nothing gives it back. */
  lemma SplitAround<T>(b: seq<T>, i: nat, j: nat)
    requires i <= j <= |b|
    ensures b == b[..i] + b[i .. j][0..] + [] + b[j..]
  {
    assert b[i .. j][0..] == b[i .. j];
    assert b == b[..i] + b[i .. j] + b[j..];
  }

  /** The inductive step of `DelLinesRotate`: one pass of the loop, then num - 1 more with outcome e. */
  lemma DelLinesRotateStep(t: Tty, num: nat, at: int, b1: seq<seq<char>>, e: seq<seq<char>>)
    requires t.Valid() && 1 <= at <= t.bottom && num > 0
    requires b1 == DelLine(t, at).buf
    requires var k1 := if num - 1 < t.bottom - at + 1 then num - 1 else t.bottom - at + 1;
      e == b1[..at - 1] + b1[at - 1 .. t.bottom][k1..] + BlankRows(k1, t.cols) + b1[t.bottom..]
    ensures var k := if num < t.bottom - at + 1 then num else t.bottom - at + 1;
      e == t.buf[..at - 1] + t.buf[at - 1 .. t.bottom][k..] + BlankRows(k, t.cols) + t.buf[t.bottom..]
  {
    var L := t.bottom - at + 1;
    DelLineShifts(t, at);
    var k1 := if num - 1 < L then num - 1 else L;
    var k := if num < L then num else L;
    if num - 1 < L {
      BlankRowsCons(k, t.cols);
    }
    RotateStep(t.buf, at - 1, t.bottom, BlankRow(t.cols), b1, k1, k, BlankRows(k1, t.cols), BlankRows(k, t.cols));
  }

  /** `puts(s, move=False)` overwrites only the cell under the cursor: the last character of s stays there. */
  lemma {:induction false} PutsInPlace(t: Tty, s: string)
    requires t.Valid() && s != []
    ensures Puts(t, s, false) == Write(t, s[|s| - 1])
    decreases |s|
  {
    var w := Write(t, s[0]);
    if |s| > 1 {
      PutsInPlace(w, s[1..]);
      var k := Slot(t.col - 1, t.cols);
      var line := t.buf[t.row - 1];
      assert Assign(Assign(line, t.col - 1, s[0]), t.col - 1, s[|s| - 1]) == Assign(line, t.col - 1, s[|s| - 1]);
    }
  }

  /** `line` with `s` written over it from index k. */
  function Overlay(line: seq<char>, k: nat, s: string): (r: seq<char>)
    requires k + |s| <= |line|
  {
    line[..k] + s + line[k + |s|..]
  }

  /** Writing the first character and then overlaying the rest one place further on is one overlay. */
  lemma OverlayStep(line: seq<char>, k: nat, s: string)
    requires k + |s| <= |line| && s != []
    ensures Overlay(line[k := s[0]], k + 1, s[1..]) == Overlay(line, k, s)
  {
    var l1 := line[k := s[0]];
    assert l1[..k + 1] == line[..k] + [s[0]];
    assert l1[k + 1 + |s| - 1..] == line[k + |s|..];
    assert [s[0]] + s[1..] == s;
  }

  /**
   * `puts(s)` on a row of the scroll region, with room for s before the right edge, writes s from the
   * cursor onwards and leaves the cursor just after it; nothing else changes.
   */
  lemma {:induction false} PutsAlongRow(t: Tty, s: string)
    requires t.Valid() && t.top <= t.row <= t.bottom && 1 <= t.col && t.col + |s| <= t.cols
    ensures Puts(t, s, true) == t.(buf := t.buf[t.row - 1 := Overlay(t.buf[t.row - 1], t.col - 1, s)], col := t.col + |s|)
    decreases |s|
  {
    var line := t.buf[t.row - 1];
    if s == [] {
      assert Overlay(line, t.col - 1, s) == line;
      assert t.buf[t.row - 1 := line] == t.buf;
    } else {
      var w := Write(t, s[0]);
      assert w.buf == t.buf[t.row - 1 := line[t.col - 1 := s[0]]];
      var g := Goto(w, w.row, w.col + 1);
      assert g == w.(col := t.col + 1);
      PutsAlongRow(g, s[1..]);
      OverlayStep(line, t.col - 1, s);
      assert g.buf[t.row - 1] == line[t.col - 1 := s[0]];
      assert g.buf[t.row - 1 := Overlay(line, t.col - 1, s)] == t.buf[t.row - 1 := Overlay(line, t.col - 1, s)];
    }
  }

  /** `puts(a + b)` is `puts(a)` followed by `puts(b)`. */
  lemma {:induction false} PutsConcat(t: Tty, a: string, b: string, advance: bool)
    requires t.Valid()
    ensures Puts(t, a + b, advance) == Puts(Puts(t, a, advance), b, advance)
    decreases |a|
  {
    if a != [] {
      assert (a + b)[0] == a[0];
      assert (a + b)[1..] == a[1..] + b;
      PutsConcat(Put(t, a[0], advance), a[1..], b, advance);
    } else {
      assert a + b == b;
    }
  }

  /** `puts(s + [ch])` is `puts(s)` followed by the write of ch and, if `advance`, the move one column on. */
  lemma PutsSnoc(t: Tty, s: string, ch: char, advance: bool)
    requires t.Valid()
    ensures Puts(t, s + [ch], advance) == Put(Puts(t, s, advance), ch, advance)
  {
    PutsConcat(t, s, [ch], advance);
    assert [ch][1..] == [];
  }

  /** One character of `puts` short of the last column: written at the cursor, the cursor one column on. */
  lemma PutInRow(t: Tty, ch: char)
    requires t.Valid() && t.top <= t.row <= t.bottom && 1 <= t.col < t.cols
    ensures Put(t, ch, true) == Write(t, ch).(col := t.col + 1)
  {
  }

  /**
   * One character of `puts` in the last column of a row above the bottom of the scroll region: written
   * there, the cursor wraps to column 1 of the next row.
   */
  lemma PutWraps(t: Tty, ch: char)
    requires t.Valid() && t.top <= t.row < t.bottom && t.col == t.cols
    ensures Put(t, ch, true) == Write(t, ch).(row := t.row + 1, col := 1)
  {
  }

  /**
   * Writing `cols + 1` characters from column 1 of a row above the bottom of the scroll region fills that
   * row with the first `cols` of them and wraps: the last one lands at column 1 of the next row and the
   * cursor ends at column 2 of it.
   */
  lemma PutsWrapsToNextRow(t: Tty, s: string)
    requires t.Valid() && t.cols >= 2 && t.top <= t.row < t.bottom && t.col == 1 && |s| == t.cols + 1
    ensures Puts(t, s, true).row == t.row + 1 && Puts(t, s, true).col == 2
    ensures Puts(t, s, true).buf[t.row - 1] == s[..t.cols]
    ensures Puts(t, s, true).buf[t.row][0] == s[t.cols]
  {
    var n := t.cols;
    var a := s[..n - 1];
    assert s == a + [s[n - 1]] + [s[n]];
    PutsSnoc(t, a + [s[n - 1]], s[n], true);
    PutsSnoc(t, a, s[n - 1], true);
    PutsAlongRow(t, a);
    var p := Puts(t, a, true);
    OverlayAllButLast(t.buf[t.row - 1], a);
    PutWraps(p, s[n - 1]);
    var q := Put(p, s[n - 1], true);
    AssignLast(p.buf[t.row - 1], s[n - 1]);
    assert q.buf[t.row - 1] == s[..n];
    PutInRow(q, s[n]);
    var u := Put(q, s[n], true);
    assert u.buf == q.buf[t.row := Assign(q.buf[t.row], 0, s[n])];
  }

  /** Overlaying all but the last character of a line from its start. */
  lemma OverlayAllButLast(line: seq<char>, s: string)
    requires |s| + 1 == |line|
    ensures Overlay(line, 0, s) == s + [line[|s|]]
  {
  }

  /** Assigning the last element of a list. */
  lemma AssignLast<T>(xs: seq<T>, x: T)
    requires xs != []
    ensures Assign(xs, |xs| - 1, x) == xs[..|xs| - 1] + [x]
  {
  }

  /** The first pass of the outer loop of `erase` over `range(r, rEnd)`. */
  lemma EraseRowsFirst(t: Tty, r: int, rEnd: int, cs: seq<int>)
    requires t.Valid() && r < rEnd
    ensures EraseRows(t, Range(r, rEnd), cs) == EraseRows(EraseRow(t, r, cs), Range(r + 1, rEnd), cs)
  {
    var rs := Range(r, rEnd);
    assert rs[0] == r && rs[1..] == Range(r + 1, rEnd);
  }

  /** Blanking cell c - 1 of row i and then the cells from c on blanks the cells from c - 1 on. */
  lemma BlankedRowStep(buf: seq<seq<char>>, i: int, c: int, cEnd: int)
    requires 0 <= i < |buf| && 1 <= c < cEnd && c <= |buf[i]|
    ensures var once := buf[i := Assign(buf[i], c - 1, Space)];
      once[i := Blanked(once[i], c + 1, cEnd)] == buf[i := Blanked(buf[i], c, cEnd)]
  {
    BlankedStep(buf[i], c, cEnd);
  }

  /** A row whose cells [c - 1, cEnd - 1) are spaces and whose other cells are those of `line`. */
  function Blanked(line: seq<char>, c: int, cEnd: int): (b: seq<char>)
    ensures |b| == |line|
    ensures forall j :: 0 <= j < |line| ==> b[j] == if c - 1 <= j < cEnd - 1 then Space else line[j]
  {
    seq(|line|, j requires 0 <= j < |line| => if c - 1 <= j < cEnd - 1 then Space else line[j])
  }

  /** Blanking cell c - 1 and then the cells from c on blanks the cells from c - 1 on. */
  lemma BlankedStep(line: seq<char>, c: int, cEnd: int)
    requires 1 <= c < cEnd && c <= |line|
    ensures Blanked(Assign(line, c - 1, Space), c + 1, cEnd) == Blanked(line, c, cEnd)
  {
    assert Slot(c - 1, |line|) == c - 1;
  }

  /** `Blank` at a cell of the scroll region short of the last column: the cell becomes a space, the cursor moves right. */
  lemma BlankInRegion(t: Tty, r: int, c: int)
    requires t.Valid() && t.top <= r <= t.bottom && 1 <= c < t.cols
    ensures Blank(t, r, c) == BlankedCell(t, r, c)
  {
    var g := Goto(t, r, c);
    assert g == t.(row := r, col := c);
    var w := Write(g, Space);
    assert Goto(w, r, c + 1) == w.(row := r, col := c + 1);
  }

  /** The columns cs are c, c + 1, ... in order, as `range(c, c + len(cs))` yields them. */
  predicate Consecutive(cs: seq<int>, c: int) {
    forall k :: 0 <= k < |cs| ==> cs[k] == c + k
  }

  /** `t` after blanking cells [c, cEnd) of row r, with the cursor left at (r, cEnd). */
  function RowBlanked(t: Tty, r: int, c: int, cEnd: int): (u: Tty)
    requires 1 <= r <= |t.buf|
  {
    t.(buf := t.buf[r - 1 := Blanked(t.buf[r - 1], c, cEnd)], row := r, col := cEnd)
  }

  /** Cell c of row r turned into a space, the cursor just after it. */
  function BlankedCell(t: Tty, r: int, c: int): (u: Tty)
    requires t.Valid() && 1 <= r <= t.rows && 1 <= c <= t.cols
  {
    t.(buf := t.buf[r - 1 := Assign(t.buf[r - 1], c - 1, Space)], row := r, col := c + 1)
  }

  /** Blanking cell c of row r and then cells [c + 1, cEnd) blanks cells [c, cEnd). */
  lemma RowBlankedStep(t: Tty, r: int, c: int, cEnd: int)
    requires t.Valid() && 1 <= r <= t.rows && 1 <= c < cEnd && c <= t.cols
    ensures RowBlanked(BlankedCell(t, r, c), r, c + 1, cEnd) == RowBlanked(t, r, c, cEnd)
  {
    BlankedRowStep(t.buf, r - 1, c, cEnd);
  }

  /** Blanking the single cell c of row r. */
  lemma RowBlankedOne(t: Tty, r: int, c: int)
    requires t.Valid() && 1 <= r <= t.rows && 1 <= c <= t.cols
    ensures BlankedCell(t, r, c) == RowBlanked(t, r, c, c + 1)
  {
    BlankedOne(t.buf[r - 1], c);
  }

  /**
   * One row of `erase` inside the scroll region and the grid's columns, over a non-empty span: cells
   * [c, c + |cs|) of row r become spaces, the other cells stay, and the cursor ends at (r, c + |cs|).
   */
  lemma {:induction false} EraseRowInRegion(t: Tty, r: int, c: int, cEnd: int, cs: seq<int>)
    requires t.Valid() && t.top <= r <= t.bottom && 1 <= c && cEnd == c + |cs| <= t.cols && Consecutive(cs, c) && cs != []
    ensures EraseRow(t, r, cs) == RowBlanked(t, r, c, cEnd)
    decreases |cs|
  {
    if |cs| == 1 {
      EraseRowOne(t, r, c, cs);
    } else {
      var p, rest := BlankedCell(t, r, c), cs[1..];
      assert EraseRow(t, r, cs) == EraseRow(p, r, rest) by {
        EraseRowHead(t, r, cs, c);
      }
      assert EraseRow(p, r, rest) == RowBlanked(p, r, c + 1, cEnd) by {
        assert |rest| == |cs| - 1 && Consecutive(rest, c + 1);
        EraseRowInRegion(p, r, c + 1, cEnd, rest);
      }
      RowBlankedStep(t, r, c, cEnd);
    }
  }

  /** The inner loop of `erase` over the single column c. */
  lemma EraseRowOne(t: Tty, r: int, c: int, cs: seq<int>)
    requires t.Valid() && t.top <= r <= t.bottom && 1 <= c < t.cols && cs == [c]
    ensures EraseRow(t, r, cs) == RowBlanked(t, r, c, c + 1)
  {
    EraseRowHead(t, r, cs, c);
    assert cs[1..] == [];
    RowBlankedOne(t, r, c);
  }

  /** The first pass of the inner loop of `erase`, at column c. */
  lemma EraseRowHead(t: Tty, r: int, cs: seq<int>, c: int)
    requires t.Valid() && t.top <= r <= t.bottom && 1 <= c < t.cols && cs != [] && cs[0] == c
    ensures EraseRow(t, r, cs) == EraseRow(BlankedCell(t, r, c), r, cs[1..])
  {
    BlankInRegion(t, r, c);
  }

  /** Blanking the one cell c - 1 is assigning a space to it. */
  lemma BlankedOne(line: seq<char>, c: int)
    requires 1 <= c <= |line|
    ensures Blanked(line, c, c + 1) == Assign(line, c - 1, Space)
  {
    assert Slot(c - 1, |line|) == c - 1;
  }

  /** The grid after one row of `erase` inside the scroll region, the span of columns possibly empty. */
  lemma EraseRowBlanks(t: Tty, r: int, c: int, cs: seq<int>)
    requires t.Valid() && t.top <= r <= t.bottom && 1 <= c && (cs == [] || c + |cs| <= t.cols) && Consecutive(cs, c)
    ensures EraseRow(t, r, cs).buf == t.buf[r - 1 := Blanked(t.buf[r - 1], c, c + |cs|)]
  {
    if cs == [] {
      BlankedNothing(t.buf, r - 1, c, c);
    } else {
      EraseRowInRegion(t, r, c, c + |cs|, cs);
      assert EraseRow(t, r, cs).buf == RowBlanked(t, r, c, c + |cs|).buf;
    }
  }

  /** An empty span of columns blanks nothing. */
  lemma BlankedNothing(buf: seq<seq<char>>, i: int, c: int, cEnd: int)
    requires 0 <= i < |buf| && c >= cEnd
    ensures buf[i := Blanked(buf[i], c, cEnd)] == buf
  {
    assert Blanked(buf[i], c, cEnd) == buf[i];
  }

  /** The grid after blanking cells [c0, cEnd) of each row in [r, rEnd). */
  function BlankedRows(buf: seq<seq<char>>, r: int, rEnd: int, c0: int, cEnd: int): (g: seq<seq<char>>)
    ensures |g| == |buf|
    ensures forall i :: 0 <= i < |buf| ==> g[i] == if r - 1 <= i < rEnd - 1 then Blanked(buf[i], c0, cEnd) else buf[i]
  {
    seq(|buf|, i requires 0 <= i < |buf| => if r - 1 <= i < rEnd - 1 then Blanked(buf[i], c0, cEnd) else buf[i])
  }

  /** Blanking row r and then the rows (r, rEnd) blanks the rows [r, rEnd). */
  lemma BlankedRowsStep(buf: seq<seq<char>>, r: int, rEnd: int, c0: int, cEnd: int)
    requires 1 <= r <= |buf| && r < rEnd
    ensures BlankedRows(buf[r - 1 := Blanked(buf[r - 1], c0, cEnd)], r + 1, rEnd, c0, cEnd) == BlankedRows(buf, r, rEnd, c0, cEnd)
  {
    var a := BlankedRows(buf[r - 1 := Blanked(buf[r - 1], c0, cEnd)], r + 1, rEnd, c0, cEnd);
    var b := BlankedRows(buf, r, rEnd, c0, cEnd);
    forall i | 0 <= i < |buf|
      ensures a[i] == b[i]
    {
    }
  }

  /** The rows [r, rEnd) of `erase`, all inside the scroll region: each has its cells [c0, cEnd) blanked. */
  lemma {:induction false} EraseRowsInRegion(t: Tty, r: int, rEnd: int, c0: int, cs: seq<int>)
    requires t.Valid() && t.top <= r && rEnd <= t.bottom + 1 && 1 <= c0 && (cs == [] || c0 + |cs| <= t.cols) && Consecutive(cs, c0)
    ensures EraseRows(t, Range(r, rEnd), cs).buf == BlankedRows(t.buf, r, rEnd, c0, c0 + |cs|)
    decreases rEnd - r
  {
    if r < rEnd {
      var u := EraseRow(t, r, cs);
      EraseRowsInRegion(u, r + 1, rEnd, c0, cs);
      EraseRowsFirst(t, r, rEnd, cs);
      EraseRowsInRegionStep(t, r, rEnd, c0, cs, EraseRows(u, Range(r + 1, rEnd), cs));
    } else {
      assert Range(r, rEnd) == [];
      assert BlankedRows(t.buf, r, rEnd, c0, c0 + |cs|) == t.buf;
    }
  }

  /** The inductive step of `EraseRowsInRegion`: row r blanked, then the rows after it, e their outcome. */
  lemma EraseRowsInRegionStep(t: Tty, r: int, rEnd: int, c0: int, cs: seq<int>, e: Tty)
    requires t.Valid() && t.top <= r < rEnd <= t.bottom + 1 && 1 <= c0 && (cs == [] || c0 + |cs| <= t.cols) && Consecutive(cs, c0)
    requires e.buf == BlankedRows(EraseRow(t, r, cs).buf, r + 1, rEnd, c0, c0 + |cs|)
    ensures e.buf == BlankedRows(t.buf, r, rEnd, c0, c0 + |cs|)
  {
    EraseRowBlanks(t, r, c0, cs);
    BlankedRowsStep(t.buf, r, rEnd, c0, c0 + |cs|);
  }

  /**
   * `erase(start, end)` over a rectangle inside the scroll region, with `1 <= start.col` and
   * `end.col <= cols`, turns exactly the cells of [start.row, end.row) x [start.col, end.col) into spaces
   * and leaves the cursor where it was.
   */
  lemma EraseInRegion(t: Tty, start: (int, int), end: (int, int))
    requires t.Valid() && t.top <= start.0 && end.0 <= t.bottom + 1 && 1 <= start.1 && end.1 <= t.cols
    ensures Erase(t, start, end).row == t.row && Erase(t, start, end).col == t.col
    ensures forall i, j :: 0 <= i < t.rows && 0 <= j < t.cols ==>
      Erase(t, start, end).buf[i][j] ==
        if start.0 - 1 <= i < end.0 - 1 && start.1 - 1 <= j < end.1 - 1 then Space else t.buf[i][j]
  {
    var cs := Range(start.1, end.1);
    assert Consecutive(cs, start.1);
    EraseRowsInRegion(t, start.0, end.0, start.1, cs);
  }
}
