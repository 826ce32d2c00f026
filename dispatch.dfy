/**
 * How `VT100` reads its input (term.py:88-134, 217-241): `pre` sorts one character into a control
 * character, the start of an escape sequence or a printable character; `sequence` finds the first rule
 * of the table that matches the characters after an escape and runs its action; `append` walks the
 * data, keeping an unfinished escape sequence at the end for the next call.
 */
module Dispatch {
  import opened Wrappers
  import opened PyList
  import opened Screen
  import opened Sequences

  /**
   * What `pre` does with one character: `Plain` when it returns None (the caller prints the character),
   * `Took(tty, n)` when it returns n with the terminal now in state tty (n is 0 for an escape nothing
   * matched), `Threw(fault)` when an action raised.
   */
  datatype Outcome = Plain | Took(tty: Tty, n: nat) | Threw(fault: Fault)

  /** The rows and columns are those of t and the invariant holds. */
  predicate Fits(t: Tty, u: Tty) {
    u.Valid() && u.rows == t.rows && u.cols == t.cols
  }

  /** The actions that call `rel` with one delta omitted and so raise TypeError. */
  predicate IsStep(a: Action) {
    a == StepUp || a == StepDown || a == StepRight || a == StepLeft
  }

  /** The actions that move the cursor. */
  predicate IsMotion(a: Action) {
    a.CursorUp? || a.CursorDown? || a.CursorForward? || a.CursorBack? || a.Position? || IsStep(a) || a.Home?
  }

  /**
   * What the rule's action does with the integer groups g (the lambdas of term.py:169-199): only the
   * SIMPLE arrow rules, a scroll region outside the grid and `ESC[M` on the last row raise.
   */
  function Apply(t: Tty, a: Action, g: seq<nat>): (res: Result)
    requires t.Valid() && Arity(a) <= |g|
    ensures res.Raised? <==>
      || IsStep(a)
      || (a == SetRegion && !(1 <= g[0] <= g[1] <= t.rows))
      || (a == DeleteNext && t.row == t.rows)
    ensures res.Raised? ==> res.fault == (if IsStep(a) then TypeError else if a == SetRegion then RegionOutOfRange else IndexError)
    ensures res.Ok? ==> Fits(t, res.tty)
    ensures res.Ok? && a != SetRegion ==> t.SameFrame(res.tty)
    ensures res.Ok? && a == SetRegion ==> res.tty == t.(top := g[0], bottom := g[1])
  {
    if IsMotion(a) then Motion(t, a, g) else Edit(t, a, g)
  }

  /** The actions that move the cursor: `rel` or `move`, raising only when a delta is omitted. */
  function Motion(t: Tty, a: Action, g: seq<nat>): (res: Result)
    requires t.Valid() && Arity(a) <= |g| && IsMotion(a)
    ensures res.Raised? <==> IsStep(a)
    ensures res.Raised? ==> res.fault == TypeError
    ensures res.Ok? ==> Fits(t, res.tty) && t.SameFrame(res.tty)
  {
    match a
    case CursorUp => Move(t, Some(-(g[0] as int)), Some(0), true)
    case CursorDown => Move(t, Some(g[0]), Some(0), true)
    case CursorForward => Move(t, Some(0), Some(g[0]), true)
    case CursorBack => Move(t, Some(0), Some(-(g[0] as int)), true)
    case Position => Move(t, Some(g[0]), Some(g[1]), false)
    case StepUp => Move(t, Some(-1), None, true)
    case StepDown => Move(t, Some(1), None, true)
    case StepRight => Move(t, None, Some(1), true)
    case StepLeft => Move(t, None, Some(1), true)   // `[D` moves right, like `[C`
    case Home => Move(t, Some(1), Some(1), false)
  }

  /** The actions that change the grid or the scroll region. */
  function Edit(t: Tty, a: Action, g: seq<nat>): (res: Result)
    requires t.Valid() && Arity(a) <= |g| && !IsMotion(a)
    ensures res.Raised? <==> (a == SetRegion && !(1 <= g[0] <= g[1] <= t.rows)) || (a == DeleteNext && t.row == t.rows)
    ensures res.Raised? ==> res.fault == (if a == SetRegion then RegionOutOfRange else IndexError)
    ensures res.Ok? ==> Fits(t, res.tty)
    ensures res.Ok? && a != SetRegion ==> t.SameFrame(res.tty)
    ensures res.Ok? && a == SetRegion ==> res.tty == t.(top := g[0], bottom := g[1])
  {
    match a
    case SetRegion =>
      // set_scroll stores any pair; the model follows only regions inside the grid
      if 1 <= g[0] <= g[1] <= t.rows then Ok(t.(top := g[0], bottom := g[1])) else Raised(RegionOutOfRange)
    case DeleteLines => Screen.DeleteLines(t, DeleteCount(a, g), DeleteAt(t.row, a))
    case EraseBelow => Ok(Erase(t, (t.row, t.col), (t.rows, t.cols)))
    case Ignore => Ok(t)
    case Clear => Ok(Reset(t))
    case EraseLine => Ok(Erase(t, (t.row, t.col), (t.row + 1, t.cols)))
    case DeleteNext => Screen.DeleteLines(t, DeleteCount(a, g), DeleteAt(t.row, a))
  }

  /** The `num` that `[nM` (n) and `[M` (1) hand to `del_lines`. */
  function DeleteCount(a: Action, g: seq<nat>): nat
    requires Arity(a) <= |g| && (a.DeleteLines? || a.DeleteNext?)
  {
    if a.DeleteLines? then g[0] else 1
  }

  /** The `row` that `[nM` (none: the cursor row) and `[M` (the row below the cursor) hand to `del_lines`. */
  function DeleteAt(row: int, a: Action): Option<int> {
    if a.DeleteLines? then None else Some(row + 1)
  }

  /** `data[i+1:i+10]`: the characters after the escape at i that `sequence` looks at. */
  function Lookahead(d: string, i: nat): (ctx: string)
    requires i < |d|
    ensures |ctx| <= Window && ctx <= d[i + 1..]
    ensures |ctx| == if |d| - (i + 1) < Window then |d| - (i + 1) else Window
  {
    d[i + 1 .. if i + 1 + Window < |d| then i + 1 + Window else |d|]
  }

  /** Running the action of rule m.0 of the table on the groups of its match m.1 (`call` in `sequence`). */
  function Act(t: Tty, ctx: string, m: (nat, Hit)): (res: Result)
    requires t.Valid() && m.0 < |Table| && Recognise(Table[m.0].pattern, ctx) == Some(m.1)
    ensures Table[m.0].action == Ignore ==> res == Ok(t)
    ensures res.Ok? ==> Fits(t, res.tty)
    ensures res.Raised? ==> IsStep(Table[m.0].action) || Table[m.0].action == SetRegion || Table[m.0].action == DeleteNext
  {
    ArgumentsSuffice(m.0, ctx, m.1);
    Apply(t, Table[m.0].action, IntGroups(m.1.groups))
  }

  /**
   * `VT100.sequence(data, i)` for the escape at i: nothing consumed when the lookahead is empty or no rule
   * matches; otherwise the first matching rule's action runs and the escape and the matched text are
   * consumed (`1 + len(m.group())`).
   */
  function Sequence(t: Tty, d: string, i: nat): (o: Outcome)
    requires t.Valid() && i < |d|
    ensures o != Plain
    ensures o.Took? ==> Fits(t, o.tty) && i + o.n <= |d| && o.n <= 1 + Window
    ensures o.Took? && o.n == 0 <==> Lookahead(d, i) == [] || FirstMatch(Lookahead(d, i)).None?
    ensures o.Took? && o.n == 0 ==> o.tty == t
    ensures Lookahead(d, i) != [] && FirstMatch(Lookahead(d, i)).Some? ==>
      var m := FirstMatch(Lookahead(d, i)).value;
      o == match Act(t, Lookahead(d, i), m) case Ok(u) => Took(u, 1 + |m.1.text|) case Raised(f) => Threw(f)
  {
    var ctx := Lookahead(d, i);
    if ctx == [] then Took(t, 0)
    else match FirstMatch(ctx)
    case None => Took(t, 0)
    case Some(m) =>
      match Act(t, ctx, m)
      case Ok(u) => Took(u, 1 + |m.1.text|)
      case Raised(f) => Threw(f)
  }

  /**
   * `pre(data, i)`: an escape goes to `sequence`; a backspace steps the column back (not below 0) and
   * blanks the cell there without moving; a carriage return moves to column 1; a line feed moves to
   * column 1 of the next row; a bell is consumed; anything else is printable.
   */
  function Pre(t: Tty, d: string, i: nat): (o: Outcome)
    requires t.Valid() && i < |d|
    ensures o.Plain? <==> d[i] != ESC && d[i] != BS && d[i] != CR && d[i] != LF && d[i] != BEL
    ensures o.Threw? ==> d[i] == ESC
    ensures o.Took? ==> Fits(t, o.tty) && i + o.n <= |d|
    ensures o.Took? && d[i] != ESC ==> o.n == 1
  {
    var b := d[i];
    if b == ESC then Sequence(t, d, i)
    else if b == BS then Took(Puts(t.(col := if t.col - 1 < 0 then 0 else t.col - 1), [Space], false), 1)
    else if b == CR then Took(Move(t, None, Some(1), false).tty, 1)
    else if b == LF then Took(Move(t, Some(t.row + 1), Some(1), false).tty, 1)
    else if b == BEL then Took(t, 1)
    else Plain
  }

  /**
   * What `append` may leave pending: nothing, or an escape with fewer than 8 characters in all (the
   * deferral test `i > len(data) - 8`).
   */
  predicate Residue(p: string) {
    p == [] || (p[0] == ESC && |p| < 8)
  }

  /** What one pass of the `append` loop decides: go on from index `next`, keep the rest pending, or stop. */
  datatype Step = Continue(tty: Tty, next: nat) | Defer | Stop(fault: Fault)

  /**
   * One pass of the `append` loop at index i: a printable character is written with `puts`; a consumed
   * character moves i on by what `pre` returned; an unmatched escape is kept pending when fewer than 8
   * characters remain (`i > len(data) - 8`) and skipped otherwise; an exception ends the call.
   */
  function Next(t: Tty, d: string, i: nat): (s: Step)
    requires t.Valid() && i < |d|
    ensures s.Continue? ==> Fits(t, s.tty) && i < s.next <= |d|
    ensures s.Defer? <==> d[i] == ESC && |d| - i < 8 && (Lookahead(d, i) == [] || FirstMatch(Lookahead(d, i)).None?)
    ensures s.Stop? ==> d[i] == ESC
  {
    match Pre(t, d, i)
    case Threw(f) => Stop(f)
    case Plain => Continue(Puts(t, [d[i]], true), i + 1)
    case Took(u, n) =>
      if n > 0 then Continue(u, i + n)
      else if i > |d| - 8 then Defer
      else Continue(t, i + 1)
  }

  /**
   * The loop of `append` from index i: the final state, what is left pending, and the exception that
   * ended the call, if any. After an exception nothing is pending.
   */
  function Decode(t: Tty, d: string, i: nat): (r: (Tty, string, Option<Fault>))
    requires t.Valid() && i <= |d|
    ensures Fits(t, r.0)
    ensures r.2.Some? ==> r.1 == []
    ensures r.1 != [] ==> |r.1| <= |d| - i && r.1 == d[|d| - |r.1|..] && (|r.1| == 1 || FirstMatch(r.1[1..]).None?)
    ensures Residue(r.1)
    decreases |d| - i
  {
    if i == |d| then (t, [], None)
    else
      match Next(t, d, i)
      case Continue(u, j) => Decode(u, d, j)
      case Defer =>
        assert Lookahead(d, i) == d[i..][1..];
        (t, d[i..], None)
      case Stop(f) => (t, [], Some(f))
  }

  // ---------------------------------------------------------------------------------------------------
  // Properties of reading input

  /** The `append` loop goes on from where one pass left it. */
  lemma DecodeContinues(t: Tty, d: string, i: nat, u: Tty, j: nat)
    requires t.Valid() && i < |d| && Next(t, d, i) == Continue(u, j)
    ensures Decode(t, d, i) == Decode(u, d, j)
  {
  }

  /** A pass that defers or raises ends the `append` loop. */
  lemma DecodeEnds(t: Tty, d: string, i: nat)
    requires t.Valid() && i < |d| && !Next(t, d, i).Continue?
    ensures Decode(t, d, i) == if Next(t, d, i).Defer? then (t, d[i..], None) else (t, [], Some(Next(t, d, i).fault))
  {
  }

  /** A pass over a character `pre` consumed moves on by the count it returned. */
  lemma NextTook(t: Tty, d: string, i: nat, u: Tty, n: nat)
    requires t.Valid() && i < |d| && Pre(t, d, i) == Took(u, n) && n > 0
    ensures Next(t, d, i) == Continue(u, i + n)
  {
  }

  /** A pass over an unknown escape with at least 8 characters left skips the escape alone. */
  lemma NextSkips(t: Tty, d: string, i: nat)
    requires t.Valid() && i < |d| && Pre(t, d, i) == Took(t, 0) && i <= |d| - 8
    ensures Next(t, d, i) == Continue(t, i + 1)
  {
  }

  /** A pass over a printable character writes it with `puts` and moves on by one. */
  lemma NextPrints(t: Tty, d: string, i: nat)
    requires t.Valid() && i < |d| && Pre(t, d, i) == Plain
    ensures Next(t, d, i) == Continue(Puts(t, [d[i]], true), i + 1)
  {
  }

  /** A pass over an unknown escape with fewer than 8 characters left keeps them pending. */
  lemma NextDefers(t: Tty, d: string, i: nat)
    requires t.Valid() && i < |d| && Pre(t, d, i) == Took(t, 0) && i > |d| - 8
    ensures Next(t, d, i) == Defer && Decode(t, d, i) == (t, d[i..], None)
  {
  }

  /** An action that raises ends the `append` loop with nothing pending. */
  lemma NextStops(t: Tty, d: string, i: nat, f: Fault)
    requires t.Valid() && i < |d| && Pre(t, d, i) == Threw(f)
    ensures Next(t, d, i) == Stop(f) && Decode(t, d, i) == (t, [], Some(f))
  {
  }

  /** A character `pre` does not handle, printed by `append`. */
  predicate Printable(ch: char) {
    ch != ESC && ch != BS && ch != CR && ch != LF && ch != BEL
  }

  /** Data without control characters is printed as it is, by `puts`, and nothing is left pending. */
  lemma {:induction false} DecodePrintable(t: Tty, d: string, i: nat)
    requires t.Valid() && i <= |d|
    requires forall k :: i <= k < |d| ==> Printable(d[k])
    ensures Decode(t, d, i) == (Puts(t, d[i..], true), [], None)
    decreases |d| - i
  {
    if i < |d| {
      var p := Puts(t, [d[i]], true);
      DecodePrintable(p, d, i + 1);
      assert d[i..] == [d[i]] + d[i + 1..];
      PutsConcat(t, [d[i]], d[i + 1..], true);
    }
  }

  /** A carriage return inside the scroll region moves the cursor to column 1 of its row and changes nothing else. */
  lemma CarriageReturn(t: Tty, d: string, i: nat)
    requires t.Valid() && i < |d| && d[i] == CR && t.top <= t.row <= t.bottom
    ensures Pre(t, d, i) == Took(t.(col := 1), 1)
  {
    GotoCases(t, t.row, 1);
  }

  /**
   * A carriage return outside the scroll region is `move(col=1)` with the cursor row, which `move` then
   * normalises: above the region the row is clamped to its top; below it the screen scrolls once.
   */
  lemma CarriageReturnOutsideRegion(t: Tty, d: string, i: nat)
    requires t.Valid() && i < |d| && d[i] == CR
    ensures t.row < t.top ==> Pre(t, d, i) == Took(t.(row := t.top, col := 1), 1)
    ensures t.row > t.bottom ==> Pre(t, d, i) == Took(DelLine(t, t.top - 1).(row := t.bottom, col := 1), 1)
  {
    GotoCases(t, t.row, 1);
  }

  /** A bell is consumed and changes nothing. */
  lemma Bell(t: Tty, d: string, i: nat)
    requires t.Valid() && i < |d| && d[i] == BEL
    ensures Pre(t, d, i) == Took(t, 1)
  {
  }

  /**
   * A line feed on the bottom row of any scroll region scrolls it once, through `del_lines(1, top - 1)`,
   * and moves to column 1 of the bottom row.
   */
  lemma LineFeedAtBottom(t: Tty, d: string, i: nat)
    requires t.Valid() && i < |d| && d[i] == LF && t.row == t.bottom
    ensures Pre(t, d, i) == Took(DelLine(t, t.top - 1).(row := t.bottom, col := 1), 1)
  {
    GotoCases(t, t.row + 1, 1);
  }

  /** A line feed above the bottom of the scroll region moves to column 1 of the next row. */
  lemma LineFeed(t: Tty, d: string, i: nat)
    requires t.Valid() && i < |d| && d[i] == LF && t.top <= t.row < t.bottom
    ensures Pre(t, d, i) == Took(t.(row := t.row + 1, col := 1), 1)
  {
    GotoCases(t, t.row + 1, 1);
  }

  /**
   * A line feed on the last row with the default region does not scroll the screen up: it blanks the last
   * row (`del_lines(1, 0)` deletes `buf[-1]`) and keeps rows 1 to rows - 1 where they were.
   */
  lemma LineFeedOnLastRow(t: Tty, d: string, i: nat)
    requires t.Valid() && i < |d| && d[i] == LF && t.top == 1 && t.bottom == t.rows && t.row == t.rows
    ensures Pre(t, d, i).Took?
    ensures Pre(t, d, i).tty.buf == t.buf[..t.rows - 1] + [BlankRow(t.cols)]
    ensures Pre(t, d, i).tty.row == t.rows && Pre(t, d, i).tty.col == 1
  {
    ScrollWithFullRegion(t, t.row + 1, 1);
  }

  /**
   * A backspace at column 1 leaves the column at 0 and blanks the LAST cell of the row (Python's index -1);
   * every other cell stays.
   */
  lemma BackspaceAtFirstColumn(t: Tty, d: string, i: nat)
    requires t.Valid() && i < |d| && d[i] == BS && t.col == 1
    ensures Pre(t, d, i).Took? && Pre(t, d, i).tty.col == 0 && Pre(t, d, i).tty.row == t.row
    ensures forall r, c :: 0 <= r < t.rows && 0 <= c < t.cols ==>
      Pre(t, d, i).tty.buf[r][c] == if r == t.row - 1 && c == t.cols - 1 then Space else t.buf[r][c]
  {
    var b := t.(col := 0);
    assert [Space][1..] == [];
    assert Puts(b, [Space], false) == Write(b, Space);
  }

  /** A backspace after column 1 moves one column left and blanks the cell there. */
  lemma Backspace(t: Tty, d: string, i: nat)
    requires t.Valid() && i < |d| && d[i] == BS && t.col >= 2
    ensures Pre(t, d, i).Took? && Pre(t, d, i).tty.col == t.col - 1 && Pre(t, d, i).tty.row == t.row
    ensures forall r, c :: 0 <= r < t.rows && 0 <= c < t.cols ==>
      Pre(t, d, i).tty.buf[r][c] == if r == t.row - 1 && c == t.col - 2 then Space else t.buf[r][c]
  {
    var b := t.(col := t.col - 1);
    assert [Space][1..] == [];
    assert Puts(b, [Space], false) == Write(b, Space);
  }

  /**
   * `ESC[nD` computes the column as `col - n or 1`: going back exactly to column 0 lands on column 1,
   * while going back one column further wraps to the last column of the row above.
   */
  lemma CursorBackEdge(t: Tty, n: nat)
    requires t.Valid() && t.top <= t.row <= t.bottom && t.col >= 1
    ensures n < t.col ==> Apply(t, CursorBack, [n]) == Ok(t.(col := t.col - n))
    ensures n == t.col ==> Apply(t, CursorBack, [n]) == Ok(t.(col := 1))
    ensures n == t.col + 1 && t.row > t.top ==> Apply(t, CursorBack, [n]) == Ok(t.(row := t.row - 1, col := t.cols))
  {
    GotoCases(t, t.row, t.col - n);
    GotoCases(t, t.row - 1, t.cols);
  }

  /**
   * `ESC[K` erases from the cursor to the end of its row, except the last column: the range
   * `range(col, cols)` stops one short.
   */
  lemma EraseLineSparesLastColumn(t: Tty)
    requires t.Valid() && t.top <= t.row <= t.bottom && t.col >= 1
    ensures Apply(t, EraseLine, []).Ok?
    ensures Apply(t, EraseLine, []).tty.row == t.row && Apply(t, EraseLine, []).tty.col == t.col
    ensures forall r, c :: 0 <= r < t.rows && 0 <= c < t.cols ==>
      Apply(t, EraseLine, []).tty.buf[r][c] == if r == t.row - 1 && t.col - 1 <= c < t.cols - 1 then Space else t.buf[r][c]
  {
    var u := Erase(t, (t.row, t.col), (t.row + 1, t.cols));
    assert Apply(t, EraseLine, []) == Ok(u);
    EraseInRegion(t, (t.row, t.col), (t.row + 1, t.cols));
  }

  /**
   * `ESC[0?J` blanks the rectangle from the cursor to the bottom-right corner, exclusive on both ends: the
   * last row and the last column are kept, and so are the columns left of the cursor on the rows below it.
   * This holds while the rows erased, [row, rows), lie inside the region, that is bottom >= rows - 1.
   */
  lemma EraseBelowSparesLastRowAndColumn(t: Tty)
    requires t.Valid() && t.top <= t.row && t.bottom >= t.rows - 1 && t.col >= 1
    ensures Apply(t, EraseBelow, []).Ok?
    ensures Apply(t, EraseBelow, []).tty.row == t.row && Apply(t, EraseBelow, []).tty.col == t.col
    ensures forall r, c :: 0 <= r < t.rows && 0 <= c < t.cols ==>
      Apply(t, EraseBelow, []).tty.buf[r][c] ==
        if t.row - 1 <= r < t.rows - 1 && t.col - 1 <= c < t.cols - 1 then Space else t.buf[r][c]
  {
    var u := Erase(t, (t.row, t.col), (t.rows, t.cols));
    assert Apply(t, EraseBelow, []) == Ok(u);
    EraseInRegion(t, (t.row, t.col), (t.rows, t.cols));
  }

  /**
   * `ESC[M` deletes the row BELOW the cursor (`del_lines(1, row=row + 1)`); `ESC[nM` starts at the cursor
   * row itself.
   */
  lemma DeleteNextRemovesRowBelow(t: Tty)
    requires t.Valid() && t.row < t.bottom
    ensures Apply(t, DeleteNext, []).Ok?
    ensures Apply(t, DeleteNext, []).tty ==
      t.(buf := t.buf[..t.row] + t.buf[t.row + 1 .. t.bottom] + [BlankRow(t.cols)] + t.buf[t.bottom..])
  {
    DelLineShifts(t, t.row + 1);
  }

  /** `ESC[nM` rotates the rows from the cursor to the bottom of the region up by n (at most all of them). */
  lemma DeleteLinesAtCursor(t: Tty, n: nat)
    requires t.Valid() && t.row <= t.bottom
    ensures Apply(t, DeleteLines, [n]).Ok?
    ensures var k := if n < t.bottom - t.row + 1 then n else t.bottom - t.row + 1;
      Apply(t, DeleteLines, [n]).tty ==
        t.(buf := t.buf[..t.row - 1] + t.buf[t.row - 1 .. t.bottom][k..] + BlankRows(k, t.cols) + t.buf[t.bottom..])
  {
    DelLinesRotate(t, n, t.row);
  }
}
