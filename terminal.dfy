/**
 * `Terminal` and `VT100` (term.py) as one class whose methods update its fields in place, in the steps
 * the Python methods take. Each method is proved to leave the object in the state the corresponding
 * function of Screen or Dispatch computes from the old state.
 */
module Terminal {
  import opened Wrappers
  import opened PyList
  import opened Screen
  import opened Sequences
  import opened Dispatch

  class Terminal {
    const cols: nat
    const rows: nat
    /** `buf[i][j]` is the cell at row i + 1, column j + 1. */
    var buf: seq<seq<char>>
    var row: int
    var col: int
    /** `self.scroll`, as its two ends. */
    var top: int
    var bottom: int
    /** The unfinished escape sequence kept for the next `append`. */
    var pending: string

    /** The object's state as a value. */
    function State(): Tty
      reads this
    {
      Tty(rows, cols, buf, row, col, top, bottom)
    }

    predicate Valid()
      reads this
    {
      State().Valid() && Residue(pending)
    }

    /** `__init__`: scroll region (1, rows), cursor at (1, 1), nothing pending, then `reset`. */
    constructor (cols: nat, rows: nat)
      requires cols >= 1 && rows >= 1
      ensures Valid() && pending == []
      ensures State() == Tty(rows, cols, BlankGrid(rows, cols), 1, 1, 1, rows)
    {
      this.cols := cols;
      this.rows := rows;
      top, bottom := 1, rows;
      row, col := 1, 1;
      pending := [];
      buf := BlankGrid(rows, cols);
    }

    /** `reset`: a fresh grid of spaces. */
    method Reset()
      requires Valid()
      modifies this
      ensures Valid() && pending == old(pending)
      ensures State() == Screen.Reset(old(State()))
    {
      buf := BlankGrid(rows, cols);
    }

    /** `del_lines(num, row)`: `num` times, delete row `at` and insert a blank row at the region's bottom. */
    method DelLines(num: nat, at: Option<int>) returns (err: Option<Fault>)
      requires Valid()
      modifies this
      ensures Valid() && pending == old(pending)
      ensures match Screen.DeleteLines(old(State()), num, at)
        case Ok(u) => err.None? && State() == u
        case Raised(f) => err == Some(f) && State() == old(State())
    {
      var r := at.GetOr(row);
      if num > 0 && !InBounds(r - 1, rows) {
        return Some(IndexError);
      }
      ghost var t := State();
      var i := 0;
      while i < num
        invariant 0 <= i <= num && pending == old(pending)
        invariant State() == Screen.DelLines(t, i, r)
      {
        DelLinesStep(t, i, r);
        DelLineOnce(r);
        i := i + 1;
      }
      assert Screen.DeleteLines(t, num, at) == Ok(Screen.DelLines(t, num, r));
      return None;
    }

    /** One pass of the `del_lines` loop: `del buf[at - 1]`, then a blank row inserted at `bottom - 1`. */
    method DelLineOnce(at: int)
      requires Valid() && InBounds(at - 1, rows)
      modifies this
      ensures Valid() && pending == old(pending)
      ensures State() == DelLine(old(State()), at)
    {
      buf := Delete(buf, at - 1);
      buf := Insert(buf, bottom - 1, BlankRow(cols));
    }

    /**
     * `move(row, col, rel)`: with `rel`, both deltas are added to the cursor (a zero sum becomes 1 and an
     * omitted delta raises TypeError); otherwise an omitted coordinate keeps its value. Then the position
     * is normalised by `Place`.
     */
    method Move(r: Option<int>, c: Option<int>, rel: bool) returns (err: Option<Fault>)
      requires Valid()
      modifies this
      ensures Valid() && pending == old(pending)
      ensures match Screen.Move(old(State()), r, c, rel)
        case Ok(u) => err.None? && State() == u
        case Raised(f) => err == Some(f) && State() == old(State())
    {
      var nr: int, nc: int;
      if rel {
        if r.None? || c.None? {
          return Some(TypeError);
        }
        nr := OrOne(row + r.value);
        nc := OrOne(col + c.value);
      } else {
        nr := r.GetOr(row);
        nc := c.GetOr(col);
      }
      Place(nr, nc);
      return None;
    }

    /**
     * The second half of `move` (term.py:39-54): wrap a column off either edge onto the neighbouring row,
     * clamp the row to the top of the scroll region, scroll once through `del_lines(1, top - 1)` for a row
     * past its bottom, and set the cursor.
     */
    method Place(r: int, c: int)
      requires Valid()
      modifies this
      ensures Valid() && pending == old(pending)
      ensures State() == Goto(old(State()), r, c)
    {
      ghost var t := State();
      var nr, nc := r, c;
      if nc > cols {
        nr, nc := nr + 1, 1;
      }
      if nc < 1 {
        nr, nc := nr - 1, cols;
      }
      if nr < top {
        nr := top;
      }
      assert Goto(t, r, c) == if nr > bottom then Screen.DelLines(t, 1, t.top - 1).(row := t.bottom, col := nc) else t.(row := nr, col := nc);
      if nr > bottom {
        assert Screen.DeleteLines(t, 1, Some(top - 1)) == Ok(Screen.DelLines(t, 1, t.top - 1));
        var e := DelLines(1, Some(top - 1));
        nr := bottom;
      }
      row, col := nr, nc;
    }

    /** `rel(row, col)`: a move relative to the cursor. */
    method Rel(r: Option<int>, c: Option<int>) returns (err: Option<Fault>)
      requires Valid()
      modifies this
      ensures Valid() && pending == old(pending)
      ensures match Screen.Move(old(State()), r, c, true)
        case Ok(u) => err.None? && State() == u
        case Raised(f) => err == Some(f) && State() == old(State())
    {
      err := Move(r, c, true);
    }

    /** `puts(s, move)`: write each character at the cursor, moving one column on after it if `advance`. */
    method Puts(s: string, advance: bool)
      requires Valid()
      modifies this
      ensures Valid() && pending == old(pending)
      ensures State() == Screen.Puts(old(State()), s, advance)
    {
      var k := 0;
      while k < |s|
        invariant 0 <= k <= |s| && Valid() && pending == old(pending)
        invariant Screen.Puts(State(), s[k..], advance) == Screen.Puts(old(State()), s, advance)
      {
        assert s[k..][0] == s[k] && s[k..][1..] == s[k + 1..];
        PutChar(s[k], advance);
        k := k + 1;
      }
    }

    /** One pass of the loop in `puts`: write ch at the cursor, then `move(row, col + 1)` if `advance`. */
    method PutChar(ch: char, advance: bool)
      requires Valid()
      modifies this
      ensures Valid() && pending == old(pending)
      ensures State() == Put(old(State()), ch, advance)
    {
      ghost var w := Write(State(), ch);
      buf := buf[row - 1 := Assign(buf[row - 1], col - 1, ch)];
      assert State() == w;
      if advance {
        MoveTo(w, row, col + 1);
        var e := Move(Some(row), Some(col + 1), false);
      }
    }

    /** `erase(start, end)`: for each cell of the rectangle, `move` there and `puts(' ')`; then restore the cursor. */
    method Erase(start: (int, int), end: (int, int))
      requires Valid()
      modifies this
      ensures Valid() && pending == old(pending)
      ensures State() == Screen.Erase(old(State()), start, end)
    {
      var saveRow, saveCol := row, col;
      var rs, cs := Range(start.0, end.0), Range(start.1, end.1);
      var k := 0;
      while k < |rs|
        invariant 0 <= k <= |rs| && Valid() && pending == old(pending)
        invariant EraseRows(State(), rs[k..], cs) == EraseRows(old(State()), rs, cs)
      {
        assert rs[k..][0] == rs[k] && rs[k..][1..] == rs[k + 1..];
        EraseRow(rs[k], cs);
        k := k + 1;
      }
      row, col := saveRow, saveCol;
    }

    /** The inner loop of `erase`: `EraseCell` at each column of cs, on row r. */
    method EraseRow(r: int, cs: seq<int>)
      requires Valid()
      modifies this
      ensures Valid() && pending == old(pending)
      ensures State() == Screen.EraseRow(old(State()), r, cs)
    {
      var k := 0;
      while k < |cs|
        invariant 0 <= k <= |cs| && Valid() && pending == old(pending)
        invariant Screen.EraseRow(State(), r, cs[k..]) == Screen.EraseRow(old(State()), r, cs)
      {
        assert cs[k..][0] == cs[k] && cs[k..][1..] == cs[k + 1..];
        EraseCell(r, cs[k]);
        k := k + 1;
      }
    }

    /** One pass of the inner loop of `erase`: `move(r, c)`, then `puts(' ')`. */
    method EraseCell(r: int, c: int)
      requires Valid()
      modifies this
      ensures Valid() && pending == old(pending)
      ensures State() == Blank(old(State()), r, c)
    {
      MoveTo(State(), r, c);
      var e := Move(Some(r), Some(c), false);
      ghost var g := State();
      Puts([Space], true);
      assert [Space][1..] == [];
      assert Screen.Puts(g, [Space], true) == Put(g, Space, true);
    }

    /** `set_scroll(top, bottom)`, for a region inside the grid. */
    method SetScroll(newTop: int, newBottom: int)
      requires Valid() && 1 <= newTop <= newBottom <= rows
      modifies this
      ensures Valid() && pending == old(pending)
      ensures State() == old(State()).(top := newTop, bottom := newBottom)
    {
      top, bottom := newTop, newBottom;
    }

    /** The action of a rule, run on the integer groups g of its match (the lambdas of term.py:169-199). */
    method Call(a: Action, g: seq<nat>) returns (err: Option<Fault>)
      requires Valid() && Arity(a) <= |g|
      modifies this
      ensures Valid() && pending == old(pending)
      ensures match Apply(old(State()), a, g)
        case Ok(u) => err.None? && State() == u
        case Raised(f) => err == Some(f) && State() == old(State())
    {
      if IsMotion(a) {
        err := CallMotion(a, g);
      } else {
        err := CallEdit(a, g);
      }
    }

    /** The actions that move the cursor. */
    method CallMotion(a: Action, g: seq<nat>) returns (err: Option<Fault>)
      requires Valid() && Arity(a) <= |g| && IsMotion(a)
      modifies this
      ensures Valid() && pending == old(pending)
      ensures match Motion(old(State()), a, g)
        case Ok(u) => err.None? && State() == u
        case Raised(f) => err == Some(f) && State() == old(State())
    {
      match a
      case CursorUp => err := Rel(Some(-(g[0] as int)), Some(0));
      case CursorDown => err := Rel(Some(g[0]), Some(0));
      case CursorForward => err := Rel(Some(0), Some(g[0]));
      case CursorBack => err := Rel(Some(0), Some(-(g[0] as int)));
      case Position => err := Move(Some(g[0]), Some(g[1]), false);
      case StepUp => err := Rel(Some(-1), None);
      case StepDown => err := Rel(Some(1), None);
      case StepRight => err := Rel(None, Some(1));
      case StepLeft => err := Rel(None, Some(1));
      case Home => err := Move(Some(1), Some(1), false);
    }

    /** The actions that change the grid or the scroll region. */
    method CallEdit(a: Action, g: seq<nat>) returns (err: Option<Fault>)
      requires Valid() && Arity(a) <= |g| && !IsMotion(a)
      modifies this
      ensures Valid() && pending == old(pending)
      ensures match Edit(old(State()), a, g)
        case Ok(u) => err.None? && State() == u
        case Raised(f) => err == Some(f) && State() == old(State())
    {
      if a.DeleteLines? || a.DeleteNext? {
        err := CallDelete(a, g);
      } else if a.SetRegion? {
        if 1 <= g[0] <= g[1] <= rows {
          SetScroll(g[0], g[1]);
          err := None;
        } else {
          err := Some(RegionOutOfRange);
        }
      } else {
        CallBlank(a);
        err := None;
      }
    }

    /** `[nM` and `[M`: the deletions of rows. */
    method CallDelete(a: Action, g: seq<nat>) returns (err: Option<Fault>)
      requires Valid() && Arity(a) <= |g| && (a.DeleteLines? || a.DeleteNext?)
      modifies this
      ensures Valid() && pending == old(pending)
      ensures match Edit(old(State()), a, g)
        case Ok(u) => err.None? && State() == u
        case Raised(f) => err == Some(f) && State() == old(State())
    {
      err := DelLines(DeleteCount(a, g), DeleteAt(row, a));
    }

    /** `[0?J`, `[K`, `[2J` and the ignored attributes: the actions that cannot fail. */
    method CallBlank(a: Action)
      requires Valid() && (a.EraseBelow? || a.EraseLine? || a.Clear? || a.Ignore?)
      modifies this
      ensures Valid() && pending == old(pending)
      ensures Edit(old(State()), a, []) == Ok(State())
    {
      match a
      case EraseBelow => Erase((row, col), (rows, cols));
      case Ignore =>
      case Clear => Reset();
      case EraseLine => Erase((row, col), (row + 1, cols));
    }

    /**
     * `VT100.sequence(data, i)`: try the rules in order on `data[i+1:i+10]` and run the first that matches;
     * the count of characters consumed, 0 when nothing matched.
     */
    method Sequence(data: string, i: nat) returns (n: nat, err: Option<Fault>)
      requires Valid() && i < |data|
      modifies this
      ensures Valid() && pending == old(pending)
      ensures match Dispatch.Sequence(old(State()), data, i)
        case Took(u, m) => err.None? && n == m && State() == u
        case Threw(f) => err == Some(f) && State() == old(State())
        case Plain => false
    {
      var ctx := data[i + 1 .. if i + 1 + Window < |data| then i + 1 + Window else |data|];
      assert ctx == Lookahead(data, i);
      if ctx == [] {
        return 0, None;
      }
      var k := 0;
      while k < |Table|
        invariant 0 <= k <= |Table| && Scan(Table, ctx, k) == FirstMatch(ctx)
        invariant State() == old(State()) && pending == old(pending)
      {
        match Recognise(Table[k].pattern, ctx)
        case Some(h) =>
          ArgumentsSuffice(k, ctx, h);
          err := Call(Table[k].action, IntGroups(h.groups));
          n := if err.None? then 1 + |h.text| else 0;
          return;
        case None =>
        k := k + 1;
      }
      return 0, None;
    }

    /**
     * `pre(data, i)`: None (n.None?) for a printable character, otherwise the count of characters consumed,
     * after handling an escape, a backspace, a carriage return, a line feed or a bell.
     */
    method Pre(data: string, i: nat) returns (n: Option<nat>, err: Option<Fault>)
      requires Valid() && i < |data|
      modifies this
      ensures Valid() && pending == old(pending)
      ensures match Dispatch.Pre(old(State()), data, i)
        case Plain => n.None? && err.None? && State() == old(State())
        case Took(u, m) => n == Some(m) && err.None? && State() == u
        case Threw(f) => err == Some(f) && State() == old(State())
    {
      var b := data[i];
      if b == ESC {
        var m;
        m, err := Sequence(data, i);
        n := Some(m);
      } else if b == BS {
        col := if col - 1 < 0 then 0 else col - 1;
        Puts([Space], false);
        n, err := Some(1), None;
      } else if b == CR {
        err := Move(None, Some(1), false);
        n := Some(1);
      } else if b == LF {
        err := Move(Some(row + 1), Some(1), false);
        n := Some(1);
      } else if b == BEL {
        n, err := Some(1), None;
      } else {
        n, err := None, None;
      }
    }

    /**
     * `append(data)`: run `pre` over `pending + data`, printing what it leaves to `puts`; an unmatched
     * escape is kept pending when fewer than 8 characters remain and skipped otherwise. An exception from an
     * action ends the call, with nothing pending.
     */
    method Append(data: string) returns (err: Option<Fault>)
      requires Valid()
      modifies this
      ensures Valid()
      ensures (State(), pending, err) == Decode(old(State()), old(pending) + data, 0)
    {
      var d := pending + data;
      pending := [];
      ghost var t := State();
      var i := 0;
      while i < |d|
        invariant 0 <= i <= |d| && Valid() && pending == [] && rows == t.rows && cols == t.cols
        invariant Decode(State(), d, i) == Decode(t, d, 0)
        decreases |d| - i
      {
        ghost var before := State();
        var j, e := Pass(d, i);
        if e.Some? || j == i {
          DecodeEnds(before, d, i);
          if e.None? {
            pending := d[i..];
          }
          return e;
        }
        DecodeContinues(before, d, i, State(), j);
        i := j;
      }
      return None;
    }

    /**
     * One pass of the loop in `append` at index i: `pre`, then `puts` for a printable character; the new
     * index, which is i itself when the escape at i is deferred, or the exception.
     */
    method Pass(d: string, i: nat) returns (j: nat, err: Option<Fault>)
      requires Valid() && i < |d|
      modifies this
      ensures Valid() && pending == old(pending)
      ensures match Next(old(State()), d, i)
        case Continue(u, k) => err.None? && j == k && State() == u
        case Defer => err.None? && j == i && State() == old(State())
        case Stop(f) => err == Some(f) && j == i && State() == old(State())
    {
      ghost var t := State();
      var n;
      n, err := Pre(d, i);
      if err.Some? {
        NextStops(t, d, i, err.value);
        return i, err;
      }
      if n.None? {
        NextPrints(t, d, i);
        Puts([d[i]], true);
        return i + 1, None;
      }
      if n.value > 0 {
        NextTook(t, d, i, State(), n.value);
        return i + n.value, None;
      }
      if i > |d| - 8 {
        NextDefers(t, d, i);
        return i, None;
      }
      NextSkips(t, d, i);
      return i + 1, None;
    }

    /** `dump`: the rows, each followed by a line feed; row k fills characters [k * (cols + 1), (k + 1) * (cols + 1)). */
    function Dump(): (s: string)
      requires Valid()
      reads this
      ensures |s| == rows * (cols + 1)
      ensures LaidOut(s, buf, rows, cols)
    {
      RenderLayout(buf, rows, cols);
      OffsetIsProduct(rows, cols + 1);
      Render(buf)
    }
  }
}
