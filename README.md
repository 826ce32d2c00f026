# term.py in Dafny

A model of `term.py`, a terminal buffer emulator. It models the `Terminal` class and its `VT100` subclass:
- a grid of `rows` x `cols` characters, a 1-based cursor, a scroll region and a pending string;
- the primitive operations `reset`, `move`, `rel`, `erase`, `del_lines` and `puts`;
- the input loop: `pre` sorts each character into a control character, the start of an escape sequence
  or a printable character, and `append` walks the data, keeping an unfinished escape sequence for the
  next call;
- the `VT100` rule table, `sequence`, `set_scroll`, `map` and `intgroups`;
- `dump`, the rendering of the grid.

Layout:

- `wrappers.dfy` (`Wrappers`): `Option`, Python's `None` for an omitted argument or a group that did not
  take part in a match.
- `pylist.dfy` (`PyList`): the three Python list operations the terminal relies on (`xs[k] = x`,
  `del xs[k]`, `xs.insert(k, x)`). Each follows Python's index rules: a negative index counts from the
  end, and `insert` clamps its index.
- `screen.dfy` (`Screen`): the terminal's state as a value `Tty`, one function per `Terminal` method,
  and the properties of those functions.
- `sequences.dfy` (`Sequences`): the rule table, one recogniser per kind of pattern, `Shape` (what text
  each pattern accepts, stated independently of the recognisers), `intgroups` and the key map.
- `dispatch.dfy` (`Dispatch`): the rule actions, `sequence`, `pre` and the `append` loop as functions,
  and their properties.
- `terminal.dfy` (`Terminal`): the class `Terminal`, whose methods update its fields in place in the
  steps the Python methods take. Each method is proved to leave the object in the state that the
  corresponding function computes from the old state. `Dump` is proved to lay the rows out one after
  another.
- `scenarios.dfy` (`Scenarios`): lemmas that follow whole inputs through `Decode`, the model of `append`.
  The inputs are the arrow keys of the key map and an attribute sequence that arrives in one or two pieces.

The model keeps the source's behaviour where it is surprising, and proves it:
- A row past the bottom of the scroll region scrolls through `del_lines(1, top - 1)` and lands on the
  region's bottom row. When the region starts below row 1, that call deletes the row just above the
  region, moves the region up one and blanks its bottom row. When the region starts at row 1, it deletes
  `buf[-1]`, the grid's last row, and inserts the blank row at the region's bottom. With the default
  region, a line feed on the last row therefore blanks that row and keeps the rows above it where they
  were. With a region (1, bottom) above the last row, rows 1..bottom-1 stay, rows bottom..rows-1 move
  down one (row bottom becoming blank), and the last row is lost.
- A backspace at column 1 leaves the column at 0, and the cell written next is then the last of the row.
- `rel` computes `row + dr or 1`, so a sum of 0 becomes 1.
- The `[A`..`[D` actions call `rel` with one delta omitted, and `int + None` raises TypeError.
- `[D` moves right, like `[C`.
- `[K` and `[0?J` erase half-open ranges, which spare the last column (and, for `[0?J`, the last row).
- `erase` calls `move(row, col)` for every cell, so each cell of a row below the scroll region scrolls the
  screen once before the blank is written there (on the region's bottom row). When the rows to erase run
  past the region's bottom (for `[0?J`, a region with bottom < rows - 1 or a cursor row below the region;
  for `[K`, a cursor row below the region) and col < cols, `[0?J` and `[K` therefore shift rows instead
  of blanking the rectangle. With col = cols the column range is empty and neither erases nor scrolls.
- `[M` deletes the row below the cursor, while `[nM` deletes from the cursor row.
- `append` defers an unmatched escape only when fewer than 8 characters remain, but `sequence` looks at
  up to 9 characters after the escape. A 9-character sequence such as `ESC[38;5;1m` that arrives split
  after its 8th character is therefore dropped as unknown, and its text is printed.

An exception raised by an action ends `append`. The model returns it as a `Fault`, together with the
state reached so far and nothing pending, as Python's `self.pending = ''` leaves it.

## Model

| member | source | states |
|---|---|---|
| PyList.Slot | term.py:72 | a valid Python index denotes position k, or k + n when negative, always below n |
| PyList.InsertSlot | term.py:73 | `insert` puts its element at k when 0 <= k <= n, at k + n for a negative k that reaches the list, and clamps otherwise: n for k > n, 0 for k < -n |
| PyList.Delete | term.py:72 | `del xs[k]` shortens the list by one: elements before the slot stay, later ones move down |
| PyList.Insert | term.py:73 | `insert` lengthens the list by one: the element sits at its slot, later ones move up |
| PyList.Assign | term.py:79 | `xs[k] = x` changes exactly the element at the slot |
| PyList.InsertUndoesDelete | term.py:72-73 | inserting a deleted element back at its slot restores the list |
| Screen.BlankRow | term.py:27 | `[' '] * cols` has cols cells, all spaces |
| Screen.BlankGrid | term.py:27 | the grid `reset` builds is rows x cols spaces |
| Screen.Reset | term.py:26-27 | every cell becomes a space; size, cursor and region stay |
| Screen.DelLine | term.py:72-73 | one pass of the `del_lines` loop keeps the size, cursor and region |
| Screen.DelLines | term.py:71-73 | `num` passes keep the size, cursor and region |
| Screen.DeleteLines | term.py:67-73 | `del_lines` raises IndexError exactly when num > 0 and the row is outside the list; otherwise cursor and region stay |
| Screen.DelLinesStep | term.py:71-73 | num + 1 passes are num passes followed by one more |
| Screen.OrOne | term.py:31-32 | Python's `x or 1` is 1 for x = 0 and x for every non-zero x |
| Screen.Target | term.py:30-37 | `move`'s target is None (TypeError) exactly when rel and a delta is omitted; an absolute move fills an omitted coordinate from the cursor; a relative one adds the deltas, a zero sum becoming 1 |
| Screen.Move | term.py:29-54 | `move` raises TypeError exactly when rel and a delta is omitted; otherwise the cursor ends inside the scroll region and the grid's columns |
| Screen.Goto | term.py:39-54 | the normalised position lies inside the scroll region and the grid's columns |
| Screen.MoveTo | term.py:33-37 | an absolute move never raises and goes to its target |
| Screen.GotoCases | term.py:39-51 | an in-range target is taken as is; a row above the region is clamped to top; a row below costs exactly one `del_lines(1, top - 1)` and lands on bottom; a column off an edge wraps to the neighbouring row |
| Screen.ScrollWithFullRegion | term.py:46-51 | with region (1, rows), scrolling blanks the last row and keeps rows 1..rows-1 in place |
| Screen.ScrollWithTopRegion | term.py:46-51 | with top = 1 and bottom < rows, scrolling deletes the grid's last row (`buf[-1]`) and inserts the blank row at index bottom - 1: rows 1..bottom-1 stay, rows bottom..rows-1 move down one, and the cursor lands on bottom |
| Screen.ScrollWithInnerRegion | term.py:46-51 | with top >= 2, scrolling loses row top - 1, shifts the region up one and blanks its bottom row |
| Screen.DelLineShifts | term.py:71-73 | one pass at row `at` <= bottom moves rows (at, bottom] up one, blanks the bottom row, and leaves other rows alone |
| Screen.DelLinesRotate | term.py:67-73 | `del_lines(num, at)` drops the first min(num, bottom - at + 1) rows of [at, bottom], moves the rest up and fills the bottom of the region with blank rows |
| Screen.DelLinesRotateStep | term.py:71-73 | one pass followed by num - 1 more rotates by min(num, bottom - at + 1) |
| Screen.Write | term.py:79 | the assignment in `puts` changes only the cell at the cursor (column 0 meaning the last) |
| Screen.Put | term.py:78-81 | one pass of the `puts` loop keeps the size and region |
| Screen.Puts | term.py:75-81 | `puts` keeps the size and region |
| Screen.PutsInPlace | term.py:78-81 | `puts(s, move=False)` leaves only the last character of s, under the cursor |
| Screen.PutsAlongRow | term.py:78-81 | `puts(s)` with room on a row of the region writes s from the cursor and leaves the cursor just after it |
| Screen.PutsConcat | term.py:78-81 | `puts(a + b)` is `puts(a)` then `puts(b)` |
| Screen.PutsSnoc | term.py:78-81 | `puts(s + ch)` is `puts(s)` then one more pass |
| Screen.PutInRow | term.py:79-81 | a character short of the last column is written and the cursor moves one column right |
| Screen.PutWraps | term.py:79-81 | a character in the last column above the region's bottom is written and the cursor wraps to column 1 of the next row |
| Screen.PutsWrapsToNextRow | term.py:78-81 | cols + 1 characters from column 1 fill the row with the first cols, put the last at column 1 of the next row and leave the cursor at column 2 |
| Screen.Blank | term.py:63-64 | one pass of `erase`'s inner loop keeps the size and region |
| Screen.BlankInRegion | term.py:63-64 | inside the region and short of the last column, that pass blanks the cell and leaves the cursor one column right |
| Screen.Range | term.py:61-62 | `range(lo, hi)` is lo, lo + 1, ..., hi - 1 |
| Screen.EraseRow | term.py:62-64 | the inner loop of `erase` keeps the size and region |
| Screen.EraseRows | term.py:61-64 | the outer loop of `erase` keeps the size and region |
| Screen.Erase | term.py:59-65 | `erase` keeps the size and region and restores the cursor |
| Screen.EraseRowInRegion | term.py:62-64 | one row of `erase` inside the region blanks exactly cells [c, c + n) and leaves the cursor at (r, c + n) |
| Screen.EraseRowsFirst | term.py:61 | the outer loop's first pass is row r |
| Screen.EraseRowBlanks | term.py:62-64 | one row of `erase`, span possibly empty, blanks exactly that span of that row |
| Screen.EraseRowsInRegion | term.py:61-64 | the rows [r, rEnd) of `erase` each have exactly their cells [c0, cEnd) blanked |
| Screen.EraseInRegion | term.py:59-65 | `erase(start, end)` inside the region blanks exactly the half-open rectangle and restores the cursor |
| Screen.Render | term.py:137 | the join has at least one character per row, ends with a line feed when there are rows, and is empty for no rows |
| Screen.OffsetIsProduct | term.py:137 | row k of the rendering starts at k * (cols + 1) |
| Screen.RenderLayout | term.py:136-137 | `dump` lays out row k, then a line feed, at characters [k * (cols + 1), (k + 1) * (cols + 1)) |
| Screen.RenderRow | term.py:137 | row k lies at its offset, given the layout of the rows after the first |
| Sequences.Run | term.py:169 | the greedy `\d+` or `[\d;]+` run: class characters only, stopped by the first non-class character |
| Sequences.RunIs | term.py:169 | a run of class characters followed by a non-class character is exactly what the greedy run takes |
| Sequences.Decimal | term.py:9 | a number's decimal spelling is a non-empty run of digits |
| Sequences.ValueOfDecimal | term.py:9 | `int` reads back the decimal spelling of n |
| Sequences.Value | term.py:9 | `int` of a digit string ignores a leading zero |
| Sequences.IntGroups | term.py:8-9 | `intgroups` returns at most one integer per group, every one the value of an all-digit group, and all of them, in order, exactly when every group is a number |
| Sequences.IntGroupsConcat | term.py:9 | `intgroups` of two lists of groups one after the other is the concatenation of their results |
| Sequences.IntGroupsOne | term.py:9 | one group yields its integer when it is all digits and nothing otherwise; with IntGroupsConcat this fixes the count and order for any groups |
| Sequences.MatchCsi | term.py:169-172 | a match of `\[(\d+)F` is a prefix of the context of that shape |
| Sequences.MatchPair | term.py:173 | a match of `\[(\d+);(\d+)[..]` is a prefix of the context |
| Sequences.MatchPairSound | term.py:173-175 | a match of `\[(\d+);(\d+)[..]` has that shape |
| Sequences.PairShape | term.py:173-175 | the text and groups returned for two digit runs around `;` have the pair pattern's shape |
| Sequences.MatchPrivate | term.py:182 | a match of `\[\?(\d+)h` is a prefix of that shape |
| Sequences.MatchAttributes | term.py:183 | a match of `\[([\d;]+)?m` is a prefix of that shape, with None for an absent group |
| Sequences.Recognise | term.py:234 | `r.match(context)` returns a prefix of the pattern's shape |
| Sequences.RecogniseComplete | term.py:234 | every prefix of the pattern's shape is matched, with those groups |
| Sequences.MatchCsiComplete | term.py:169-172 | `[`, digits and the final character are matched |
| Sequences.MatchPairComplete | term.py:173-175 | `[`, digits, `;`, digits and a final character are matched |
| Sequences.MatchPairHit | term.py:173-175 | two digit runs around `;` with a final character in the set succeed |
| Sequences.PairLayout | term.py:173-175 | a prefix `[d1;d2x` puts each piece at its offset |
| Sequences.MatchPrivateComplete | term.py:182 | `[?`, digits and `h` are matched |
| Sequences.MatchAttributesComplete | term.py:183 | `[`, a run of digits and semicolons and `m` are matched |
| Sequences.TableOrder | term.py:167-213 | `Table` holds the 22 rules in the order `__init__` appends them: the ten REGEX rules, then the twelve SIMPLE ones, each SIMPLE text matched literally; `\[0\?J` is a literal text too |
| Sequences.TableWellFormed | term.py:167-200 | no final character of a pattern is a digit, and each pattern captures the integers its action reads |
| Sequences.ArgumentsSuffice | term.py:236 | a rule's match yields at least as many integers as its action indexes |
| Sequences.Scan | term.py:233-236 | the loop finds the first matching rule from k: it matches, and all before it fail |
| Sequences.FirstMatch | term.py:233-238 | the result is the first rule of the table that matches, with its match; None exactly when no rule matches |
| Sequences.KeyMapEntries | term.py:147-156 | `KeyMap` names exactly the eight keys of `KEYMAP`; the four arrow keys map to `ESC [` and a letter A-D, the other four to a single character, and no two keys share a sequence |
| Sequences.Map | term.py:158-160 | `map` returns the key map's entry, or the key itself |
| Dispatch.Apply | term.py:169-199 | only the `[A`..`[D` actions (TypeError), an out-of-grid region and `[M` on the last row (IndexError) raise; otherwise size is kept and only `r` changes the region |
| Dispatch.Motion | term.py:169-190 | cursor motions raise TypeError exactly for the one-delta `rel` calls |
| Dispatch.Edit | term.py:175-194 | edits raise only for an out-of-grid region or `[M` on the last row; `r` sets exactly the region |
| Dispatch.Act | term.py:218-228 | a rule without a function changes nothing; an action keeps the size; only the arrow rules, `r` and `[M` can raise |
| Dispatch.Lookahead | term.py:230 | the context is at most 9 characters after the escape, a prefix of the rest |
| Dispatch.Sequence | term.py:217-238 | nothing is consumed exactly when the context is empty or no rule matches; otherwise the first match's action runs and 1 + its length is consumed |
| Dispatch.Pre | term.py:88-108 | None exactly for printable characters; only an escape can raise; a control character other than an escape consumes 1 |
| Dispatch.Next | term.py:116-134 | a pass moves forward, or defers exactly an unmatched escape with fewer than 8 characters left, or stops on an exception |
| Dispatch.Decode | term.py:110-134 | `append` keeps the size; after an exception nothing is pending; what is pending is a suffix of the data, an escape of fewer than 8 characters that no rule matches |
| Dispatch.DecodeContinues | term.py:129-131 | the loop goes on from where one pass left it |
| Dispatch.DecodeEnds | term.py:118-122 | a deferring or raising pass ends the loop |
| Dispatch.NextTook | term.py:129-131 | a consumed character moves i on by `pre`'s count |
| Dispatch.NextSkips | term.py:123-128 | an unknown escape with 8 or more characters left is skipped alone |
| Dispatch.NextPrints | term.py:132-134 | a printable character is written with `puts` and i moves on by one |
| Dispatch.NextDefers | term.py:118-122 | an unknown escape with fewer than 8 characters left is kept pending |
| Dispatch.NextStops | term.py:117 | an exception from `pre` ends `append` with nothing pending |
| Dispatch.DecodePrintable | term.py:110-134 | data without control characters is printed as it is, nothing pending |
| Dispatch.CarriageReturn | term.py:96-98 | a carriage return inside the region moves to column 1 and changes nothing else |
| Dispatch.CarriageReturnOutsideRegion | term.py:96-98 | a carriage return above the region clamps the row to its top; below it, it scrolls once and lands on the bottom row, column 1 |
| Dispatch.Bell | term.py:102-104 | a bell is consumed and changes nothing |
| Dispatch.LineFeedAtBottom | term.py:99-101 | a line feed on the bottom row of any region scrolls once through `del_lines(1, top - 1)` and moves to column 1 of the bottom row |
| Dispatch.LineFeed | term.py:99-101 | a line feed above the region's bottom moves to column 1 of the next row |
| Dispatch.LineFeedOnLastRow | term.py:99-101 | a line feed on the last row with the default region blanks the last row and keeps the others in place |
| Dispatch.BackspaceAtFirstColumn | term.py:92-95 | a backspace at column 1 leaves column 0 and blanks the last cell of the row only |
| Dispatch.Backspace | term.py:92-95 | a backspace after column 1 moves one left and blanks only that cell |
| Dispatch.CursorBackEdge | term.py:172 | `[nD` back to column 0 lands on column 1; one further wraps to the last column of the row above |
| Dispatch.EraseLineSparesLastColumn | term.py:192-193 | when the cursor row is inside the scroll region and col >= 1, `[K` blanks exactly the cursor row from the cursor to the column before the last, and the cursor stays |
| Dispatch.EraseBelowSparesLastRowAndColumn | term.py:179-180 | when the rows erased, [row, rows), lie in the scroll region (bottom >= rows - 1 and the cursor row not above top) and col >= 1, `[0?J` blanks exactly rows [row, rows) x columns [col, cols), and the cursor stays |
| Dispatch.DeleteNextRemovesRowBelow | term.py:194 | `[M` removes the row below the cursor and blanks the region's bottom row |
| Dispatch.DeleteLinesAtCursor | term.py:177 | `[nM` rotates the rows from the cursor to the bottom of the region up by min(n, rows left) |
| Scenarios.ArrowKeysRaise | term.py:152-155 | feeding back the up/down/right/left key sequences raises TypeError and changes nothing |
| Scenarios.ArrowSequenceRaises | term.py:186-189 | `ESC[A`..`ESC[D` raise TypeError in `append` and change nothing |
| Scenarios.StepRuleRaises | term.py:186-189 | the actions of the SIMPLE arrow rules raise TypeError |
| Scenarios.ScanPast | term.py:233-235 | the rule loop passes over rules that do not match |
| Scenarios.ScanSkips | term.py:233-236 | the rule loop stops at the first rule that matches |
| Scenarios.NoRegexRule | term.py:167-184 | `[x`, with x none of digit, `;`, `?` or `m`, matches no REGEX rule |
| Scenarios.ScanArrow | term.py:186-189 | `[A`..`[D` are first matched by their own SIMPLE rule |
| Scenarios.ScanSimpleArrow | term.py:186-189 | among the SIMPLE rules, `[A`..`[D` stop at their own |
| Scenarios.ArrowRule | term.py:206-207 | each SIMPLE arrow rule matches exactly its own two-character text |
| Scenarios.WholeAttributeIgnored | term.py:183 | `ESC[38;5;1m` in one piece is consumed and changes nothing |
| Scenarios.AttributesChangeNothing | term.py:223-228 | a rule without a function changes nothing |
| Scenarios.AttributesMatch | term.py:183 | `[38;5;1m` is first matched by the attribute rule |
| Scenarios.AttributesOfColour | term.py:183 | the attribute rule captures `38;5;1` |
| Scenarios.TruncatedAttributePrinted | term.py:118-128 | `ESC[38;5;1` alone is dropped as unknown and `[38;5;1` is printed |
| Scenarios.UnknownEscapeSkipped | term.py:123-128 | an unmatched escape with at least 8 characters left is dropped and the rest printed |
| Scenarios.PrintedAfter | term.py:132-134 | printable data in the next call is printed right after what the previous call printed |
| Scenarios.TruncatedNoMatch | term.py:233-238 | `[38;5;1` matches no rule |
| Scenarios.TruncatedNoRegexRule | term.py:167-184 | `[38;5;1` matches no REGEX rule |
| Scenarios.TruncatedNoSimpleRule | term.py:185-200 | `[38;5;1` starts with no SIMPLE rule's text |
| Terminal.Terminal.constructor | term.py:15-24 | region (1, rows), cursor (1, 1), nothing pending, all spaces |
| Terminal.Terminal.Reset | term.py:26-27 | the new state is `Reset` of the old |
| Terminal.Terminal.DelLines | term.py:67-73 | the loop leaves `DeleteLines` of the old state, or raises with nothing changed |
| Terminal.Terminal.DelLineOnce | term.py:72-73 | one `del` and `insert` give `DelLine` of the old state |
| Terminal.Terminal.Move | term.py:29-54 | the new state is `Move` of the old, or TypeError with nothing changed |
| Terminal.Terminal.Place | term.py:39-54 | the new state is `Goto` of the old |
| Terminal.Terminal.Rel | term.py:56-57 | `rel` is the relative `Move` |
| Terminal.Terminal.Puts | term.py:75-81 | the loop leaves `Puts` of the old state |
| Terminal.Terminal.PutChar | term.py:78-81 | one pass leaves `Put` of the old state |
| Terminal.Terminal.Erase | term.py:59-65 | the nested loops leave `Erase` of the old state |
| Terminal.Terminal.EraseRow | term.py:62-64 | the inner loop leaves `EraseRow` of the old state |
| Terminal.Terminal.EraseCell | term.py:63-64 | `move` then `puts(' ')` leave `Blank` of the old state |
| Terminal.Terminal.SetScroll | term.py:240-241 | the region becomes (top, bottom) and nothing else changes |
| Terminal.Terminal.Call | term.py:169-199 | running a rule's action leaves `Apply` of the old state, or its exception with nothing changed |
| Terminal.Terminal.CallMotion | term.py:169-190 | the cursor actions leave `Motion` of the old state |
| Terminal.Terminal.CallEdit | term.py:175-194 | the editing actions leave `Edit` of the old state |
| Terminal.Terminal.CallDelete | term.py:177-194 | `[nM` and `[M` leave `Edit` of the old state |
| Terminal.Terminal.CallBlank | term.py:179-193 | `[0?J`, `[K`, `[2J` and the no-op rules leave `Edit` of the old state |
| Terminal.Terminal.Sequence | term.py:217-238 | the rule loop returns `Sequence`'s count and state, or its exception |
| Terminal.Terminal.Pre | term.py:88-108 | `pre` returns `Pre`'s outcome and state |
| Terminal.Terminal.Append | term.py:110-134 | the loop leaves `Decode` of the old state and pending text plus the data |
| Terminal.Terminal.Pass | term.py:116-134 | one pass of the loop leaves `Next` of the old state |
| Terminal.Terminal.Dump | term.py:136-137 | the rendering has rows * (cols + 1) characters, with row k and a line feed at [k * (cols + 1), (k + 1) * (cols + 1)) |

## Left out

- The drivers under `__main__`, the `debug` flag and every debug `print` and `sys.stdout.write`: output only.
- The decoding of `bytes` with UTF-8 in `append`: the model's data is a string of characters.
- `puts` of an `int` (`chr(s)`): no caller in the modelled paths passes one.
- `__str__`: formatting only.
- `Terminal.sequence` of the base class, which only returns 1: the model covers `VT100`, which overrides it.
- The `re` engine and the building of `self.control` at run time: each pattern has a hand-written recogniser, and the table is a constant in the same order. `\d` is taken as the ASCII digits.
- Dispatch.Edit: a `[t;br` region outside 1 <= t <= b <= rows is stored unchecked by `set_scroll` in Python; the model returns `RegionOutOfRange` instead of following the terminal into that state.
- Terminal.Terminal.SetScroll: requires a region inside the grid, for the same reason.
- Exceptions other than the TypeError of the arrow rules and the IndexError of `del_lines` cannot arise from a valid state in the modelled paths; the model does not represent them.
