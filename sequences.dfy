/**
 * The escape-sequence table of `VT100` (term.py:167-213): an ordered list of rules, each a pattern with
 * an action. The patterns are the ones the Python code compiles with `re`; here each kind of pattern has
 * a hand-written recogniser that returns the matched text and the capture groups, as `m.group()` and
 * `m.groups()` do, and `Shape` states independently what text each pattern accepts.
 */
module Sequences {
  import opened Wrappers

  /** The escape introducer, `Terminal.ESCAPE`. */
  const ESC: char := '\U{1B}'
  /** The bare control characters `pre` handles: backspace, carriage return, line feed, bell. */
  const BS: char := '\U{8}'
  const CR: char := '\r'
  const LF: char := '\n'
  const BEL: char := '\U{7}'

  /** `sequence` looks at `data[i+1:i+10]`: at most this many characters after the introducer. */
  const Window: nat := 9

  predicate IsDigit(ch: char) {
    '0' <= ch <= '9'
  }

  predicate AllDigits(s: string) {
    forall k :: 0 <= k < |s| ==> IsDigit(s[k])
  }

  /** A character of `\d` or, when `semicolons` is set, of `[\d;]`. */
  predicate InClass(ch: char, semicolons: bool) {
    IsDigit(ch) || (semicolons && ch == ';')
  }

  predicate AllInClass(s: string, semicolons: bool) {
    forall k :: 0 <= k < |s| ==> InClass(s[k], semicolons)
  }

  /**
   * The longest run of class characters in s from index i: what a greedy `\d+` or `[\d;]+` takes before
   * the character that follows it.
   */
  function Run(s: string, i: nat, semicolons: bool): (n: nat)
    requires i <= |s|
    ensures i + n <= |s|
    ensures AllInClass(s[i .. i + n], semicolons)
    ensures i + n < |s| ==> !InClass(s[i + n], semicolons)
    decreases |s| - i
  {
    if i < |s| && InClass(s[i], semicolons) then
      var n := Run(s, i + 1, semicolons);
      assert s[i .. i + 1 + n] == [s[i]] + s[i + 1 .. i + 1 + n];
      1 + n
    else 0
  }

  /** `int(ds)` for a string of decimal digits: a leading zero does not change the value. */
  function Value(ds: string): (v: nat)
    requires AllDigits(ds)
    ensures ds != [] && ds[0] == '0' ==> v == Value(ds[1..])
    decreases |ds|
  {
    if ds == [] then 0
    else
      var init := ds[..|ds| - 1];
      assert |ds| >= 2 ==> init[1..] == ds[1..][..|ds[1..]| - 1];
      10 * Value(init) + (ds[|ds| - 1] as int - '0' as int)
  }

  /** The decimal spelling of n, without leading zeros. */
  function Decimal(n: nat): (s: string)
    ensures s != [] && AllDigits(s)
  {
    if n < 10 then [('0' as int + n) as char] else Decimal(n / 10) + [('0' as int + n % 10) as char]
  }

  /** `int` reads back what `Decimal` spells. */
  lemma {:induction false} ValueOfDecimal(n: nat)
    ensures Value(Decimal(n)) == n
  {
    if n >= 10 {
      ValueOfDecimal(n / 10);
      var s := Decimal(n);
      assert s[..|s| - 1] == Decimal(n / 10);
    }
  }

  /** A capture group as `m.groups()` reports it: None for an optional group that did not take part. */
  type Group = Option<string>

  /** A group that `intgroups` turns into an integer: present, non-empty, all digits (`d and d.isdigit()`). */
  predicate IsNumber(g: Group) {
    g.Some? && g.value != [] && AllDigits(g.value)
  }

  /** `intgroups(m)` (term.py:8-9): the groups that are all digits, as integers, in order. */
  function IntGroups(groups: seq<Group>): (r: seq<nat>)
    ensures |r| <= |groups|
    ensures |r| == |groups| <==> forall k :: 0 <= k < |groups| ==> IsNumber(groups[k])
    ensures (forall k :: 0 <= k < |groups| ==> IsNumber(groups[k])) ==>
      forall k :: 0 <= k < |r| ==> r[k] == Value(groups[k].value)
    ensures forall x :: x in r ==> exists k :: 0 <= k < |groups| && IsNumber(groups[k]) && x == Value(groups[k].value)
  {
    if groups == [] then []
    else
      var rest := IntGroups(groups[1..]);
      assert forall k :: 1 <= k < |groups| ==> groups[1..][k - 1] == groups[k];
      if IsNumber(groups[0]) then [Value(groups[0].value)] + rest else rest
  }

  /** `intgroups` of two lists of groups one after the other is the concatenation of the two results. */
  lemma {:induction false} IntGroupsConcat(a: seq<Group>, b: seq<Group>)
    ensures IntGroups(a + b) == IntGroups(a) + IntGroups(b)
    decreases |a|
  {
    if a == [] {
      assert a + b == b;
    } else {
      assert (a + b)[0] == a[0] && (a + b)[1..] == a[1..] + b;
      IntGroupsConcat(a[1..], b);
    }
  }

  /** One group: its integer when it is all digits, nothing otherwise. */
  lemma IntGroupsOne(g: Group)
    ensures IntGroups([g]) == if IsNumber(g) then [Value(g.value)] else []
  {
    assert [g][1..] == [];
  }

  /** A successful match: the matched text (`m.group()`) and the capture groups (`m.groups()`). */
  datatype Hit = Hit(text: string, groups: seq<Group>)

  /** The kinds of pattern in the table. */
  datatype Pattern =
    | Csi(final: char)            // \[(\d+)F
    | CsiPair(finals: string)     // \[(\d+);(\d+)[..], one of `finals` last
    | DecPrivate(final: char)     // \[\?(\d+)F
    | Attributes                  // \[([\d;]+)?m
    | Literal(text: string)       // a fixed string (re.escape of a SIMPLE rule, or \[0\?J)

  /** The text and groups a pattern accepts, written as the regular expression reads. */
  predicate Shape(p: Pattern, text: string, groups: seq<Group>) {
    match p
    case Csi(f) =>
      |groups| == 1 && IsNumber(groups[0]) && text == "[" + groups[0].value + [f]
    case CsiPair(fs) =>
      && |groups| == 2 && IsNumber(groups[0]) && IsNumber(groups[1])
      && |text| >= 1 && text[|text| - 1] in fs
      && text == "[" + groups[0].value + ";" + groups[1].value + [text[|text| - 1]]
    case DecPrivate(f) =>
      |groups| == 1 && IsNumber(groups[0]) && text == "[?" + groups[0].value + [f]
    case Attributes =>
      && |groups| == 1
      && (match groups[0]
          case None => text == "[m"
          case Some(ps) => ps != [] && AllInClass(ps, true) && text == "[" + ps + "m")
    case Literal(s) =>
      groups == [] && text == s
  }

  /** The final characters of a pattern are not digits (true of every pattern in the table). */
  predicate WellFormed(p: Pattern) {
    match p
    case Csi(f) => !IsDigit(f)
    case CsiPair(fs) => forall k :: 0 <= k < |fs| ==> !IsDigit(fs[k])
    case DecPrivate(f) => !IsDigit(f)
    case Attributes => true
    case Literal(_) => true
  }

  /** `\[(\d+)F` matched at the start of ctx. */
  function MatchCsi(f: char, ctx: string): (r: Option<Hit>)
    ensures r.Some? ==> r.value.text <= ctx && Shape(Csi(f), r.value.text, r.value.groups)
  {
    if |ctx| < 1 || ctx[0] != '[' then None
    else
      var n := Run(ctx, 1, false);
      if n >= 1 && 1 + n < |ctx| && ctx[1 + n] == f then
        assert ctx[..2 + n] == "[" + ctx[1 .. 1 + n] + [f];
        Some(Hit(ctx[..2 + n], [Some(ctx[1 .. 1 + n])]))
      else None
  }

  /** `\[(\d+);(\d+)[fs]` matched at the start of ctx. */
  function MatchPair(fs: string, ctx: string): (r: Option<Hit>)
    ensures r.Some? ==> r.value.text <= ctx
  {
    if |ctx| < 1 || ctx[0] != '[' then None
    else
      var n1 := Run(ctx, 1, false);
      if n1 >= 1 && 1 + n1 < |ctx| && ctx[1 + n1] == ';' then
        var n2 := Run(ctx, 2 + n1, false);
        if n2 >= 1 && 2 + n1 + n2 < |ctx| && ctx[2 + n1 + n2] in fs then
          Some(Hit(ctx[..3 + n1 + n2], [Some(ctx[1 .. 1 + n1]), Some(ctx[2 + n1 .. 2 + n1 + n2])]))
        else None
      else None
  }

  /** What `MatchPair` accepts has the shape of its pattern. */
  lemma MatchPairSound(fs: string, ctx: string)
    ensures MatchPair(fs, ctx).Some? ==> Shape(CsiPair(fs), MatchPair(fs, ctx).value.text, MatchPair(fs, ctx).value.groups)
  {
    if MatchPair(fs, ctx).Some? {
      var n1 := Run(ctx, 1, false);
      var n2 := Run(ctx, 2 + n1, false);
      MatchPairHit(fs, ctx, n1, n2);
      PairShape(fs, ctx, n1, n2);
    }
  }

  /** The text and groups `MatchPair` returns for digit runs of lengths n1 and n2 have the pair shape. */
  lemma PairShape(fs: string, ctx: string, n1: nat, n2: nat)
    requires |ctx| >= 1 && ctx[0] == '['
    requires n1 == Run(ctx, 1, false) && n1 >= 1 && 1 + n1 < |ctx| && ctx[1 + n1] == ';'
    requires n2 == Run(ctx, 2 + n1, false) && n2 >= 1 && 2 + n1 + n2 < |ctx| && ctx[2 + n1 + n2] in fs
    ensures Shape(CsiPair(fs), ctx[..3 + n1 + n2], [Some(ctx[1 .. 1 + n1]), Some(ctx[2 + n1 .. 2 + n1 + n2])])
  {
    var end := 3 + n1 + n2;
    var d1, d2 := ctx[1 .. 1 + n1], ctx[2 + n1 .. 2 + n1 + n2];
    DigitsOfRun(d1);
    DigitsOfRun(d2);
    SliceOfPrefix(ctx, end, 1, 1 + n1);
    SliceOfPrefix(ctx, end, 2 + n1, 2 + n1 + n2);
    CutPair(ctx[..end], n1, n2);
  }

  /** A run without semicolons is all digits. */
  lemma DigitsOfRun(s: string)
    requires AllInClass(s, false)
    ensures AllDigits(s)
  {
    forall k | 0 <= k < |s| ensures IsDigit(s[k]) {
      assert InClass(s[k], false);
    }
  }

  /** A slice of a prefix is the same slice of the whole. */
  lemma SliceOfPrefix<T>(s: seq<T>, end: nat, lo: nat, hi: nat)
    requires lo <= hi <= end <= |s|
    ensures s[..end][lo .. hi] == s[lo .. hi]
  {
  }

  /** A text `[`, n1 characters, `;`, n2 characters, one more is the concatenation of those pieces. */
  lemma CutPair(text: string, n1: nat, n2: nat)
    requires |text| == 3 + n1 + n2 && text[0] == '[' && text[1 + n1] == ';'
    ensures text == "[" + text[1 .. 1 + n1] + ";" + text[2 + n1 .. 2 + n1 + n2] + [text[|text| - 1]]
  {
  }

  /** `\[\?(\d+)F` matched at the start of ctx. */
  function MatchPrivate(f: char, ctx: string): (r: Option<Hit>)
    ensures r.Some? ==> r.value.text <= ctx && Shape(DecPrivate(f), r.value.text, r.value.groups)
  {
    if |ctx| < 2 || ctx[0] != '[' || ctx[1] != '?' then None
    else
      var n := Run(ctx, 2, false);
      if n >= 1 && 2 + n < |ctx| && ctx[2 + n] == f then
        assert ctx[..3 + n] == "[?" + ctx[2 .. 2 + n] + [f];
        Some(Hit(ctx[..3 + n], [Some(ctx[2 .. 2 + n])]))
      else None
  }

  /** `\[([\d;]+)?m` matched at the start of ctx. */
  function MatchAttributes(ctx: string): (r: Option<Hit>)
    ensures r.Some? ==> r.value.text <= ctx && Shape(Attributes, r.value.text, r.value.groups)
  {
    if |ctx| < 1 || ctx[0] != '[' then None
    else
      var n := Run(ctx, 1, true);
      if 1 + n < |ctx| && ctx[1 + n] == 'm' then
        assert ctx[..2 + n] == "[" + ctx[1 .. 1 + n] + "m";
        Some(Hit(ctx[..2 + n], [if n == 0 then None else Some(ctx[1 .. 1 + n])]))
      else None
  }

  /** `re.match(pattern, ctx)`: a match anchored at the start of ctx, or None. */
  function Recognise(p: Pattern, ctx: string): (r: Option<Hit>)
    ensures r.Some? ==> r.value.text <= ctx && Shape(p, r.value.text, r.value.groups)
  {
    match p
    case Csi(f) => MatchCsi(f, ctx)
    case CsiPair(fs) => MatchPairSound(fs, ctx); MatchPair(fs, ctx)
    case DecPrivate(f) => MatchPrivate(f, ctx)
    case Attributes => MatchAttributes(ctx)
    case Literal(s) => if s <= ctx then Some(Hit(s, [])) else None
  }

  /** A run of class characters followed by a character outside the class is exactly what `Run` takes. */
  lemma {:induction false} RunIs(s: string, i: nat, n: nat, semicolons: bool)
    requires i + n < |s| && AllInClass(s[i .. i + n], semicolons) && !InClass(s[i + n], semicolons)
    ensures Run(s, i, semicolons) == n
    decreases n
  {
    if n > 0 {
      assert s[i .. i + n][0] == s[i];
      assert s[i + 1 .. i + n] == s[i .. i + n][1..];
      RunIs(s, i + 1, n - 1, semicolons);
    }
  }

  lemma MatchCsiComplete(f: char, ctx: string, ds: string)
    requires !IsDigit(f) && ds != [] && AllDigits(ds) && "[" + ds + [f] <= ctx
    ensures MatchCsi(f, ctx) == Some(Hit("[" + ds + [f], [Some(ds)]))
  {
    assert ctx[1 .. 1 + |ds|] == ds && ctx[1 + |ds|] == f;
    RunIs(ctx, 1, |ds|, false);
    assert ctx[..2 + |ds|] == "[" + ds + [f];
  }

  lemma MatchPairComplete(fs: string, ctx: string, d1: string, d2: string, last: char)
    requires last in fs && !IsDigit(last)
    requires d1 != [] && AllDigits(d1) && d2 != [] && AllDigits(d2)
    requires "[" + d1 + ";" + d2 + [last] <= ctx
    ensures MatchPair(fs, ctx) == Some(Hit("[" + d1 + ";" + d2 + [last], [Some(d1), Some(d2)]))
  {
    PairLayout(ctx, d1, d2, last);
    RunIs(ctx, 1, |d1|, false);
    RunIs(ctx, 2 + |d1|, |d2|, false);
    MatchPairHit(fs, ctx, |d1|, |d2|);
  }

  /** Two digit runs, `;` between them and a final character in fs make `MatchPair` succeed. */
  lemma MatchPairHit(fs: string, ctx: string, n1: nat, n2: nat)
    requires |ctx| >= 1 && ctx[0] == '['
    requires n1 == Run(ctx, 1, false) && n1 >= 1 && 1 + n1 < |ctx| && ctx[1 + n1] == ';'
    requires n2 == Run(ctx, 2 + n1, false) && n2 >= 1 && 2 + n1 + n2 < |ctx| && ctx[2 + n1 + n2] in fs
    ensures MatchPair(fs, ctx) == Some(Hit(ctx[..3 + n1 + n2], [Some(ctx[1 .. 1 + n1]), Some(ctx[2 + n1 .. 2 + n1 + n2])]))
  {
  }

  lemma PairLayout(ctx: string, d1: string, d2: string, last: char)
    requires "[" + d1 + ";" + d2 + [last] <= ctx
    ensures ctx[0] == '[' && ctx[1 .. 1 + |d1|] == d1 && ctx[1 + |d1|] == ';'
    ensures ctx[2 + |d1| .. 2 + |d1| + |d2|] == d2 && ctx[2 + |d1| + |d2|] == last
    ensures ctx[..3 + |d1| + |d2|] == "[" + d1 + ";" + d2 + [last]
  {
    var text := "[" + d1 + ";" + d2 + [last];
    assert ctx[..|text|] == text;
  }

  lemma MatchPrivateComplete(f: char, ctx: string, ds: string)
    requires !IsDigit(f) && ds != [] && AllDigits(ds) && "[?" + ds + [f] <= ctx
    ensures MatchPrivate(f, ctx) == Some(Hit("[?" + ds + [f], [Some(ds)]))
  {
    assert ctx[2 .. 2 + |ds|] == ds && ctx[2 + |ds|] == f;
    RunIs(ctx, 2, |ds|, false);
    assert ctx[..3 + |ds|] == "[?" + ds + [f];
  }

  lemma MatchAttributesComplete(ctx: string, ps: string)
    requires AllInClass(ps, true) && "[" + ps + "m" <= ctx
    ensures MatchAttributes(ctx) == Some(Hit("[" + ps + "m", [if ps == [] then None else Some(ps)]))
  {
    assert ctx[1 .. 1 + |ps|] == ps && ctx[1 + |ps|] == 'm';
    RunIs(ctx, 1, |ps|, true);
    assert ctx[..2 + |ps|] == "[" + ps + "m";
  }

  /**
   * The recognisers accept every text of their pattern's shape: with the ensures of `Recognise`, a
   * well-formed pattern matches ctx with (text, groups) exactly when text is a prefix of ctx of that shape.
   */
  lemma RecogniseComplete(p: Pattern, ctx: string, text: string, groups: seq<Group>)
    requires WellFormed(p) && text <= ctx && Shape(p, text, groups)
    ensures Recognise(p, ctx) == Some(Hit(text, groups))
  {
    match p
    case Csi(f) =>
      MatchCsiComplete(f, ctx, groups[0].value);
      assert groups == [Some(groups[0].value)];
    case CsiPair(fs) =>
      var last := text[|text| - 1];
      assert !IsDigit(last) by {
        var k :| 0 <= k < |fs| && fs[k] == last;
      }
      MatchPairComplete(fs, ctx, groups[0].value, groups[1].value, last);
      assert groups == [Some(groups[0].value), Some(groups[1].value)];
    case DecPrivate(f) =>
      MatchPrivateComplete(f, ctx, groups[0].value);
      assert groups == [Some(groups[0].value)];
    case Attributes =>
      if groups[0].None? {
        assert "[" + [] + "m" == "[m" && groups == [None];
        MatchAttributesComplete(ctx, []);
      } else {
        MatchAttributesComplete(ctx, groups[0].value);
        assert groups[0].value != [] && groups == [Some(groups[0].value)];
      }
    case Literal(s) =>
  }

  /** What a rule does once its pattern matched (the lambdas of term.py:169-199). */
  datatype Action =
    | CursorUp        // rel(-n, 0)
    | CursorDown      // rel(n, 0)
    | CursorForward   // rel(0, n)
    | CursorBack      // rel(0, -n)
    | Position        // move(r, c)
    | SetRegion       // set_scroll(top, bottom)
    | DeleteLines     // del_lines(n)
    | EraseBelow      // erase((row, col), (rows, cols))
    | Ignore          // no function: the sequence is consumed and nothing happens
    | StepUp          // rel(row=-1)
    | StepDown        // rel(row=1)
    | StepRight       // rel(col=1)
    | StepLeft        // rel(col=1) as well: `[D` is written with +1, like `[C`
    | Home            // move(1, 1)
    | Clear           // reset()
    | EraseLine       // erase((row, col), (row + 1, cols))
    | DeleteNext      // del_lines(1, row=row + 1)

  /** How many integer arguments an action reads from the captures (`g[0]`, `g[1]`). */
  function Arity(a: Action): nat {
    match a
    case CursorUp | CursorDown | CursorForward | CursorBack | DeleteLines => 1
    case Position | SetRegion => 2
    case _ => 0
  }

  /** How many all-digit groups a pattern always captures. */
  function Numbers(p: Pattern): nat {
    match p
    case Csi(_) => 1
    case CsiPair(_) => 2
    case DecPrivate(_) => 1
    case Attributes => 0
    case Literal(_) => 0
  }

  datatype Rule = Rule(pattern: Pattern, action: Action)

  /** The rule list in the order `__init__` appends it: the REGEX rules first, then the SIMPLE ones. */
  const Table: seq<Rule> := [
    Rule(Csi('A'), CursorUp),
    Rule(Csi('B'), CursorDown),
    Rule(Csi('C'), CursorForward),
    Rule(Csi('D'), CursorBack),
    Rule(CsiPair("Hf"), Position),
    Rule(CsiPair("r"), SetRegion),
    Rule(Csi('M'), DeleteLines),
    Rule(Literal("[0?J"), EraseBelow),   // `\[0\?J`: the `?` is escaped, so this is the literal text
    Rule(DecPrivate('h'), Ignore),
    Rule(Attributes, Ignore),
    Rule(Literal("[A"), StepUp),
    Rule(Literal("[B"), StepDown),
    Rule(Literal("[C"), StepRight),
    Rule(Literal("[D"), StepLeft),
    Rule(Literal("[H"), Home),
    Rule(Literal("[2J"), Clear),
    Rule(Literal("[K"), EraseLine),
    Rule(Literal("[M"), DeleteNext),
    Rule(Literal(">"), Ignore),
    Rule(Literal("<"), Ignore),
    Rule(Literal("[?1l"), Ignore),
    Rule(Literal("="), Ignore)
  ]

  /**
   * `__init__` appends the ten REGEX rules first and the twelve SIMPLE ones after them, each SIMPLE rule
   * matching its text literally (`re.escape`). The one REGEX rule without a capture, `\[0\?J`, is a
   * literal text as well.
   */
  lemma TableOrder()
    ensures |Table| == 22
    ensures forall k :: 0 <= k < 10 && k != 7 ==> !Table[k].pattern.Literal?
    ensures Table[7].pattern == Literal("[0?J")
    ensures forall k :: 10 <= k < |Table| ==> Table[k].pattern.Literal?
  {
  }

  /** Every rule's pattern is well formed and captures at least the integers its action reads. */
  lemma TableWellFormed()
    ensures forall k :: 0 <= k < |Table| ==>
      WellFormed(Table[k].pattern) && Arity(Table[k].action) <= Numbers(Table[k].pattern)
  {
    forall k | 0 <= k < |Table|
      ensures WellFormed(Table[k].pattern) && Arity(Table[k].action) <= Numbers(Table[k].pattern)
    {
      assert "Hf"[0] == 'H' && "Hf"[1] == 'f' && "r"[0] == 'r';
    }
  }

  /** A match of a table rule carries at least as many integers as the rule's action reads. */
  lemma ArgumentsSuffice(k: nat, ctx: string, h: Hit)
    requires k < |Table| && Recognise(Table[k].pattern, ctx) == Some(h)
    ensures Arity(Table[k].action) <= |IntGroups(h.groups)|
  {
    TableWellFormed();
    var p := Table[k].pattern;
    if Numbers(p) > 0 {
      assert forall j :: 0 <= j < |h.groups| ==> IsNumber(h.groups[j]);
    }
  }

  /** The loop of `sequence` over `rules` from rule k on: the first rule whose pattern matches, with its match. */
  function Scan(rules: seq<Rule>, ctx: string, k: nat): (m: Option<(nat, Hit)>)
    requires k <= |rules|
    ensures m.Some? ==> k <= m.value.0 < |rules| && Recognise(rules[m.value.0].pattern, ctx) == Some(m.value.1)
    ensures m.Some? ==> forall j :: k <= j < m.value.0 ==> Recognise(rules[j].pattern, ctx).None?
    ensures m.None? ==> forall j :: k <= j < |rules| ==> Recognise(rules[j].pattern, ctx).None?
    decreases |rules| - k
  {
    if k == |rules| then None
    else
      match Recognise(rules[k].pattern, ctx)
      case Some(h) => Some((k, h))
      case None => Scan(rules, ctx, k + 1)
  }

  /** The first rule of the table whose pattern matches the start of ctx. */
  function FirstMatch(ctx: string): (m: Option<(nat, Hit)>)
    ensures m.Some? ==> m.value.0 < |Table| && Recognise(Table[m.value.0].pattern, ctx) == Some(m.value.1)
    ensures m.Some? ==> forall j :: 0 <= j < m.value.0 ==> Recognise(Table[j].pattern, ctx).None?
    ensures m.None? <==> forall j :: 0 <= j < |Table| ==> Recognise(Table[j].pattern, ctx).None?
  {
    Scan(Table, ctx, 0)
  }

  /** The names of the arrow keys. */
  const ArrowKeys: set<string> := {"up", "down", "right", "left"}

  /** `VT100.KEYMAP`. */
  const KeyMap: map<string, string> := map[
    "backspace" := [BS],
    "enter" := [LF],
    "escape" := [ESC],
    "space" := " ",
    "up" := [ESC] + "[A",
    "down" := [ESC] + "[B",
    "right" := [ESC] + "[C",
    "left" := [ESC] + "[D"
  ]

  /**
   * `KEYMAP` names eight keys: the four arrows send `ESC [` and their letter, the other four a single
   * character.
   */
  lemma KeyMapEntries()
    ensures KeyMap.Keys == {"backspace", "enter", "escape", "space", "up", "down", "right", "left"}
    ensures forall key :: key in KeyMap && key in ArrowKeys ==>
      |KeyMap[key]| == 3 && KeyMap[key][0] == ESC && KeyMap[key][1] == '[' && KeyMap[key][2] in "ABCD"
    ensures forall key :: key in KeyMap && key !in ArrowKeys ==> |KeyMap[key]| == 1
    ensures forall x, y :: x in KeyMap && y in KeyMap && x != y ==> KeyMap[x] != KeyMap[y]
  {
  }

  /** `VT100.map(key)`: the key's byte sequence, or the key itself when it is not a known name. */
  function Map(key: string): (s: string)
    ensures key in KeyMap ==> s == KeyMap[key]
    ensures key !in KeyMap ==> s == key
  {
    if key in KeyMap then KeyMap[key] else key
  }
}
