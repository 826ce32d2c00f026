/**
 * Lemmas that follow whole inputs through `Decode`, the model of `append`: the key sequences of
 * `VT100.KEYMAP` and an attribute sequence that arrives in two pieces. Each lemma follows the loop of
 * `append` step by step.
 */
module Scenarios {
  import opened Wrappers
  import opened Screen
  import opened Sequences
  import opened Dispatch

  /**
   * The arrow keys of `VT100.KEYMAP` match the SIMPLE rules `[A` to `[D` (no earlier rule matches them),
   * whose actions call `rel` with one delta omitted: feeding a key's own sequence back to the terminal
   * raises TypeError and leaves the screen and cursor as they were.
   */
  lemma ArrowKeysRaise(t: Tty, key: string)
    requires t.Valid() && key in {"up", "down", "right", "left"}
    ensures Decode(t, Map(key), 0) == (t, [], Some(TypeError))
  {
    var f := if key == "up" then 'A' else if key == "down" then 'B' else if key == "right" then 'C' else 'D';
    assert Map(key) == [ESC, '[', f];
    ArrowSequenceRaises(t, f);
  }

  /** `ESC[A` to `ESC[D` raise TypeError in `sequence`. */
  lemma ArrowSequenceRaises(t: Tty, f: char)
    requires t.Valid() && f in "ABCD"
    ensures Decode(t, [ESC, '[', f], 0) == (t, [], Some(TypeError))
  {
    var d := [ESC, '[', f];
    var ctx := Lookahead(d, 0);
    assert ctx == ['[', f];
    ScanArrow(ctx, f);
    StepRuleRaises(t, ctx, 10 + (f as int - 'A' as int), Hit(ctx, []));
    NextStops(t, d, 0, TypeError);
  }

  /** The actions of the SIMPLE rules `[A` to `[D` raise TypeError whatever they matched. */
  lemma StepRuleRaises(t: Tty, ctx: string, k: nat, h: Hit)
    requires t.Valid() && 10 <= k < 14 && Recognise(Table[k].pattern, ctx) == Some(h)
    ensures Act(t, ctx, (k, h)) == Raised(TypeError)
  {
    assert IsStep(Table[k].action);
  }

  /** The scan passes over rules that do not match. */
  lemma {:induction false} ScanPast(rules: seq<Rule>, ctx: string, k: nat, j: nat)
    requires k <= j <= |rules|
    requires forall m :: k <= m < j ==> Recognise(rules[m].pattern, ctx).None?
    ensures Scan(rules, ctx, k) == Scan(rules, ctx, j)
    decreases j - k
  {
    if k < j {
      ScanPast(rules, ctx, k + 1, j);
    }
  }

  /** The scan passes over rules that do not match and stops at the first that does. */
  lemma ScanSkips(rules: seq<Rule>, ctx: string, k: nat, j: nat, h: Hit)
    requires k <= j < |rules| && Recognise(rules[j].pattern, ctx) == Some(h)
    requires forall m :: k <= m < j ==> Recognise(rules[m].pattern, ctx).None?
    ensures Scan(rules, ctx, k) == Some((j, h))
  {
    ScanPast(rules, ctx, k, j);
  }

  /** A two-character `[x` with x neither a digit, `;`, `?` nor `m` matches none of the REGEX rules. */
  lemma NoRegexRule(ctx: string)
    requires |ctx| == 2 && ctx[0] == '[' && !InClass(ctx[1], true) && ctx[1] != '?' && ctx[1] != 'm'
    ensures forall m :: 0 <= m < 10 ==> Recognise(Table[m].pattern, ctx).None?
  {
    assert Run(ctx, 1, false) == 0 && Run(ctx, 1, true) == 0;
    forall m | 0 <= m < 10 ensures Recognise(Table[m].pattern, ctx).None? {
      var p := Table[m].pattern;
      assert p.Csi? || p.CsiPair? || p.DecPrivate? || p.Attributes? || p == Literal("[0?J");
    }
  }

  /** No REGEX rule matches `[A` to `[D`; the SIMPLE rule spelled the same way is the first match. */
  lemma ScanArrow(ctx: string, f: char)
    requires f in "ABCD" && ctx == ['[', f]
    ensures FirstMatch(ctx) == Some((10 + (f as int - 'A' as int), Hit(ctx, [])))
  {
    NoRegexRule(ctx);
    ScanPast(Table, ctx, 0, 10);
    ScanSimpleArrow(ctx, f);
  }

  /** From the first SIMPLE rule on, `[A` to `[D` stop at their own rule. */
  lemma ScanSimpleArrow(ctx: string, f: char)
    requires f in "ABCD" && ctx == ['[', f]
    ensures Scan(Table, ctx, 10) == Some((10 + (f as int - 'A' as int), Hit(ctx, [])))
  {
    ArrowRule(ctx, f, 10);
    if f != 'A' {
      ArrowRule(ctx, f, 11);
      if f != 'B' {
        ArrowRule(ctx, f, 12);
        if f != 'C' {
          ArrowRule(ctx, f, 13);
        }
      }
    }
  }

  /** Each of the SIMPLE rules `[A` to `[D` matches the two-character `[x` spelled like it, and only that one. */
  lemma ArrowRule(ctx: string, f: char, k: nat)
    requires f in "ABCD" && ctx == ['[', f] && 10 <= k < 14
    ensures Recognise(Table[k].pattern, ctx) == if k - 10 == f as int - 'A' as int then Some(Hit(ctx, [])) else None
  {
    var s := Table[k].pattern.text;
    assert |s| == 2 && s[0] == '[' && s[1] as int == 'A' as int + k - 10;
    if k - 10 != f as int - 'A' as int {
      assert s[1] != ctx[1];
    }
  }

  /**
   * Fed in one piece, the 9-character attribute sequence `ESC[38;5;1m` is consumed and changes nothing
   * (WholeAttributeIgnored). Fed as its first 8 characters and then `m`, the escape is dropped as unknown,
   * because `i > len(data) - 8` does not hold for 8 remaining characters, and `[38;5;1` is printed
   * (TruncatedAttributePrinted); the `m` that arrives next is printed after it (PrintedAfter), so all of
   * `[38;5;1m` ends up on the screen as text.
   */
  lemma WholeAttributeIgnored(t: Tty, whole: string)
    requires t.Valid() && whole == [ESC] + "[38;5;1m"
    ensures Decode(t, whole, 0) == (t, [], None)
  {
    var ctx := Lookahead(whole, 0);
    assert ctx == "[38;5;1m";
    AttributesMatch(ctx);
    AttributesChangeNothing(t, ctx, Hit(ctx, [Some("38;5;1")]));
    assert Pre(t, whole, 0) == Took(t, 9);
    NextTook(t, whole, 0, t, 9);
    DecodeContinues(t, whole, 0, t, 9);
  }

  /** Printable data in the next call, with nothing pending, is printed right after what the last call printed. */
  lemma PrintedAfter(t: Tty, printed: string, rest: string)
    requires t.Valid() && forall k :: 0 <= k < |rest| ==> Printable(rest[k])
    ensures Decode(Puts(t, printed, true), rest, 0) == (Puts(t, printed + rest, true), [], None)
  {
    DecodePrintable(Puts(t, printed, true), rest, 0);
    assert rest[0..] == rest;
    PutsConcat(t, printed, rest, true);
  }

  /** The attribute rule has no action: a match changes nothing. */
  lemma AttributesChangeNothing(t: Tty, ctx: string, h: Hit)
    requires t.Valid() && Recognise(Table[9].pattern, ctx) == Some(h)
    ensures Act(t, ctx, (9, h)) == Ok(t)
  {
    assert Table[9].action == Ignore;
  }

  /** `ESC[38;5;1` alone: no rule matches, 8 characters remain, so the escape is dropped and the rest printed. */
  lemma TruncatedAttributePrinted(t: Tty, part: string)
    requires t.Valid() && part == [ESC] + "[38;5;1"
    ensures Decode(t, part, 0) == (Puts(t, part[1..], true), [], None)
  {
    var ctx := Lookahead(part, 0);
    assert ctx == "[38;5;1";
    TruncatedNoMatch(ctx);
    forall k | 1 <= k < |part| ensures Printable(part[k]) {
      assert part[k] in "[38;5;1";
    }
    UnknownEscapeSkipped(t, part);
  }

  /**
   * An escape that no rule matches, with at least 8 characters from it to the end, is dropped: the
   * printable characters after it are printed as text.
   */
  lemma UnknownEscapeSkipped(t: Tty, d: string)
    requires t.Valid() && |d| >= 8 && d[0] == ESC && FirstMatch(Lookahead(d, 0)).None?
    requires forall k :: 1 <= k < |d| ==> Printable(d[k])
    ensures Decode(t, d, 0) == (Puts(t, d[1..], true), [], None)
  {
    assert Pre(t, d, 0) == Took(t, 0);
    NextSkips(t, d, 0);
    DecodeContinues(t, d, 0, t, 1);
    DecodePrintable(t, d, 1);
  }

  /** `[38;5;1m` is first matched by the attribute rule `\[([\d;]+)?m`. */
  lemma AttributesMatch(ctx: string)
    requires ctx == "[38;5;1m"
    ensures FirstMatch(ctx) == Some((9, Hit(ctx, [Some("38;5;1")])))
  {
    RunIs(ctx, 1, 2, false);
    RunIs(ctx, 4, 1, false);
    forall m | 0 <= m < 9 ensures Recognise(Table[m].pattern, ctx).None? {
    }
    AttributesOfColour(ctx);
    ScanSkips(Table, ctx, 0, 9, Hit(ctx, [Some("38;5;1")]));
  }

  lemma AttributesOfColour(ctx: string)
    requires ctx == "[38;5;1m"
    ensures Recognise(Table[9].pattern, ctx) == Some(Hit(ctx, [Some("38;5;1")]))
  {
    assert "[" + "38;5;1" + "m" == ctx && AllInClass("38;5;1", true);
    assert Table[9].pattern == Attributes;
    MatchAttributesComplete(ctx, "38;5;1");
  }

  /** Without its final `m`, `[38;5;1` matches no rule. */
  lemma TruncatedNoMatch(ctx: string)
    requires ctx == "[38;5;1"
    ensures FirstMatch(ctx).None?
  {
    TruncatedNoRegexRule(ctx);
    TruncatedNoSimpleRule(ctx);
  }

  /** `[38;5;1` matches none of the REGEX rules: the digits run to the end without a final letter. */
  lemma TruncatedNoRegexRule(ctx: string)
    requires ctx == "[38;5;1"
    ensures forall m :: 0 <= m < 10 ==> Recognise(Table[m].pattern, ctx).None?
  {
    RunIs(ctx, 1, 2, false);
    RunIs(ctx, 4, 1, false);
    assert Run(ctx, 1, true) == 6;
    forall m | 0 <= m < 10 ensures Recognise(Table[m].pattern, ctx).None? {
    }
  }

  /** `[38;5;1` starts with none of the SIMPLE rules' texts. */
  lemma TruncatedNoSimpleRule(ctx: string)
    requires ctx == "[38;5;1"
    ensures forall m :: 10 <= m < |Table| ==> Recognise(Table[m].pattern, ctx).None?
  {
    forall m | 10 <= m < |Table| ensures Recognise(Table[m].pattern, ctx).None? {
      var s := Table[m].pattern.text;
      assert s != [] && (s[0] != '[' || (|s| >= 2 && s[1] != '3'));
      assert !(s <= ctx);
    }
  }
}
