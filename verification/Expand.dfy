/** The tag expander, `parse_custom_syntax`: for each rule, in the order of
    the rule table, `re.sub` replaces the rule's tags by what its callable
    returns. The patterns `\[name\]` and `\[name\](.*?)\[/name\]` (the second
    with DOTALL) are literal for a name made of letters, digits and
    underscores, so they are modelled as literal searches. */
module Expand {
  import opened Text
  import opened Rules
  import opened Rewrite

  /** `re.sub` of `open(.*?)close` with DOTALL: scanning left to right, at
      each position where `open` starts and a `close` follows, the span up to
      the nearest `close` is replaced by `f` of the text between them, and the
      scan resumes after it; elsewhere a character is kept and the scan moves
      on by one. */
  function SubSpans(s: string, open: string, close: string, f: string -> string): string
    requires |open| > 0
    decreases |s|
  {
    if |s| == 0 then []
    else if OccursAt(s, open, 0) && Find(s[|open|..], close).Some? then
      var k := Find(s[|open|..], close).value;
      f(s[|open|..|open| + k]) + SubSpans(s[|open| + k + |close|..], open, close, f)
    else [s[0]] + SubSpans(s[1..], open, close, f)
  }

  /** The span pattern matches somewhere: an `open` is followed by a `close`. */
  predicate HasSpan(s: string, open: string, close: string) {
    match Find(s, open)
    case None => false
    case Some(i) => Contains(s[i + |open|..], close)
  }

  /** One step of `parse_custom_syntax`. A single-sided rule's callable is
      called with no argument for each `[name]`, a two-sided rule's with the
      enclosed text for each span; a callable that takes the other number of
      arguments raises `TypeError` at its first call, and is never called
      when nothing matches. Text without `[` holds no tag and is kept, and
      `TypeError` is raised exactly when a callable of the wrong kind meets a
      match: a `[name]` for a single-sided rule, a whole span for a
      two-sided one. */
  function ExpandRule(text: string, name: string, f: Callable, single: bool): (r: Result<string>)
    ensures '[' !in text ==> r == Ok(text)
    ensures r.TypeError? <==>
      (single && f.Unary? && Contains(text, OpenTag(name))) || (!single && f.Nullary? && HasSpan(text, OpenTag(name), CloseTag(name)))
  {
    NoBracketNoTag(text, name);
    assert '[' !in text && single && f.Nullary? ==> ReplaceAll(text, OpenTag(name), f.make()) == text by {
      if '[' !in text && single && f.Nullary? {
        ReplaceAllAbsent(text, OpenTag(name), f.make());
      }
    }
    assert '[' !in text && !single && f.Unary? ==> SubSpans(text, OpenTag(name), CloseTag(name), f.apply) == text by {
      if '[' !in text && !single && f.Unary? {
        SubSpansNoOpen(text, OpenTag(name), CloseTag(name), f.apply);
      }
    }
    if single then
      match f
      case Nullary(g) => Ok(ReplaceAll(text, OpenTag(name), g()))
      case Unary(_) => if Contains(text, OpenTag(name)) then TypeError else Ok(text)
    else
      match f
      case Unary(h) => Ok(SubSpans(text, OpenTag(name), CloseTag(name), h))
      case Nullary(_) => if HasSpan(text, OpenTag(name), CloseTag(name)) then TypeError else Ok(text)
  }

  /** `parse_custom_syntax`: the rules in table order, each rule's flag read
      with `False` as the default; the first `TypeError` ends the expansion.
      Text with no `[` comes out unchanged, whatever the rules. */
  function ExpandAll(custom: seq<(string, Callable)>, flags: seq<(string, bool)>, text: string): (r: Result<string>)
    ensures '[' !in text ==> r == Ok(text)
  {
    if |custom| == 0 then Ok(text)
    else
      var (name, f) := custom[|custom| - 1];
      match ExpandAll(custom[..|custom| - 1], flags, text)
      case TypeError => TypeError
      case Ok(t) => ExpandRule(t, name, f, GetOr(flags, name, false))
  }

  /** `preview` up to the markdown conversion: the symbols are rewritten,
      then the tags expanded. Text holding no symbol and no `[` is kept. */
  function PreviewText(t: Tables, text: string): (r: Result<string>)
    ensures (forall i :: 0 <= i < |t.symbols| ==> !Contains(text, t.symbols[i].0)) && '[' !in text ==> r == Ok(text)
  {
    ExpandAll(t.custom, t.flags, RewriteAll(t.symbols, t.flags, text))
  }

  // Two-sided rules.

  /** Text in which no `open` starts is copied by the scan as it is. */
  lemma {:induction false} SubSpansPrefix(a: string, rest: string, open: string, close: string, f: string -> string)
    requires |open| > 0
    requires forall i :: 0 <= i < |a| ==> !OccursAt(a + rest, open, i)
    ensures SubSpans(a + rest, open, close, f) == a + SubSpans(rest, open, close, f)
  {
    if |a| > 0 {
      var s := a + rest;
      assert !OccursAt(s, open, 0);
      assert s[1..] == a[1..] + rest;
      forall i | 0 <= i < |a| - 1 ensures !OccursAt(a[1..] + rest, open, i) {
        OccursInSuffix(s, open, 1, i);
      }
      SubSpansPrefix(a[1..], rest, open, close, f);
      assert s[0] == a[0];
      assert SubSpans(s, open, close, f) == [s[0]] + SubSpans(s[1..], open, close, f);
      assert a == [a[0]] + a[1..];
    } else {
      assert a + rest == rest;
    }
  }

  /** Text in which `open` does not occur is kept as it is. */
  lemma SubSpansNoOpen(s: string, open: string, close: string, f: string -> string)
    requires |open| > 0 && !Contains(s, open)
    ensures SubSpans(s, open, close, f) == s
  {
    assert s + [] == s;
    SubSpansPrefix(s, [], open, close, f);
  }

  lemma CloseTagChars(name: string)
    requires IsName(name)
    ensures CloseTag(name)[0] == '['
    ensures forall m :: 1 <= m < |CloseTag(name)| ==> CloseTag(name)[m] != '['
  {
    var t := CloseTag(name);
    forall m | 1 <= m < |t| ensures t[m] != '[' {
      if 2 <= m < |t| - 1 {
        assert t[m] == name[m - 2];
      }
    }
  }

  /** For a rule name, `[/name]` cannot overlap itself, so the first
      `[/name]` in `C + "[/name]"` is the appended one when `C` holds none. */
  lemma FirstClose(c: string, name: string)
    requires IsName(name) && !Contains(c, CloseTag(name))
    ensures Find(c + CloseTag(name), CloseTag(name)) == Some(|c|)
  {
    var close := CloseTag(name);
    var s := c + close;
    CloseTagChars(name);
    assert s[|c|..] == close;
    forall j | 0 <= j < |c| ensures !OccursAt(s, close, j) {
      if j + |close| <= |c| {
        assert s[j..j + |close|] == c[j..j + |close|];
        assert !OccursAt(c, close, j);
      } else {
        assert s[|c|] == '[';
        if j + |close| <= |s| {
          assert s[j..j + |close|][|c| - j] == s[|c|];
        }
      }
    }
    assert OccursAt(s, close, |c|);
  }

  /** The leftmost non-greedy span: when no `[name]` starts in `a` and the
      enclosed `c` holds no `[/name]`, the span is replaced by `f(c)`, the
      text before it is kept, and the scan goes on after it. */
  lemma SpanAt(a: string, c: string, rest: string, name: string, f: string -> string)
    requires IsName(name) && !Contains(c, CloseTag(name))
    requires forall i :: 0 <= i < |a| ==> !OccursAt(a + OpenTag(name) + c + CloseTag(name) + rest, OpenTag(name), i)
    ensures SubSpans(a + OpenTag(name) + c + CloseTag(name) + rest, OpenTag(name), CloseTag(name), f)
      == a + f(c) + SubSpans(rest, OpenTag(name), CloseTag(name), f)
  {
    var open, close := OpenTag(name), CloseTag(name);
    var span := open + c + close + rest;
    assert a + open + c + close + rest == a + span;
    SubSpansPrefix(a, span, open, close, f);
    SpanFirst(c, rest, name, f);
  }

  lemma SpanFirst(c: string, rest: string, name: string, f: string -> string)
    requires IsName(name) && !Contains(c, CloseTag(name))
    ensures SubSpans(OpenTag(name) + c + CloseTag(name) + rest, OpenTag(name), CloseTag(name), f)
      == f(c) + SubSpans(rest, OpenTag(name), CloseTag(name), f)
  {
    FirstClose(c, name);
    SpanStep(OpenTag(name), c, CloseTag(name), rest, f);
  }

  lemma {:induction false} SpanStep(open: string, c: string, close: string, rest: string, f: string -> string)
    requires |open| > 0 && Find(c + close, close) == Some(|c|)
    ensures SubSpans(open + c + close + rest, open, close, f) == f(c) + SubSpans(rest, open, close, f)
  {
    var span := open + c + close + rest;
    SpanSlices(open, c, close, rest);
    FindInPrefix(c + close, rest, close, |c|);
    SubSpansStep(span, open, close, f, |c|);
  }

  lemma SpanSlices(open: string, c: string, close: string, rest: string)
    ensures OccursAt(open + c + close + rest, open, 0)
    ensures (open + c + close + rest)[|open|..] == (c + close) + rest
    ensures (open + c + close + rest)[|open|..|open| + |c|] == c
    ensures (open + c + close + rest)[|open| + |c| + |close|..] == rest
  {
    var span := open + c + close + rest;
    assert span[..|open|] == open;
  }

  lemma {:induction false} SubSpansStep(s: string, open: string, close: string, f: string -> string, k: nat)
    requires |open| > 0 && OccursAt(s, open, 0) && Find(s[|open|..], close) == Some(k)
    ensures SubSpans(s, open, close, f) == f(s[|open|..|open| + k]) + SubSpans(s[|open| + k + |close|..], open, close, f)
  {
  }

  /** The first occurrence in a text is still the first after more text is
      appended. */
  lemma FindInPrefix(s: string, rest: string, p: string, i: nat)
    requires Find(s, p) == Some(i)
    ensures Find(s + rest, p) == Some(i)
  {
    assert (s + rest)[i..i + |p|] == s[i..i + |p|];
    assert OccursAt(s + rest, p, i);
    forall j | 0 <= j < i ensures !OccursAt(s + rest, p, j) {
      assert !OccursAt(s, p, j);
      assert (s + rest)[j..j + |p|] == s[j..j + |p|];
    }
  }

  /** `"[n]" + c + "[/n]"`, with no `[/n]` inside `c` (which may hold line
      breaks), expands to exactly the rule's transform of `c`; a rule with
      no recorded flag is two-sided. */
  lemma TwoSidedExpand(flags: seq<(string, bool)>, name: string, c: string, h: string -> string)
    requires IsName(name) && !Contains(c, CloseTag(name))
    requires GetOr(flags, name, false) == false
    ensures ExpandRule(OpenTag(name) + c + CloseTag(name), name, Unary(h), GetOr(flags, name, false)) == Ok(h(c))
  {
    var s := OpenTag(name) + c + CloseTag(name);
    SpanFirst(c, [], name, h);
    assert s + [] == s;
    assert ExpandRule(s, name, Unary(h), false) == Ok(SubSpans(s, OpenTag(name), CloseTag(name), h));
    assert SubSpans([], OpenTag(name), CloseTag(name), h) == [];
    assert SubSpans(s, OpenTag(name), CloseTag(name), h) == h(c) + [];
    assert h(c) + [] == h(c);
  }

  // Single-sided rules.

  /** A single-sided rule replaces every `[name]` by what its callable
      returns: the text is cut at the tags, and the pieces, none holding the
      tag, are joined with that value. */
  lemma SingleSideExpand(text: string, name: string, g: () -> string)
    ensures ExpandRule(text, name, Nullary(g), true) == Ok(Join(Split(text, OpenTag(name)), g()))
    ensures |Split(text, OpenTag(name))| == Count(text, OpenTag(name)) + 1
    ensures forall k :: 0 <= k < |Split(text, OpenTag(name))| ==> !Contains(Split(text, OpenTag(name))[k], OpenTag(name))
    ensures Join(Split(text, OpenTag(name)), OpenTag(name)) == text
  {
    ReplaceAllIsJoinSplit(text, OpenTag(name), g());
    SplitPiecesFree(text, OpenTag(name));
    SplitJoin(text, OpenTag(name));
  }

  /** A lone `[name]` of a single-sided rule becomes what its callable returns. */
  lemma StandaloneTag(name: string, g: () -> string)
    ensures ExpandRule(OpenTag(name), name, Nullary(g), true) == Ok(g())
  {
    var p := OpenTag(name);
    assert p[..|p|] == p && p[|p|..] == [];
    assert ReplaceAll(p, p, g()) == g() + ReplaceAll([], p, g());
    assert ReplaceAll([], p, g()) == [];
    assert g() + [] == g();
  }

  // Text without tags.

  lemma NoBracketNoTag(text: string, name: string)
    ensures '[' !in text ==> !Contains(text, OpenTag(name))
  {
    forall i | 0 <= i <= |text| && '[' !in text ensures !OccursAt(text, OpenTag(name), i) {
      if i < |text| && i + |OpenTag(name)| <= |text| {
        assert text[i..i + |OpenTag(name)|][0] == text[i];
      }
    }
  }

  /** Once a rule raises `TypeError`, the later rules do not run and the
      expansion raises it. */
  lemma {:induction false} TypeErrorStops(custom: seq<(string, Callable)>, flags: seq<(string, bool)>, text: string, i: nat)
    requires i <= |custom| && ExpandAll(custom[..i], flags, text) == TypeError
    ensures ExpandAll(custom, flags, text) == TypeError
  {
    if i < |custom| {
      var last := |custom| - 1;
      assert custom[..last][..i] == custom[..i];
      TypeErrorStops(custom[..last], flags, text, i);
    } else {
      assert custom[..i] == custom;
    }
  }

  /** Once no `[` is left in the text, the remaining rules leave it alone. */
  lemma {:induction false} NoBracketRest(custom: seq<(string, Callable)>, flags: seq<(string, bool)>, text: string, i: nat, t: string)
    requires i <= |custom| && ExpandAll(custom[..i], flags, text) == Ok(t) && '[' !in t
    ensures ExpandAll(custom, flags, text) == Ok(t)
  {
    if i < |custom| {
      var last := |custom| - 1;
      assert custom[..last][..i] == custom[..i];
      NoBracketRest(custom[..last], flags, text, i, t);
    } else {
      assert custom[..i] == custom;
    }
  }
}
