/** `CustomMarkdownPreviewer` without its window: the three rule tables as
    fields that the loading methods fill in place, and the two parsing
    passes and `preview` as loops over the tables. */
module Previewer {
  import opened Text
  import opened Header
  import opened Rules
  import opened Rewrite
  import opened Expand

  class Previewer {
    var customSyntax: seq<(string, Callable)>
    var symbolSyntax: seq<(string, string)>
    var singleSideSyntax: seq<(string, bool)>

    /** The three tables as a value. */
    function State(): Tables
      reads this
    {
      Tables(customSyntax, symbolSyntax, singleSideSyntax)
    }

    /** Each table is a dictionary: no key appears twice. */
    ghost predicate Valid()
      reads this
    {
      WellFormed(State())
    }

    /** `__init__`: empty tables, then the `mod` folder's units, then the
        built-in rules. */
    constructor (folder: Option<seq<Unit>>)
      ensures Valid() && State() == Initial(folder)
    {
      customSyntax := [];
      symbolSyntax := [];
      singleSideSyntax := [];
      new;
      LoadCustomSyntax(folder);
      LoadDefaultSyntax();
    }

    /** `load_custom_syntax`: each unit's callable is stored under its file
        stem, and when its code carries a header the symbol is mapped to the
        stem and the stem's flag recorded. */
    method LoadCustomSyntax(folder: Option<seq<Unit>>)
      requires Valid()
      modifies this
      ensures Valid() && State() == LoadFolder(old(State()), folder)
    {
      if folder.None? {
        return;
      }
      var units := folder.value;
      ghost var start := State();
      var i := 0;
      while i < |units|
        invariant 0 <= i <= |units|
        invariant Valid() && State() == LoadEntries(start, ReadAll(units)[..i])
      {
        LoadUnit(units[i]);
        LoadNext(start, ReadAll(units), i);
        i := i + 1;
      }
      assert ReadAll(units)[..i] == ReadAll(units);
    }

    /** One `.py` file of the folder: the coding line is prepended, the
        callable stored under the stem, and the header, when there is one,
        recorded. */
    method LoadUnit(u: Unit)
      requires Valid()
      modifies this
      ensures Valid() && State() == Register(old(State()), Read(u))
    {
      ghost var prior := State();
      var code := CodingLine + u.code;
      customSyntax := Put(customSyntax, u.stem, u.entry);
      var (symbol, single) := GetSymbolAndSide(code);
      if symbol.Some? {
        symbolSyntax := Put(symbolSyntax, symbol.value, u.stem);
        singleSideSyntax := Put(singleSideSyntax, u.stem, single);
      }
      assert State() == Register(prior, Read(u));
      RegisterWellFormed(prior, Read(u));
    }

    /** `load_default_syntax`: each built-in rule is added when no unit took
        its name; the symbol and flag tables are left alone. */
    method LoadDefaultSyntax()
      requires Valid()
      modifies this
      ensures Valid()
      ensures customSyntax == SeedDefaults(old(customSyntax), Defaults)
      ensures symbolSyntax == old(symbolSyntax) && singleSideSyntax == old(singleSideSyntax)
    {
      var defaults := Defaults;
      var i := 0;
      while i < |defaults|
        invariant 0 <= i <= |defaults|
        invariant customSyntax == SeedDefaults(old(customSyntax), defaults[..i])
        invariant symbolSyntax == old(symbolSyntax) && singleSideSyntax == old(singleSideSyntax)
        invariant Valid()
      {
        var (name, func) := defaults[i];
        if name !in Keys(customSyntax) {
          customSyntax := Put(customSyntax, name, func);
        }
        assert defaults[..i + 1][..i] == defaults[..i];
        i := i + 1;
      }
      assert defaults[..i] == defaults;
    }

    /** `parse_symbol_syntax`: the symbols in table order, a single-sided
        one replaced everywhere by `[name]`, a two-sided one at its first
        occurrence by `[name]` and then at its next by `[/name]`. */
    method ParseSymbolSyntax(text: string) returns (r: string)
      ensures r == RewriteAll(symbolSyntax, singleSideSyntax, text)
    {
      r := text;
      var i := 0;
      while i < |symbolSyntax|
        invariant 0 <= i <= |symbolSyntax|
        invariant r == RewriteAll(symbolSyntax[..i], singleSideSyntax, text)
      {
        var (symbol, name) := symbolSyntax[i];
        if GetOr(singleSideSyntax, name, false) {
          r := ReplaceAll(r, symbol, OpenTag(name));
        } else {
          r := ReplaceFirst(r, symbol, OpenTag(name));
          r := ReplaceFirst(r, symbol, CloseTag(name));
        }
        assert symbolSyntax[..i + 1][..i] == symbolSyntax[..i];
        i := i + 1;
      }
      assert symbolSyntax[..i] == symbolSyntax;
    }

    /** `parse_custom_syntax`: the rules in table order, each expanding its
        tags with its callable; a callable called with the wrong number of
        arguments raises `TypeError`, which ends the pass. */
    method ParseCustomSyntax(text: string) returns (r: Result<string>)
      ensures r == ExpandAll(customSyntax, singleSideSyntax, text)
    {
      var t := text;
      var i := 0;
      while i < |customSyntax|
        invariant 0 <= i <= |customSyntax|
        invariant ExpandAll(customSyntax[..i], singleSideSyntax, text) == Ok(t)
      {
        var (name, func) := customSyntax[i];
        assert customSyntax[..i + 1][..i] == customSyntax[..i];
        if GetOr(singleSideSyntax, name, false) {
          match func
          case Nullary(g) =>
            t := ReplaceAll(t, OpenTag(name), g());
          case Unary(_) =>
            if Contains(t, OpenTag(name)) {
              TypeErrorStops(customSyntax, singleSideSyntax, text, i + 1);
              return TypeError;
            }
        } else {
          match func
          case Unary(h) =>
            t := SubSpans(t, OpenTag(name), CloseTag(name), h);
          case Nullary(_) =>
            if HasSpan(t, OpenTag(name), CloseTag(name)) {
              TypeErrorStops(customSyntax, singleSideSyntax, text, i + 1);
              return TypeError;
            }
        }
        i := i + 1;
      }
      assert customSyntax[..i] == customSyntax;
      r := Ok(t);
    }

    /** `preview` up to the markdown conversion: symbols first, then tags. */
    method Preview(text: string) returns (r: Result<string>)
      ensures r == PreviewText(State(), text)
    {
      var symbolParsed := ParseSymbolSyntax(text);
      r := ParseCustomSyntax(symbolParsed);
    }
  }
}
