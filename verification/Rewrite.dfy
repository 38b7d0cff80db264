/** The symbol rewriter, `parse_symbol_syntax`: every registered trigger
    symbol is turned into the tags of its rule, `[name]` and `[/name]`,
    before the tags are expanded. */
module Rewrite {
  import opened Text
  import opened Rules

  function OpenTag(name: string): string {
    "[" + name + "]"
  }

  function CloseTag(name: string): string {
    "[/" + name + "]"
  }

  /** One step of `parse_symbol_syntax`: a single-sided symbol becomes
      `[name]` everywhere; a two-sided one has its first occurrence turned
      into `[name]` and then the first remaining occurrence into `[/name]`. */
  function RewriteSymbol(text: string, symbol: string, name: string, single: bool): (r: string)
    ensures !Contains(text, symbol) ==> r == text
    ensures single && |symbol| > 0 ==> |r| == |text| + Count(text, symbol) * (|OpenTag(name)| - |symbol|)
  {
    if single then
      assert !Contains(text, symbol) ==> ReplaceAll(text, symbol, OpenTag(name)) == text by {
        if !Contains(text, symbol) {
          assert OccursAt(text, [], 0);
          ReplaceAllAbsent(text, symbol, OpenTag(name));
        }
      }
      ReplaceAll(text, symbol, OpenTag(name))
    else ReplaceFirst(ReplaceFirst(text, symbol, OpenTag(name)), symbol, CloseTag(name))
  }

  /** `parse_symbol_syntax`: the symbols are rewritten in the order of the
      symbol table, each rule's flag read with `False` as the default. Text
      that holds none of the registered symbols comes back unchanged. */
  function RewriteAll(symbols: seq<(string, string)>, flags: seq<(string, bool)>, text: string): (r: string)
    ensures (forall i :: 0 <= i < |symbols| ==> !Contains(text, symbols[i].0)) ==> r == text
  {
    if |symbols| == 0 then text
    else
      var (symbol, name) := symbols[|symbols| - 1];
      RewriteSymbol(RewriteAll(symbols[..|symbols| - 1], flags, text), symbol, name, GetOr(flags, name, false))
  }

  /** A single-sided symbol: the text is cut at the occurrences of the
      symbol, one more piece than there are occurrences, no piece holding the
      symbol, and the pieces are joined with `[name]` in its place. */
  lemma SingleSideRewrite(text: string, symbol: string, name: string)
    requires |symbol| > 0
    ensures RewriteSymbol(text, symbol, name, true) == Join(Split(text, symbol), OpenTag(name))
    ensures Join(Split(text, symbol), symbol) == text
    ensures |Split(text, symbol)| == Count(text, symbol) + 1
    ensures forall k :: 0 <= k < |Split(text, symbol)| ==> !Contains(Split(text, symbol)[k], symbol)
    ensures |RewriteSymbol(text, symbol, name, true)| == |text| + Count(text, symbol) * (|OpenTag(name)| - |symbol|)
  {
    ReplaceAllIsJoinSplit(text, symbol, OpenTag(name));
    SplitJoin(text, symbol);
    SplitPiecesFree(text, symbol);
  }

  /** A two-sided symbol whose first two occurrences are found where expected
      (none before `a` ends, none between them even after the open tag is
      put in): the first becomes `[name]`, the second `[/name]`, and the
      rest of the text is unchanged. */
  lemma TwoSidedRewrite(a: string, symbol: string, b: string, c: string, name: string)
    requires |symbol| > 0
    requires !Contains(a + symbol[..|symbol| - 1], symbol)
    requires !Contains(a + OpenTag(name) + b + symbol[..|symbol| - 1], symbol)
    ensures RewriteSymbol(a + symbol + b + symbol + c, symbol, name, false) == a + OpenTag(name) + b + CloseTag(name) + c
  {
    var open, close := OpenTag(name), CloseTag(name);
    Regroup(a, symbol, b, c, open);
    ReplaceFirstAt(a, symbol, b + symbol + c, open);
    ReplaceFirstAt(a + open + b, symbol, c, close);
  }

  lemma Regroup(a: string, symbol: string, b: string, c: string, open: string)
    ensures a + symbol + b + symbol + c == a + symbol + (b + symbol + c)
    ensures a + open + (b + symbol + c) == (a + open + b) + symbol + c
  {
  }

  /** A two-sided symbol that occurs once becomes `[name]` and no closing
      tag is produced. */
  lemma OneOccurrenceRewrite(a: string, symbol: string, b: string, name: string)
    requires |symbol| > 0
    requires !Contains(a + symbol[..|symbol| - 1], symbol)
    requires !Contains(a + OpenTag(name) + b, symbol)
    ensures RewriteSymbol(a + symbol + b, symbol, name, false) == a + OpenTag(name) + b
  {
    ReplaceFirstAt(a, symbol, b, OpenTag(name));
  }
}
