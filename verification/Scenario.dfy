/** The Caesar-cipher rule unit run through the whole previewer: its header
    registers the two-sided symbol `+*`, and `+*2|abc+*` previews as `cde`. */
module Scenario {
  import opened Text
  import opened Header
  import opened Rules
  import opened Rewrite
  import opened Expand
  import opened Caesar

  const CaesarName: string := "caesar_cipher"

  /** `mod/caesar_cipher.py`: its code opens with the header
      `"""Symbol: +* Single-side: False"""`, and it defines `caesar_cipher`. */
  function CaesarUnit(rest: string): Unit {
    Unit(CaesarName, Canonical("+*", false) + rest, Unary(CaesarCipher))
  }

  const CaesarTables: Tables :=
    Tables([(CaesarName, Unary(CaesarCipher))] + Defaults, [("+*", CaesarName)], [(CaesarName, false)])

  /** With the Caesar unit alone in the `mod` folder, the registry holds it
      first, then the four built-in rules, and maps `+*` to it as a
      two-sided rule. */
  lemma CaesarRegistry(rest: string)
    ensures Initial(Some([CaesarUnit(rest)])) == CaesarTables
  {
    CaesarLoaded(rest);
    DefaultsDistinct();
    DefaultNames();
    SeedFresh([(CaesarName, Unary(CaesarCipher))], Defaults);
  }

  /** Reading the unit finds the header. */
  lemma CaesarEntry(rest: string)
    ensures Read(CaesarUnit(rest)) == Entry(CaesarName, Unary(CaesarCipher), Some("+*"), false)
  {
    var u := CaesarUnit(rest);
    assert Token("+*") by {
      assert !IsSpace('+') && !IsSpace('*');
    }
    assert u.code == [] + Canonical("+*", false) + rest;
    RegisterHeader(Empty, u, [], "+*", false, rest);
  }

  lemma CaesarLoaded(rest: string)
    ensures LoadFolder(Empty, Some([CaesarUnit(rest)]))
      == Tables([(CaesarName, Unary(CaesarCipher))], [("+*", CaesarName)], [(CaesarName, false)])
  {
    LoadSingle(Empty, CaesarUnit(rest));
    CaesarEntry(rest);
  }

  /** The symbol pass turns the two `+*` into the rule's tags. */
  lemma CaesarSymbols()
    ensures RewriteAll(CaesarTables.symbols, CaesarTables.flags, "+*2|abc+*")
      == OpenTag(CaesarName) + "2|abc" + CloseTag(CaesarName)
  {
    var open := OpenTag(CaesarName);
    NoStarBefore();
    TwoSidedRewrite([], "+*", "2|abc", [], CaesarName);
    assert [] + "+*" + "2|abc" + "+*" + [] == "+*2|abc+*";
    assert [] + open + "2|abc" + CloseTag(CaesarName) + [] == open + "2|abc" + CloseTag(CaesarName);
    assert RewriteAll(CaesarTables.symbols[..0], CaesarTables.flags, "+*2|abc+*") == "+*2|abc+*";
  }

  lemma NoStarBefore()
    ensures !Contains([] + "+*"[..1], "+*")
    ensures !Contains([] + OpenTag(CaesarName) + "2|abc" + "+*"[..1], "+*")
  {
    assert '*' !in [] + "+*"[..1];
    CharAbsent([] + "+*"[..1], "+*", 1);
    assert '*' !in [] + OpenTag(CaesarName) + "2|abc" + "+*"[..1];
    CharAbsent([] + OpenTag(CaesarName) + "2|abc" + "+*"[..1], "+*", 1);
  }

  /** The tag pass hands `2|abc` to `caesar_cipher`, and the built-in rules
      find no tags in what it returns. */
  lemma CaesarTags()
    ensures ExpandAll(CaesarTables.custom, CaesarTables.flags, OpenTag(CaesarName) + "2|abc" + CloseTag(CaesarName)) == Ok("cde")
  {
    var text := OpenTag(CaesarName) + "2|abc" + CloseTag(CaesarName);
    var custom, flags := CaesarTables.custom, CaesarTables.flags;
    assert IsName(CaesarName);
    CharAbsent("2|abc", CloseTag(CaesarName), 0);
    TwoSidedExpand(flags, CaesarName, "2|abc", CaesarCipher);
    ShiftTwoExample();
    assert custom[..1] == [(CaesarName, Unary(CaesarCipher))];
    assert ExpandAll(custom[..1], flags, text) == Ok("cde");
    NoBracketRest(custom, flags, text, 1, "cde");
  }

  /** `preview("+*2|abc+*")`, before the markdown conversion, is `cde`. */
  lemma CaesarPreview(rest: string)
    ensures PreviewText(Initial(Some([CaesarUnit(rest)])), "+*2|abc+*") == Ok("cde")
  {
    CaesarRegistry(rest);
    CaesarSymbols();
    CaesarTags();
  }
}
