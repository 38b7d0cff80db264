# MyMark custom-syntax engine in Dafny

MyMark is a Markdown previewer. Users can extend its syntax with rule units kept
in a `mod` folder. This project models the engine behind the preview:

- **The rule registry.** It holds three insertion-ordered dictionaries:
  - `custom_syntax` maps a rule name to its callable.
  - `symbol_syntax` maps a trigger symbol to a rule name.
  - `single_side_syntax` maps a rule name to its flag.
- **Loading.** Each unit in the `mod` folder is registered under its file stem. A
  header `"""Symbol: <sym> Single-side: <True|False>"""` in its code also registers
  a trigger symbol and a flag. Then the four built-in rules (`bold`, `italic`,
  `underline`, `strikethrough`) are added under any name that is still free.
- **The symbol pass.**
  - A single-sided symbol becomes `[name]` everywhere.
  - For a two-sided symbol, the first occurrence becomes `[name]`. Then the first
    occurrence in the rewritten text becomes `[/name]`. That occurrence can lie
    inside the new `[name]` when the symbol occurs in the tag itself.
- **The tag pass.**
  - `[name]` is replaced by the callable's result.
  - `[name]…[/name]` is replaced by the callable applied to the enclosed text. This
    is a non-greedy match that may span lines.
  - A callable that is called with the wrong number of arguments raises `TypeError`.
- **`preview`.** The symbol pass, then the tag pass. The Markdown conversion is not
  modelled.
- **The Caesar-cipher rule** (`mod/caesar_cipher.py`).
  - `_caesar_cipher` rotates ASCII letters with a translation table built from a
    sliced alphabet.
  - `caesar_cipher` reads an optional integer shift before `|`. The shift defaults
    to 3, and a shift that is not an integer gives a fixed error text.

The files, one module each:

- `Text.dfy`: the Python string operations the engine uses:
  - `find`, `replace` (all occurrences, or the first only), `split`, `join`, `count`;
  - `isspace`, which is also what `\s` uses.

  The lemmas relate them: `replace` is `join` of `split`, `split` followed by
  `join` is the identity, the number of pieces, the lengths.
- `Header.dfy`: `get_symbol_and_side_from_docstring`. It is a matcher for
  `"""Symbol:\s*(\S+)\s*Single-side:\s*(True|False)\s*"""` that follows the
  regular-expression engine's choices:
  - the leftmost start;
  - greedy whitespace runs;
  - a greedy symbol that backs off until the rest matches;
  - `True` tried before `False`.

  The lemmas cover completeness for the canonical header, soundness (the result
  comes from a substring of the header's shape), and absence.
- `Rules.dfy`:
  - the dictionaries, as sequences of pairs;
  - the effect of `load_custom_syntax` and `load_default_syntax` as functions of the
    tables;
  - the lemmas on overwriting, load order and seeding.
- `Rewrite.dfy`: `parse_symbol_syntax` as a function, with its lemmas.
- `Expand.dfy`: `parse_custom_syntax` and `preview` (without Markdown) as functions,
  with their lemmas.
- `Previewer.dfy`: the class `CustomMarkdownPreviewer` without its window.
  - The three dictionaries are fields, which the constructor and the two loading
    methods update in place.
  - The two passes and `preview` are loops over the tables.
  - Each method is proved equal to the function that specifies it.
- `PyInt.dfy`: `int()` on a `str` in base 10. It strips whitespace and accepts an
  optional sign and ASCII digits, with single underscores allowed between digits.
  The whitespace stripped is the space, `\t` to `\r`, and every non-ASCII character
  `str.isspace` accepts; U+001C to U+001F are not stripped, so `int()` rejects them.
  The lemma `int(str(n)) == n` is proved for every integer.
- `Caesar.dfy`: `mod/caesar_cipher.py`. It covers length, non-letters,
  rotation, identity, the inverse, the default shift, an explicit shift and a bad
  shift.
- `Scenario.dfy`: the Caesar unit run end to end. `+*2|abc+*` previews as `cde`.

Two facts about the source shape the model:

- `re.search` looks for the header anywhere in the unit's code (main.py:42). It
  does not have to stand on a line of its own.
- The Caesar unit's header declares the symbol `+*` (mod/caesar_cipher.py:1). So
  the end-to-end example is `+*2|abc+*`.

## Model

| member | source | states |
|---|---|---|
| Text.Count | mod/caesar_cipher.py:11-12 | the number of non-overlapping occurrences found, times the pattern's length, is at most the text's length |
| Text.Split | mod/caesar_cipher.py:11-12 | `s.split(sep)` has one more piece than `sep` has non-overlapping occurrences |
| Text.Join | main.py:71 | joining no pieces gives the empty text; otherwise the length is the pieces' total plus one separator between each two |
| Text.ReplaceAll | main.py:71 | the length after `replace` is the old length plus the count times the length difference |
| Text.ReplaceFirst | main.py:73-74 | `replace(p, r, 1)` leaves text without `p` unchanged, and otherwise changes its length by `\|r\| - \|p\|` |
| Text.Find | main.py:73-74 | the index returned is an occurrence with none before it; `None` exactly when the text does not contain the pattern |
| Text.SplitJoin | mod/caesar_cipher.py:11 | joining the pieces of `s.split(sep)` with `sep` gives `s` back |
| Text.SplitAtFirst | mod/caesar_cipher.py:11 | the split is the text before the leftmost separator followed by the split of the text after it |
| Text.SplitFirstPiece | mod/caesar_cipher.py:11 | the first piece is the text up to the first separator, and the whole text when there is none |
| Text.SplitPiecesFree | mod/caesar_cipher.py:11 | no piece of a split contains the separator |
| Text.ReplaceAllIsJoinSplit | main.py:71 | `s.replace(p, r)` is `r.join(s.split(p))` |
| Text.ReplaceAllAbsent | main.py:71 | `replace` of an absent pattern leaves the text unchanged |
| Text.ReplaceFirstAt | main.py:73-74 | `replace(p, r, 1)` replaces exactly the leftmost occurrence and keeps the rest |
| Text.CharAbsent | main.py:73-74 | text lacking one of the pattern's characters does not contain the pattern |
| Header.MatchAt | main.py:42 | a match found at a position starts with `"""Symbol:`, its symbol starts after the whitespace run that follows, is a non-empty run of non-whitespace, and is followed by a valid rest of the header |
| Header.SearchFrom | main.py:42 | a match found is the one at the leftmost position from which the pattern matches, with non-empty symbol bounds inside the text; when the search finds nothing, the pattern matches at no position |
| Header.GetSymbolAndSide | main.py:41-45 | a symbol found is a non-empty run of non-whitespace; without a symbol the flag is `False` |
| Header.HeaderParsed | main.py:42-44 | code holding `"""Symbol: tok Single-side: True/False"""` with no `"` before it yields `(tok, flag)` |
| Header.CanonicalMatchAt | main.py:42 | at the canonical header the pattern matches with the symbol's exact bounds, the flag, and the header's end |
| Header.GetSymbolAndSideSound | main.py:42-44 | a returned symbol and flag come from a substring with the header's shape: the labels, whitespace runs, the symbol, and `True` or `False` matching the flag |
| Header.MatchAtSound | main.py:42 | every match found at a position spans text of the header's shape |
| Header.SearchSound | main.py:42 | a match found by the search from a position spans text of the header's shape at or after that position |
| Header.NoOpeningNoMatch | main.py:42 | code without `"""Symbol:` has no match from any position |
| Header.FirstHeader | main.py:42-45 | a header is reported exactly when the pattern matches somewhere, and the symbol and flag reported are those of the match at the first position where it matches |
| Header.NoHeader | main.py:42-45 | code without `"""Symbol:` gives `(None, False)` |
| Rules.Get | main.py:60 | a lookup fails exactly when the key is absent |
| Rules.GetOr | main.py:60 | `d.get(k, default)` is the default for an absent key and the value stored under the key otherwise |
| Rules.GetFound | main.py:60 | a value found for a key is stored under that key |
| Rules.Put | main.py:34 | after `d[k] = v`, `k` reads `v`; a new key is appended at the end |
| Rules.PutGet | main.py:34-39 | after `d[k] = v`, `k` reads `v` and every other key reads as before; the key order is kept, with `k` appended only when new |
| Rules.PutKeys | main.py:34-39 | the keys after `d[k] = v` are the old keys in order, with `k` appended only when new |
| Rules.PutDistinct | main.py:34-39 | assignment keeps the keys distinct |
| Rules.Read | main.py:28-36 | a unit is registered under its stem with its callable; a symbol read is a non-whitespace run; no symbol means the flag is `False` |
| Rules.Register | main.py:34-39 | after registering a unit its stem reads its callable; with a header the symbol reads the stem and the stem's flag reads the header's flag; without one the symbol and flag tables are unchanged |
| Rules.LoadEntries | main.py:26-39 | after loading a sequence of units, every unit's stem is registered |
| Rules.StemsKept | main.py:26-34 | registering one more unit keeps every stem loaded before and adds its own |
| Rules.LoadNext | main.py:26-39 | loading one more unit is registering it on top of the units loaded before |
| Rules.LoadFolder | main.py:19-39 | a missing folder changes nothing; otherwise every unit's stem is registered; the tables stay free of duplicate keys. The units are registered in listing order, as Rules.LoadNext states |
| Rules.RegisterWellFormed | main.py:34-39 | registering a unit keeps the three dictionaries free of duplicate keys |
| Rules.LoadWellFormed | main.py:26-39 | loading any sequence of units keeps the dictionaries free of duplicate keys |
| Rules.RegisterStem | main.py:34 | after registering, the stem maps to the unit's callable and every other name is unchanged |
| Rules.RegisterHeader | main.py:36-39 | a unit whose code holds the canonical header `"""Symbol: tok Single-side: True/False"""`, with single spaces and no `"` before it, maps its symbol to its stem and records its flag under the stem |
| Rules.RegisterOtherSymbol | main.py:37-38 | registering a unit leaves every symbol other than its own reading as before |
| Rules.RegisterNoHeader | main.py:37 | a unit without a header leaves the symbol and flag tables alone |
| Rules.RegisterSymbolNeedsHeader | main.py:37-39 | the symbol and flag tables change only at the unit's own symbol and stem, and only when a header was read |
| Rules.LastStemWins | main.py:26-34 | of units sharing a stem, the last one loaded keeps the name |
| Rules.UnusedStemKept | main.py:26-34 | a name no unit uses keeps its earlier callable |
| Rules.LastSymbolWins | main.py:26-39 | of units declaring the same symbol, the last one loaded owns it |
| Rules.UnusedSymbolKept | main.py:26-39 | a symbol no unit declares keeps its earlier rule |
| Rules.LoadSingle | main.py:26-39 | a folder with one unit registers that unit alone |
| Rules.SeedOne | main.py:55-56 | one seeding step keeps the old table as a prefix, leaves the built-in's name present, and keeps the keys distinct |
| Rules.SeedDefaults | main.py:54-56 | seeding keeps the old table as a prefix and keeps the keys distinct |
| Rules.DefaultsPresent | main.py:54-56 | after seeding every built-in name is present, and a name that was free holds its built-in |
| Rules.DefaultNames | main.py:48-53 | the built-in rules are bold, italic, underline and strikethrough, in that order |
| Rules.DefaultsDistinct | main.py:48-53 | the built-in names are distinct |
| Rules.SeedOneGet | main.py:55-56 | one seeding step gives the built-in's name its built-in only when the name was free; every other name reads as before |
| Rules.SeedKeeps | main.py:54-56 | seeding keeps every existing name with its callable, and a name present afterwards was present before or is built in |
| Rules.SeedPresent | main.py:54-56 | after seeding every built-in name is present, and a free name holds its built-in |
| Rules.SeedFree | main.py:54-56 | a name that is neither registered nor built in stays absent |
| Rules.DefaultsSeeded | main.py:47-56 | after `load_default_syntax` all four built-ins are present; a unit's own rule under a built-in name is kept; nothing else is added; the old entries stay first |
| Rules.SeedFresh | main.py:54-56 | seeding a table that holds none of the built-in names appends all four in order |
| Rules.InitialNoFolder | main.py:11-16 | with no `mod` folder the registry holds exactly the four built-ins, with no symbols or flags |
| Rules.Initial | main.py:11-16 | the new registry is free of duplicate keys, holds every built-in name, and has the symbol and flag tables of the folder's units |
| Rewrite.RewriteSymbol | main.py:69-74 | a symbol that does not occur changes nothing; a single-sided one grows the text by the count of occurrences times the length difference between `[name]` and the symbol |
| Rewrite.RewriteAll | main.py:68-75 | text holding none of the registered symbols comes back unchanged |
| Rewrite.SingleSideRewrite | main.py:70-71 | a single-sided symbol is replaced by `[name]` at every occurrence: the pieces between occurrences are kept, one more piece than occurrences, with the matching length |
| Rewrite.TwoSidedRewrite | main.py:72-74 | for a text `a + sym + b + sym + c` with no `sym` in `a`, and none in `a + [name] + b` short of the second one, the first `sym` becomes `[name]` and the second `[/name]`; any later occurrence is left as it is |
| Rewrite.OneOccurrenceRewrite | main.py:72-74 | a lone two-sided symbol becomes `[name]` with no closing tag |
| Expand.ExpandRule | main.py:59-65 | a rule leaves text without `[` unchanged; it raises `TypeError` exactly when a callable of the wrong kind meets a match: a single-sided rule whose callable needs an argument and a `[name]` in the text, or a two-sided rule whose callable takes none and a `[name]…[/name]` span |
| Expand.NoBracketNoTag | main.py:61 | text without `[` holds no `[name]` |
| Expand.ExpandAll | main.py:58-66 | text without `[` comes out of the tag pass unchanged, whatever the rules |
| Expand.PreviewText | main.py:77-79 | text holding no registered symbol and no `[` previews as itself |
| Expand.SubSpansPrefix | main.py:64-65 | text in which no `[name]` starts is copied through by the span substitution |
| Expand.SubSpansNoOpen | main.py:64-65 | without `[name]` the span substitution is the identity |
| Expand.FirstClose | main.py:64 | the non-greedy span ends at the first `[/name]` |
| Expand.SpanFirst | main.py:64-65 | a leading `[name]c[/name]` is replaced by `f(c)` and the scan continues after it |
| Expand.SpanAt | main.py:64-65 | the leftmost span is replaced by `f(c)`, with the text before it kept |
| Expand.TwoSidedExpand | main.py:63-65 | `[name]c[/name]` expands to the rule's transform of `c` for a rule without a flag |
| Expand.SingleSideExpand | main.py:60-62 | a single-sided rule replaces every `[name]` by its callable's value; the text is cut at the tags and joined with that value |
| Expand.StandaloneTag | main.py:60-62 | a lone `[name]` becomes the callable's value |
| Expand.NoBracketRest | main.py:59-66 | once no `[` is left, the later rules change nothing |
| Expand.TypeErrorStops | main.py:59-66 | once a rule raises `TypeError`, the pass raises it |
| Previewer.Previewer.constructor | main.py:11-16 | the new previewer's tables are the folder's units followed by the built-ins, with no duplicate keys |
| Previewer.Previewer.LoadCustomSyntax | main.py:19-39 | the tables become the old ones with the folder's units registered in order; a missing folder changes nothing |
| Previewer.Previewer.LoadUnit | main.py:27-39 | one file: the new tables are the old ones with that unit registered (callable under its stem; symbol and flag when the coding-line-prefixed code has a header); the tables stay dictionaries |
| Previewer.Previewer.LoadDefaultSyntax | main.py:47-56 | the rule table becomes the seeded one; the symbol and flag tables are unchanged |
| Previewer.Previewer.ParseSymbolSyntax | main.py:68-75 | the result is the symbol pass over the current tables |
| Previewer.Previewer.ParseCustomSyntax | main.py:58-66 | the result is the tag pass over the current tables, or `TypeError` |
| Previewer.Previewer.Preview | main.py:77-79 | the result is the tag pass applied to the symbol pass |
| PyInt.ParseInt | mod/caesar_cipher.py:14-17 | text without a digit raises `ValueError` |
| PyInt.ParseShow | mod/caesar_cipher.py:14 | `int(str(n)) == n` for every integer |
| PyInt.ParseTrimmed | mod/caesar_cipher.py:14 | whitespace that `int()` skips (the space, `\t` to `\r`, and non-ASCII `str.isspace` characters) around the number does not change what `int()` reads |
| PyInt.ParseTwo | mod/caesar_cipher.py:14 | `int("2") == 2` |
| PyInt.ParsePadded | mod/caesar_cipher.py:14 | `int(str(n))` is `n` with any whitespace that `int()` skips before and after the digits |
| PyInt.GroupedDigits | mod/caesar_cipher.py:14 | an underscore between two runs of digits is ignored: `int(a + "_" + b) == int(a + b)`, the value of the digits |
| PyInt.ParseDoubleUnderscore | mod/caesar_cipher.py:14-17 | `int("1__0")` raises `ValueError` |
| PyInt.ParseFileSeparator | mod/caesar_cipher.py:14-17 | `int("\x1c2")` raises `ValueError`: U+001C, though `str.isspace` accepts it, is not skipped |
| PyInt.ParseLetter | mod/caesar_cipher.py:14-17 | `int("x")` raises `ValueError` |
| Caesar.SliceBound | mod/caesar_cipher.py:6 | a slice bound from 0 to n is kept, one from -n to -1 counts from the end, and bounds outside are clamped to 0 or n |
| Caesar.Upper | mod/caesar_cipher.py:7 | upper-casing the alphabet keeps its length |
| Caesar.UpperAt | mod/caesar_cipher.py:7 | upper-casing turns the lower-case letter at each place into the upper-case letter of the same rank |
| Caesar.ShiftedAlphabet | mod/caesar_cipher.py:5-6 | the shifted alphabet has 26 letters, with the letter `(i + m) mod 26` at place `i`, where `m` is the slice bound |
| Caesar.MakeTrans | mod/caesar_cipher.py:7 | the table's keys are exactly the characters of the first string |
| Caesar.Table | mod/caesar_cipher.py:5-7 | the table's keys are exactly the ASCII letters |
| Caesar.MakeTransAt | mod/caesar_cipher.py:7 | a key maps to the character at its last place in the second string |
| Caesar.Translate | mod/caesar_cipher.py:8 | translation keeps the length; a character in the table becomes its image, and one missing from the table is kept |
| Caesar.TableLower | mod/caesar_cipher.py:5-7 | each lower-case letter is in the table and maps to its rotation by the slice bound |
| Caesar.TableUpper | mod/caesar_cipher.py:5-7 | each upper-case letter is in the table and maps to its rotation by the slice bound |
| Caesar.Rotate | mod/caesar_cipher.py:5-7 | a rotation keeps lower-case letters lower-case and upper-case letters upper-case |
| Caesar.CaesarShift | mod/caesar_cipher.py:4-8 | the ciphertext has the length of the text, and each character is rotated by the bound at which the alphabet is cut |
| Caesar.Rotation | mod/caesar_cipher.py:5-8 | for -26 ≤ k ≤ 26, a letter becomes `'a' + (c - 'a' + k) mod 26` (or the same within `A`–`Z`), keeping its case |
| Caesar.Identity | mod/caesar_cipher.py:6 | shift 0, and every shift ≥ 26 or ≤ -26, leaves the text unchanged |
| Caesar.Inverse | mod/caesar_cipher.py:4-8 | for 0 ≤ k ≤ 26, shift k followed by shift 26 - k gives the text back |
| Caesar.InverseNegated | mod/caesar_cipher.py:4-8 | for -26 ≤ k ≤ 26, shift k followed by shift -k gives the text back |
| Caesar.RotateBack | mod/caesar_cipher.py:5-7 | rotations whose amounts sum to a multiple of 26 undo each other |
| Caesar.SplitAtBar | mod/caesar_cipher.py:11 | text with one `|` splits into the parts before and after it |
| Caesar.ExplicitShift | mod/caesar_cipher.py:11-15 | with one `|` and an integer before it, only the part after `|` is shifted, by that integer |
| Caesar.BadShift | mod/caesar_cipher.py:11-17 | with one `|` and no integer before it, the result is the error text |
| Caesar.CaesarCipher | mod/caesar_cipher.py:10-19 | unless the text splits at `\|` into exactly two parts, the whole text is shifted by 3 |
| Caesar.ShiftTwoExample | mod/caesar_cipher.py:10-15 | `caesar_cipher("2\|abc") == "cde"` |
| Caesar.AbcByTwo | mod/caesar_cipher.py:4-8 | `_caesar_cipher("abc", 2) == "cde"` |
| Caesar.DefaultExample | mod/caesar_cipher.py:18-19 | `caesar_cipher("xyz") == "abc"` |
| Caesar.XyzByThree | mod/caesar_cipher.py:4-8 | `_caesar_cipher("xyz", 3) == "abc"` |
| Scenario.CaesarEntry | mod/caesar_cipher.py:1 | the Caesar unit's header reads as symbol `+*`, two-sided |
| Scenario.CaesarLoaded | main.py:26-39 | loading the Caesar unit alone gives one rule, the symbol `+*`, and the flag `False` |
| Scenario.CaesarRegistry | main.py:11-16 | with the Caesar unit alone, the registry is that rule followed by the four built-ins, with `+*` mapped to it |
| Scenario.CaesarSymbols | main.py:68-75 | the symbol pass turns `+*2\|abc+*` into `[caesar_cipher]2\|abc[/caesar_cipher]` |
| Scenario.CaesarTags | main.py:58-66 | the tag pass turns that into `cde` |
| Scenario.CaesarPreview | main.py:77-79 | `preview("+*2\|abc+*")`, before the Markdown step, is `cde` |

## Left out

- The window, the editor, file import/export and drag-and-drop (`create_gui` and what follows). These are user-interface code and I/O.
- The Markdown conversion in `preview` (main.py:80) is an external library. `Previewer.Previewer.Preview` returns the text before that step: the tag pass over the symbol pass, or `TypeError`.
- The file system in `load_custom_syntax` is not modelled:
  - Creating the `mod` folder and showing the message box are left out. A missing folder is `None`, and no rules are loaded for it.
  - Listing the folder, the `.py` filter, `splitext` and reading each file are left out. The folder is given as the sequence of its units in listing order, each with its stem and its code.
- Running a unit's code with `exec` and looking its function up in `globals()` (main.py:33-34) are not modelled, because they execute foreign code. Each unit carries the callable its code defines.
  - A unit whose code raises stops the load in Python. That case is not modelled.
  - The lookup reads `globals()[stem]`, not a name the unit itself defined. A stem that is already a global name (`os`, `re`, `markdown`, `tk`, `messagebox`, `Dict`, `CustomMarkdownPreviewer`, or a name an earlier unit defined) is registered with that object, without error. That case is not modelled.
- All units run in one shared namespace, `globals()` (main.py:33). A later unit that redefines a helper, such as `_caesar_cipher`, changes what an earlier unit's rule does when it is called. The model gives each unit its own fixed callable, so it does not capture this.
- Callables are modelled as taking either exactly one argument or none.
  - A callable that accepts both (with a default argument) is not modelled.
  - Impure callables, such as a random colour that differs at each call, are not modelled.
  - Exceptions raised inside a transform other than the arity `TypeError` are not modelled.
- The other rule units (calculator, countdown, random colour) are not part of this model.
- Expand.TwoSidedExpand, Expand.SpanAt, Expand.SpanFirst, Expand.FirstClose: proved for rule names of ASCII letters, digits and underscores. Such names have no regular-expression metacharacters, so the tag patterns search for the name literally. The functions search literally for any name. A name containing metacharacters, which Python would interpret as a pattern, is not modelled.
- Header.HeaderParsed: proves the returned symbol and flag only for the canonical header with single spaces and no `"` before it. Other spacings are covered by Header.GetSymbolAndSideSound, which states that the result has the header's shape, and Header.FirstHeader, which states that it comes from the leftmost match.
- Rules.RegisterHeader: proves the symbol and flag recorded only for the canonical header with single spaces and no `"` before it, as Header.HeaderParsed does. Other spacings are covered by Header.GetSymbolAndSideSound and Header.FirstHeader, and Rules.Register states the effect of whatever header is read.
- Caesar.Upper: its contract gives only the length. What each lower-case letter becomes is stated by Caesar.UpperAt, one place at a time, because a quantified contract on `Upper` makes the worked examples unfold the whole alphabet and run out of resources.
- PyInt.ParseShow: `int()` is modelled for ASCII digits only.
  - Python also accepts other Unicode decimal digits. Here those give `None`.
  - Python's limit on the number of digits in a conversion is not modelled.
- Whitespace for `\s` and `\S` is the fixed list of code points that `str.isspace` accepts. `int()` skips the same list without U+001C to U+001F, which it rejects. Unicode database versions are not modelled.
