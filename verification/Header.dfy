/** The metadata header of a rule-definition unit, as read by
    `get_symbol_and_side_from_docstring`: a search for the regular expression
    `"""Symbol:\s*(\S+)\s*Single-side:\s*(True|False)\s*"""` in the unit's code.
    The matcher below follows the way a backtracking regex engine treats this
    pattern: the leftmost start position wins, every `\s*` takes the whole run
    of whitespace, and the greedy `\S+` takes the longest run of non-whitespace
    that still lets the rest of the pattern match. */
module Header {
  import opened Text

  const Opening: string := "\"\"\"Symbol:"
  const SideLabel: string := "Single-side:"
  const Quotes: string := "\"\"\""

  function Literal(b: bool): string {
    if b then "True" else "False"
  }

  /** The canonical header `"""Symbol: tok Single-side: True"""` (or `False`). */
  function Canonical(tok: string, b: bool): string {
    Opening + " " + tok + CanonicalTail(b)
  }

  /** What follows the symbol in the canonical header. */
  function CanonicalTail(b: bool): string {
    " " + SideLabel + " " + Literal(b) + Quotes
  }

  ghost predicate Blank(w: string) {
    forall i :: 0 <= i < |w| ==> IsSpace(w[i])
  }

  /** A run of non-whitespace characters, what `\S+` matches. */
  ghost predicate Token(w: string) {
    |w| > 0 && forall i :: 0 <= i < |w| ==> !IsSpace(w[i])
  }

  /** The whitespace runs of a header: after `Symbol:`, after the symbol,
      after `Single-side:` and after the flag. */
  datatype Gaps = Gaps(w1: string, w2: string, w3: string, w4: string)

  /** `h` is exactly the header with symbol `tok`, flag `b` and whitespace runs `g`. */
  ghost predicate HeaderWith(h: string, tok: string, b: bool, g: Gaps) {
    Blank(g.w1) && Blank(g.w2) && Blank(g.w3) && Blank(g.w4) &&
    h == Opening + (g.w1 + (tok + (g.w2 + (SideLabel + (g.w3 + (Literal(b) + (g.w4 + Quotes)))))))
  }

  /** `h` is exactly a text the pattern matches, with symbol `tok` and flag `b`. */
  ghost predicate IsHeader(h: string, tok: string, b: bool) {
    exists g :: HeaderWith(h, tok, b, g)
  }

  /** A match of the pattern: the symbol is `s[start..stop]`, the flag is
      `single`, and the matched text ends at `end`. */
  datatype Match = Match(start: nat, stop: nat, single: bool, end: nat)

  /** End of the run of whitespace starting at `i` (a greedy `\s*`). */
  function SkipSpace(s: string, i: nat): (r: nat)
    requires i <= |s|
    ensures i <= r <= |s|
    decreases |s| - i
  {
    if i < |s| && IsSpace(s[i]) then SkipSpace(s, i + 1) else i
  }

  /** End of the run of non-whitespace starting at `i` (a greedy `\S*`). */
  function SkipNonSpace(s: string, i: nat): (r: nat)
    requires i <= |s|
    ensures i <= r <= |s|
    decreases |s| - i
  {
    if i < |s| && !IsSpace(s[i]) then SkipNonSpace(s, i + 1) else i
  }

  /** The end of the match when `lit\s*"""` matches at `c`. */
  function MatchLiteral(s: string, c: nat, lit: string): Option<nat>
    requires c <= |s|
  {
    if OccursAt(s, lit, c) && OccursAt(s, Quotes, SkipSpace(s, c + |lit|)) then
      Some(SkipSpace(s, c + |lit|) + |Quotes|)
    else None
  }

  /** The flag, and the end of the match, when `\s*Single-side:\s*(True|False)\s*"""`
      matches at `k`. The alternation tries `True` first. */
  function MatchTail(s: string, k: nat): Option<(bool, nat)>
    requires k <= |s|
  {
    var a := SkipSpace(s, k);
    if !OccursAt(s, SideLabel, a) then None
    else
      MatchFlag(s, SkipSpace(s, a + |SideLabel|))
  }

  /** The `(True|False)\s*"""` part of the tail, tried at `c`. */
  function MatchFlag(s: string, c: nat): Option<(bool, nat)>
    requires c <= |s|
  {
    match MatchLiteral(s, c, "True")
    case Some(end) => Some((true, end))
    case None =>
      match MatchLiteral(s, c, "False")
      case Some(end) => Some((false, end))
      case None => None
  }

  /** The greedy `\S+` backing off: the longest token end, from `e` down to
      `q + 1`, after which the rest of the pattern matches. */
  function TokenEnd(s: string, q: nat, e: nat): (r: Option<Match>)
    requires q < e <= |s|
    ensures r.Some? ==> r.value.start == q && q < r.value.stop <= e
    ensures r.Some? ==> MatchTail(s, r.value.stop) == Some((r.value.single, r.value.end))
    decreases e
  {
    match MatchTail(s, e)
    case Some((b, end)) => Some(Match(q, e, b, end))
    case None => if e - 1 > q then TokenEnd(s, q, e - 1) else None
  }

  /** The match of the whole pattern starting exactly at `p`: the opening
      literal, whitespace, a non-empty symbol free of whitespace, and then
      the rest of the header. */
  function MatchAt(s: string, p: nat): (r: Option<Match>)
    requires p <= |s|
    ensures r.Some? ==> OccursAt(s, Opening, p) && r.value.start == SkipSpace(s, p + |Opening|)
    ensures r.Some? ==> r.value.start < r.value.stop <= |s| && MatchTail(s, r.value.stop) == Some((r.value.single, r.value.end))
    ensures r.Some? ==> forall k :: r.value.start <= k < r.value.stop ==> !IsSpace(s[k])
  {
    if !OccursAt(s, Opening, p) then None
    else
      var q := SkipSpace(s, p + |Opening|);
      var e := SkipNonSpace(s, q);
      SkipNonSpaceStops(s, q);
      if e == q then None else TokenEnd(s, q, e)
  }

  /** `re.search`: the match at the leftmost start position at or after `p`. */
  function SearchFrom(s: string, p: nat): (r: Option<Match>)
    requires p <= |s|
    ensures r.Some? ==> r.value.start < r.value.stop <= |s|
    ensures r.Some? ==> exists q :: p <= q <= |s| && MatchAt(s, q) == r && forall j :: p <= j < q ==> MatchAt(s, j).None?
    ensures r.None? ==> forall q :: p <= q <= |s| ==> MatchAt(s, q).None?
    decreases |s| - p
  {
    match MatchAt(s, p)
    case Some(m) => Some(m)
    case None => if p == |s| then None else SearchFrom(s, p + 1)
  }

  /** `get_symbol_and_side_from_docstring(code)`: the symbol and whether the rule
      is single-sided, or `(None, False)` when the header is absent. */
  function GetSymbolAndSide(code: string): (r: (Option<string>, bool))
    ensures r.0.Some? ==> Token(r.0.value)
    ensures r.0.None? ==> !r.1
  {
    match SearchFrom(code, 0)
    case Some(m) =>
      SearchToken(code, 0);
      (Some(code[m.start..m.stop]), m.single)
    case None => (None, false)
  }

  /** `re.search` reports the leftmost match: a header is found exactly when
      the pattern matches at some position, and the symbol and flag
      returned are those of the match at the first such position. */
  lemma FirstHeader(code: string)
    ensures GetSymbolAndSide(code).0.None? <==> forall q :: 0 <= q <= |code| ==> MatchAt(code, q).None?
    ensures GetSymbolAndSide(code).0.Some? ==>
      exists q :: (0 <= q <= |code| && MatchAt(code, q).Some? &&
        GetSymbolAndSide(code) == (Some(code[MatchAt(code, q).value.start..MatchAt(code, q).value.stop]), MatchAt(code, q).value.single) &&
        forall j :: 0 <= j < q ==> MatchAt(code, j).None?)
  {
    if SearchFrom(code, 0).Some? {
      var q :| 0 <= q <= |code| && MatchAt(code, q) == SearchFrom(code, 0) && forall j :: 0 <= j < q ==> MatchAt(code, j).None?;
      assert MatchAt(code, q).Some?;
    }
  }

  /** `SkipSpace` stops at the first character that is not whitespace. */
  lemma {:induction false} SkipSpaceStops(s: string, i: nat)
    requires i <= |s|
    ensures forall k :: i <= k < SkipSpace(s, i) ==> IsSpace(s[k])
    ensures SkipSpace(s, i) < |s| ==> !IsSpace(s[SkipSpace(s, i)])
    decreases |s| - i
  {
    if i < |s| && IsSpace(s[i]) {
      SkipSpaceStops(s, i + 1);
    }
  }

  /** `SkipNonSpace` stops at the first whitespace character. */
  lemma {:induction false} SkipNonSpaceStops(s: string, i: nat)
    requires i <= |s|
    ensures forall k :: i <= k < SkipNonSpace(s, i) ==> !IsSpace(s[k])
    ensures SkipNonSpace(s, i) < |s| ==> IsSpace(s[SkipNonSpace(s, i)])
    decreases |s| - i
  {
    if i < |s| && !IsSpace(s[i]) {
      SkipNonSpaceStops(s, i + 1);
    }
  }

  lemma MatchAtToken(s: string, p: nat)
    requires p <= |s| && MatchAt(s, p).Some?
    ensures MatchAt(s, p).value.stop <= |s| && Token(s[MatchAt(s, p).value.start..MatchAt(s, p).value.stop])
  {
    var m := MatchAt(s, p).value;
    var q, k := m.start, m.stop;
    forall i | 0 <= i < k - q ensures !IsSpace(s[q..k][i]) {
      assert s[q..k][i] == s[q + i];
    }
  }

  lemma {:induction false} SearchToken(s: string, p: nat)
    requires p <= |s| && SearchFrom(s, p).Some?
    ensures Token(s[SearchFrom(s, p).value.start..SearchFrom(s, p).value.stop])
    decreases |s| - p
  {
    if MatchAt(s, p).Some? {
      MatchAtToken(s, p);
    } else {
      SearchToken(s, p + 1);
    }
  }

  // Parsing the canonical header.

  lemma SkipOneSpace(s: string, i: nat)
    requires i < |s| && IsSpace(s[i]) && (i + 1 < |s| ==> !IsSpace(s[i + 1]))
    ensures SkipSpace(s, i) == i + 1
  {
  }

  lemma SkipNoSpace(s: string, i: nat)
    requires i < |s| && !IsSpace(s[i])
    ensures SkipSpace(s, i) == i
  {
  }

  lemma {:induction false} SkipToken(s: string, q: nat, tok: string, i: nat)
    requires Token(tok) && OccursAt(s, tok, q) && q + |tok| < |s| && IsSpace(s[q + |tok|])
    requires q <= i <= q + |tok|
    ensures SkipNonSpace(s, i) == q + |tok|
    decreases q + |tok| - i
  {
    if i < q + |tok| {
      assert s[i] == s[q..q + |tok|][i - q];
      SkipToken(s, q, tok, i + 1);
    }
  }

  lemma OccursMiddle(x: string, y: string, z: string)
    ensures OccursAt(x + y + z, y, |x|)
  {
    assert (x + y + z)[|x|..|x| + |y|] == y;
  }

  lemma SliceOf(s: string, t: string, e: nat, i: nat, j: nat)
    requires OccursAt(s, t, e) && i <= j <= |t|
    ensures s[e + i..e + j] == t[i..j]
  {
    assert s[e..e + |t|] == t;
    forall k | 0 <= k < j - i ensures s[e + i..e + j][k] == t[i..j][k] {
      assert s[e + i + k] == s[e..e + |t|][i + k];
    }
  }

  /** No match can start before position `p`, so the search finds the match at `p`. */
  lemma {:induction false} SearchSkips(s: string, i: nat, p: nat)
    requires i <= p <= |s|
    requires forall j :: i <= j < p ==> MatchAt(s, j).None?
    ensures SearchFrom(s, i) == SearchFrom(s, p)
    decreases p - i
  {
    if i < p {
      SearchSkips(s, i + 1, p);
    }
  }

  lemma MatchLiteralWhen(s: string, c: nat, lit: string, d: nat)
    requires c + |lit| <= |s| && OccursAt(s, lit, c)
    requires SkipSpace(s, c + |lit|) == d && OccursAt(s, Quotes, d)
    ensures MatchLiteral(s, c, lit) == Some(d + |Quotes|)
  {
  }

  lemma MatchTailWhen(s: string, k: nat, a: nat, c: nat, d: nat, b: bool)
    requires k <= |s| && SkipSpace(s, k) == a && OccursAt(s, SideLabel, a)
    requires SkipSpace(s, a + |SideLabel|) == c && OccursAt(s, Literal(b), c)
    requires SkipSpace(s, c + |Literal(b)|) == d && OccursAt(s, Quotes, d)
    ensures MatchTail(s, k) == Some((b, d + |Quotes|))
  {
    MatchFlagWhen(s, c, d, b);
  }

  lemma MatchFlagWhen(s: string, c: nat, d: nat, b: bool)
    requires c + |Literal(b)| <= |s| && OccursAt(s, Literal(b), c)
    requires SkipSpace(s, c + |Literal(b)|) == d && OccursAt(s, Quotes, d)
    ensures MatchFlag(s, c) == Some((b, d + |Quotes|))
  {
    if b {
      MatchLiteralWhen(s, c, "True", d);
    } else {
      MatchLiteralWhen(s, c, "False", d);
      FalseNotTrue(s, c);
    }
  }

  lemma FalseNotTrue(s: string, c: nat)
    requires OccursAt(s, "False", c)
    ensures MatchLiteral(s, c, "True") == None
  {
    assert s[c] == s[c..c + 5][0] == 'F';
    if c + 4 <= |s| {
      assert s[c..c + 4][0] == 'F';
    }
  }

  lemma CanonicalTailChars(s: string, e: nat, b: bool)
    requires OccursAt(s, CanonicalTail(b), e)
    ensures s[e] == ' ' && s[e + 1] == 'S' && s[e + 13] == ' ' && !IsSpace(s[e + 14])
    ensures s[e + 14 + |Literal(b)|] == '"'
  {
    var t := CanonicalTail(b);
    assert s[e..e + |t|] == t;
    assert s[e] == t[0] && s[e + 1] == t[1] && s[e + 13] == t[13] && s[e + 14] == t[14];
    assert s[e + 14 + |Literal(b)|] == t[14 + |Literal(b)|];
  }

  lemma CanonicalTailPieces(s: string, e: nat, b: bool)
    requires OccursAt(s, CanonicalTail(b), e)
    ensures OccursAt(s, SideLabel, e + 1) && OccursAt(s, Literal(b), e + 14)
    ensures OccursAt(s, Quotes, e + 14 + |Literal(b)|)
  {
    FivePieces(s, e, " ", SideLabel, " ", Literal(b), Quotes);
  }

  /** Where the second, fourth and fifth parts of `v + w + x + y + z` sit. */
  lemma FivePieces(s: string, e: nat, v: string, w: string, x: string, y: string, z: string)
    requires OccursAt(s, v + w + x + y + z, e)
    ensures OccursAt(s, w, e + |v|) && OccursAt(s, y, e + |v| + |w| + |x|)
    ensures OccursAt(s, z, e + |v| + |w| + |x| + |y|)
  {
    var t := v + w + x + y + z;
    var i, j, k := |v|, |v| + |w| + |x|, |v| + |w| + |x| + |y|;
    assert t[i..i + |w|] == w;
    assert t[j..j + |y|] == y;
    assert t[k..] == z;
    SliceOf(s, t, e, i, i + |w|);
    SliceOf(s, t, e, j, j + |y|);
    SliceOf(s, t, e, k, |t|);
  }

  lemma CanonicalTailMatches(s: string, e: nat, b: bool)
    requires OccursAt(s, CanonicalTail(b), e)
    ensures MatchTail(s, e) == Some((b, e + |CanonicalTail(b)|))
  {
    var n := |Literal(b)|;
    CanonicalTailChars(s, e, b);
    CanonicalTailPieces(s, e, b);
    SkipOneSpace(s, e);
    SkipOneSpace(s, e + 13);
    SkipNoSpace(s, e + 14 + n);
    MatchTailWhen(s, e, e + 1, e + 14, e + 14 + n, b);
  }

  lemma TokenEndFirst(s: string, q: nat, e: nat, b: bool, end: nat)
    requires q < e <= |s| && MatchTail(s, e) == Some((b, end))
    ensures TokenEnd(s, q, e) == Some(Match(q, e, b, end))
  {
  }

  lemma MatchAtWhen(s: string, p: nat, q: nat, e: nat, m: Match)
    requires p <= |s| && OccursAt(s, Opening, p)
    requires SkipSpace(s, p + |Opening|) == q && SkipNonSpace(s, q) == e && q < e
    requires TokenEnd(s, q, e) == Some(m)
    ensures MatchAt(s, p) == Some(m)
  {
  }

  lemma CanonicalPieces(s: string, p: nat, tok: string, b: bool)
    requires OccursAt(s, Canonical(tok, b), p)
    ensures OccursAt(s, Opening, p) && OccursAt(s, " ", p + 10)
    ensures OccursAt(s, tok, p + 11) && OccursAt(s, CanonicalTail(b), p + 11 + |tok|)
    ensures |Canonical(tok, b)| == 11 + |tok| + |CanonicalTail(b)|
  {
    FourPieces(s, p, Opening, " ", tok, CanonicalTail(b));
  }

  /** Where each part of `v + w + x + y` sits. */
  lemma FourPieces(s: string, e: nat, v: string, w: string, x: string, y: string)
    requires OccursAt(s, v + w + x + y, e)
    ensures OccursAt(s, v, e) && OccursAt(s, w, e + |v|)
    ensures OccursAt(s, x, e + |v| + |w|) && OccursAt(s, y, e + |v| + |w| + |x|)
  {
    var t := v + w + x + y;
    var i, j, k := |v|, |v| + |w|, |v| + |w| + |x|;
    ConcatSlices(v, w, x, y);
    SliceOf(s, t, e, 0, i);
    SliceOf(s, t, e, i, j);
    SliceOf(s, t, e, j, k);
    SliceOf(s, t, e, k, |t|);
  }

  lemma ConcatSlices<T>(v: seq<T>, w: seq<T>, x: seq<T>, y: seq<T>)
    ensures (v + w + x + y)[..|v|] == v && (v + w + x + y)[|v|..|v| + |w|] == w
    ensures (v + w + x + y)[|v| + |w|..|v| + |w| + |x|] == x && (v + w + x + y)[|v| + |w| + |x|..] == y
  {
  }

  /** The pattern matches the canonical header, given piece by piece. */
  lemma CanonicalMatchAt(s: string, p: nat, tok: string, b: bool)
    requires Token(tok) && OccursAt(s, Opening, p) && p + 10 < |s| && s[p + 10] == ' '
    requires OccursAt(s, tok, p + 11) && OccursAt(s, CanonicalTail(b), p + 11 + |tok|)
    ensures MatchAt(s, p) == Some(Match(p + 11, p + 11 + |tok|, b, p + 11 + |tok| + |CanonicalTail(b)|))
  {
    var q := p + 11;
    var e := q + |tok|;
    assert s[q] == s[q..e][0] == tok[0];
    CanonicalTailChars(s, e, b);
    SkipOneSpace(s, p + 10);
    SkipToken(s, q, tok, q);
    CanonicalTokenEnd(s, q, e, b);
    MatchAtWhen(s, p, q, e, Match(q, e, b, e + |CanonicalTail(b)|));
  }

  lemma CanonicalTokenEnd(s: string, q: nat, e: nat, b: bool)
    requires q < e && OccursAt(s, CanonicalTail(b), e)
    ensures TokenEnd(s, q, e) == Some(Match(q, e, b, e + |CanonicalTail(b)|))
  {
    CanonicalTailMatches(s, e, b);
    TokenEndFirst(s, q, e, b, e + |CanonicalTail(b)|);
  }

  lemma NoMatchBefore(s: string, p: nat)
    requires p <= |s| && '"' !in s[..p]
    ensures forall j :: 0 <= j < p ==> MatchAt(s, j).None?
  {
    forall j | 0 <= j < p ensures MatchAt(s, j).None? {
      assert s[j] == s[..p][j];
      if j + |Opening| <= |s| {
        assert s[j..j + |Opening|][0] == s[j];
      }
    }
  }

  /** With no double quote before `p`, the search finds the match at `p`. */
  lemma SearchFinds(s: string, p: nat, m: Match)
    requires p <= |s| && '"' !in s[..p] && MatchAt(s, p) == Some(m)
    ensures SearchFrom(s, 0) == Some(m)
  {
    NoMatchBefore(s, p);
    SearchSkips(s, 0, p);
  }

  lemma GetFromSearch(code: string, m: Match)
    requires SearchFrom(code, 0) == Some(m)
    ensures GetSymbolAndSide(code) == (Some(code[m.start..m.stop]), m.single)
  {
  }

  lemma HeaderAt(code: string, p: nat, tok: string, b: bool)
    requires p <= |code| && '"' !in code[..p]
    requires Token(tok) && OccursAt(code, Opening, p) && p + 10 < |code| && code[p + 10] == ' '
    requires OccursAt(code, tok, p + 11) && OccursAt(code, CanonicalTail(b), p + 11 + |tok|)
    ensures GetSymbolAndSide(code) == (Some(tok), b)
  {
    var m := Match(p + 11, p + 11 + |tok|, b, p + 11 + |tok| + |CanonicalTail(b)|);
    CanonicalMatchAt(code, p, tok, b);
    FoundAt(code, p, m);
    assert code[m.start..m.stop] == tok;
  }

  lemma FoundAt(code: string, p: nat, m: Match)
    requires p <= |code| && '"' !in code[..p] && MatchAt(code, p) == Some(m)
    ensures m.start <= m.stop <= |code| && GetSymbolAndSide(code) == (Some(code[m.start..m.stop]), m.single)
  {
    SearchFinds(code, p, m);
    GetFromSearch(code, m);
  }

  /** The canonical header, after text without a double quote (such as the
      coding line the loader puts in front), is parsed back to its symbol and flag. */
  lemma HeaderParsed(pre: string, tok: string, b: bool, rest: string)
    requires '"' !in pre
    requires Token(tok)
    ensures GetSymbolAndSide(pre + Canonical(tok, b) + rest) == (Some(tok), b)
  {
    var code := pre + Canonical(tok, b) + rest;
    CanonicalIn(pre, tok, b, rest);
    HeaderAt(code, |pre|, tok, b);
  }

  /** Where the pieces of a canonical header sit in the text around it. */
  lemma CanonicalIn(pre: string, tok: string, b: bool, rest: string)
    ensures var code := pre + Canonical(tok, b) + rest;
      code[..|pre|] == pre &&
      OccursAt(code, Opening, |pre|) && |pre| + 10 < |code| && code[|pre| + 10] == ' ' &&
      OccursAt(code, tok, |pre| + 11) && OccursAt(code, CanonicalTail(b), |pre| + 11 + |tok|)
  {
    var code := pre + Canonical(tok, b) + rest;
    OccursMiddle(pre, Canonical(tok, b), rest);
    CanonicalPieces(code, |pre|, tok, b);
    assert code[|pre| + 10] == code[|pre| + 10..|pre| + 11][0];
  }

  // Soundness: what is accepted has the header's shape.

  lemma BlankRun(s: string, i: nat)
    requires i <= |s|
    ensures Blank(s[i..SkipSpace(s, i)])
  {
    var r := SkipSpace(s, i);
    SkipSpaceStops(s, i);
    forall m | 0 <= m < r - i ensures IsSpace(s[i..r][m]) {
      assert s[i..r][m] == s[i + m];
    }
  }

  lemma SliceSplit(s: string, i: nat, j: nat, k: nat)
    requires i <= j <= k <= |s|
    ensures s[i..k] == s[i..j] + s[j..k]
  {
  }

  /** The text from `k` to `end` is cut at the given positions into the pieces
      the pattern's tail names. */
  lemma TailPieces(s: string, k: nat, a: nat, c: nat, d: nat, end: nat, lit: string)
    requires k <= a && OccursAt(s, SideLabel, a) && a + |SideLabel| <= c
    requires OccursAt(s, lit, c) && c + |lit| <= d && OccursAt(s, Quotes, d) && end == d + |Quotes|
    ensures s[k..end] == s[k..a] + (SideLabel + (s[a + |SideLabel|..c] + (lit + (s[c + |lit|..d] + Quotes))))
  {
    var w2, w3, w4 := s[k..a], s[a + |SideLabel|..c], s[c + |lit|..d];
    SliceSplit(s, c + |lit|, d, end);
    assert s[c + |lit|..end] == w4 + Quotes;
    SliceSplit(s, c, c + |lit|, end);
    assert s[c..end] == lit + (w4 + Quotes);
    SliceSplit(s, a + |SideLabel|, c, end);
    assert s[a + |SideLabel|..end] == w3 + (lit + (w4 + Quotes));
    SliceSplit(s, a, a + |SideLabel|, end);
    assert s[a..end] == SideLabel + (w3 + (lit + (w4 + Quotes)));
    SliceSplit(s, k, a, end);
  }

  lemma HeadPieces(s: string, p: nat, q: nat, k: nat, end: nat)
    requires OccursAt(s, Opening, p) && p + |Opening| <= q <= k <= end <= |s|
    ensures s[p..end] == Opening + (s[p + |Opening|..q] + (s[q..k] + s[k..end]))
  {
    SliceSplit(s, q, k, end);
    SliceSplit(s, p + |Opening|, q, end);
    SliceSplit(s, p, p + |Opening|, end);
  }

  lemma MatchTailLiteral(s: string, k: nat, b: bool, end: nat)
    requires k <= |s| && MatchTail(s, k) == Some((b, end))
    ensures OccursAt(s, SideLabel, SkipSpace(s, k))
    ensures MatchLiteral(s, SkipSpace(s, SkipSpace(s, k) + |SideLabel|), Literal(b)) == Some(end)
  {
    MatchFlagLiteral(s, SkipSpace(s, SkipSpace(s, k) + |SideLabel|), b, end);
  }

  lemma MatchFlagLiteral(s: string, c: nat, b: bool, end: nat)
    requires c <= |s| && MatchFlag(s, c) == Some((b, end))
    ensures MatchLiteral(s, c, Literal(b)) == Some(end)
  {
  }

  /** Where the parts of the tail sit when `MatchTail` succeeds at `k`. */
  lemma MatchTailPositions(s: string, k: nat, b: bool, end: nat) returns (a: nat, c: nat, d: nat)
    requires k <= |s| && MatchTail(s, k) == Some((b, end))
    ensures a == SkipSpace(s, k) && OccursAt(s, SideLabel, a)
    ensures c == SkipSpace(s, a + |SideLabel|) && OccursAt(s, Literal(b), c)
    ensures d == SkipSpace(s, c + |Literal(b)|) && OccursAt(s, Quotes, d) && end == d + |Quotes|
  {
    a := SkipSpace(s, k);
    c := SkipSpace(s, a + |SideLabel|);
    MatchTailLiteral(s, k, b, end);
    var lit := Literal(b);
    d := MatchLiteralParts(s, c, lit, end);
  }

  lemma MatchLiteralParts(s: string, c: nat, lit: string, end: nat) returns (d: nat)
    requires c <= |s| && MatchLiteral(s, c, lit) == Some(end)
    ensures OccursAt(s, lit, c) && d == SkipSpace(s, c + |lit|) && OccursAt(s, Quotes, d) && end == d + |Quotes|
  {
    d := SkipSpace(s, c + |lit|);
  }

  lemma ShapeFromPositions(s: string, p: nat, q: nat, k: nat, a: nat, c: nat, d: nat, end: nat, b: bool)
    requires OccursAt(s, Opening, p) && p + |Opening| <= q <= k <= a
    requires OccursAt(s, SideLabel, a) && a + |SideLabel| <= c
    requires OccursAt(s, Literal(b), c) && c + |Literal(b)| <= d && OccursAt(s, Quotes, d) && end == d + |Quotes|
    requires Blank(s[p + |Opening|..q]) && Blank(s[k..a]) && Blank(s[a + |SideLabel|..c]) && Blank(s[c + |Literal(b)|..d])
    ensures IsHeader(s[p..end], s[q..k], b)
  {
    var w1, w2, w3, w4 := s[p + |Opening|..q], s[k..a], s[a + |SideLabel|..c], s[c + |Literal(b)|..d];
    TailPieces(s, k, a, c, d, end, Literal(b));
    HeadPieces(s, p, q, k, end);
    assert HeaderWith(s[p..end], s[q..k], b, Gaps(w1, w2, w3, w4));
  }

  /** The pieces of a match, given the positions where its parts start. */
  lemma ShapeFromRuns(s: string, p: nat, q: nat, k: nat, a: nat, c: nat, d: nat, end: nat, b: bool)
    requires OccursAt(s, Opening, p) && q == SkipSpace(s, p + |Opening|) && q < k <= |s|
    requires a == SkipSpace(s, k) && OccursAt(s, SideLabel, a)
    requires c == SkipSpace(s, a + |SideLabel|) && OccursAt(s, Literal(b), c)
    requires d == SkipSpace(s, c + |Literal(b)|) && OccursAt(s, Quotes, d) && end == d + |Quotes|
    ensures p <= end <= |s| && IsHeader(s[p..end], s[q..k], b)
  {
    BlankRun(s, p + |Opening|);
    BlankRun(s, k);
    BlankRun(s, a + |SideLabel|);
    BlankRun(s, c + |Literal(b)|);
    ShapeFromPositions(s, p, q, k, a, c, d, end, b);
  }


  lemma ShapeOfMatch(s: string, p: nat, m: Match)
    requires OccursAt(s, Opening, p) && m.start == SkipSpace(s, p + |Opening|)
    requires m.start < m.stop <= |s| && MatchTail(s, m.stop) == Some((m.single, m.end))
    ensures p <= m.end <= |s| && IsHeader(s[p..m.end], s[m.start..m.stop], m.single)
  {
    var a, c, d := MatchTailPositions(s, m.stop, m.single, m.end);
    ShapeFromRuns(s, p, m.start, m.stop, a, c, d, m.end, m.single);
  }

  /** Whatever the matcher accepts at `p` is text of the header's shape. */
  lemma MatchAtSound(s: string, p: nat, m: Match)
    requires p <= |s| && MatchAt(s, p) == Some(m)
    ensures p <= m.end <= |s| && IsHeader(s[p..m.end], s[m.start..m.stop], m.single)
  {
    ShapeOfMatch(s, p, m);
  }

  lemma {:induction false} SearchSound(s: string, i: nat)
    requires i <= |s| && SearchFrom(s, i).Some?
    ensures var m := SearchFrom(s, i).value;
      exists p :: i <= p <= m.end <= |s| && IsHeader(s[p..m.end], s[m.start..m.stop], m.single)
    decreases |s| - i
  {
    if MatchAt(s, i).Some? {
      MatchAtSound(s, i, MatchAt(s, i).value);
    } else {
      SearchSound(s, i + 1);
    }
  }

  /** The symbol and flag returned come from a text of the header's shape
      somewhere in the code. */
  lemma GetSymbolAndSideSound(code: string)
    requires GetSymbolAndSide(code).0.Some?
    ensures exists p, end ::
      0 <= p <= end <= |code| && IsHeader(code[p..end], GetSymbolAndSide(code).0.value, GetSymbolAndSide(code).1)
  {
    SearchSound(code, 0);
  }

  lemma {:induction false} NoOpeningNoMatch(code: string, i: nat)
    requires i <= |code| && !Contains(code, Opening)
    ensures SearchFrom(code, i).None?
    decreases |code| - i
  {
    assert !OccursAt(code, Opening, i);
    if i < |code| {
      NoOpeningNoMatch(code, i + 1);
    }
  }

  /** Without the opening `"""Symbol:` there is no header: the result is `(None, false)`. */
  lemma NoHeader(code: string)
    requires !Contains(code, Opening)
    ensures GetSymbolAndSide(code) == (None, false)
  {
    NoOpeningNoMatch(code, 0);
  }
}
