/** The string primitives of Python that the preview engine relies on:
    `str.find`, `str.replace` (all occurrences, or only the first),
    `str.split`, `str.join`, `str.count` and `str.isspace`. Strings are
    sequences of Unicode code points, as they are in Python 3. */
module Text {

  datatype Option<T> = None | Some(value: T)

  /** Python's whitespace: `str.isspace`, which is also what `\s` and `\S`
      use in a `str` regular expression. */
  predicate IsSpace(c: char) {
    if c <= ' ' then
      c == ' ' || '\t' <= c <= '\r' || '\U{1C}' <= c
    else if c < '\U{85}' then
      false
    else
      c == '\U{85}' || c == '\U{A0}' || c == '\U{1680}' || ('\U{2000}' <= c <= '\U{200A}') || c == '\U{2028}'
      || c == '\U{2029}' || c == '\U{202F}' || c == '\U{205F}' || c == '\U{3000}'
  }

  /** `p` occurs in `s` starting at index `i`. */
  predicate OccursAt(s: string, p: string, i: int) {
    0 <= i && i + |p| <= |s| && s[i..i + |p|] == p
  }

  predicate Contains(s: string, p: string) {
    exists i :: 0 <= i <= |s| && OccursAt(s, p, i)
  }

  lemma OccursInSuffix(s: string, p: string, k: nat, j: int)
    requires k <= |s| && 0 <= j
    ensures OccursAt(s[k..], p, j) <==> OccursAt(s, p, k + j)
  {
    if 0 <= j && j + |p| <= |s| - k {
      assert s[k..][j..j + |p|] == s[k + j..k + j + |p|];
    }
  }

  lemma OccursInPrefix(s: string, p: string, k: nat, j: int)
    requires k <= |s| && j + |p| <= k
    ensures OccursAt(s[..k], p, j) <==> OccursAt(s, p, j)
  {
    if 0 <= j {
      assert s[..k][j..j + |p|] == s[j..j + |p|];
    }
  }

  /** The leftmost occurrence of `p` at or after index `i`. */
  function FindFrom(s: string, p: string, i: nat): (r: Option<nat>)
    requires i <= |s|
    ensures r.Some? ==> i <= r.value && OccursAt(s, p, r.value)
    ensures r.Some? ==> forall j :: i <= j < r.value ==> !OccursAt(s, p, j)
    ensures r.None? ==> forall j :: i <= j ==> !OccursAt(s, p, j)
    decreases |s| - i
  {
    if i + |p| > |s| then None
    else if s[i..i + |p|] == p then Some(i)
    else FindFrom(s, p, i + 1)
  }

  /** Python's `s.find(p)`, with `None` for -1. */
  function Find(s: string, p: string): (r: Option<nat>)
    ensures r.Some? ==> OccursAt(s, p, r.value) && forall j :: 0 <= j < r.value ==> !OccursAt(s, p, j)
    ensures r.None? <==> !Contains(s, p)
  {
    FindFrom(s, p, 0)
  }

  /** Python's `s.replace(p, rep, 1)`: only the leftmost occurrence is
      replaced; without one the text comes back as it was. */
  function ReplaceFirst(s: string, p: string, rep: string): (r: string)
    ensures !Contains(s, p) ==> r == s
    ensures Contains(s, p) ==> |r| == |s| - |p| + |rep|
  {
    match Find(s, p)
    case None => s
    case Some(i) => s[..i] + rep + s[i + |p|..]
  }

  /** Python's `s.replace(p, rep)`: occurrences are found left to right,
      each search resuming after the previous occurrence; an empty `p`
      puts `rep` before every character and at the end. */
  function ReplaceAll(s: string, p: string, rep: string): (r: string)
    ensures |p| > 0 ==> |r| == |s| + Count(s, p) * (|rep| - |p|)
    decreases |s|
  {
    if |p| == 0 then
      if s == [] then rep else rep + [s[0]] + ReplaceAll(s[1..], p, rep)
    else if |s| < |p| then s
    else if s[..|p|] == p then
      MulSucc(Count(s[|p|..], p), |rep| - |p|);
      rep + ReplaceAll(s[|p|..], p, rep)
    else [s[0]] + ReplaceAll(s[1..], p, rep)
  }

  lemma MulSucc(c: int, d: int)
    ensures (1 + c) * d == d + c * d
  {
  }

  /** Python's `s.count(p)` for a non-empty `p`: non-overlapping occurrences, left to right. */
  function Count(s: string, p: string): (r: nat)
    requires |p| > 0
    ensures r * |p| <= |s|
    decreases |s|
  {
    if |s| < |p| then 0
    else if s[..|p|] == p then
      MulSucc(Count(s[|p|..], p), |p|);
      1 + Count(s[|p|..], p)
    else Count(s[1..], p)
  }

  /** Python's `s.split(sep)` for a non-empty `sep` (an empty one raises
      ValueError). There is one more piece than there are occurrences:
      each occurrence counted by `str.count` is one cut. */
  function Split(s: string, sep: string): (r: seq<string>)
    requires |sep| > 0
    ensures |r| == Count(s, sep) + 1
    decreases |s|
  {
    if |s| < |sep| then [s]
    else if s[..|sep|] == sep then [[]] + Split(s[|sep|..], sep)
    else
      var rest := Split(s[1..], sep);
      [[s[0]] + rest[0]] + rest[1..]
  }

  /** Python's `sep.join(parts)`: the parts, with one `sep` between each
      two of them. */
  function Join(parts: seq<string>, sep: string): (r: string)
    ensures |parts| == 0 ==> r == []
    ensures |parts| > 0 ==> |r| == TotalLength(parts) + (|parts| - 1) * |sep|
  {
    if |parts| == 0 then []
    else if |parts| == 1 then parts[0]
    else
      MulSucc(|parts| - 2, |sep|);
      parts[0] + sep + Join(parts[1..], sep)
  }

  /** The sum of the lengths of `parts`. */
  function TotalLength(parts: seq<string>): nat {
    if |parts| == 0 then 0 else |parts[0]| + TotalLength(parts[1..])
  }

  lemma JoinConsChar(c: char, x: string, rest: seq<string>, sep: string)
    ensures Join([[c] + x] + rest, sep) == [c] + Join([x] + rest, sep)
  {
    if |rest| > 0 {
      assert ([[c] + x] + rest)[1..] == rest;
      assert ([x] + rest)[1..] == rest;
    }
  }

  lemma JoinConsEmpty(rest: seq<string>, sep: string)
    requires |rest| > 0
    ensures Join([[]] + rest, sep) == sep + Join(rest, sep)
  {
    assert ([[]] + rest)[1..] == rest;
  }

  /** Joining the pieces of a split with the separator gives the text back. */
  lemma {:induction false} SplitJoin(s: string, sep: string)
    requires |sep| > 0
    ensures Join(Split(s, sep), sep) == s
    decreases |s|
  {
    if |s| < |sep| {
    } else if s[..|sep|] == sep {
      SplitJoin(s[|sep|..], sep);
      JoinConsEmpty(Split(s[|sep|..], sep), sep);
      assert s == s[..|sep|] + s[|sep|..];
    } else {
      var rest := Split(s[1..], sep);
      SplitJoin(s[1..], sep);
      JoinConsChar(s[0], rest[0], rest[1..], sep);
      assert [rest[0]] + rest[1..] == rest;
      assert s == [s[0]] + s[1..];
    }
  }

  /** `str.replace` is joining the pieces of the split with the replacement:
      `s.replace(p, rep) == rep.join(s.split(p))`. */
  lemma {:induction false} ReplaceAllIsJoinSplit(s: string, p: string, rep: string)
    requires |p| > 0
    ensures ReplaceAll(s, p, rep) == Join(Split(s, p), rep)
    decreases |s|
  {
    if |s| < |p| {
    } else if s[..|p|] == p {
      ReplaceAllIsJoinSplit(s[|p|..], p, rep);
      JoinConsEmpty(Split(s[|p|..], p), rep);
    } else {
      var rest := Split(s[1..], p);
      ReplaceAllIsJoinSplit(s[1..], p, rep);
      JoinConsChar(s[0], rest[0], rest[1..], rep);
      assert [rest[0]] + rest[1..] == rest;
    }
  }

  /** The first piece of a split is the text up to the first separator. */
  lemma {:induction false} SplitFirstPiece(s: string, sep: string)
    requires |sep| > 0
    ensures Split(s, sep)[0] <= s
    ensures Find(s, sep).Some? ==> Split(s, sep)[0] == s[..Find(s, sep).value]
    ensures Find(s, sep).None? ==> Split(s, sep) == [s]
    decreases |s|
  {
    if |s| < |sep| {
      assert !Contains(s, sep);
    } else if s[..|sep|] == sep {
      assert OccursAt(s, sep, 0);
    } else {
      SplitFirstPiece(s[1..], sep);
      FindCons(s, sep);
      if Find(s[1..], sep).Some? {
        var k := Find(s[1..], sep).value;
        assert s[..k + 1] == [s[0]] + s[1..][..k];
      } else {
        assert [s[0]] + s[1..] == s;
      }
    }
  }

  /** Past a first character where the separator does not start, the
      search finds what it finds in the rest, one place later. */
  lemma FindCons(s: string, sep: string)
    requires |sep| > 0 && |s| >= |sep| && s[..|sep|] != sep
    ensures Find(s[1..], sep).Some? ==> Find(s, sep) == Some(Find(s[1..], sep).value + 1)
    ensures Find(s[1..], sep).None? ==> Find(s, sep).None?
  {
    assert !OccursAt(s, sep, 0);
    if Find(s[1..], sep).Some? {
      var k := Find(s[1..], sep).value;
      OccursInSuffix(s, sep, 1, k);
      forall j | 0 <= j < k + 1 ensures !OccursAt(s, sep, j) {
        if j > 0 { OccursInSuffix(s, sep, 1, j - 1); }
      }
    } else {
      forall i | 0 <= i <= |s| ensures !OccursAt(s, sep, i) {
        if i > 0 { OccursInSuffix(s, sep, 1, i - 1); }
      }
    }
  }

  /** When the leftmost separator sits at index `i`, the split is the text
      before it followed by the split of the text after it. */
  lemma {:induction false} SplitAtFirst(s: string, sep: string, i: nat)
    requires |sep| > 0
    requires Find(s, sep) == Some(i)
    ensures Split(s, sep) == [s[..i]] + Split(s[i + |sep|..], sep)
    decreases |s|
  {
    if i == 0 {
      assert s[..|sep|] == sep;
    } else {
      var t := s[1..];
      FindTail(s, sep, i);
      SplitAtFirst(t, sep, i - 1);
      SplitCons(s, sep, t[..i - 1], Split(t[i - 1 + |sep|..], sep));
      TailSlices(s, i, |sep|);
      ConsCongruent([s[0]] + t[..i - 1], s[..i], Split(t[i - 1 + |sep|..], sep), Split(s[i + |sep|..], sep));
    }
  }

  /** Where the separator does not start, the first character joins the
      first piece of the rest. */
  lemma SplitCons(s: string, sep: string, x: string, rest: seq<string>)
    requires |sep| > 0 && |s| >= |sep| && s[..|sep|] != sep
    requires Split(s[1..], sep) == [x] + rest
    ensures Split(s, sep) == [[s[0]] + x] + rest
  {
    assert ([x] + rest)[1..] == rest;
  }

  lemma ConsCongruent<T>(a: T, b: T, x: seq<T>, y: seq<T>)
    requires a == b && x == y
    ensures [a] + x == [b] + y
  {
  }

  lemma TailSlices<T>(s: seq<T>, i: nat, n: nat)
    requires 0 < i && i + n <= |s|
    ensures [s[0]] + s[1..][..i - 1] == s[..i]
    ensures s[1..][i - 1 + n..] == s[i + n..]
  {
  }

  lemma FindTail(s: string, sep: string, i: nat)
    requires |sep| > 0 && 0 < i && Find(s, sep) == Some(i)
    ensures |s| >= |sep| && s[..|sep|] != sep && Find(s[1..], sep) == Some(i - 1)
  {
    assert !OccursAt(s, sep, 0);
    OccursInSuffix(s, sep, 1, i - 1);
    forall j | 0 <= j < i - 1 ensures !OccursAt(s[1..], sep, j) {
      OccursInSuffix(s, sep, 1, j);
    }
  }

  /** No piece of a split contains the separator. */
  lemma {:induction false} SplitPiecesFree(s: string, sep: string)
    requires |sep| > 0
    ensures forall k :: 0 <= k < |Split(s, sep)| ==> !Contains(Split(s, sep)[k], sep)
    decreases |s|
  {
    var r := Split(s, sep);
    if |s| < |sep| {
      assert !Contains(s, sep);
    } else if s[..|sep|] == sep {
      SplitPiecesFree(s[|sep|..], sep);
      assert !Contains([], sep);
    } else {
      SplitPiecesFree(s[1..], sep);
      SplitFirstPiece(s, sep);
      var first := r[0];
      forall j | 0 <= j <= |first| ensures !OccursAt(first, sep, j) {
        if j + |sep| <= |first| {
          assert first == s[..|first|];
          OccursInPrefix(s, sep, |first|, j);
        }
      }
    }
  }

  /** Text that does not contain the pattern is left alone by `str.replace`. */
  lemma ReplaceAllAbsent(s: string, p: string, rep: string)
    requires |p| > 0 && !Contains(s, p)
    ensures ReplaceAll(s, p, rep) == s
  {
    SplitFirstPiece(s, p);
    ReplaceAllIsJoinSplit(s, p, rep);
  }

  /** `str.replace(p, rep, 1)` puts `rep` in place of the leftmost occurrence. */
  lemma ReplaceFirstAt(a: string, p: string, b: string, rep: string)
    requires |p| > 0 && !Contains(a + p[..|p| - 1], p)
    ensures ReplaceFirst(a + p + b, p, rep) == a + rep + b
  {
    var s := a + p + b;
    assert OccursAt(s, p, |a|);
    var i := Find(s, p).value;
    if i < |a| {
      assert s[i..i + |p|] == (a + p[..|p| - 1])[i..i + |p|];
      assert OccursAt(a + p[..|p| - 1], p, i);
    }
    assert s[..|a|] == a;
    assert s[|a| + |p|..] == b;
  }

  /** A text lacking one of the characters of `p` does not contain `p`. */
  lemma CharAbsent(s: string, p: string, k: nat)
    requires k < |p| && p[k] !in s
    ensures !Contains(s, p)
  {
    forall i | 0 <= i <= |s| ensures !OccursAt(s, p, i) {
      if i + |p| <= |s| {
        assert s[i..i + |p|][k] == s[i + k];
      }
    }
  }
}
