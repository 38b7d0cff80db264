/** Python's `int()` applied to a `str` in base 10, for ASCII digits:
    surrounding whitespace is ignored, a `+` or `-` sign may come first, and
    the digits may be grouped by single underscores (`"1_000"`); leading
    zeros are allowed. Anything else raises `ValueError`, here `None`. */
module PyInt {
  import opened Text

  /** The whitespace `int()` skips around a number. A character beyond
      ASCII counts when `str.isspace` accepts it, since CPython first turns
      such characters into spaces; of the ASCII ones only the space and `\t`
      to `\r` count. So U+001C to U+001F, which `str.isspace` accepts, are
      not skipped and make `int()` raise `ValueError`. */
  predicate IntSpace(c: char) {
    IsSpace(c) && !('\U{1C}' <= c <= '\U{1F}')
  }

  /** The leading whitespace stripped: what is left after it. */
  function StripStart(s: string): (r: string)
    ensures |r| <= |s| && r == s[|s| - |r|..]
    ensures |r| > 0 ==> !IntSpace(r[0])
  {
    if |s| > 0 && IntSpace(s[0]) then StripStart(s[1..]) else s
  }

  /** The trailing whitespace stripped: what is left before it. */
  function StripEnd(s: string): (r: string)
    ensures |r| <= |s| && r == s[..|r|]
    ensures |r| > 0 ==> !IntSpace(r[|r| - 1])
  {
    if |s| > 0 && IntSpace(s[|s| - 1]) then StripEnd(s[..|s| - 1]) else s
  }

  function Strip(s: string): string {
    StripEnd(StripStart(s))
  }

  predicate IsDigit(c: char) {
    '0' <= c <= '9'
  }

  /** Python's digit grouping: digits, with single underscores allowed
      between two digits. */
  predicate WellGrouped(d: string) {
    |d| > 0 && IsDigit(d[0]) && IsDigit(d[|d| - 1]) &&
    forall i :: 0 <= i < |d| ==> IsDigit(d[i]) || (d[i] == '_' && 0 < i < |d| - 1 && IsDigit(d[i - 1]) && IsDigit(d[i + 1]))
  }

  /** The digits of `d`, the underscores dropped. */
  function Digits(d: string): (r: string)
    ensures |r| <= |d|
  {
    if |d| == 0 then []
    else if d[0] == '_' then Digits(d[1..])
    else [d[0]] + Digits(d[1..])
  }

  /** The value of a run of decimal digits. */
  function Value(d: string): nat {
    if |d| == 0 then 0
    else if IsDigit(d[|d| - 1]) then 10 * Value(d[..|d| - 1]) + (d[|d| - 1] as int - '0' as int)
    else 10 * Value(d[..|d| - 1])
  }

  function ParseUnsigned(d: string): Option<nat> {
    if WellGrouped(d) then Some(Value(Digits(d))) else None
  }

  /** `int(s)`, with `None` where Python raises `ValueError`; text with no
      ASCII digit is never an integer. */
  function ParseInt(s: string): (r: Option<int>)
    ensures (forall i :: 0 <= i < |s| ==> !IsDigit(s[i])) ==> r == None
  {
    NoDigitStrip(s);
    ParseSigned(Strip(s))
  }

  /** A stripped text: an optional sign, then grouped digits. */
  function ParseSigned(t: string): Option<int> {
    if |t| > 0 && (t[0] == '-' || t[0] == '+') then
      match ParseUnsigned(t[1..])
      case None => None
      case Some(v) =>
        var n: int := v;
        Some(if t[0] == '-' then -n else n)
    else
      match ParseUnsigned(t)
      case None => None
      case Some(v) => Some(v)
  }

  /** `str(n)`: the decimal form, with a `-` for negative numbers. */
  function ShowNat(n: nat): (r: string)
    ensures |r| > 0 && forall i :: 0 <= i < |r| ==> IsDigit(r[i])
  {
    if n < 10 then [('0' as int + n) as char]
    else ShowNat(n / 10) + [('0' as int + n % 10) as char]
  }

  function ShowInt(n: int): string {
    if n < 0 then "-" + ShowNat(-n) else ShowNat(n)
  }

  lemma {:induction false} ValueOfShow(n: nat)
    ensures Value(ShowNat(n)) == n
  {
    if n >= 10 {
      var s := ShowNat(n);
      ValueOfShow(n / 10);
      assert s[..|s| - 1] == ShowNat(n / 10);
    }
  }

  lemma {:induction false} DigitsOfDigitRun(d: string)
    requires forall i :: 0 <= i < |d| ==> IsDigit(d[i])
    ensures Digits(d) == d
  {
    if |d| > 0 {
      DigitsOfDigitRun(d[1..]);
    }
  }

  /** `int(str(n)) == n`: the decimal form of every integer reads back as
      that integer. */
  lemma ParseShow(n: int)
    ensures ParseInt(ShowInt(n)) == Some(n)
  {
    if n < 0 {
      ParseShowNegative(-n);
    } else {
      ParseShowNat(n);
    }
  }

  lemma ParseShowNat(m: nat)
    ensures ParseInt(ShowNat(m)) == Some(m)
  {
    var s := ShowNat(m);
    ParseFixed(s);
    ParseUnsignedShow(m);
    assert !(s[0] == '-' || s[0] == '+');
  }

  lemma {:induction false} ParseShowNegative(m: nat)
    ensures ParseInt("-" + ShowNat(m)) == Some(-(m as int))
  {
    var d := ShowNat(m);
    var s := "-" + d;
    assert s[0] == '-' && s[1..] == d && s[|s| - 1] == d[|d| - 1];
    ParseFixed(s);
    ParseUnsignedShow(m);
    assert ParseSigned(s) == Some(-(m as int));
  }

  /** A text that starts with a digit or `-` and ends with a digit is
      parsed as it stands. */
  lemma ParseFixed(s: string)
    requires |s| > 0 && (IsDigit(s[0]) || s[0] == '-') && IsDigit(s[|s| - 1])
    ensures ParseInt(s) == ParseSigned(s)
  {
    StripFixed(s);
  }

  lemma ParseUnsignedShow(m: nat)
    ensures ParseUnsigned(ShowNat(m)) == Some(m)
  {
    var d := ShowNat(m);
    assert WellGrouped(d);
    DigitsOfDigitRun(d);
    ValueOfShow(m);
  }

  /** Text that neither starts nor ends with whitespace is its own strip. */
  lemma StripFixed(s: string)
    requires |s| > 0 && (IsDigit(s[0]) || s[0] == '-') && IsDigit(s[|s| - 1])
    ensures Strip(s) == s
  {
    assert !IntSpace(s[0]) && !IntSpace(s[|s| - 1]);
    assert StripStart(s) == s;
  }

  /** Stripping text with no ASCII digit leaves no integer to read. */
  lemma NoDigitStrip(s: string)
    ensures (forall i :: 0 <= i < |s| ==> !IsDigit(s[i])) ==> ParseSigned(Strip(s)) == None
  {
    var u := StripStart(s);
    var t := StripEnd(u);
    if |t| > 0 {
      assert t[0] == u[0] == s[|s| - |u|];
      if |t| > 1 {
        assert t[1] == u[1] == s[|s| - |u| + 1];
      }
    }
  }

  /** Surrounding whitespace is ignored. */
  lemma ParseTrimmed(pre: string, s: string, post: string)
    requires forall i :: 0 <= i < |pre| ==> IntSpace(pre[i])
    requires forall i :: 0 <= i < |post| ==> IntSpace(post[i])
    requires |s| > 0 && !IntSpace(s[0]) && !IntSpace(s[|s| - 1])
    ensures Strip(pre + s + post) == Strip(s)
    ensures ParseInt(pre + s + post) == ParseInt(s)
  {
    StripLeading(pre, s + post);
    assert pre + s + post == pre + (s + post);
    StripTrailing(s, post);
    assert StripStart(s) == s;
    assert StripEnd(s) == s;
  }

  lemma {:induction false} StripLeading(pre: string, s: string)
    requires forall i :: 0 <= i < |pre| ==> IntSpace(pre[i])
    requires |s| > 0 && !IntSpace(s[0])
    ensures StripStart(pre + s) == s
  {
    if |pre| > 0 {
      assert (pre + s)[1..] == pre[1..] + s;
      StripLeading(pre[1..], s);
    }
  }

  lemma {:induction false} StripTrailing(s: string, post: string)
    requires forall i :: 0 <= i < |post| ==> IntSpace(post[i])
    requires |s| > 0 && !IntSpace(s[|s| - 1])
    ensures StripEnd(s + post) == s
  {
    if |post| > 0 {
      assert (s + post)[..|s + post| - 1] == s + post[..|post| - 1];
      StripTrailing(s, post[..|post| - 1]);
    }
  }

  lemma ParseTwo()
    ensures ParseInt("2") == Some(2)
  {
    ParseShow(2);
    assert ShowInt(2) == "2";
  }

  /** `int(str(n))` is `n` whatever whitespace surrounds the digits. */
  lemma ParsePadded(pre: string, n: int, post: string)
    requires forall i :: 0 <= i < |pre| ==> IntSpace(pre[i])
    requires forall i :: 0 <= i < |post| ==> IntSpace(post[i])
    ensures ParseInt(pre + ShowInt(n) + post) == Some(n)
  {
    var s := ShowInt(n);
    assert IsDigit(s[|s| - 1]);
    assert IsDigit(s[0]) || s[0] == '-';
    ParseTrimmed(pre, s, post);
    ParseShow(n);
  }

  /** An underscore between two runs of digits is ignored: the text reads
      as the digits written together. */
  lemma GroupedDigits(a: string, b: string)
    requires |a| > 0 && forall i :: 0 <= i < |a| ==> IsDigit(a[i])
    requires |b| > 0 && forall i :: 0 <= i < |b| ==> IsDigit(b[i])
    ensures ParseInt(a + "_" + b) == ParseInt(a + b) == Some(Value(a + b))
  {
    var s, t := a + "_" + b, a + b;
    GroupedRuns(a, b);
    GroupedValue(a, b);
    ParseFixed(s);
    ParseFixed(t);
    assert ParseUnsigned(s) == ParseUnsigned(t) == Some(Value(t));
  }

  lemma GroupedRuns(a: string, b: string)
    requires |a| > 0 && forall i :: 0 <= i < |a| ==> IsDigit(a[i])
    requires |b| > 0 && forall i :: 0 <= i < |b| ==> IsDigit(b[i])
    ensures WellGrouped(a + "_" + b) && WellGrouped(a + b)
    ensures IsDigit((a + "_" + b)[0]) && IsDigit((a + "_" + b)[|a| + |b|])
    ensures IsDigit((a + b)[0]) && IsDigit((a + b)[|a| + |b| - 1])
  {
    var n := |a|;
    var s, t := a + "_" + b, a + b;
    forall i | 0 <= i < |s|
      ensures IsDigit(s[i]) || (s[i] == '_' && 0 < i < |s| - 1 && IsDigit(s[i - 1]) && IsDigit(s[i + 1]))
    {
      if i < n {
        assert s[i] == a[i];
      } else if i == n {
        assert s[i - 1] == a[n - 1] && s[i + 1] == b[0];
      } else {
        assert s[i] == b[i - n - 1];
      }
    }
    forall i | 0 <= i < |t| ensures IsDigit(t[i]) {
      if i < n {
        assert t[i] == a[i];
      } else {
        assert t[i] == b[i - n];
      }
    }
  }

  lemma {:induction false} GroupedValue(a: string, b: string)
    requires forall i :: 0 <= i < |a| ==> IsDigit(a[i])
    requires forall i :: 0 <= i < |b| ==> IsDigit(b[i])
    ensures Digits(a + "_" + b) == Digits(a + b) == a + b
  {
    DigitsOfDigitRun(a);
    DigitsOfDigitRun(b);
    DigitsAppend(a, b);
    var ub := "_" + b;
    assert ub[0] == '_' && ub[1..] == b;
    assert a + "_" + b == a + ub;
    DigitsAppend(a, ub);
  }

  lemma {:induction false} DigitsAppend(x: string, y: string)
    ensures Digits(x + y) == Digits(x) + Digits(y)
  {
    if |x| == 0 {
      assert x + y == y;
    } else {
      assert (x + y)[0] == x[0] && (x + y)[1..] == x[1..] + y;
      DigitsAppend(x[1..], y);
    }
  }

  lemma ParseDoubleUnderscore()
    ensures ParseInt("1__0") == None
  {
    var s := "1__0";
    StripFixed(s);
    assert !WellGrouped(s) by {
      assert s[1] == '_' && !IsDigit(s[2]);
    }
  }

  /** U+001C, which `str.isspace` accepts, is not skipped: `int("\x1c2")`
      raises `ValueError`. */
  lemma ParseFileSeparator()
    ensures ParseInt("\U{1C}2") == None
  {
    var s := "\U{1C}2";
    assert !IntSpace(s[0]) && !IntSpace(s[1]);
    assert StripStart(s) == s;
    assert StripEnd(s) == s;
    assert !WellGrouped(s) by {
      assert !IsDigit(s[0]);
    }
  }

  lemma ParseLetter()
    ensures ParseInt("x") == None
  {
    assert !IsDigit("x"[0]);
  }
}
