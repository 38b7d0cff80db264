/** The Caesar-cipher rule, `mod/caesar_cipher.py`: a rotation of the ASCII
    letters, done with a translation table built from a rotated alphabet,
    and the rule's entry point, which reads an optional shift before `|`. */
module Caesar {
  import opened Text
  import opened PyInt

  /** `string.ascii_lowercase`. */
  const Lower: string := Alphabet()

  /** The letters `a` to `z` in order. */
  function Alphabet(): (r: string)
    ensures |r| == 26 && forall i :: 0 <= i < 26 ==> r[i] == LowerLetter(i)
  {
    seq(26, i requires 0 <= i < 26 => LowerLetter(i))
  }

  /** What the rule returns when the text before `|` is not an integer. */
  const ShiftError: string := "{錯誤：請在 | 前提供有效的整數作為位移值}"

  predicate IsLower(c: char) {
    'a' <= c <= 'z'
  }

  predicate IsUpper(c: char) {
    'A' <= c <= 'Z'
  }

  function LowerLetter(i: int): (c: char)
    requires 0 <= i < 26
    ensures IsLower(c) && c as int - 'a' as int == i
  {
    ('a' as int + i) as char
  }

  function UpperLetter(i: int): (c: char)
    requires 0 <= i < 26
    ensures IsUpper(c) && c as int - 'A' as int == i
  {
    ('A' as int + i) as char
  }

  /** `str.upper()` on text made of ASCII lower-case letters. */
  function Upper(s: string): (r: string)
    ensures |r| == |s|
  {
    seq(|s|, i requires 0 <= i < |s| => if IsLower(s[i]) then (s[i] as int - 32) as char else s[i])
  }

  /** Where Python's `seq[k:]` and `seq[:k]` cut a sequence of length `n`:
      a negative `k` counts from the end, and the cut is clamped to `0..n`. */
  function SliceBound(k: int, n: nat): (r: nat)
    ensures r <= n
    ensures 0 <= k <= n ==> r == k
    ensures -(n as int) <= k < 0 ==> r == k + n
    ensures k > n ==> r == n
    ensures k < -(n as int) ==> r == 0
  {
    if k < 0 then (if k + n < 0 then 0 else k + n) else if k > n then n else k
  }

  /** `alphabet[shift:] + alphabet[:shift]`: the alphabet rotated by the
      place `m` where the slice cuts it. */
  function ShiftedAlphabet(shift: int): (r: string)
    ensures |r| == 26
    ensures forall i :: 0 <= i < 26 ==> r[i] == LowerLetter((i + SliceBound(shift, 26)) % 26)
  {
    var m := SliceBound(shift, |Lower|);
    assert forall i :: 0 <= i < 26 ==> (Lower[m..] + Lower[..m])[i] == LowerLetter((i + m) % 26) by {
      forall i | 0 <= i < 26 ensures (Lower[m..] + Lower[..m])[i] == LowerLetter((i + m) % 26) {
        if i < 26 - m {
          RotatedBack(m, i);
        } else {
          RotatedFront(m, i);
        }
      }
    }
    Lower[m..] + Lower[..m]
  }

  /** `str.maketrans(x, y)`: each character of `x` maps to the character of
      `y` at the same place, the later place winning for a repeated one;
      the table's keys are the characters of `x`. */
  function MakeTrans(x: string, y: string): (r: map<char, char>)
    requires |x| == |y|
    ensures forall c :: c in r <==> c in x
  {
    if |x| == 0 then map[]
    else
      assert x == x[..|x| - 1] + [x[|x| - 1]];
      MakeTrans(x[..|x| - 1], y[..|y| - 1])[x[|x| - 1] := y[|y| - 1]]
  }

  /** `s.translate(table)`: characters in the table are replaced by their
      images, the others are kept. */
  function Translate(s: string, table: map<char, char>): (r: string)
    ensures |r| == |s|
    ensures forall i :: 0 <= i < |s| && s[i] in table ==> r[i] == table[s[i]]
    ensures forall i :: 0 <= i < |s| && s[i] !in table ==> r[i] == s[i]
  {
    seq(|s|, i requires 0 <= i < |s| => if s[i] in table then table[s[i]] else s[i])
  }

  /** The table `_caesar_cipher` builds for `shift`: its keys are exactly
      the ASCII letters. */
  function Table(shift: int): (r: map<char, char>)
    ensures forall c :: c in r <==> IsLower(c) || IsUpper(c)
  {
    var shifted := ShiftedAlphabet(shift);
    LetterKeys();
    MakeTrans(Lower + Upper(Lower), shifted + Upper(shifted))
  }

  /** `_caesar_cipher(text, shift)`: every character comes out rotated by
      the place where `alphabet[shift:]` cuts the alphabet, so characters
      other than ASCII letters are kept. */
  function CaesarShift(text: string, shift: int): (r: string)
    ensures |r| == |text|
    ensures forall i :: 0 <= i < |text| ==> r[i] == Rotate(text[i], SliceBound(shift, 26))
  {
    var table := Table(shift);
    assert forall i :: 0 <= i < |text| ==> Translate(text, table)[i] == Rotate(text[i], SliceBound(shift, 26)) by {
      forall i | 0 <= i < |text| ensures Translate(text, table)[i] == Rotate(text[i], SliceBound(shift, 26)) {
        var c := text[i];
        if IsLower(c) {
          TableLower(shift, c);
        } else if IsUpper(c) {
          TableUpper(shift, c);
        }
      }
    }
    Translate(text, table)
  }

  /** `caesar_cipher(text)`: with exactly one `|`, the part before it is the
      shift and the part after it is enciphered; otherwise the whole text
      is enciphered with shift 3. */
  function CaesarCipher(text: string): (r: string)
    ensures Count(text, "|") != 1 ==> r == CaesarShift(text, 3)
  {
    var parts := Split(text, "|");
    if |parts| == 2 then
      match ParseInt(parts[0])
      case Some(shift) => CaesarShift(parts[1], shift)
      case None => ShiftError
    else CaesarShift(text, 3)
  }

  /** The rotation of a letter by `k` places within its own case, the
      arithmetic reading of the cipher; other characters are kept. */
  function Rotate(c: char, k: int): (r: char)
    ensures IsLower(r) <==> IsLower(c)
    ensures IsUpper(r) <==> IsUpper(c)
  {
    if IsLower(c) then LowerLetter((c as int - 'a' as int + k) % 26)
    else if IsUpper(c) then UpperLetter((c as int - 'A' as int + k) % 26)
    else c
  }

  // The translation table.

  lemma LowerAt(i: int)
    requires 0 <= i < 26
    ensures |Lower| == 26 && Lower[i] == LowerLetter(i)
  {
  }

  /** The image of `x[i]` is `y[i]` when `x[i]` does not come again later. */
  lemma {:induction false} MakeTransAt(x: string, y: string, i: nat)
    requires |x| == |y| && i < |x|
    requires forall j :: i < j < |x| ==> x[j] != x[i]
    ensures x[i] in MakeTrans(x, y) && MakeTrans(x, y)[x[i]] == y[i]
  {
    if i < |x| - 1 {
      MakeTransAt(x[..|x| - 1], y[..|y| - 1], i);
    }
  }

  lemma RotatedBack(m: nat, i: int)
    requires m <= 26 && 0 <= i < 26 - m
    ensures (Lower[m..] + Lower[..m])[i] == LowerLetter((i + m) % 26)
  {
    assert (Lower[m..] + Lower[..m])[i] == Lower[i + m];
    LowerAt(i + m);
  }

  lemma RotatedFront(m: nat, i: int)
    requires m <= 26 && 26 - m <= i < 26
    ensures (Lower[m..] + Lower[..m])[i] == LowerLetter((i + m) % 26)
  {
    assert (Lower[m..] + Lower[..m])[i] == Lower[i + m - 26];
    LowerAt(i + m - 26);
  }

  /** `str.upper()` turns the lower-case letter at place `j` into the
      upper-case letter of the same rank. */
  lemma UpperAt(s: string, j: int, k: int)
    requires 0 <= j < |s| && 0 <= k < 26 && s[j] == LowerLetter(k)
    ensures Upper(s)[j] == UpperLetter(k)
  {
  }

  lemma TableLower(shift: int, c: char)
    requires IsLower(c)
    ensures c in Table(shift) && Table(shift)[c] == Rotate(c, SliceBound(shift, 26))
  {
    var shifted := ShiftedAlphabet(shift);
    var x, y := Lower + Upper(Lower), shifted + Upper(shifted);
    var i := c as int - 'a' as int;
    LowerAt(i);
    forall j | i < j < |x| ensures x[j] != x[i] {
      if j < 26 {
        LowerAt(j);
      } else {
        LowerAt(j - 26);
      }
    }
    MakeTransAt(x, y, i);
  }

  lemma TableUpper(shift: int, c: char)
    requires IsUpper(c)
    ensures c in Table(shift) && Table(shift)[c] == Rotate(c, SliceBound(shift, 26))
  {
    var shifted := ShiftedAlphabet(shift);
    var x, y := Lower + Upper(Lower), shifted + Upper(shifted);
    var i := c as int - 'A' as int;
    UpperKeys(i);
    UpperImages(shift, i);
    assert x[26 + i] == UpperLetter(i) == c;
    MakeTransAt(x, y, 26 + i);
    assert Rotate(c, SliceBound(shift, 26)) == UpperLetter((i + SliceBound(shift, 26)) % 26);
  }

  /** The upper-case letter at place `i` of the alphabet sits at `26 + i`
      in the table's keys and not after. */
  lemma UpperKeys(i: int)
    requires 0 <= i < 26
    ensures |Lower + Upper(Lower)| == 52
    ensures (Lower + Upper(Lower))[26 + i] == UpperLetter(i)
    ensures forall j :: 26 + i < j < 52 ==> (Lower + Upper(Lower))[j] != UpperLetter(i)
  {
    var x := Lower + Upper(Lower);
    LowerAt(i);
    UpperAt(Lower, i, i);
    forall j | 26 + i < j < 52 ensures x[j] != UpperLetter(i) {
      LowerAt(j - 26);
      UpperAt(Lower, j - 26, j - 26);
    }
  }

  lemma UpperImages(shift: int, i: int)
    requires 0 <= i < 26
    ensures |ShiftedAlphabet(shift) + Upper(ShiftedAlphabet(shift))| == 52
    ensures (ShiftedAlphabet(shift) + Upper(ShiftedAlphabet(shift)))[26 + i] == UpperLetter((i + SliceBound(shift, 26)) % 26)
  {
    var shifted := ShiftedAlphabet(shift);
    UpperAt(shifted, i, (i + SliceBound(shift, 26)) % 26);
  }

  /** The keys of the table: the ASCII letters and nothing else. */
  lemma LetterKeys()
    ensures forall c :: c in Lower + Upper(Lower) <==> IsLower(c) || IsUpper(c)
  {
    var x := Lower + Upper(Lower);
    forall c ensures c in x <==> IsLower(c) || IsUpper(c) {
      if IsLower(c) {
        LowerAt(c as int - 'a' as int);
        assert x[c as int - 'a' as int] == c;
      } else if IsUpper(c) {
        UpperKeys(c as int - 'A' as int);
      } else {
        forall j | 0 <= j < |x| ensures x[j] != c {
          if j < 26 {
            LowerAt(j);
          } else {
            LowerAt(j - 26);
          }
        }
      }
    }
  }

  // What the cipher does.

  /** For a shift from -26 to 26, letter `c` becomes the letter `k` places
      further on in its own case, wrapping round at `z` and `Z`. */
  lemma Rotation(text: string, k: int)
    requires -26 <= k <= 26
    ensures forall i :: 0 <= i < |text| ==> CaesarShift(text, k)[i] == Rotate(text[i], k)
  {
    forall i | 0 <= i < |text| ensures CaesarShift(text, k)[i] == Rotate(text[i], k) {
      RotateCongruent(text[i], SliceBound(k, 26), k);
    }
  }

  lemma RotateCongruent(c: char, m: int, k: int)
    requires m == k || m == k + 26
    ensures Rotate(c, m) == Rotate(c, k)
  {
    if m != k {
      if IsLower(c) {
        ModPeriod(c as int - 'a' as int + k);
        assert c as int - 'a' as int + m == c as int - 'a' as int + k + 26;
      } else if IsUpper(c) {
        ModPeriod(c as int - 'A' as int + k);
        assert c as int - 'A' as int + m == c as int - 'A' as int + k + 26;
      }
    }
  }

  lemma ModPeriod(y: int)
    ensures (y + 26) % 26 == y % 26
  {
    var q := y / 26;
    assert y + 26 == 26 * (q + 1) + y % 26;
  }

  /** Shift 0 changes nothing, and neither does a shift of 26 or more, or
      of -26 or less, since one of the two slices is then empty. */
  lemma Identity(text: string, shift: int)
    requires shift == 0 || shift >= 26 || shift <= -26
    ensures CaesarShift(text, shift) == text
  {
    forall i | 0 <= i < |text| ensures CaesarShift(text, shift)[i] == text[i] {
      RotateWhole(text[i], SliceBound(shift, 26));
    }
  }

  /** A rotation by no place or by the whole alphabet changes nothing. */
  lemma RotateWhole(c: char, m: int)
    requires m == 0 || m == 26
    ensures Rotate(c, m) == c
  {
    if IsLower(c) {
      var x := c as int - 'a' as int;
      assert (x + m) % 26 == x;
    } else if IsUpper(c) {
      var x := c as int - 'A' as int;
      assert (x + m) % 26 == x;
    }
  }

  /** Shifting by `k` and then by `26 - k` gives the text back. */
  lemma Inverse(text: string, k: int)
    requires 0 <= k <= 26
    ensures CaesarShift(CaesarShift(text, k), 26 - k) == text
  {
    var once := CaesarShift(text, k);
    Rotation(text, k);
    Rotation(once, 26 - k);
    forall i | 0 <= i < |text| ensures CaesarShift(once, 26 - k)[i] == text[i] {
      RotateBack(text[i], k, 26 - k);
    }
  }

  /** Shifting by `k` and then by `-k` gives the text back. */
  lemma InverseNegated(text: string, k: int)
    requires -26 <= k <= 26
    ensures CaesarShift(CaesarShift(text, k), -k) == text
  {
    var once := CaesarShift(text, k);
    Rotation(text, k);
    Rotation(once, -k);
    forall i | 0 <= i < |text| ensures CaesarShift(once, -k)[i] == text[i] {
      RotateBack(text[i], k, -k);
    }
  }

  lemma RotateBack(c: char, k: int, j: int)
    requires (k + j) % 26 == 0
    ensures Rotate(Rotate(c, k), j) == c
  {
    if IsLower(c) {
      var x := c as int - 'a' as int;
      ModSum(x, k, j);
    } else if IsUpper(c) {
      var x := c as int - 'A' as int;
      ModSum(x, k, j);
    }
  }

  lemma ModSum(x: int, k: int, j: int)
    requires 0 <= x < 26 && (k + j) % 26 == 0
    ensures ((x + k) % 26 + j) % 26 == x
  {
    var q := (x + k) / 26;
    assert (x + k) % 26 == x + k - 26 * q;
    var p := (k + j) / 26;
    assert k + j == 26 * p;
    assert (x + k) % 26 + j == x + 26 * (p - q);
  }

  // The rule's entry point.

  lemma BarAbsent(s: string)
    requires '|' !in s
    ensures !Contains(s, "|")
  {
    forall i | 0 <= i <= |s| ensures !OccursAt(s, "|", i) {
      if i < |s| {
        assert s[i..i + 1][0] == s[i];
      }
    }
  }

  /** Text with one `|` splits into the parts before and after it. */
  lemma SplitAtBar(a: string, b: string)
    requires '|' !in a && '|' !in b
    ensures Split(a + "|" + b, "|") == [a, b]
  {
    var s := a + "|" + b;
    BarAbsent(a);
    BarAbsent(b);
    forall j | 0 <= j < |a| ensures !OccursAt(s, "|", j) {
      assert s[j] == a[j];
      assert s[j..j + 1][0] == s[j];
    }
    assert s[|a|..|a| + 1] == "|";
    assert OccursAt(s, "|", |a|);
    assert Find(s, "|") == Some(|a|);
    SplitAtFirst(s, "|", |a|);
    assert s[..|a|] == a && s[|a| + 1..] == b;
    SplitFirstPiece(b, "|");
  }

  /** With exactly one `|` and an integer before it, the integer is the
      shift and only the text after `|` is enciphered. */
  lemma ExplicitShift(a: string, b: string, shift: int)
    requires '|' !in a && '|' !in b && ParseInt(a) == Some(shift)
    ensures CaesarCipher(a + "|" + b) == CaesarShift(b, shift)
  {
    SplitAtBar(a, b);
  }

  /** With exactly one `|` and no integer before it, the result is the
      error text. */
  lemma BadShift(a: string, b: string)
    requires '|' !in a && '|' !in b && ParseInt(a) == None
    ensures CaesarCipher(a + "|" + b) == ShiftError
  {
    SplitAtBar(a, b);
  }

  lemma ShiftTwoExample()
    ensures CaesarCipher("2|abc") == "cde"
  {
    var a, b := "2", "abc";
    assert a + "|" + b == "2|abc";
    assert '|' !in a && '|' !in b;
    ParseTwo();
    ExplicitShift(a, b, 2);
    AbcByTwo();
  }

  lemma AbcByTwo()
    ensures CaesarShift("abc", 2) == "cde"
  {
    var r := CaesarShift("abc", 2);
    RotateLowerAt('a', 2, 2);
    RotateLowerAt('b', 2, 3);
    RotateLowerAt('c', 2, 4);
    assert r[0] == 'c' && r[1] == 'd' && r[2] == 'e';
  }

  lemma RotateLowerAt(c: char, k: int, j: int)
    requires IsLower(c) && 0 <= j < 26 && c as int - 'a' as int + k == j
    ensures Rotate(c, k) == LowerLetter(j)
  {
  }

  lemma DefaultExample()
    ensures CaesarCipher("xyz") == "abc"
  {
    BarAbsent("xyz");
    SplitFirstPiece("xyz", "|");
    XyzByThree();
  }

  lemma XyzByThree()
    ensures CaesarShift("xyz", 3) == "abc"
  {
    var r := CaesarShift("xyz", 3);
    RotateLowerAt('x', 3 - 26, 0);
    RotateLowerAt('y', 3 - 26, 1);
    RotateLowerAt('z', 3 - 26, 2);
    RotateCongruent('x', 3, 3 - 26);
    RotateCongruent('y', 3, 3 - 26);
    RotateCongruent('z', 3, 3 - 26);
    assert r[0] == 'a' && r[1] == 'b' && r[2] == 'c';
  }
}
