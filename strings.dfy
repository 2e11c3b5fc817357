/** The few Python string operations the pipeline relies on: substring tests,
    `replace(pat, "")`, `split(c)[0]`, `isnumeric`, `lower` and the ordering of
    strings. */
module Strings {

  /** Python's `pat in s` for strings. */
  predicate Contains(s: string, pat: string)
    decreases |s|
  {
    pat <= s || (s != [] && Contains(s[1..], pat))
  }

  /** Python's `s.replace(pat, "")`: the occurrences of `pat` are removed in one
      left-to-right pass, so text joined by a removal is not scanned again. */
  function RemoveAll(s: string, pat: string): (r: string)
    requires pat != []
    ensures |r| <= |s|
    ensures !Contains(s, pat) ==> r == s
    decreases |s|
  {
    if s == [] then []
    else if pat <= s then RemoveAll(s[|pat|..], pat)
    else [s[0]] + RemoveAll(s[1..], pat)
  }

  /** A leading occurrence of `pat` is removed. */
  lemma RemoveAllLeading(pat: string, s: string)
    requires pat != []
    ensures RemoveAll(pat + s, pat) == RemoveAll(s, pat)
  {
    assert pat <= pat + s;
    assert (pat + s)[|pat|..] == s;
  }

  /** Removal keeps only characters of the original text. */
  lemma {:induction false} RemoveAllChars(s: string, pat: string, ch: char)
    requires pat != []
    ensures ch in RemoveAll(s, pat) ==> ch in s
    decreases |s|
  {
    if s != [] {
      if pat <= s {
        RemoveAllChars(s[|pat|..], pat, ch);
      } else {
        RemoveAllChars(s[1..], pat, ch);
      }
    }
  }

  /** A character that `pat` does not contain splits the removal in two: no
      occurrence can span it. */
  lemma {:induction false} RemoveAllSplit(x: string, c: char, y: string, pat: string)
    requires pat != [] && c !in pat
    ensures RemoveAll(x + [c] + y, pat) == RemoveAll(x, pat) + [c] + RemoveAll(y, pat)
    decreases |x|
  {
    var s := x + [c] + y;
    if x == [] {
      assert s == [c] + y;
      assert !(pat <= s) by { assert pat[0] != c; }
      assert s[1..] == y;
    } else if pat <= s {
      assert s[|x|] == c;
      assert |pat| <= |x|;
      assert pat <= x;
      assert s[|pat|..] == x[|pat|..] + [c] + y;
      RemoveAllSplit(x[|pat|..], c, y, pat);
    } else {
      assert !(pat <= x);
      assert s[1..] == x[1..] + [c] + y;
      RemoveAllSplit(x[1..], c, y, pat);
    }
  }

  /** Python's `s.split(c)[0]`: the text before the first `c`, or all of `s`. */
  function BeforeFirst(s: string, c: char): (r: string)
    ensures c !in r
    ensures r <= s
    ensures |r| < |s| ==> s[|r|] == c
  {
    if s == [] then []
    else if s[0] == c then []
    else [s[0]] + BeforeFirst(s[1..], c)
  }

  /** Cutting at the first `c` a second time changes nothing. */
  lemma {:induction false} BeforeFirstIdempotent(s: string, c: char)
    ensures BeforeFirst(BeforeFirst(s, c), c) == BeforeFirst(s, c)
  {
    BeforeFirstOfFree(BeforeFirst(s, c), c);
  }

  /** The text before a first `c` is what precedes it. */
  lemma {:induction false} BeforeFirstOfSplit(x: string, c: char, y: string)
    requires c !in x
    ensures BeforeFirst(x + [c] + y, c) == x
  {
    if x == [] {
      assert (x + [c] + y)[0] == c;
    } else {
      assert (x + [c] + y)[1..] == x[1..] + [c] + y;
      BeforeFirstOfSplit(x[1..], c, y);
    }
  }

  lemma {:induction false} BeforeFirstOfFree(s: string, c: char)
    requires c !in s
    ensures BeforeFirst(s, c) == s
  {
    if s != [] {
      assert s == [s[0]] + s[1..];
      BeforeFirstOfFree(s[1..], c);
    }
  }

  predicate IsDigit(ch: char) {
    '0' <= ch <= '9'
  }

  /** Python's `str.isnumeric()` on ASCII text: non-empty and digits only. */
  predicate IsNumeric(s: string) {
    |s| > 0 && forall i :: 0 <= i < |s| ==> IsDigit(s[i])
  }

  function LowerChar(ch: char): char {
    if 'A' <= ch <= 'Z' then (ch as int - 'A' as int + 'a' as int) as char else ch
  }

  /** Python's `str.lower()` on ASCII text. */
  function Lower(s: string): (r: string)
    ensures |r| == |s|
    ensures forall i :: 0 <= i < |s| ==> r[i] == LowerChar(s[i])
  {
    if s == [] then [] else [LowerChar(s[0])] + Lower(s[1..])
  }

  /** Python's `a <= b` on strings: code-point by code-point, a proper prefix first. */
  predicate LexLe(a: string, b: string)
    decreases |a|
  {
    a == [] || (b != [] && (a[0] < b[0] || (a[0] == b[0] && LexLe(a[1..], b[1..]))))
  }

  lemma {:induction false} LexLeReflexive(a: string)
    ensures LexLe(a, a)
    decreases |a|
  {
    if a != [] {
      LexLeReflexive(a[1..]);
    }
  }

  lemma {:induction false} LexLeTotal(a: string, b: string)
    ensures LexLe(a, b) || LexLe(b, a)
    decreases |a|
  {
    if a != [] && b != [] && a[0] == b[0] {
      LexLeTotal(a[1..], b[1..]);
    }
  }

  lemma {:induction false} LexLeTransitive(a: string, b: string, c: string)
    requires LexLe(a, b) && LexLe(b, c)
    ensures LexLe(a, c)
    decreases |a|
  {
    if a != [] && a[0] == b[0] && b[0] == c[0] {
      LexLeTransitive(a[1..], b[1..], c[1..]);
    }
  }

  lemma {:induction false} LexLeAntisymmetric(a: string, b: string)
    requires LexLe(a, b) && LexLe(b, a)
    ensures a == b
    decreases |a|
  {
    if a != [] {
      LexLeAntisymmetric(a[1..], b[1..]);
      assert a == [a[0]] + a[1..] && b == [b[0]] + b[1..];
    }
  }
}
