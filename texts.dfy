/**
 * The string tests the analysis applies to column names and upload file
 * names: substring containment (Python's `in`), `str.startswith`, Python's
 * code-point string order, and the `DD-MM-YYYY` date token of a file name.
 */
module Texts {
  import opened Wrappers

  /** `p` occurs in `s` starting at position `i`. */
  predicate OccursAt(s: string, p: string, i: nat)
  {
    i + |p| <= |s| && s[i..i + |p|] == p
  }

  /** Python's `p in s` for strings. */
  predicate Contains(s: string, p: string)
  {
    exists i: nat | i <= |s| :: OccursAt(s, p, i)
  }

  /** Python's `s.startswith(p)`. */
  predicate StartsWith(s: string, p: string)
  {
    OccursAt(s, p, 0)
  }

  // ---------------------------------------------------------------------
  // String order, as Python's `sorted` applies it to the date keys.
  // ---------------------------------------------------------------------

  /** Strict lexicographic order on code points; a proper prefix comes first. */
  predicate LexLess(a: string, b: string)
  {
    if |a| == 0 then |b| > 0
    else if |b| == 0 then false
    else if a[0] != b[0] then a[0] < b[0]
    else LexLess(a[1..], b[1..])
  }

  lemma {:induction false} LexLessIrreflexive(a: string)
    ensures !LexLess(a, a)
  {
    if |a| > 0 {
      LexLessIrreflexive(a[1..]);
    }
  }

  lemma {:induction false} LexLessTransitive(a: string, b: string, c: string)
    requires LexLess(a, b) && LexLess(b, c)
    ensures LexLess(a, c)
  {
    if |a| > 0 && |b| > 0 && |c| > 0 && a[0] == b[0] && b[0] == c[0] {
      LexLessTransitive(a[1..], b[1..], c[1..]);
    }
  }

  /** Any two different strings are ordered one way or the other. */
  lemma {:induction false} LexLessTotal(a: string, b: string)
    requires a != b
    ensures LexLess(a, b) || LexLess(b, a)
  {
    if |a| > 0 && |b| > 0 && a[0] == b[0] {
      assert a == [a[0]] + a[1..] && b == [b[0]] + b[1..];
      LexLessTotal(a[1..], b[1..]);
    }
  }

  lemma LexLessAsymmetric(a: string, b: string)
    requires LexLess(a, b)
    ensures !LexLess(b, a)
  {
    if LexLess(b, a) {
      LexLessTransitive(a, b, a);
      LexLessIrreflexive(a);
    }
  }

  // ---------------------------------------------------------------------
  // The date token: the leftmost match of the regular expression
  // `\d{2}-\d{2}-\d{4}` in a file name.
  // ---------------------------------------------------------------------

  const DateTokenLength: nat := 10

  predicate IsDigit(c: char)
  {
    '0' <= c <= '9'
  }

  /** A `DD-MM-YYYY` token starts at position `i` of `s`. */
  predicate DateAt(s: string, i: nat)
  {
    && i + DateTokenLength <= |s|
    && IsDigit(s[i]) && IsDigit(s[i + 1]) && s[i + 2] == '-'
    && IsDigit(s[i + 3]) && IsDigit(s[i + 4]) && s[i + 5] == '-'
    && IsDigit(s[i + 6]) && IsDigit(s[i + 7]) && IsDigit(s[i + 8]) && IsDigit(s[i + 9])
  }

  /** The first position at or after `i` where a date token starts. */
  function DatePositionFrom(s: string, i: nat): (r: Option<nat>)
    requires i <= |s|
    decreases |s| - i
    ensures r.Some? ==> i <= r.value && DateAt(s, r.value)
    ensures r.Some? ==> forall j: nat :: i <= j < r.value ==> !DateAt(s, j)
    ensures r.None? ==> forall j: nat :: i <= j ==> !DateAt(s, j)
  {
    if i + DateTokenLength > |s| then None
    else if DateAt(s, i) then Some(i)
    else DatePositionFrom(s, i + 1)
  }

  /** The date key of a file name: the text of its leftmost date token, if any. */
  function DateKey(name: string): Option<string>
  {
    match DatePositionFrom(name, 0)
    case None => None
    case Some(i) => Some(name[i..i + DateTokenLength])
  }

  /**
   * A name has a date key exactly when a date token occurs in it; the key
   * is a date token itself, the text of the leftmost one.
   */
  lemma DateKeyIsLeftmost(name: string)
    ensures var r := DateKey(name);
            && (r.None? <==> forall j: nat :: !DateAt(name, j))
            && (r.Some? ==> |r.value| == DateTokenLength && DateAt(r.value, 0))
            && (r.Some? ==> exists i: nat :: DateAt(name, i) && r.value == name[i..i + DateTokenLength]
                                          && forall j: nat :: j < i ==> !DateAt(name, j))
  {
    match DatePositionFrom(name, 0)
    case None =>
    case Some(i) =>
      var token := name[i..i + DateTokenLength];
      assert token[2] == name[i + 2] && token[5] == name[i + 5];
  }
}
