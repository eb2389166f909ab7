/** Character classes of the C locale and the cursor runs the recognisers are made of. */
module Chars {

  /** A C string: the characters before the terminating NUL, so it cannot contain one. */
  type CString = s: string | '\0' !in s

  /** isspace in the C locale: space, tab, newline, vertical tab, form feed, carriage return. */
  predicate IsSpace(c: char) { c == ' ' || '\t' <= c <= '\r' }

  /** isalpha in the C locale. */
  predicate IsAlpha(c: char) { 'a' <= c <= 'z' || 'A' <= c <= 'Z' }

  /** isdigit in the C locale. */
  predicate IsDigit(c: char) { '0' <= c <= '9' }

  /** The key class of the grammar: isalpha or isdigit. */
  predicate IsAlnum(c: char) { IsAlpha(c) || IsDigit(c) }

  /** The value class of the grammar: `*cursor && !isspace(*cursor)`. */
  predicate IsValueChar(c: char) { c != '\0' && !IsSpace(c) }

  /** Every character of s is in class p. */
  predicate All(s: string, p: char -> bool) {
    forall k :: 0 <= k < |s| ==> p(s[k])
  }

  /** A section name as the grammar reads it: one or more letters. */
  predicate IsName(s: string) { |s| > 0 && All(s, IsAlpha) }

  /** A key as the grammar reads it: one or more letters or digits. */
  predicate IsKey(s: string) { |s| > 0 && All(s, IsAlnum) }

  /** A value as the grammar reads it: one or more characters that are not whitespace. */
  predicate IsValue(s: string) { |s| > 0 && All(s, IsValueChar) }

  /**
   * Where a cursor loop `while (*cursor && p(*cursor)) cursor++` started at i stops:
   * the end of the longest run of class-p characters beginning at i.
   */
  function Span(s: string, i: nat, p: char -> bool): (j: nat)
    requires i <= |s|
    ensures i <= j <= |s|
    decreases |s| - i
  {
    if i < |s| && p(s[i]) then Span(s, i + 1, p) else i
  }

  /** The loop `while (*cursor && p(*cursor)) cursor++` from position i. */
  method Skip(s: string, i: nat, p: char -> bool) returns (cursor: nat)
    requires i <= |s|
    ensures cursor == Span(s, i, p)
  {
    cursor := i;
    while cursor < |s| && p(s[cursor])
      invariant i <= cursor <= |s|
      invariant Span(s, cursor, p) == Span(s, i, p)
    {
      cursor := cursor + 1;
    }
  }

  /** The substring s[i..j] of a C string, itself a C string. */
  function Slice(s: CString, i: nat, j: nat): (r: CString)
    requires i <= j <= |s|
    ensures r == s[i..j]
  {
    assert forall k :: 0 <= k < j - i ==> s[i..j][k] == s[i + k];
    s[i..j]
  }

  /** Span stops at the first character after i that is not in class p. */
  lemma {:induction false} SpanRun(s: string, i: nat, p: char -> bool)
    requires i <= |s|
    ensures forall k :: i <= k < Span(s, i, p) ==> p(s[k])
    ensures Span(s, i, p) == |s| || !p(s[Span(s, i, p)])
    decreases |s| - i
  {
    if i < |s| && p(s[i]) {
      SpanRun(s, i + 1, p);
    }
  }

  /** The run Span skips is all class p. */
  lemma SpanAll(s: string, i: nat, p: char -> bool)
    requires i <= |s|
    ensures All(s[i..Span(s, i, p)], p)
    ensures Span(s, i, p) == |s| || !p(s[Span(s, i, p)])
  {
    SpanRun(s, i, p);
  }

  /** The leading run of class p is all class p. */
  lemma SpanAllFromStart(s: string, p: char -> bool)
    ensures All(s[..Span(s, 0, p)], p)
  {
    SpanRun(s, 0, p);
  }

  /** A run of class p that reaches the end of s covers the whole suffix. */
  lemma SpanAllToEnd(s: string, i: nat, p: char -> bool)
    requires i <= |s| && Span(s, i, p) == |s|
    ensures All(s[i..], p)
  {
    SpanRun(s, i, p);
  }

  /** A run that is all class p and stops at j is exactly the run Span finds. */
  lemma {:induction false} SpanIsUnique(s: string, i: nat, j: nat, p: char -> bool)
    requires i <= j <= |s|
    requires forall k :: i <= k < j ==> p(s[k])
    requires j == |s| || !p(s[j])
    ensures Span(s, i, p) == j
    decreases j - i
  {
    if i < j {
      SpanIsUnique(s, i + 1, j, p);
    }
  }

  /** A run given as a slice that is all class p and stops at j is exactly the run Span finds. */
  lemma SpanOver(s: string, i: nat, j: nat, p: char -> bool)
    requires i <= j <= |s|
    requires All(s[i..j], p)
    requires j == |s| || !p(s[j])
    ensures Span(s, i, p) == j
  {
    assert forall k :: i <= k < j ==> s[k] == s[i..j][k - i];
    SpanIsUnique(s, i, j, p);
  }

  /**
   * A run inside the suffix y of x + y, seen from x + y: the same run, shifted by |x|.
   * The position k in x + y is passed in so that callers can name it as they write it.
   */
  lemma {:induction false} SpanShift(x: string, y: string, j: nat, k: nat, p: char -> bool)
    requires j <= |y| && k == |x| + j
    ensures Span(x + y, k, p) == |x| + Span(y, j, p)
    decreases |y| - j
  {
    if j < |y| && p(y[j]) {
      SpanShift(x, y, j + 1, k + 1, p);
    }
  }

  /** Skipping over characters of class p does not change where the run ends. */
  lemma {:induction false} SpanThrough(s: string, i: nat, j: nat, p: char -> bool)
    requires i <= j <= |s|
    requires forall k :: i <= k < j ==> p(s[k])
    ensures Span(s, i, p) == Span(s, j, p)
    decreases j - i
  {
    if i < j {
      SpanThrough(s, i + 1, j, p);
    }
  }

  /** The run of class p at the start of x + y is x, when x is all class p and y does not start with one. */
  lemma SpanPiece(x: string, y: string, p: char -> bool)
    requires All(x, p)
    requires y == [] || !p(y[0])
    ensures Span(x + y, 0, p) == |x|
  {
    forall k | 0 <= k < |x| ensures p((x + y)[k]) {
      assert (x + y)[k] == x[k];
    }
    SpanThrough(x + y, 0, |x|, p);
    SpanShift(x, y, 0, |x|, p);
  }

  /** The run of class p over a string that is all class p reaches its end. */
  lemma SpanWhole(s: string, p: char -> bool)
    requires All(s, p)
    ensures Span(s, 0, p) == |s|
  {
    SpanThrough(s, 0, |s|, p);
  }

  /** Strings made of a class that excludes NUL are C strings. */
  lemma NoNul(s: string, p: char -> bool)
    requires All(s, p)
    requires !p('\0')
    ensures '\0' !in s
  {
  }
}
