/**
 * Character classes and string helpers shared by the record validators and the
 * response parser: Ruby's `\s`, ActiveSupport's `blank?`/`present?`, the
 * characters `String#strip` removes, and ASCII lower-casing.
 */
module Text {

  /** Ruby's `\s` and the ASCII part of `[[:space:]]`: space, tab, line feed,
      vertical tab, form feed and carriage return. */
  predicate IsSpace(c: char) {
    c == ' ' || c == '\t' || c == '\n' || c == '\U{B}' || c == '\U{C}' || c == '\r'
  }

  /** `String#strip` removes NUL as well as whitespace. */
  predicate IsStripChar(c: char) {
    c == '\0' || IsSpace(c)
  }

  predicate AllSpace(s: string) {
    forall i :: 0 <= i < |s| ==> IsSpace(s[i])
  }

  predicate AllStrip(s: string) {
    forall i :: 0 <= i < |s| ==> IsStripChar(s[i])
  }

  /** ActiveSupport's `String#blank?`: empty or whitespace only. */
  predicate Blank(s: string) {
    AllSpace(s)
  }

  predicate Present(s: string) {
    !Blank(s)
  }

  /** ASCII lower-casing of one character; every other character is kept. */
  function Lower(c: char): (d: char)
    ensures !('A' <= d <= 'Z')
    ensures IsSpace(d) <==> IsSpace(c)
    ensures ('a' <= c <= 'z') ==> d == c
  {
    if 'A' <= c <= 'Z' then (c as int - 'A' as int + 'a' as int) as char else c
  }

  /** `String#downcase`, restricted to the ASCII letters. */
  function Downcase(s: string): (r: string)
    ensures |r| == |s|
    ensures forall i :: 0 <= i < |s| ==> r[i] == Lower(s[i])
  {
    if |s| == 0 then [] else [Lower(s[0])] + Downcase(s[1..])
  }

  /** Downcasing twice is downcasing once. */
  lemma DowncaseIdempotent(s: string)
    ensures Downcase(Downcase(s)) == Downcase(s)
  {
    var d := Downcase(s);
    assert forall i :: 0 <= i < |d| ==> Lower(d[i]) == d[i];
  }

  /** Downcasing leaves no ASCII capital behind and keeps whitespace where it is,
      so a present string stays present and a blank one stays blank. */
  lemma DowncasePreservesPresence(s: string)
    ensures Present(Downcase(s)) <==> Present(s)
    ensures forall i :: 0 <= i < |s| ==> !('A' <= Downcase(s)[i] <= 'Z')
  {
  }

  /** Case-insensitive equality of two strings, as a `/i` regular expression compares letters. */
  predicate EqualsIgnoreCase(a: string, b: string) {
    |a| == |b| && forall i :: 0 <= i < |a| ==> Lower(a[i]) == Lower(b[i])
  }

  /** Number of strip characters at the front of `s`. */
  function LeadingStrip(s: string): (n: nat)
    ensures n <= |s|
    ensures AllStrip(s[..n])
    ensures n < |s| ==> !IsStripChar(s[n])
  {
    if |s| == 0 || !IsStripChar(s[0]) then 0 else 1 + LeadingStrip(s[1..])
  }

  /** Position after the last character of `s` that is not a strip character. */
  function TrailingStart(s: string): (n: nat)
    ensures n <= |s|
    ensures AllStrip(s[n..])
    ensures n > 0 ==> !IsStripChar(s[n - 1])
  {
    if |s| == 0 || !IsStripChar(s[|s| - 1]) then |s|
    else
      var n := TrailingStart(s[..|s| - 1]);
      assert s[n..] == s[..|s| - 1][n..] + [s[|s| - 1]];
      n
  }

  /** No whitespace or NUL at either end. */
  predicate Trimmed(s: string) {
    s == [] || (!IsStripChar(s[0]) && !IsStripChar(s[|s| - 1]))
  }

  /** `r` occurs in `s` starting at position `i`. */
  predicate OccursAt(r: string, s: string, i: nat) {
    i + |r| <= |s| && s[i..i + |r|] == r
  }

  /** `r` occurs in `s` as a contiguous piece. */
  ghost predicate IsInfix(r: string, s: string) {
    exists i: nat :: OccursAt(r, s, i)
  }

  /** A piece of a piece of `s` is a piece of `s`. */
  lemma InfixTransitive(r: string, s: string, u: string)
    requires IsInfix(r, s) && IsInfix(s, u)
    ensures IsInfix(r, u)
  {
    var i: nat :| OccursAt(r, s, i);
    var j: nat :| OccursAt(s, u, j);
    forall k | 0 <= k < |r| ensures u[j + i..j + i + |r|][k] == r[k] {
      assert r[k] == s[i + k] == u[j + i + k];
    }
    assert OccursAt(r, u, j + i);
  }

  /** `String#strip`: removes leading and trailing whitespace and NUL. */
  function Strip(s: string): (r: string)
    ensures |r| <= |s|
    ensures Trimmed(r)
    ensures r == [] <==> AllStrip(s)
    ensures IsInfix(r, s)
  {
    var t := s[..TrailingStart(s)];
    var k := LeadingStrip(t);
    var r := t[k..];
    assert AllStrip(s) ==> TrailingStart(s) == 0;
    assert r == [] ==> s == t[..k] + s[TrailingStart(s)..];
    assert OccursAt(r, s, k);
    r
  }

  /** `Strip(s)` is exactly the part of `s` between a strip-character prefix and a
      strip-character suffix that starts and ends with other characters. */
  lemma {:induction false} StripIsTrimmedInfix(s: string, i: nat, j: nat)
    requires i <= j <= |s|
    requires AllStrip(s[..i]) && AllStrip(s[j..])
    requires i < j ==> !IsStripChar(s[i]) && !IsStripChar(s[j - 1])
    ensures Strip(s) == s[i..j]
  {
    var e := TrailingStart(s);
    if i == j {
      assert s == s[..i] + s[j..];
      assert AllStrip(s);
    } else {
      assert e == j;
      var t := s[..e];
      assert LeadingStrip(t) == i;
    }
  }

  /** Stripping a stripped string changes nothing. */
  lemma StripIdempotent(s: string)
    ensures Strip(Strip(s)) == Strip(s)
  {
    var r := Strip(s);
    StripIsTrimmedInfix(r, 0, |r|);
  }
}
