/** String helpers behind `normalize` and `String.prototype.includes`. */
module Text {

  /** The characters `String.prototype.trim` removes: ECMAScript WhiteSpace and LineTerminator. */
  predicate IsSpace(c: char) {
    c == '\t' || c == '\n' || c == '\U{B}' || c == '\U{C}' || c == '\r' || c == ' '
    || c == '\U{A0}' || c == '\U{1680}' || ('\U{2000}' <= c <= '\U{200A}')
    || c == '\U{2028}' || c == '\U{2029}' || c == '\U{202F}' || c == '\U{205F}'
    || c == '\U{3000}' || c == '\U{FEFF}'
  }

  predicate AllSpace(s: string) {
    forall i :: 0 <= i < |s| ==> IsSpace(s[i])
  }

  /** How many white-space characters `s` starts with. */
  function LeadingSpace(s: string): (n: nat)
    ensures n <= |s|
  {
    if s != [] && IsSpace(s[0]) then 1 + LeadingSpace(s[1..]) else 0
  }

  /** How many white-space characters `s` ends with. */
  function TrailingSpace(s: string): (n: nat)
    ensures n <= |s|
  {
    if s != [] && IsSpace(s[|s| - 1]) then 1 + TrailingSpace(s[..|s| - 1]) else 0
  }

  /** Drops the leading white space. */
  function TrimStart(s: string): string {
    s[LeadingSpace(s)..]
  }

  /** Drops the trailing white space. */
  function TrimEnd(s: string): string {
    s[..|s| - TrailingSpace(s)]
  }

  /** The leading run is all white space, and what follows it does not start with white space. */
  lemma {:induction false} LeadingSpaceShape(s: string)
    ensures AllSpace(s[..LeadingSpace(s)])
    ensures LeadingSpace(s) == |s| || !IsSpace(s[LeadingSpace(s)])
  {
    if s != [] && IsSpace(s[0]) {
      var t := s[1..];
      LeadingSpaceShape(t);
      assert s[..LeadingSpace(s)] == [s[0]] + t[..LeadingSpace(t)];
      assert LeadingSpace(t) < |t| ==> s[LeadingSpace(s)] == t[LeadingSpace(t)];
    }
  }

  /** The trailing run is all white space, and what precedes it does not end with white space. */
  lemma {:induction false} TrailingSpaceShape(s: string)
    ensures AllSpace(s[|s| - TrailingSpace(s)..])
    ensures TrailingSpace(s) == |s| || !IsSpace(s[|s| - TrailingSpace(s) - 1])
  {
    if s != [] && IsSpace(s[|s| - 1]) {
      var t := s[..|s| - 1];
      TrailingSpaceShape(t);
      assert s[|s| - TrailingSpace(s)..] == t[|t| - TrailingSpace(t)..] + [s[|s| - 1]];
      assert TrailingSpace(t) < |t| ==> s[|s| - TrailingSpace(s) - 1] == t[|t| - TrailingSpace(t) - 1];
    }
  }

  /** `String.prototype.trim`. */
  function Trim(s: string): string {
    TrimEnd(TrimStart(s))
  }

  /** Trimming cuts `s` into white space, the result and white space; the result neither starts nor ends with white space. */
  lemma TrimShape(s: string)
    ensures LeadingSpace(s) + |Trim(s)| <= |s|
    ensures s[LeadingSpace(s)..LeadingSpace(s) + |Trim(s)|] == Trim(s)
    ensures AllSpace(s[..LeadingSpace(s)]) && AllSpace(s[LeadingSpace(s) + |Trim(s)|..])
    ensures Trim(s) == [] || (!IsSpace(Trim(s)[0]) && !IsSpace(Trim(s)[|Trim(s)| - 1]))
  {
    var i := LeadingSpace(s);
    var t := s[i..];
    var k := TrailingSpace(t);
    var r := t[..|t| - k];
    assert Trim(s) == r;
    LeadingSpaceShape(s);
    TrailingSpaceShape(t);
    TrimPieces(s, i, k);
    if r != [] {
      assert r[0] == s[i];
      assert r[|r| - 1] == t[|t| - k - 1];
    }
  }

  /** Cutting `i` characters from the front and then `k` from the back leaves a middle piece of `s`. */
  lemma TrimPieces(s: string, i: nat, k: nat)
    requires i <= |s| && k <= |s| - i
    ensures var t := s[i..]; var r := t[..|t| - k];
      s[i..i + |r|] == r && s[i + |r|..] == t[|t| - k..]
  {
  }

  /** A string with no white space at either end is its own trim. */
  lemma TrimmedIsFixed(r: string)
    requires r == [] || (!IsSpace(r[0]) && !IsSpace(r[|r| - 1]))
    ensures Trim(r) == r
  {
    assert TrimStart(r) == r;
    assert TrimEnd(r) == r;
  }

  /** Trimming a trimmed string changes nothing. */
  lemma TrimIdempotent(s: string)
    ensures Trim(Trim(s)) == Trim(s)
  {
    TrimShape(s);
    TrimmedIsFixed(Trim(s));
  }

  function LowerChar(c: char): (d: char)
    ensures !('A' <= d <= 'Z')
    ensures !('A' <= c <= 'Z') ==> d == c
    ensures 'A' <= c <= 'Z' ==> d as int == c as int + ('a' as int - 'A' as int)
  {
    if 'A' <= c <= 'Z' then (c as int + 32) as char else c
  }

  /** Lower-casing never turns a character into white space or white space into anything else. */
  lemma LowerKeepsSpace(c: char)
    ensures IsSpace(LowerChar(c)) <==> IsSpace(c)
  {
  }

  /** `String.prototype.toLowerCase` on the ASCII letters; every other character is kept. */
  function ToLower(s: string): (r: string)
    ensures |r| == |s|
    ensures forall i :: 0 <= i < |s| ==> r[i] == LowerChar(s[i])
  {
    seq(|s|, i requires 0 <= i < |s| => LowerChar(s[i]))
  }

  /** `normalize`: trimmed, then lower-cased. */
  function Normalize(s: string): string {
    ToLower(Trim(s))
  }

  /** A normalized string has no upper-case ASCII letter and no white space at either end, and normalizing it again changes nothing. */
  lemma {:induction false} NormalizeSound(s: string)
    ensures var n := Normalize(s);
      (forall i :: 0 <= i < |n| ==> !('A' <= n[i] <= 'Z'))
      && (n == [] || (!IsSpace(n[0]) && !IsSpace(n[|n| - 1])))
      && Normalize(n) == n
  {
    TrimShape(s);
    var t := Trim(s);
    var n := ToLower(t);
    if n != [] {
      LowerKeepsSpace(t[0]);
      LowerKeepsSpace(t[|t| - 1]);
    }
    TrimmedIsFixed(n);
    assert ToLower(n) == n;
  }

  predicate OccursAt(hay: string, q: string, i: int) {
    0 <= i && i + |q| <= |hay| && hay[i..i + |q|] == q
  }

  /** `hay.includes(q)`. */
  function Contains(hay: string, q: string): (r: bool)
    ensures r <==> exists i :: OccursAt(hay, q, i)
  {
    if |q| <= |hay| && hay[..|q|] == q then
      assert OccursAt(hay, q, 0);
      true
    else if hay == [] then
      false
    else
      var r := Contains(hay[1..], q);
      assert r ==> exists i :: OccursAt(hay, q, i) by {
        if r {
          var j :| OccursAt(hay[1..], q, j);
          assert hay[1..][j..j + |q|] == hay[j + 1..j + 1 + |q|];
          assert OccursAt(hay, q, j + 1);
        }
      }
      assert (exists i :: OccursAt(hay, q, i)) ==> r by {
        if exists i :: OccursAt(hay, q, i) {
          var i :| OccursAt(hay, q, i);
          assert i != 0;
          assert hay[1..][i - 1..i - 1 + |q|] == hay[i..i + |q|];
          assert OccursAt(hay[1..], q, i - 1);
        }
      }
      r
  }
}
