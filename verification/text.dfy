/**
 * The JavaScript string primitives the widget relies on: `trim`, `toLowerCase`,
 * `toUpperCase` and `includes`, and the prefix test that a regex anchored
 * with `^` performs. Case mapping is restricted to ASCII letters; every other
 * character maps to itself.
 */
module Text {

  /** The characters `String.prototype.trim` and the regex class `\s` treat as
      white space: ECMAScript's WhiteSpace and LineTerminator productions. */
  predicate IsSpace(c: char) {
    || c == ' ' || c == '\t' || c == '\n' || c == '\r'
    || c == '\U{B}' || c == '\U{C}' || c == '\U{A0}' || c == '\U{1680}'
    || ('\U{2000}' <= c <= '\U{200A}')
    || c == '\U{2028}' || c == '\U{2029}' || c == '\U{202F}' || c == '\U{205F}'
    || c == '\U{3000}' || c == '\U{FEFF}'
  }

  predicate IsUpper(c: char) { 'A' <= c <= 'Z' }

  predicate IsLower(c: char) { 'a' <= c <= 'z' }

  function ToLowerChar(c: char): (d: char)
    ensures !IsUpper(d)
    ensures IsUpper(c) <==> IsLower(d) && d != c
    ensures ToUpperChar(d) == ToUpperChar(c)
  {
    if IsUpper(c) then (c as int + 32) as char else c
  }

  function ToUpperChar(c: char): (d: char)
    ensures !IsLower(d)
    ensures IsLower(c) <==> IsUpper(d) && d != c
  {
    if IsLower(c) then (c as int - 32) as char else c
  }

  /** No character of `s` is an upper-case letter. */
  predicate NoUpper(s: string) {
    forall i :: 0 <= i < |s| ==> !IsUpper(s[i])
  }

  /** No character of `s` is a lower-case letter. */
  predicate NoLower(s: string) {
    forall i :: 0 <= i < |s| ==> !IsLower(s[i])
  }

  /** `s.toLowerCase()`, ASCII only. */
  function Lower(s: string): (r: string)
    ensures |r| == |s|
    ensures NoUpper(r)
    ensures NoUpper(s) ==> r == s
  {
    seq(|s|, i requires 0 <= i < |s| => ToLowerChar(s[i]))
  }

  /** `s.toUpperCase()`, ASCII only. */
  function Upper(s: string): (r: string)
    ensures |r| == |s|
    ensures NoLower(r)
    ensures NoLower(s) ==> r == s
  {
    seq(|s|, i requires 0 <= i < |s| => ToUpperChar(s[i]))
  }

  lemma LowerIdempotent(s: string)
    ensures Lower(Lower(s)) == Lower(s)
  {
  }

  lemma UpperIdempotent(s: string)
    ensures Upper(Upper(s)) == Upper(s)
  {
  }

  predicate AllSpace(s: string) {
    forall i :: 0 <= i < |s| ==> IsSpace(s[i])
  }

  /** Neither end of `s` is white space. */
  predicate Unpadded(s: string) {
    |s| == 0 || (!IsSpace(s[0]) && !IsSpace(s[|s| - 1]))
  }

  /** `r` is `s` with its white-space margins cut off: the independent
      description of what `trim` returns. */
  ghost predicate IsTrimOf(s: string, r: string) {
    exists i, j :: 0 <= i <= j <= |s| && r == s[i..j]
      && AllSpace(s[..i]) && AllSpace(s[j..]) && Unpadded(r)
  }

  /** Number of leading white-space characters. */
  function LeadingSpace(s: string): (k: nat)
    ensures k <= |s|
    ensures AllSpace(s[..k])
    ensures k < |s| ==> !IsSpace(s[k])
  {
    if |s| == 0 || !IsSpace(s[0]) then 0 else 1 + LeadingSpace(s[1..])
  }

  /** Index where the trailing white space of `s` begins. */
  function TrailingStart(s: string): (j: nat)
    ensures j <= |s|
    ensures AllSpace(s[j..])
    ensures j > 0 ==> !IsSpace(s[j - 1])
  {
    if |s| == 0 || !IsSpace(s[|s| - 1]) then |s|
    else
      var j := TrailingStart(s[..|s| - 1]);
      assert s[j..] == s[..|s| - 1][j..] + [s[|s| - 1]];
      j
  }

  /** `s.trim()`. */
  function Trim(s: string): (r: string)
    ensures IsTrimOf(s, r)
    ensures |r| <= |s|
  {
    var i := LeadingSpace(s);
    var t := s[i..];
    var j := TrailingStart(t);
    assert t[..j] == s[i..i + j];
    assert s[i + j..] == t[j..];
    t[..j]
  }

  /** An unpadded string is its own trim. */
  lemma TrimUnpadded(s: string)
    requires Unpadded(s)
    ensures Trim(s) == s
  {
    assert LeadingSpace(s) == 0;
    assert s[0..] == s;
  }

  /** Trimming the trimmed string changes nothing. */
  lemma TrimIdempotent(s: string)
    ensures Trim(Trim(s)) == Trim(s)
  {
    TrimUnpadded(Trim(s));
  }

  lemma LeadingSpaceExact(s: string, i: nat)
    requires i <= |s| && AllSpace(s[..i])
    requires i < |s| ==> !IsSpace(s[i])
    ensures LeadingSpace(s) == i
    decreases i
  {
    if i > 0 {
      assert s[..i][0] == s[0];
      assert s[1..][..i - 1] == s[..i][1..];
      LeadingSpaceExact(s[1..], i - 1);
    }
  }

  lemma TrailingStartExact(s: string, j: nat)
    requires j <= |s| && AllSpace(s[j..])
    requires j > 0 ==> !IsSpace(s[j - 1])
    ensures TrailingStart(s) == j
    decreases |s| - j
  {
    if j < |s| {
      assert s[j..][|s| - 1 - j] == s[|s| - 1];
      assert s[..|s| - 1][j..] == s[j..][..|s| - 1 - j];
      TrailingStartExact(s[..|s| - 1], j);
    }
  }

  /** Cutting off two all-space margins around a text that starts and ends
      with a non-space character is what `Trim` does. */
  lemma TrimMargins(s: string, i: nat, j: nat)
    requires i < j <= |s|
    requires AllSpace(s[..i]) && AllSpace(s[j..])
    requires !IsSpace(s[i]) && !IsSpace(s[j - 1])
    ensures Trim(s) == s[i..j]
  {
    LeadingSpaceExact(s, i);
    var t := s[i..];
    assert t[j - i..] == s[j..];
    assert t[j - i - 1] == s[j - 1];
    TrailingStartExact(t, j - i);
    assert t[..j - i] == s[i..j];
  }

  /** A text of white space only trims to the empty string. */
  lemma TrimAllSpace(s: string, i: nat)
    requires i <= |s|
    requires AllSpace(s[..i]) && AllSpace(s[i..])
    ensures Trim(s) == ""
  {
    assert AllSpace(s) by {
      forall p | 0 <= p < |s| ensures IsSpace(s[p]) {
        if p < i { assert s[..i][p] == s[p]; } else { assert s[i..][p - i] == s[p]; }
      }
    }
    assert s[..|s|] == s;
    LeadingSpaceExact(s, |s|);
  }

  /** Trim is determined by the margins: any two trims of `s` agree. */
  lemma TrimUnique(s: string, r: string)
    requires IsTrimOf(s, r)
    ensures r == Trim(s)
  {
    var i, j :| 0 <= i <= j <= |s| && r == s[i..j]
      && AllSpace(s[..i]) && AllSpace(s[j..]) && Unpadded(r);
    if i < j {
      assert r[0] == s[i] && r[|r| - 1] == s[j - 1];
      TrimMargins(s, i, j);
    } else {
      TrimAllSpace(s, i);
    }
  }

  /** Case mapping does not touch white space, so trimming a lowered string
      leaves no upper-case letter. */
  lemma TrimKeepsNoUpper(s: string)
    requires NoUpper(s)
    ensures NoUpper(Trim(s))
  {
    var i, j :| 0 <= i <= j <= |s| && Trim(s) == s[i..j]
      && AllSpace(s[..i]) && AllSpace(s[j..]) && Unpadded(Trim(s));
    assert forall p :: 0 <= p < j - i ==> Trim(s)[p] == s[i + p];
  }

  /** A regex anchored with `^` matches a literal at the start of the text. */
  predicate StartsWith(s: string, prefix: string) {
    |prefix| <= |s| && s[..|prefix|] == prefix
  }

  /** `needle` occurs in `hay` starting at index `i`. */
  predicate OccursAt(hay: string, needle: string, i: int) {
    0 <= i && i + |needle| <= |hay| && hay[i..i + |needle|] == needle
  }

  /** `hay.includes(needle)`. */
  function Includes(hay: string, needle: string): (b: bool)
    ensures b <==> exists i :: OccursAt(hay, needle, i)
    decreases |hay|
  {
    if StartsWith(hay, needle) then
      assert OccursAt(hay, needle, 0);
      true
    else if |hay| == 0 then
      false
    else
      var b := Includes(hay[1..], needle);
      assert b ==> exists i :: OccursAt(hay, needle, i) by {
        if b {
          var i :| OccursAt(hay[1..], needle, i);
          assert hay[1..][i..i + |needle|] == hay[i + 1..i + 1 + |needle|];
          assert OccursAt(hay, needle, i + 1);
        }
      }
      assert (exists i :: OccursAt(hay, needle, i)) ==> b by {
        if exists i :: OccursAt(hay, needle, i) {
          var i :| OccursAt(hay, needle, i);
          if i == 0 {
            assert false;
          } else {
            assert hay[1..][i - 1..i - 1 + |needle|] == hay[i..i + |needle|];
            assert OccursAt(hay[1..], needle, i - 1);
          }
        }
      }
      b
  }
}
