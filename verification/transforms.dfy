/** The per-entry value transforms of the mapping table (`TRANSFORMS`,
    `titleCase`, `applyTransform`). */
module Transforms {
  import opened Text

  /** The transform names the mapping editor offers. */
  const TransformNames: seq<string> := ["none", "trim", "lowercase", "uppercase", "titlecase"]

  predicate IsLetter(c: char) { IsUpper(c) || IsLower(c) }

  /** The regex class `\w`. */
  predicate IsWordChar(c: char) {
    IsLetter(c) || ('0' <= c <= '9') || c == '_'
  }

  /** Position `i` follows no word character, so a word character there sits
      right after a `\b` boundary. */
  predicate AtWordStart(s: string, i: nat)
    requires i < |s|
  {
    i == 0 || !IsWordChar(s[i - 1])
  }

  /** Letters are upper-case exactly at word starts. */
  predicate TitleCased(s: string) {
    forall i :: 0 <= i < |s| && IsLetter(s[i]) ==> (IsUpper(s[i]) <==> AtWordStart(s, i))
  }

  /** `titleCase`: lower-case everything, then upper-case every letter that
      follows a `\b` boundary. */
  function TitleCase(s: string): (r: string)
    ensures |r| == |s|
    ensures Lower(r) == Lower(s)
    ensures TitleCased(r)
  {
    var l := Lower(s);
    var r := seq(|l|, i requires 0 <= i < |l| =>
      if IsLower(l[i]) && AtWordStart(l, i) then ToUpperChar(l[i]) else l[i]);
    assert forall i :: 0 <= i < |r| ==> IsWordChar(r[i]) == IsWordChar(l[i]);
    r
  }

  /** Letters, case and word boundaries determine a title-cased string. */
  lemma TitleCasedUnique(a: string, b: string)
    requires TitleCased(a) && TitleCased(b)
    requires Lower(a) == Lower(b)
    ensures a == b
  {
    assert |a| == |b|;
    forall i | 0 <= i < |a|
      ensures IsWordChar(a[i]) == IsWordChar(b[i])
    {
      assert ToLowerChar(a[i]) == Lower(a)[i] == Lower(b)[i] == ToLowerChar(b[i]);
    }
    forall i | 0 <= i < |a|
      ensures a[i] == b[i]
    {
      assert ToLowerChar(a[i]) == Lower(a)[i] == Lower(b)[i] == ToLowerChar(b[i]);
      if IsLetter(a[i]) {
        assert IsLetter(b[i]);
        assert AtWordStart(a, i) == AtWordStart(b, i);
        assert IsUpper(a[i]) == IsUpper(b[i]);
      }
    }
  }

  lemma TitleCaseIdempotent(s: string)
    ensures TitleCase(TitleCase(s)) == TitleCase(s)
  {
    TitleCasedUnique(TitleCase(TitleCase(s)), TitleCase(s));
  }

  /** `applyTransform`: unknown names, `''` and `'none'` leave the value as it is. */
  function ApplyTransform(s: string, t: string): (r: string)
    ensures t !in TransformNames[1..] ==> r == s
    ensures t == "trim" ==> IsTrimOf(s, r)
    ensures t == "lowercase" ==> NoUpper(r) && Lower(r) == Lower(s)
    ensures t == "uppercase" ==> NoLower(r) && Upper(r) == Upper(s)
    ensures t == "titlecase" ==> TitleCased(r) && Lower(r) == Lower(s)
  {
    if t == "trim" then Trim(s)
    else if t == "lowercase" then LowerIdempotent(s); Lower(s)
    else if t == "uppercase" then UpperIdempotent(s); Upper(s)
    else if t == "titlecase" then TitleCase(s)
    else s
  }

  /** Applying the same transform twice is the same as applying it once. */
  lemma TransformIdempotent(s: string, t: string)
    ensures ApplyTransform(ApplyTransform(s, t), t) == ApplyTransform(s, t)
  {
    if t == "trim" {
      TrimIdempotent(s);
    } else if t == "lowercase" {
      LowerIdempotent(s);
    } else if t == "uppercase" {
      UpperIdempotent(s);
    } else if t == "titlecase" {
      TitleCaseIdempotent(s);
    }
  }
}
