/** `escapeHtml`: the five HTML-special characters become entities. */
module Html {
  import opened Text

  /** The characters the widget escapes. */
  predicate IsSpecial(c: char) {
    c == '&' || c == '<' || c == '>' || c == '"' || c == '\''
  }

  function EscapeChar(c: char): string {
    match c
    case '&' => "&amp;"
    case '<' => "&lt;"
    case '>' => "&gt;"
    case '"' => "&quot;"
    case '\'' => "&#39;"
    case _ => [c]
  }

  /** `escapeHtml`: every special character replaced by its entity, every
      other character kept. */
  function EscapeHtml(s: string): (r: string)
    ensures forall i :: 0 <= i < |r| ==> !IsSpecial(r[i]) || r[i] == '&'
    ensures AmpsAreEntities(r)
    ensures |r| >= |s|
    decreases |s|
  {
    if |s| == 0 then ""
    else
      var head := EscapeChar(s[0]);
      var rest := EscapeHtml(s[1..]);
      assert forall i :: 0 <= i < |head| ==> !IsSpecial(head[i]) || head[i] == '&';
      EscapeCharEntities(s[0]);
      AmpsAppend(head, rest);
      head + rest
  }

  /** One of the five entities starts the text. */
  predicate EntityAt(s: string) {
    || StartsWith(s, "&amp;")
    || StartsWith(s, "&lt;")
    || StartsWith(s, "&gt;")
    || StartsWith(s, "&quot;")
    || StartsWith(s, "&#39;")
  }

  /** Every `&` in the text starts an entity: no `&` of the input survives
      bare, so the browser reads back exactly the escaped characters. */
  predicate AmpsAreEntities(r: string) {
    forall i :: 0 <= i < |r| && r[i] == '&' ==> EntityAt(r[i..])
  }

  lemma EscapeCharEntities(c: char)
    ensures AmpsAreEntities(EscapeChar(c))
  {
    var e := EscapeChar(c);
    forall i | 0 <= i < |e| && e[i] == '&' ensures EntityAt(e[i..]) {
      assert i == 0;
      assert e[0..] == e;
    }
  }

  /** An entity at the front stays one when text is appended. */
  lemma EntityAtAppend(x: string, b: string)
    requires EntityAt(x)
    ensures EntityAt(x + b)
  {
    assert forall n :: 0 <= n <= |x| ==> (x + b)[..n] == x[..n];
  }

  lemma AmpsAppend(a: string, b: string)
    requires AmpsAreEntities(a) && AmpsAreEntities(b)
    ensures AmpsAreEntities(a + b)
  {
    var r := a + b;
    forall i | 0 <= i < |r| && r[i] == '&' ensures EntityAt(r[i..]) {
      if i < |a| {
        assert r[i..] == a[i..] + b;
        assert a[i] == '&';
        EntityAtAppend(a[i..], b);
      } else {
        assert r[i..] == b[i - |a|..];
        assert b[i - |a|] == '&';
      }
    }
  }

  /** The decoder for exactly these five entities: the independent
      reading of what `escapeHtml` writes. */
  function UnescapeHtml(s: string): string
    decreases |s|
  {
    if |s| == 0 then ""
    else if s[0] != '&' then [s[0]] + UnescapeHtml(s[1..])
    else if StartsWith(s, "&amp;") then "&" + UnescapeHtml(s[5..])
    else if StartsWith(s, "&lt;") then "<" + UnescapeHtml(s[4..])
    else if StartsWith(s, "&gt;") then ">" + UnescapeHtml(s[4..])
    else if StartsWith(s, "&quot;") then "\"" + UnescapeHtml(s[6..])
    else if StartsWith(s, "&#39;") then "'" + UnescapeHtml(s[5..])
    else [s[0]] + UnescapeHtml(s[1..])
  }

  /** The decoder reads one escaped character back from the front. */
  lemma UnescapeHead(c: char, rest: string)
    ensures UnescapeHtml(EscapeChar(c) + rest) == [c] + UnescapeHtml(rest)
  {
    match c
    case '&' => UnescapeAmp(rest);
    case '<' => UnescapeLt(rest);
    case '>' => UnescapeGt(rest);
    case '"' => UnescapeQuot(rest);
    case '\'' => UnescapeApos(rest);
    case _ =>
      var u := EscapeChar(c) + rest;
      assert u[0] == c && u[1..] == rest;
  }

  lemma UnescapeAmp(rest: string)
    ensures UnescapeHtml("&amp;" + rest) == "&" + UnescapeHtml(rest)
  {
    var u := "&amp;" + rest;
    assert u[..5] == "&amp;" && u[5..] == rest;
  }

  lemma UnescapeLt(rest: string)
    ensures UnescapeHtml("&lt;" + rest) == "<" + UnescapeHtml(rest)
  {
    var u := "&lt;" + rest;
    assert u[..4] == "&lt;" && u[4..] == rest && u[1] == 'l';
  }

  lemma UnescapeGt(rest: string)
    ensures UnescapeHtml("&gt;" + rest) == ">" + UnescapeHtml(rest)
  {
    var u := "&gt;" + rest;
    assert u[..4] == "&gt;" && u[4..] == rest && u[1] == 'g';
  }

  lemma UnescapeQuot(rest: string)
    ensures UnescapeHtml("&quot;" + rest) == "\"" + UnescapeHtml(rest)
  {
    var u := "&quot;" + rest;
    assert u[..6] == "&quot;" && u[6..] == rest && u[1] == 'q';
  }

  lemma UnescapeApos(rest: string)
    ensures UnescapeHtml("&#39;" + rest) == "'" + UnescapeHtml(rest)
  {
    var u := "&#39;" + rest;
    assert u[..5] == "&#39;" && u[5..] == rest && u[1] == '#';
  }

  /** Decoding the escaped text gives the original back, so escaping loses
      nothing. */
  lemma {:induction false} EscapeRoundTrip(s: string)
    ensures UnescapeHtml(EscapeHtml(s)) == s
    decreases |s|
  {
    if |s| > 0 {
      EscapeRoundTrip(s[1..]);
      UnescapeHead(s[0], EscapeHtml(s[1..]));
      assert s == [s[0]] + s[1..];
    }
  }

  /** Text without special characters is left as it is, and only such text. */
  lemma {:induction false} EscapeIdentity(s: string)
    ensures EscapeHtml(s) == s <==> forall i :: 0 <= i < |s| ==> !IsSpecial(s[i])
    decreases |s|
  {
    if |s| > 0 {
      EscapeIdentity(s[1..]);
      var rest := EscapeHtml(s[1..]);
      if IsSpecial(s[0]) {
        assert |EscapeChar(s[0])| >= 4;
        assert |EscapeHtml(s)| > |s|;
      } else {
        assert EscapeHtml(s) == [s[0]] + rest;
        assert s == [s[0]] + s[1..];
        assert (forall i :: 0 <= i < |s| ==> !IsSpecial(s[i])) <==> (forall i :: 0 <= i < |s| - 1 ==> !IsSpecial(s[1..][i]));
      }
    }
  }
}
