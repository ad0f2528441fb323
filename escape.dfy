/** `escapeHTMLChars` of src/write.ts: four global replacements applied one
    after the other, `&` first. */
module Escape {

  /** `s.replace(/c/g, rep)` for a one-character pattern. */
  function ReplaceAll(s: string, c: char, rep: string): (r: string)
    decreases |s|
  {
    if s == [] then [] else (if s[0] == c then rep else [s[0]]) + ReplaceAll(s[1..], c, rep)
  }

  function EscapeHTMLChars(s: string): string {
    ReplaceAll(ReplaceAll(ReplaceAll(ReplaceAll(s, '&', "&amp;"), '<', "&lt;"), '>', "&gt;"), '"', "&quot;")
  }

  /** The independent, one-character-at-a-time reading of the same escaping. */
  function EscapeChar(c: char): string {
    if c == '&' then "&amp;"
    else if c == '<' then "&lt;"
    else if c == '>' then "&gt;"
    else if c == '"' then "&quot;"
    else [c]
  }

  function EscapeEach(s: string): string
    decreases |s|
  {
    if s == [] then [] else EscapeChar(s[0]) + EscapeEach(s[1..])
  }

  lemma {:induction false} ReplaceAllAppend(a: string, b: string, c: char, rep: string)
    ensures ReplaceAll(a + b, c, rep) == ReplaceAll(a, c, rep) + ReplaceAll(b, c, rep)
    decreases |a|
  {
    if a == [] {
      assert a + b == b;
    } else {
      assert (a + b)[0] == a[0];
      assert (a + b)[1..] == a[1..] + b;
      ReplaceAllAppend(a[1..], b, c, rep);
    }
  }

  lemma {:induction false} ReplaceAllAbsent(s: string, c: char, rep: string)
    requires c !in s
    ensures ReplaceAll(s, c, rep) == s
    decreases |s|
  {
    if s != [] {
      ReplaceAllAbsent(s[1..], c, rep);
    }
  }

  /** Escaping distributes over concatenation. */
  lemma EscapeAppend(a: string, b: string)
    ensures EscapeHTMLChars(a + b) == EscapeHTMLChars(a) + EscapeHTMLChars(b)
  {
    ReplaceAllAppend(a, b, '&', "&amp;");
    var a1, b1 := ReplaceAll(a, '&', "&amp;"), ReplaceAll(b, '&', "&amp;");
    ReplaceAllAppend(a1, b1, '<', "&lt;");
    var a2, b2 := ReplaceAll(a1, '<', "&lt;"), ReplaceAll(b1, '<', "&lt;");
    ReplaceAllAppend(a2, b2, '>', "&gt;");
    var a3, b3 := ReplaceAll(a2, '>', "&gt;"), ReplaceAll(b2, '>', "&gt;");
    ReplaceAllAppend(a3, b3, '"', "&quot;");
  }

  lemma ReplaceAllSingle(x: char, c: char, rep: string)
    ensures ReplaceAll([x], c, rep) == if x == c then rep else [x]
  {
    assert [x][1..] == [];
  }

  lemma EscapeOneChar(c: char)
    ensures EscapeHTMLChars([c]) == EscapeChar(c)
  {
    if c == '&' {
      EscapeAmp();
    } else {
      assert ReplaceAll([c], '&', "&amp;") == [c] by {
        ReplaceAllSingle(c, '&', "&amp;");
      }
      EscapeAfterAmp(c);
    }
  }

  /** `&` becomes its entity. */
  lemma EscapeAmp()
    ensures EscapeHTMLChars("&") == "&amp;"
  {
    ReplaceAllSingle('&', '&', "&amp;");
    AmpInert("&amp;");
  }

  /** The entity for `&` has none of the other three characters. */
  lemma AmpInert(e: string)
    requires e == "&amp;"
    ensures ReplaceAll(ReplaceAll(ReplaceAll(e, '<', "&lt;"), '>', "&gt;"), '"', "&quot;") == e
  {
    assert '<' !in e && '>' !in e && '"' !in e;
    ReplaceAllAbsent(e, '<', "&lt;");
    ReplaceAllAbsent(e, '>', "&gt;");
    ReplaceAllAbsent(e, '"', "&quot;");
  }

  /** A character other than `&` goes through the first replacement as it is. */
  lemma EscapeAfterAmp(c: char)
    requires c != '&'
    ensures ReplaceAll(ReplaceAll(ReplaceAll([c], '<', "&lt;"), '>', "&gt;"), '"', "&quot;") == EscapeChar(c)
  {
    ReplaceAllSingle(c, '<', "&lt;");
    if c == '<' {
      ReplaceAllAbsent("&lt;", '>', "&gt;");
      ReplaceAllAbsent("&lt;", '"', "&quot;");
    } else {
      ReplaceAllSingle(c, '>', "&gt;");
      if c == '>' {
        ReplaceAllAbsent("&gt;", '"', "&quot;");
      } else {
        ReplaceAllSingle(c, '"', "&quot;");
      }
    }
  }

  /** The chain of replacements escapes each character on its own: because
      `&` goes first, the entities introduced later are never re-escaped. */
  lemma {:induction false} EscapeIsPerChar(s: string)
    ensures EscapeHTMLChars(s) == EscapeEach(s)
    decreases |s|
  {
    if s == [] {
    } else {
      assert s == [s[0]] + s[1..];
      EscapeAppend([s[0]], s[1..]);
      EscapeOneChar(s[0]);
      EscapeIsPerChar(s[1..]);
    }
  }

  /** One of the four entities starts here. */
  predicate StartsEntity(s: string) {
    (|s| >= 5 && s[..5] == "&amp;") || (|s| >= 4 && s[..4] == "&lt;") ||
    (|s| >= 4 && s[..4] == "&gt;") || (|s| >= 6 && s[..6] == "&quot;")
  }

  ghost predicate Escaped(r: string) {
    && (forall i :: 0 <= i < |r| ==> r[i] != '<' && r[i] != '>' && r[i] != '"')
    && (forall i :: 0 <= i < |r| && r[i] == '&' ==> StartsEntity(r[i..]))
  }

  /** The escape of one character: only its first character can be `&`, and
      then an entity starts there. */
  lemma EscapeCharShape(c: char, rest: string)
    ensures var e := EscapeChar(c);
      && (forall i :: 0 <= i < |e| ==> e[i] != '<' && e[i] != '>' && e[i] != '"')
      && (forall i :: 0 < i < |e| ==> e[i] != '&')
      && (|e| > 0 && e[0] == '&' ==> StartsEntity((e + rest)[0..]))
  {
    var e := EscapeChar(c);
    if c == '&' {
      assert (e + rest)[0..][..5] == e;
    } else if c == '<' {
      assert (e + rest)[0..][..4] == e;
    } else if c == '>' {
      assert (e + rest)[0..][..4] == e;
    } else if c == '"' {
      assert (e + rest)[0..][..6] == e;
    }
  }

  lemma {:induction false} EscapeEachEscaped(s: string)
    ensures Escaped(EscapeEach(s))
    decreases |s|
  {
    if s != [] {
      EscapeEachEscaped(s[1..]);
      var e, rest := EscapeChar(s[0]), EscapeEach(s[1..]);
      var r := e + rest;
      assert r == EscapeEach(s);
      EscapeCharShape(s[0], rest);
      forall i | 0 <= i < |r| && r[i] == '&' ensures StartsEntity(r[i..]) {
        if i >= |e| {
          assert r[i..] == rest[i - |e|..];
        }
      }
      forall i | 0 <= i < |r| ensures r[i] != '<' && r[i] != '>' && r[i] != '"' {
        if i >= |e| {
          assert r[i] == rest[i - |e|];
        }
      }
    }
  }

  /** The escaped text has no raw `<`, `>` or `"`, and every `&` in it
      begins an entity. */
  lemma EscapeSafe(s: string)
    ensures Escaped(EscapeHTMLChars(s))
  {
    EscapeIsPerChar(s);
    EscapeEachEscaped(s);
  }

  /** The four characters the escaping rewrites. */
  predicate Special(c: char) {
    c == '&' || c == '<' || c == '>' || c == '"'
  }

  /** Text without the special characters is left alone. */
  lemma {:induction false} EscapeLeavesPlainText(s: string)
    requires forall i :: 0 <= i < |s| ==> !Special(s[i])
    ensures EscapeHTMLChars(s) == s
    decreases |s|
  {
    EscapeIsPerChar(s);
    if s != [] {
      EscapeLeavesPlainText(s[1..]);
      EscapeIsPerChar(s[1..]);
    }
  }

  /** Escaping never shortens, and a special character makes the text
      strictly longer and puts an `&` into it. */
  lemma {:induction false} EscapeEachGrows(s: string)
    ensures |EscapeEach(s)| >= |s|
    ensures (exists i :: 0 <= i < |s| && Special(s[i])) ==> |EscapeEach(s)| > |s| && '&' in EscapeEach(s)
    decreases |s|
  {
    if s != [] {
      EscapeEachGrows(s[1..]);
      var e, rest := EscapeChar(s[0]), EscapeEach(s[1..]);
      assert EscapeEach(s) == e + rest;
      if exists i :: 0 <= i < |s| && Special(s[i]) {
        if !Special(s[0]) {
          var i :| 0 <= i < |s| && Special(s[i]);
          assert Special(s[1..][i - 1]);
          assert '&' in rest;
        } else {
          assert e[0] == '&';
        }
      }
    }
  }

  /** `escapeHTMLChars` leaves exactly the texts without special characters
      unchanged. */
  lemma EscapeFixedIff(s: string)
    ensures EscapeHTMLChars(s) == s <==> forall i :: 0 <= i < |s| ==> !Special(s[i])
  {
    EscapeIsPerChar(s);
    EscapeEachGrows(s);
    if forall i :: 0 <= i < |s| ==> !Special(s[i]) {
      EscapeLeavesPlainText(s);
    }
  }

  /** There is no unescaping step: escaping twice differs from escaping once
      exactly when the text had something to escape, because the second pass
      escapes the ampersands the first one wrote. */
  lemma EscapeIdempotentIff(s: string)
    ensures EscapeHTMLChars(EscapeHTMLChars(s)) == EscapeHTMLChars(s) <==> forall i :: 0 <= i < |s| ==> !Special(s[i])
  {
    var t := EscapeHTMLChars(s);
    EscapeFixedIff(s);
    EscapeFixedIff(t);
    EscapeIsPerChar(s);
    EscapeEachGrows(s);
    if exists i :: 0 <= i < |s| && Special(s[i]) {
      var j :| 0 <= j < |t| && t[j] == '&';
      assert Special(t[j]);
    }
  }
}
