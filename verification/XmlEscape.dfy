/** XmlTestReporter: escaping by five replacements in place, one character at a time. */
module XmlEscape {
  import opened Text

  /** The five predefined entities of section 4.6 of XML 1.0, in the order they are replaced. */
  const SPECIALS: string := "&<>'\""
  const ENTITIES: seq<string> := ["&amp;", "&lt;", "&gt;", "&apos;", "&quot;"]

  /** Every c replaced. */
  function Replaced(s: string, c: char, text: string): string {
    if s == "" then "" else (if s[0] == c then text else [s[0]]) + Replaced(s[1..], c, text)
  }

  lemma {:induction false} ReplacedAppend(a: string, b: string, c: char, text: string)
    ensures Replaced(a + b, c, text) == Replaced(a, c, text) + Replaced(b, c, text)
  {
    if a == "" {
      assert a + b == b;
    } else {
      ReplacedAppend(a[1..], b, c, text);
      assert (a + b)[1..] == a[1..] + b;
      Associates(if a[0] == c then text else [a[0]], Replaced(a[1..], c, text), Replaced(b, c, text));
    }
  }

  lemma {:induction false} NothingReplaced(s: string, c: char, text: string)
    requires c !in s
    ensures Replaced(s, c, text) == s
  {
    if s != "" { NothingReplaced(s[1..], c, text); }
  }

  lemma {:induction false} FindSkips(s: string, c: char, i: nat, j: nat)
    requires i <= j <= |s| && forall k :: i <= k < j ==> s[k] != c
    ensures Find(s, c, i) == Find(s, c, j)
    decreases j - i
  {
    if i < j { FindSkips(s, c, i + 1, j); }
  }

  /** With an empty text, the character behind a removed c is not looked at, and so may be a c that stays. */
  function Thinned(s: string, c: char): string {
    if s == "" then ""
    else if s[0] == c then s[1..if |s| == 1 then 1 else 2] + Thinned(s[if |s| == 1 then 1 else 2..], c)
    else [s[0]] + Thinned(s[1..], c)
  }

  /** What the loop makes of a string. */
  function Processed(s: string, c: char, text: string): string {
    if text == "" then Thinned(s, c) else Replaced(s, c, text)
  }

  lemma {:induction false} NothingThinned(s: string, c: char)
    requires c !in s
    ensures Thinned(s, c) == s
  {
    if s != "" { NothingThinned(s[1..], c); }
  }

  /** One replacement: up to the found c nothing changes. */
  lemma ReplacedFirst(s: string, c: char, text: string, n: nat)
    requires n < |s| && s[n] == c && forall k :: 0 <= k < n ==> s[k] != c
    ensures Replaced(s, c, text) == s[..n] + text + Replaced(s[n + 1..], c, text)
  {
    assert s == s[..n] + s[n..];
    ReplacedAppend(s[..n], s[n..], c, text);
    NothingReplaced(s[..n], c, text);
    assert s[n..][1..] == s[n + 1..];
  }

  lemma {:induction false} ThinnedBehind(a: string, b: string, c: char)
    requires c !in a
    ensures Thinned(a + b, c) == a + Thinned(b, c)
  {
    if a == "" {
      assert a + b == b;
    } else {
      ThinnedBehind(a[1..], b, c);
      assert (a + b)[1..] == a[1..] + b;
      Associates([a[0]], a[1..], Thinned(b, c));
    }
  }

  lemma ThinnedFirst(s: string, c: char, n: nat)
    requires n < |s| && s[n] == c && forall k :: 0 <= k < n ==> s[k] != c
    ensures var skip := if n + 1 < |s| then n + 2 else n + 1;
      Thinned(s, c) == s[..n] + s[n + 1..skip] + Thinned(s[skip..], c)
  {
    var rest := s[n..];
    assert s == s[..n] + rest;
    ThinnedBehind(s[..n], rest, c);
    ThinnedHead(rest, c);
    hide Thinned;
    var k := if n + 1 < |s| then 2 else 1;
    assert rest[1..k] == s[n + 1..n + k] && rest[k..] == s[n + k..];
    Associates(s[..n], rest[1..k], Thinned(rest[k..], c));
  }

  lemma ThinnedHead(s: string, c: char)
    requires s != "" && s[0] == c
    ensures var k := if |s| == 1 then 1 else 2; Thinned(s, c) == s[1..k] + Thinned(s[k..], c)
  {
  }

  /** What one round of the loop puts in the place of the found c and what it skips, and where the rest
      begins that it has not looked at. */
  function Skip(s: string, n: nat, text: string): (skip: nat)
    requires n < |s|
    ensures n < skip <= |s|
  {
    if text == "" && n + 1 < |s| then n + 2 else n + 1
  }

  lemma ProcessedFirst(s: string, c: char, text: string, n: nat)
    requires n < |s| && s[n] == c && forall k :: 0 <= k < n ==> s[k] != c
    ensures var skip := Skip(s, n, text);
      Processed(s, c, text) == s[..n] + text + s[n + 1..skip] + Processed(s[skip..], c, text)
  {
    var skip := Skip(s, n, text);
    if text == "" {
      ThinnedFirst(s, c, n);
      assert s[..n] + text == s[..n];
    } else {
      ReplacedFirst(s, c, text, n);
      assert s[..n] + text + s[n + 1..skip] == s[..n] + text;
    }
  }

  lemma NothingProcessed(s: string, c: char, text: string)
    requires c !in s
    ensures Processed(s, c, text) == s
  {
    NothingThinned(s, c);
    NothingReplaced(s, c, text);
  }

  /** The next search starts one behind the replaced c; the texts agree on what is there. */
  lemma SearchGoesOn(done: string, rest: string, c: char, text: string, n: nat)
    requires n < |rest| && (text == "" || c !in text[1..])
    ensures var skip := Skip(rest, n, text);
      var front := done + (rest[..n] + text + rest[n + 1..skip]);
      && done + rest[..n] + text + rest[n + 1..] == front + rest[skip..]
      && Find(front + rest[skip..], c, |done| + n + 1) == Find(front + rest[skip..], c, |front|)
  {
    hide Find;
    var skip := Skip(rest, n, text);
    var front := done + (rest[..n] + text + rest[n + 1..skip]);
    assert rest[n + 1..] == rest[n + 1..skip] + rest[skip..];
    var next := front + rest[skip..];
    if text != "" {
      forall k | |done| + n + 1 <= k < |front| ensures next[k] != c {
        assert next[k] == text[1..][k - |done| - n - 1];
      }
      FindSkips(next, c, |done| + n + 1, |front|);
    }
  }

  /** One round of the loop: what is done grows, and the rest shrinks. */
  lemma Round(done: string, rest: string, c: char, text: string, pos: int) returns (front: string, back: string)
    requires pos == Find(done + rest, c, |done|) && pos != -1 && (text == "" || c !in text[1..])
    ensures |back| < |rest| && (c in back ==> c in rest)
    ensures var r := done + rest; r[..pos] + text + r[pos + 1..] == front + back
    ensures Find(front + back, c, pos + 1) == Find(front + back, c, |front|)
    ensures front + Processed(back, c, text) == done + Processed(rest, c, text)
  {
    FoundAt(done, rest, c, pos);
    var n := pos - |done|;
    ProcessedFirst(rest, c, text, n);
    SearchGoesOn(done, rest, c, text, n);
    var skip := Skip(rest, n, text);
    hide *;
    front, back := done + (rest[..n] + text + rest[n + 1..skip]), rest[skip..];
    Associates(done, rest[..n] + text + rest[n + 1..skip], Processed(back, c, text));
  }

  lemma FoundAt(done: string, rest: string, c: char, pos: nat)
    requires pos == Find(done + rest, c, |done|)
    ensures var r, n := done + rest, pos - |done|;
      && 0 <= n < |rest| && rest[n] == c && (forall k :: 0 <= k < n ==> rest[k] != c)
      && r[..pos] == done + rest[..n] && r[pos + 1..] == rest[n + 1..]
  {
    var r, n := done + rest, pos - |done|;
    assert forall k :: 0 <= k < n ==> rest[k] == r[|done| + k];
  }

  /** Replaces every c. The search goes on one behind the start of the new text. If the new text has a c
      further on, the loop never ends once it has found a c. */
  method ReplaceChar(str: string, c: char, replacement: string) returns (r: string)
    requires c in str && replacement != "" ==> c !in replacement[1..]
    ensures r == Processed(str, c, replacement)
    ensures replacement != "" ==> r == Replaced(str, c, replacement)
  {
    ProcessedIs(str, c, replacement);
    hide Replaced, Processed, Find;
    r := str;
    var pos := Find(r, c, 0);
    ghost var done, rest := "", str;
    assert done + rest == r && "" + Processed(str, c, replacement) == Processed(str, c, replacement);
    while pos != -1
      invariant c in rest ==> c in str
      invariant r == done + rest && done + Processed(rest, c, replacement) == Processed(str, c, replacement)
      invariant pos == Find(r, c, |done|)
      decreases |rest|
    {
      assert r[pos] == rest[pos - |done|];
      done, rest := Round(done, rest, c, replacement, pos);
      r := r[..pos] + replacement + r[pos + 1..];
      pos := Find(r, c, pos + 1);
    }
    NothingLeft(done, rest, c);
    NothingProcessed(rest, c, replacement);
  }

  lemma NothingLeft(done: string, rest: string, c: char)
    requires Find(done + rest, c, |done|) == -1
    ensures c !in rest
  {
    assert forall k :: 0 <= k < |rest| ==> rest[k] == (done + rest)[|done| + k];
  }

  lemma ProcessedIs(s: string, c: char, text: string)
    ensures text != "" ==> Processed(s, c, text) == Replaced(s, c, text)
  {
  }

  /** With a c behind the first position of the new text, a round that finds a c leads to another one. */
  lemma NeverEnds(s: string, c: char, text: string, pos: nat)
    requires pos < |s| && s[pos] == c && text != "" && c in text[1..]
    ensures Find(s[..pos] + text + s[pos + 1..], c, pos + 1) != -1
  {
    var next := s[..pos] + text + s[pos + 1..];
    var k :| 0 <= k < |text[1..]| && text[1..][k] == c;
    assert next[pos + 1 + k] == c;
  }

  // ---- The five replacements together ----

  /** A character after the first k replacements. */
  function EscapedChar(ch: char, k: nat): string
    requires k <= 5
  {
    if k >= 1 && ch == '&' then "&amp;"
    else if k >= 2 && ch == '<' then "&lt;"
    else if k >= 3 && ch == '>' then "&gt;"
    else if k >= 4 && ch == '\'' then "&apos;"
    else if k >= 5 && ch == '\"' then "&quot;"
    else [ch]
  }

  /** Each character of s escaped on its own. */
  function Escaped(s: string, k: nat): string
    requires k <= 5
  {
    if s == "" then "" else EscapedChar(s[0], k) + Escaped(s[1..], k)
  }

  lemma {:induction false} NotEscapedYet(s: string)
    ensures Escaped(s, 0) == s
  {
    if s != "" { NotEscapedYet(s[1..]); }
  }

  /** A later replacement does not touch the entities of the earlier ones: only & occurs in them, and it
      goes first. */
  lemma CharReplaced(ch: char, k: nat)
    requires k < 5
    ensures Replaced(EscapedChar(ch, k), SPECIALS[k], ENTITIES[k]) == EscapedChar(ch, k + 1)
  {
    if ch == SPECIALS[k] {
      assert EscapedChar(ch, k) == [ch];
      assert [ch][1..] == "" && ENTITIES[k] + "" == ENTITIES[k];
    } else {
      EntitiesDiffer(ch, k);
      NothingReplaced(EscapedChar(ch, k), SPECIALS[k], ENTITIES[k]);
    }
  }

  lemma {:induction false} EntitiesDiffer(ch: char, k: nat)
    requires k < 5 && ch != SPECIALS[k]
    ensures SPECIALS[k] !in EscapedChar(ch, k)
  {
  }

  lemma {:induction false} OneReplacement(s: string, k: nat)
    requires k < 5
    ensures Replaced(Escaped(s, k), SPECIALS[k], ENTITIES[k]) == Escaped(s, k + 1)
  {
    if s != "" {
      hide EscapedChar, Replaced;
      ReplacedAppend(EscapedChar(s[0], k), Escaped(s[1..], k), SPECIALS[k], ENTITIES[k]);
      CharReplaced(s[0], k);
      OneReplacement(s[1..], k);
    }
  }

  /** The five replacements, one after the other, are one replacement of each character on its own. */
  method Escape(value: string) returns (escaped: string)
    ensures escaped == Escaped(value, 5)
  {
    hide Escaped, Replaced;
    escaped := value;
    NotEscapedYet(value);
    escaped := ReplaceChar(escaped, '&', "&amp;");
    OneReplacement(value, 0);
    escaped := ReplaceChar(escaped, '<', "&lt;");
    OneReplacement(value, 1);
    escaped := ReplaceChar(escaped, '>', "&gt;");
    OneReplacement(value, 2);
    escaped := ReplaceChar(escaped, '\'', "&apos;");
    OneReplacement(value, 3);
    escaped := ReplaceChar(escaped, '\"', "&quot;");
    OneReplacement(value, 4);
  }

  lemma {:induction false} EscapedAppend(a: string, b: string)
    ensures Escaped(a + b, 5) == Escaped(a, 5) + Escaped(b, 5)
  {
    if a == "" {
      assert a + b == b;
    } else {
      EscapedAppend(a[1..], b);
      assert (a + b)[1..] == a[1..] + b;
      hide EscapedChar;
      Associates(EscapedChar(a[0], 5), Escaped(a[1..], 5), Escaped(b, 5));
    }
  }

  /** Each of the five special characters becomes the entity for it, wherever it stands, and every other
      character stays. */
  lemma EscapedPart(a: string, c: char, b: string)
    ensures Escaped(a + [c] + b, 5) == Escaped(a, 5) + Escaped([c], 5) + Escaped(b, 5)
    ensures Escaped("&", 5) == "&amp;" && Escaped("<", 5) == "&lt;" && Escaped(">", 5) == "&gt;"
    ensures Escaped("'", 5) == "&apos;" && Escaped("\"", 5) == "&quot;"
    ensures c !in "&<>'\"" ==> Escaped([c], 5) == [c]
  {
    hide Escaped;
    EscapedAppend(a, [c]);
    EscapedAppend(a + [c], b);
    OneEscaped('&');
    OneEscaped('<');
    OneEscaped('>');
    OneEscaped('\'');
    OneEscaped('\"');
    OneEscaped(c);
  }

  lemma OneEscaped(c: char)
    ensures Escaped([c], 5) == EscapedChar(c, 5)
  {
    assert [c][1..] == "" && EscapedChar(c, 5) + "" == EscapedChar(c, 5);
  }

  // ---- Decoding ----

  /** The entity a text starts with: its number, or -1. */
  function EntityAt(s: string): (r: int)
    ensures -1 <= r < 5 && (r >= 0 ==> ENTITIES[r] <= s)
  {
    if "&amp;" <= s then 0
    else if "&lt;" <= s then 1
    else if "&gt;" <= s then 2
    else if "&apos;" <= s then 3
    else if "&quot;" <= s then 4
    else -1
  }

  /** What an XML reader makes of a text: the predefined entities stand for their characters. */
  function Decoded(s: string): string
    decreases |s|
  {
    var e := EntityAt(s);
    if s == "" then ""
    else if e == -1 then [s[0]] + Decoded(s[1..])
    else [SPECIALS[e]] + Decoded(s[|ENTITIES[e]|..])
  }

  /** No raw special character other than &, and every & starts one of the five entities. */
  ghost predicate WellFormed(s: string) {
    forall i :: 0 <= i < |s| && s[i] in SPECIALS ==> s[i] == '&' && EntityAt(s[i..]) >= 0
  }

  /** No entity starts another one. */
  lemma EntityFound(e: nat, rest: string)
    requires e < 5
    ensures EntityAt(ENTITIES[e] + rest) == e
  {
    var s := ENTITIES[e] + rest;
    assert s[1] == ENTITIES[e][1] && s[2] == ENTITIES[e][2];
    assert s[..|ENTITIES[e]|] == ENTITIES[e];
  }

  lemma OnlyAmpersand(s: string)
    requires s == "" || s[0] != '&'
    ensures EntityAt(s) == -1
  {
  }

  /** Escaping a character gives the entity of a special character, and any other character itself. */
  lemma EscapedCharIs(c: char) returns (e: int)
    ensures -1 <= e < 5
    ensures if e >= 0 then c == SPECIALS[e] && EscapedChar(c, 5) == ENTITIES[e]
      else c !in SPECIALS && EscapedChar(c, 5) == [c]
  {
    e := if c == '&' then 0 else if c == '<' then 1 else if c == '>' then 2 else if c == '\'' then 3
      else if c == '\"' then 4 else -1;
  }

  lemma DecodedEntity(e: nat, rest: string)
    requires e < 5
    ensures Decoded(ENTITIES[e] + rest) == [SPECIALS[e]] + Decoded(rest)
  {
    EntityFound(e, rest);
    assert (ENTITIES[e] + rest)[|ENTITIES[e]|..] == rest;
  }

  lemma DecodedPlain(c: char, rest: string)
    requires c != '&'
    ensures Decoded([c] + rest) == [c] + Decoded(rest)
  {
    OnlyAmpersand([c] + rest);
    assert ([c] + rest)[1..] == rest;
  }

  /** Reading back what was written gives the original text, whatever it is. */
  lemma {:induction false} DecodeEscaped(s: string)
    ensures Decoded(Escaped(s, 5)) == s
  {
    if s != "" {
      hide Decoded, EscapedChar;
      var rest := Escaped(s[1..], 5);
      DecodeEscaped(s[1..]);
      var e := EscapedCharIs(s[0]);
      if e >= 0 { DecodedEntity(e, rest); } else { DecodedPlain(s[0], rest); }
      assert s == [s[0]] + s[1..];
    }
  }

  lemma WellFormedAppend(a: string, b: string)
    requires WellFormed(b)
    requires forall i :: 0 <= i < |a| && a[i] in SPECIALS ==> a[i] == '&' && EntityAt(a[i..] + b) >= 0
    ensures WellFormed(a + b)
  {
    hide EntityAt;
    forall i | 0 <= i < |a + b| && (a + b)[i] in SPECIALS
      ensures (a + b)[i] == '&' && EntityAt((a + b)[i..]) >= 0
    {
      if i < |a| {
        assert (a + b)[i..] == a[i..] + b;
      } else {
        assert (a + b)[i..] == b[i - |a|..];
      }
    }
  }

  lemma EntityInside(e: nat, i: nat)
    requires e < 5 && i < |ENTITIES[e]|
    ensures ENTITIES[e][i] in SPECIALS <==> i == 0
    ensures ENTITIES[e][0] == '&'
  {
  }

  /** The output has no raw special character, and every & in it starts an entity. */
  lemma {:induction false} EscapedWellFormed(s: string)
    ensures WellFormed(Escaped(s, 5))
  {
    if s != "" {
      hide EscapedChar, WellFormed;
      EscapedWellFormed(s[1..]);
      var e := EscapedCharIs(s[0]);
      var first, rest := EscapedChar(s[0], 5), Escaped(s[1..], 5);
      forall i | 0 <= i < |first| && first[i] in SPECIALS ensures first[i] == '&' && EntityAt(first[i..] + rest) >= 0 {
        if e >= 0 {
          EntityInside(e, i);
          EntityFound(e, rest);
          assert first[0..] == first;
        }
      }
      WellFormedAppend(first, rest);
    } else {
      assert WellFormed("");
    }
  }

  /** Every such text is the escape of what it decodes to, so escaping is a bijection between all texts
      and the well-formed ones. */
  lemma {:induction false} EscapeDecoded(s: string)
    requires WellFormed(s)
    ensures Escaped(Decoded(s), 5) == s
    decreases |s|
  {
    if s == "" {
      assert Decoded("") == "";
    } else {
      hide Decoded, Escaped, WellFormed, EntityAt;
      var e := EntityAt(s);
      if e >= 0 {
        var rest := WithoutPrefix(s, ENTITIES[e]);
        EscapeDecoded(rest);
        EscapeDecodedEntity(e, rest);
      } else {
        var rest := WithoutPrefix(s, [s[0]]);
        PlainHead(s);
        EscapeDecoded(rest);
        EscapeDecodedPlain(s[0], rest);
      }
    }
  }

  lemma WithoutPrefix(s: string, a: string) returns (rest: string)
    requires a <= s && a != "" && WellFormed(s)
    ensures s == a + rest && |rest| < |s| && WellFormed(rest)
  {
    rest := s[|a|..];
    WellFormedRest(s, |a|);
  }

  lemma EscapeDecodedEntity(e: nat, rest: string)
    requires e < 5 && Escaped(Decoded(rest), 5) == rest
    ensures Escaped(Decoded(ENTITIES[e] + rest), 5) == ENTITIES[e] + rest
  {
    hide Decoded, EscapedChar, Escaped;
    DecodedEntity(e, rest);
    EscapedHead(SPECIALS[e], Decoded(rest));
    SpecialEscaped(e);
  }

  lemma EscapeDecodedPlain(c: char, rest: string)
    requires c !in SPECIALS && Escaped(Decoded(rest), 5) == rest
    ensures Escaped(Decoded([c] + rest), 5) == [c] + rest
  {
    hide Decoded, EscapedChar, Escaped;
    DecodedPlain(c, rest);
    EscapedHead(c, Decoded(rest));
    var e := EscapedCharIs(c);
  }

  lemma SpecialEscaped(e: nat)
    requires e < 5
    ensures EscapedChar(SPECIALS[e], 5) == ENTITIES[e]
  {
  }

  lemma PlainHead(s: string)
    requires s != "" && WellFormed(s) && EntityAt(s) == -1
    ensures s[0] !in SPECIALS
  {
    assert s[0..] == s;
  }

  lemma EscapedHead(c: char, rest: string)
    ensures Escaped([c] + rest, 5) == EscapedChar(c, 5) + Escaped(rest, 5)
  {
    assert ([c] + rest)[1..] == rest;
  }

  lemma WellFormedRest(s: string, n: nat)
    requires WellFormed(s) && n <= |s|
    ensures WellFormed(s[n..])
  {
    hide EntityAt;
    forall i | 0 <= i < |s[n..]| && s[n..][i] in SPECIALS ensures s[n..][i] == '&' && EntityAt(s[n..][i..]) >= 0 {
      assert s[n..][i..] == s[n + i..] && s[n..][i] == s[n + i];
    }
  }
}
