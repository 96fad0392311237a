/** Conversion patterns written out as characters and directives, and the text each of them stands for: the
    fields of the event, how their widths cut and pad them, and how long a width stays in force. */
module PatternText {
  import opened Text
  import opened PatternMeaning

  // ---- Widths ----

  /** A field with widths has |min| characters, or as many as are left of it after the cut to max, if that
      is more. What is left of it stands on the left for a negative min and otherwise on the right, and all
      the rest is blanks. */
  lemma ModifyIs(s: string, min: int, max: nat)
    ensures var r, n := Modify(s, min, max), if 0 < max < |s| then max else |s|;
      && |r| == (if Abs(min) > n then Abs(min) else n)
      && (min < 0 ==> r[..n] == s[..n] && forall k :: n <= k < |r| ==> r[k] == ' ')
      && (min >= 0 ==> r[|r| - n..] == s[..n] && forall k :: 0 <= k < |r| - n ==> r[k] == ' ')
  {
  }

  // ---- Fields ----

  /** What each conversion character shows of an event. */
  lemma FieldShows(postfix: string, e: Event)
    ensures FieldText('m', postfix, e) == e.message && FieldText('p', postfix, e) == e.priorityName
    ensures FieldText('x', postfix, e) == e.ndc && FieldText('t', postfix, e) == e.threadName
    ensures FieldText('r', postfix, e) == e.sinceStart && FieldText('R', postfix, e) == e.seconds
    ensures FieldText('u', postfix, e) == e.clock
    ensures FieldText('c', "", e) == e.categoryName
  {
    assert CategoryBegin(e.categoryName, -1) == -1;
  }

  predicate AllSpaces(s: string) {
    forall k :: 0 <= k < |s| ==> s[k] in " \t\n\U{0B}\U{0C}\r"
  }

  lemma {:induction false} SpacesEndIs(p: string, i: nat, j: nat)
    requires i <= j <= |p| && AllSpaces(p[i..j]) && (j < |p| ==> p[j] !in " \t\n\U{0B}\U{0C}\r")
    ensures SpacesEnd(p, i) == j
    decreases j - i
  {
    if i < j {
      assert p[i..j][0] == p[i] && p[i + 1..j] == p[i..j][1..];
      SpacesEndIs(p, i + 1, j);
    }
  }

  /** A number written at i: what follows is no digit. */
  lemma NumberBack(p: string, i: nat, sign: string, n: nat)
    requires sign in {"", "-", "+"} && Here(p, i, sign + Digits(n))
    requires var e := i + |sign| + |Digits(n)|; e < |p| ==> !IsDigit(p[e])
    ensures NumberAt(p, i) == Some((sign == "-", n, i + |sign| + |Digits(n)|))
  {
    hide *;
    HereSplit(p, i, sign, Digits(n));
    DigitsHere(p, i + |sign|, n);
    SignHere(p, i, sign);
    DigitIsNoSign(p[i + |sign|]);
    NumberAtIs(p, i, i + |sign|, i + |sign| + |Digits(n)|);
  }

  lemma SignHere(p: string, i: nat, sign: string)
    requires sign in {"", "-", "+"} && Here(p, i, sign)
    ensures sign != "" ==> |sign| == 1 && i < |p| && (p[i] == '-' <==> sign == "-") && (p[i] == '-' || p[i] == '+')
  {
    assert sign != "" ==> p[i] == p[i..i + |sign|][0];
  }

  lemma DigitIsNoSign(c: char)
    requires IsDigit(c)
    ensures c != '-' && c != '+'
  {
  }

  lemma NumberAtIs(p: string, i: nat, d: nat, e: nat)
    requires i < |p| && d <= |p| && e == DigitsEnd(p, d) && e > d
    requires d == if p[i] == '-' || p[i] == '+' then i + 1 else i
    ensures NumberAt(p, i) == Some((p[i] == '-', Numeral(p[d..e]), e))
  {
    hide Numeral;
  }

  /** The number in a postfix: white space, a sign and the text behind the digits do not matter, and a number
      that no int can hold counts as the nearest one. */
  lemma PrecisionIs(spaces: string, sign: string, n: nat, tail: string)
    requires AllSpaces(spaces) && sign in {"", "-", "+"} && (tail != "" ==> !IsDigit(tail[0]))
    ensures Precision(spaces + (sign + Digits(n)) + tail)
      == if sign == "-" then -1 * Min(n, 0x8000_0000) else Min(n, 0x7fff_ffff)
  {
    hide Digits, NumberAt, SpacesEnd;
    NumberRead(spaces, sign, n, tail);
  }

  /** Where there is no number, the precision is 0, which means the whole name. */
  lemma NoPrecision(spaces: string, sign: string, tail: string)
    requires AllSpaces(spaces) && sign in {"", "-", "+"} && spaces + sign + tail != ""
    requires tail != "" ==> !IsDigit(tail[0])
    requires sign == "" && tail != "" ==> tail[0] !in "-+ \t\n\U{0B}\U{0C}\r"
    ensures Precision(spaces + sign + tail) == 0
  {
    hide SpacesEnd;
    var p, i := spaces + sign + tail, |spaces|;
    assert p[..i] == spaces && (sign != "" ==> p[i] == sign[0]) && (tail != "" ==> p[i + |sign|] == tail[0]);
    SpacesEndIs(p, 0, i);
    DigitsEndIs(p, i + |sign|, i + |sign|);
    assert NumberAt(p, i) == None;
    assert SpacesEnd(p, 0) == i;
  }

  /** %c shows all of the name without a precision of at least 1, and otherwise what is left of it from a
      certain position on: the last n components, except exactly for a leading dot and n beyond the dots. */
  lemma CategoryShown(postfix: string, e: Event) returns (begin: nat)
    ensures var name, n := e.categoryName, Precision(postfix);
      && begin <= |name| && FieldText('c', postfix, e) == name[begin..]
      && (n < 1 ==> begin == 0)
      && (n >= 1 ==> (LastComponents(name, n, begin) <==> !(LeadingDot(name) && n > Dots(name))))
  {
    hide Precision, LastComponents, Dots;
    var name, n := e.categoryName, Precision(postfix);
    begin := 0;
    if n >= 1 {
      begin := CategoryBegin(name, n);
      CategoryExact(name, n);
    } else {
      assert name[0..] == name && CategoryBegin(name, n) == -1;
    }
  }

  // ---- Times ----

  /** The time formats with a name. */
  lemma TimeFormats(postfix: string)
    ensures TimeFormat("") == TimeFormat("ISO8601") == "%Y-%m-%d %H:%M:%S,%l"
    ensures TimeFormat("ABSOLUTE") == "%H:%M:%S,%l"
    ensures TimeFormat("DATE") == "%d %b %Y %H:%M:%S,%l"
    ensures postfix !in {"", "ISO8601", "ABSOLUTE", "DATE"} ==> TimeFormat(postfix) == postfix
  {
  }

  /** No %l starts before position n. */
  ghost predicate NoMillis(s: string, n: nat) {
    forall k :: 0 <= k < n && k + 1 < |s| ==> !(s[k] == '%' && s[k + 1] == 'l')
  }

  lemma {:induction false} FindMillisIs(s: string, i: nat, n: nat)
    requires i <= n && NoMillis(s, n) && (if n + 1 < |s| then s[n] == '%' && s[n + 1] == 'l' else n >= |s|)
    ensures FindMillis(s, i) == if n < |s| then n else -1
    decreases n - i
  {
    if i < n { FindMillisIs(s, i + 1, n); }
  }

  /** %d shows what strftime makes of the format, in which the first %l has been replaced by the
      milliseconds. */
  lemma TimeShown(postfix: string, a: string, b: string, e: Event)
    requires TimeFormat(postfix) == a + "%l" + b && NoMillis(a + "%l" + b, |a|)
    ensures FieldText('d', postfix, e) == e.strftime(a + e.millis + b)
  {
    hide TimeFormat, FindMillis;
    var s := a + "%l" + b;
    assert s[|a|] == '%' && s[|a| + 1] == 'l' && s[..|a|] == a && s[|a| + 2..] == b;
    FindMillisIs(s, 0, |a|);
  }

  /** Without %l it is strftime of the format as it is. */
  lemma TimeWithoutMillis(postfix: string, e: Event)
    requires NoMillis(TimeFormat(postfix), |TimeFormat(postfix)|)
    ensures FieldText('d', postfix, e) == e.strftime(TimeFormat(postfix))
  {
    hide TimeFormat, FindMillis;
    FindMillisIs(TimeFormat(postfix), 0, |TimeFormat(postfix)|);
  }

  // ---- Patterns written out ----

  /** A character of the pattern that stands for itself, or a directive: its widths, if it gives any, its
      character, and the text in braces behind it, if there are braces. */
  datatype Token = Letter(c: char) | Percent(min: Option<int>, max: Option<nat>, conv: char, postfix: Option<string>)

  function Widths(min: Option<int>, max: Option<nat>): string {
    (if min.Some? then SignedDigits(min.value) else "") + (if max.Some? then "." + Digits(max.value) else "")
  }

  function Braces(postfix: Option<string>): string {
    if postfix.Some? then "{" + postfix.value + "}" else ""
  }

  /** A directive behind its percent sign. */
  function Rest(x: Token): string
    requires x.Percent?
  {
    Widths(x.min, x.max) + [x.conv] + Braces(x.postfix)
  }

  function WrittenToken(x: Token): string {
    if x.Letter? then [x.c] else "%" + Rest(x)
  }

  function Written(xs: seq<Token>): string {
    if xs == [] then "" else WrittenToken(xs[0]) + Written(xs[1..])
  }

  /** The widths that a directive gives are ints and sizes, and its character does not go on with them. */
  predicate Writable(x: Token) {
    match x
    case Letter(c) => c != '%'
    case Percent(min, max, conv, postfix) =>
      && (min.Some? ==> -0x8000_0000 <= min.value <= 0x7fff_ffff)
      && (max.Some? ==> max.value < 0x1_0000_0000_0000_0000)
      && conv != '-' && conv != '.' && !IsDigit(conv)
      && (postfix.Some? ==> '}' !in postfix.value)
  }

  /** Every token is writable, and a directive without braces is not followed by an opening one. */
  ghost predicate WellFormed(xs: seq<Token>, tail: string) {
    xs == []
    || (Writable(xs[0]) && WellFormed(xs[1..], tail)
        && (xs[0].Percent? && xs[0].postfix == None ==> !("{" <= Written(xs[1..]) + tail)))
  }

  /** Reading an int takes white space, a sign and digits, and fails for a number that no int can hold. */
  lemma IntRead(spaces: string, sign: string, n: nat, tail: string)
    requires AllSpaces(spaces) && sign in {"", "-", "+"} && (tail != "" ==> !IsDigit(tail[0]))
    ensures var p, v := spaces + (sign + Digits(n)) + tail, if sign == "-" then -1 * n else n;
      IntAt(p, SpacesEnd(p, 0))
      == if -0x8000_0000 <= v <= 0x7fff_ffff then Some((v, |spaces| + |sign + Digits(n)|)) else None
  {
    hide *;
    NumberRead(spaces, sign, n, tail);
    IntOf(spaces + (sign + Digits(n)) + tail, |spaces|, sign == "-", n, |spaces| + |sign + Digits(n)|);
  }

  lemma IntOf(p: string, i: nat, neg: bool, n: nat, e: nat)
    requires i <= |p| && NumberAt(p, i) == Some((neg, n, e))
    ensures var v := if neg then -1 * n else n;
      IntAt(p, i) == if -0x8000_0000 <= v <= 0x7fff_ffff then Some((v, e)) else None
  {
    hide NumberAt;
  }

  /** Reading a size does too, and takes a negative number modulo 2^64. */
  lemma SizeRead(spaces: string, sign: string, n: nat, tail: string)
    requires AllSpaces(spaces) && sign in {"", "-", "+"} && (tail != "" ==> !IsDigit(tail[0]))
    ensures var p, wrap := spaces + (sign + Digits(n)) + tail, 0x1_0000_0000_0000_0000;
      SizeAt(p, SpacesEnd(p, 0))
      == if n < wrap then Some((if sign == "-" && n > 0 then wrap - n else n, |spaces| + |sign + Digits(n)|)) else None
  {
    hide *;
    NumberRead(spaces, sign, n, tail);
    SizeOf(spaces + (sign + Digits(n)) + tail, |spaces|, sign == "-", n, |spaces| + |sign + Digits(n)|);
  }

  lemma SizeOf(p: string, i: nat, neg: bool, n: nat, e: nat)
    requires i <= |p| && NumberAt(p, i) == Some((neg, n, e))
    ensures var wrap := 0x1_0000_0000_0000_0000;
      SizeAt(p, i) == if n < wrap then Some((if neg && n > 0 then wrap - n else n, e)) else None
  {
    hide NumberAt;
  }

  lemma NumberRead(spaces: string, sign: string, n: nat, tail: string)
    requires AllSpaces(spaces) && sign in {"", "-", "+"} && (tail != "" ==> !IsDigit(tail[0]))
    ensures var p, i := spaces + (sign + Digits(n)) + tail, |spaces|;
      SpacesEnd(p, 0) == i && NumberAt(p, i) == Some((sign == "-", n, i + |sign + Digits(n)|))
  {
    hide Digits, NumberAt, SpacesEnd;
    var number := sign + Digits(n);
    var p := spaces + number + tail;
    assert p[..|spaces|] == spaces && p[|spaces|..|spaces| + |number|] == number;
    assert number[0] !in " \t\n\U{0B}\U{0C}\r" && p[|spaces|] == number[0];
    assert tail != "" ==> p[|spaces| + |number|] == tail[0];
    SpacesEndIs(p, 0, |spaces|);
    NumberBack(p, |spaces|, sign, n);
  }

  lemma MinBack(p: string, i: nat, min: int)
    requires -0x8000_0000 <= min <= 0x7fff_ffff && Here(p, i, SignedDigits(min))
    requires var e := i + |SignedDigits(min)|; e < |p| ==> !IsDigit(p[e])
    ensures IntAt(p, i) == Some((min, i + |SignedDigits(min)|)) && i < |p| && StartsNumber(p[i])
  {
    hide Digits, NumberAt;
    NumberBack(p, i, if min < 0 then "-" else "", Abs(min));
    assert "" + Digits(Abs(min)) == Digits(Abs(min));
    assert p[i] == p[i..i + |SignedDigits(min)|][0];
  }

  lemma MaxBack(p: string, i: nat, max: nat)
    requires max < 0x1_0000_0000_0000_0000 && Here(p, i, "." + Digits(max))
    requires var e := i + 1 + |Digits(max)|; e < |p| ==> !IsDigit(p[e])
    ensures p[i] == '.' && SpacesEnd(p, i + 1) == i + 1 && SizeAt(p, i + 1) == Some((max, i + 1 + |Digits(max)|))
  {
    hide Digits, NumberAt, SpacesEnd;
    HereSplit(p, i, ".", Digits(max));
    NumberBack(p, i + 1, "", max);
    assert "" + Digits(max) == Digits(max);
    assert p[i..i + 1][0] == '.' && p[i + 1] == p[i + 1..i + 1 + |Digits(max)|][0];
    SpacesEndIs(p, i + 1, i + 1);
  }

  lemma BracesBack(p: string, i: nat, postfix: Option<string>)
    requires Here(p, i, Braces(postfix)) && (postfix.Some? ==> '}' !in postfix.value)
    requires var e := i + |Braces(postfix)|; postfix == None && e < |p| ==> p[e] != '{'
    ensures PostfixAt(p, i) == (if postfix.Some? then postfix.value else "", i + |Braces(postfix)|)
  {
    if postfix.Some? {
      var s := postfix.value;
      var z := i + 1 + |s|;
      HereSplit(p, i, "{" + s, "}");
      assert |"{" + s| == 1 + |s| && Here(p, z, "}");
      HereSplit(p, i, "{", s);
      assert p[i..i + 1] == "{" && p[z..z + 1] == "}";
      assert p[i] == p[i..i + 1][0] && p[z] == p[z..z + 1][0];
      assert forall k :: i + 1 <= k < z ==> p[k] == p[i + 1..z][k - i - 1];
      assert Find(p, '}', i + 1) == z;
    }
  }

  lemma ConversionBack(p: string, i: nat, x: Token)
    requires x.Percent? && Writable(x) && Here(p, i, [x.conv] + Braces(x.postfix))
    requires var e := i + 1 + |Braces(x.postfix)|; x.postfix == None && e < |p| ==> p[e] != '{'
    ensures i < |p| && p[i] == x.conv
    ensures ConversionAt(p, i, x.min, x.max)
      == Some(Directive(x.min, x.max, x.conv, OrElse(x.postfix, ""), i + 1 + |Braces(x.postfix)|))
  {
    HereSplit(p, i, [x.conv], Braces(x.postfix));
    assert p[i..i + 1][0] == x.conv;
    hide PostfixAt, Braces;
    BracesBack(p, i + 1, x.postfix);
  }

  lemma PrecisionWritten(p: string, i: nat, x: Token)
    requires x.Percent? && Writable(x)
    requires var m := if x.max.Some? then "." + Digits(x.max.value) else "";
      Here(p, i, m + ([x.conv] + Braces(x.postfix)))
      && var e := i + |m| + 1 + |Braces(x.postfix)|; x.postfix == None && e < |p| ==> p[e] != '{'
    ensures var m := if x.max.Some? then "." + Digits(x.max.value) else "";
      i < |p| && !IsDigit(p[i]) && p[i] != '-'
      && PrecisionAt(p, i, x.min)
         == Some(Directive(x.min, x.max, x.conv, OrElse(x.postfix, ""), i + |m| + 1 + |Braces(x.postfix)|))
  {
    hide Digits, SizeAt, SpacesEnd, ConversionAt, Braces;
    var m := if x.max.Some? then "." + Digits(x.max.value) else "";
    HereSplit(p, i, m, [x.conv] + Braces(x.postfix));
    ConversionBack(p, i + |m|, x);
    if x.max.Some? { MaxBack(p, i, x.max.value); }
  }

  /** Reading a written directive gives back its widths, its character and its text in braces. */
  lemma DirectiveBack(p: string, i: nat, x: Token)
    requires x.Percent? && Writable(x) && Here(p, i, Rest(x))
    requires x.postfix == None && i + |Rest(x)| < |p| ==> p[i + |Rest(x)|] != '{'
    ensures DirectiveAt(p, i) == Some(Directive(x.min, x.max, x.conv, OrElse(x.postfix, ""), i + |Rest(x)|))
  {
    hide Digits, SignedDigits, Braces, Here, IntAt, PrecisionAt;
    var m := if x.max.Some? then "." + Digits(x.max.value) else "";
    var w := if x.min.Some? then SignedDigits(x.min.value) else "";
    assert Rest(x) == w + (m + ([x.conv] + Braces(x.postfix)));
    HereSplit(p, i, w, m + ([x.conv] + Braces(x.postfix)));
    PrecisionWritten(p, i + |w|, x);
    if x.min.Some? { MinBack(p, i, x.min.value); }
  }

  // ---- Their text ----

  /** The directive has a character that means something. */
  predicate KnownToken(x: Token) { x.Percent? ==> x.conv in "%nmcdprRtux" }

  /** What a token shows of an event, when the widths min and max are in force: a directive replaces those it
      gives itself. */
  function TokenText(x: Token, e: Event, min: int, max: nat): string
    requires KnownToken(x)
  {
    if x.Letter? then [x.c]
    else if x.conv == '%' then "%"
    else if x.conv == 'n' then "\n"
    else Modify(FieldText(x.conv, OrElse(x.postfix, ""), e), OrElse(x.min, min), OrElse(x.max, max))
  }

  /** The widths in force behind a token: a field uses them up, and nothing else does. */
  function WidthsBehind(x: Token, min: int, max: nat): (int, nat) {
    if x.Letter? then (min, max)
    else if x.conv == '%' || x.conv == 'n' then (OrElse(x.min, min), OrElse(x.max, max))
    else (0, 0)
  }

  predicate Known(xs: seq<Token>) { forall k :: 0 <= k < |xs| ==> KnownToken(xs[k]) }

  /** The text of a pattern for an event. */
  function Shown(xs: seq<Token>, e: Event, min: int, max: nat): string
    requires Known(xs)
  {
    if xs == [] then ""
    else
      var (m, n) := WidthsBehind(xs[0], min, max);
      TokenText(xs[0], e, min, max) + Shown(xs[1..], e, m, n)
  }

  /** The widths in force behind it. */
  function Pending(xs: seq<Token>, min: int, max: nat): (int, nat) {
    if xs == [] then (min, max)
    else var (m, n) := WidthsBehind(xs[0], min, max); Pending(xs[1..], m, n)
  }

  lemma LetterMeans(p: string, i: nat, c: char, e: Event, min: int, max: nat)
    requires c != '%' && Here(p, i, [c])
    ensures i + 1 <= |p| && Meaning(p, i, e, min, max) == Prepend([c], Meaning(p, i + 1, e, min, max))
  {
    assert p[i..i + 1][0] == c;
  }

  lemma PercentMeans(p: string, i: nat, d: Directive, e: Event, min: int, max: nat)
    requires i < |p| && p[i] == '%' && DirectiveAt(p, i + 1) == Some(d) && d.conv in "%nmcdprRtux"
    ensures var m, n := OrElse(d.min, min), OrElse(d.max, max);
      Meaning(p, i, e, min, max) ==
        if d.conv == '%' then Prepend("%", Meaning(p, d.next, e, m, n))
        else if d.conv == 'n' then Prepend("\n", Meaning(p, d.next, e, m, n))
        else Prepend(Modify(FieldText(d.conv, d.postfix, e), m, n), Meaning(p, d.next, e, 0, 0))
  {
    hide DirectiveAt, Modify, FieldText, Prepend;
  }

  lemma TokenMeans(p: string, i: nat, x: Token, e: Event, min: int, max: nat)
    requires Writable(x) && KnownToken(x) && Here(p, i, WrittenToken(x))
    requires var j := i + |WrittenToken(x)|; x.Percent? && x.postfix == None && j < |p| ==> p[j] != '{'
    ensures var j, (m, n) := i + |WrittenToken(x)|, WidthsBehind(x, min, max);
      j <= |p| && Meaning(p, i, e, min, max) == Prepend(TokenText(x, e, min, max), Meaning(p, j, e, m, n))
  {
    hide Meaning, Prepend, Modify, FieldText, DirectiveAt, Rest;
    if x.Letter? {
      LetterMeans(p, i, x.c, e, min, max);
    } else {
      HereSplit(p, i, "%", Rest(x));
      assert p[i..i + 1][0] == '%';
      hide Here, Writable;
      DirectiveBack(p, i + 1, x);
      PercentMeans(p, i, Directive(x.min, x.max, x.conv, OrElse(x.postfix, ""), i + 1 + |Rest(x)|), e, min, max);
    }
  }

  lemma NoBrace(p: string, i: nat, s: string)
    requires Here(p, i, s) && i + |s| == |p| && !("{" <= s)
    ensures i < |p| ==> p[i] != '{'
  {
    assert i < |p| ==> p[i] == s[0];
  }

  lemma PrependNothing(r: Option<string>)
    ensures Prepend("", r) == r
  {
    if r.Some? { assert "" + r.value == r.value; }
  }

  /** The meaning of a pattern that starts with some tokens: their text, and then whatever the rest means
      with the widths that are still in force. */
  lemma {:induction false} TokensMean(p: string, i: nat, xs: seq<Token>, tail: string, e: Event, min: int, max: nat)
    requires WellFormed(xs, tail) && Known(xs) && Here(p, i, Written(xs) + tail) && i + |Written(xs) + tail| == |p|
    ensures var (m, n) := Pending(xs, min, max);
      Meaning(p, i, e, min, max) == Prepend(Shown(xs, e, min, max), Meaning(p, |p| - |tail|, e, m, n))
    decreases |xs|
  {
    hide Here, Meaning, Prepend, Writable, WrittenToken, TokenText, WidthsBehind, KnownToken;
    if xs == [] {
      PrependNothing(Meaning(p, i, e, min, max));
    } else {
      var w, rest := WrittenToken(xs[0]), Written(xs[1..]) + tail;
      var (m, n) := WidthsBehind(xs[0], min, max);
      assert Written(xs) + tail == w + rest;
      HereSplit(p, i, w, rest);
      if xs[0].Percent? && xs[0].postfix == None { NoBrace(p, i + |w|, rest); }
      TokenMeans(p, i, xs[0], e, min, max);
      TokensMean(p, i + |w|, xs[1..], tail, e, m, n);
      var (m', n') := Pending(xs, min, max);
      PrependTwice(TokenText(xs[0], e, min, max), Shown(xs[1..], e, m, n), Meaning(p, |p| - |tail|, e, m', n'));
    }
  }

  /** A pattern of known directives means their texts, one after the other. */
  lemma PatternShown(xs: seq<Token>, e: Event)
    requires WellFormed(xs, "") && Known(xs)
    ensures Meaning(Written(xs), 0, e, 0, 0) == Some(Shown(xs, e, 0, 0))
  {
    var p := Written(xs);
    assert p + "" == p && p[0..|p|] == p;
    TokensMean(p, 0, xs, "", e, 0, 0);
    var (m, n) := Pending(xs, 0, 0);
    assert Meaning(p, |p|, e, m, n) == Some("");
    assert Shown(xs, e, 0, 0) + "" == Shown(xs, e, 0, 0);
  }

  lemma RejectedBehind(xs: seq<Token>, tail: string, p: string, e: Event)
    requires WellFormed(xs, tail) && Known(xs) && p == Written(xs) + tail
    requires forall m, n :: Meaning(p, |Written(xs)|, e, m, n) == None
    ensures Meaning(p, 0, e, 0, 0) == None
  {
    var (m, n) := Pending(xs, 0, 0);
    assert Here(p, 0, p);
    assert Prepend(Shown(xs, e, 0, 0), None) == None;
    hide *;
    TokensMean(p, 0, xs, tail, e, 0, 0);
  }

  /** A pattern with an unknown directive is rejected, whatever stands in front of it and behind it. */
  lemma UnknownRejected(xs: seq<Token>, x: Token, rest: string, e: Event)
    requires var tail := WrittenToken(x) + rest; WellFormed(xs, tail) && Known(xs)
    requires x.Percent? && Writable(x) && x.conv !in "%nmcdprRtux"
    requires x.postfix == None && rest != "" ==> rest[0] != '{'
    ensures Meaning(Written(xs) + (WrittenToken(x) + rest), 0, e, 0, 0) == None
  {
    hide Rest, Written, WrittenToken, Meaning, Writable, Known, WellFormed;
    var tail := WrittenToken(x) + rest;
    var p, j := Written(xs) + tail, |Written(xs)|;
    assert p[j..j + |tail|] == tail;
    HereSplit(p, j, WrittenToken(x), rest);
    assert rest != "" ==> p[j + |WrittenToken(x)|] == rest[0];
    forall m, n ensures Meaning(p, j, e, m, n) == None { UnknownMeans(p, j, x, e, m, n); }
    RejectedBehind(xs, tail, p, e);
  }

  lemma UnknownMeans(p: string, i: nat, x: Token, e: Event, min: int, max: nat)
    requires x.Percent? && Writable(x) && x.conv !in "%nmcdprRtux" && Here(p, i, WrittenToken(x))
    requires var j := i + |WrittenToken(x)|; x.postfix == None && j < |p| ==> p[j] != '{'
    ensures Meaning(p, i, e, min, max) == None
  {
    hide Rest, DirectiveAt;
    HereSplit(p, i, "%", Rest(x));
    assert p[i..i + 1][0] == '%';
    DirectiveBack(p, i + 1, x);
  }

  /** So is a pattern that ends within a directive, behind its percent sign or its widths. */
  lemma UnterminatedRejected(xs: seq<Token>, min: Option<int>, max: Option<nat>, e: Event)
    requires var tail := "%" + Widths(min, max); WellFormed(xs, tail) && Known(xs)
    requires Writable(Percent(min, max, '%', None))
    ensures Meaning(Written(xs) + ("%" + Widths(min, max)), 0, e, 0, 0) == None
  {
    hide Written, Widths, Writable, Known, WellFormed, DirectiveAt;
    var tail := "%" + Widths(min, max);
    var p, j := Written(xs) + tail, |Written(xs)|;
    assert p[j] == '%' && p[j + 1..] == Widths(min, max);
    WidthsAtEnd(p, j + 1, min, max);
    forall m, n ensures Meaning(p, j, e, m, n) == None { }
    RejectedBehind(xs, tail, p, e);
  }

  lemma WidthsAtEnd(p: string, i: nat, min: Option<int>, max: Option<nat>)
    requires i <= |p| && p[i..] == Widths(min, max) && Writable(Percent(min, max, '%', None))
    ensures DirectiveAt(p, i) == None
  {
    hide Digits, SignedDigits, IntAt, PrecisionAt, Here;
    var w := if min.Some? then SignedDigits(min.value) else "";
    var m := if max.Some? then "." + Digits(max.value) else "";
    HereToEnd(p, i, w + m);
    HereSplit(p, i, w, m);
    MaxAtEnd(p, i + |w|, min, max);
    if min.Some? { MinBack(p, i, min.value); }
  }

  lemma MaxAtEnd(p: string, i: nat, min: Option<int>, max: Option<nat>)
    requires max.Some? ==> max.value < 0x1_0000_0000_0000_0000
    requires var m := if max.Some? then "." + Digits(max.value) else ""; Here(p, i, m) && i + |m| == |p|
    ensures PrecisionAt(p, i, min) == None && (i < |p| ==> p[i] == '.')
  {
    hide Digits, SizeAt, SpacesEnd;
    if max.Some? { MaxBack(p, i, max.value); }
  }
}
