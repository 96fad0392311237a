/** PatternLayout: what a conversion pattern means for an event, read directly from left to right
    (PatternMeaning), and the compiler that turns it into a list of components (PatternLayout). */
module PatternMeaning {
  import opened Text

  const INT_MAX: nat := 0x7fff_ffff
  const SIZE: nat := 0x1_0000_0000_0000_0000

  /** A logging event: its texts, and strftime applied to its time. */
  datatype Event = Event(
    categoryName: string, message: string, ndc: string, priorityName: string, threadName: string,
    clock: string, seconds: string, sinceStart: string, millis: string, strftime: string -> string)

  // ---- Fields ----

  /** The start of %c{n}: n searches for a dot, each from two characters before the last start. A
      start of 1 or none at all makes begin - 2 wrap to the end of the name. -1 stands for npos. */
  function CategoryBegin(name: string, n: int): (b: int)
    ensures -1 <= b <= |name| && (n > 0 ==> b >= 0)
    decreases if n < 0 then 0 else n
  {
    if n <= 0 then -1
    else
      var b := CategoryBegin(name, n - 1);
      if b == 0 then 0 else FindLast(name, '.', if b >= 2 then b - 2 else |name| - 1) + 1
  }

  function CategoryText(name: string, precision: int): string {
    var b := CategoryBegin(name, precision);
    if b == -1 then name else name[b..]
  }

  /** The number after %c{, if any: 0 when it is no number, the nearest int when out of range. */
  function Precision(postfix: string): int {
    if postfix == "" then -1
    else match NumberAt(postfix, SpacesEnd(postfix, 0))
      case None => 0
      case Some((neg, v, e)) =>
        if neg then -(if v > INT_MAX + 1 then INT_MAX + 1 else v) else if v > INT_MAX then INT_MAX else v
  }

  const ISO8601: string := "%Y-%m-%d %H:%M:%S,%l"
  const ABSOLUTE: string := "%H:%M:%S,%l"
  const DATE: string := "%d %b %Y %H:%M:%S,%l"

  function TimeFormat(postfix: string): string {
    if postfix == "" || postfix == "ISO8601" then ISO8601
    else if postfix == "ABSOLUTE" then ABSOLUTE
    else if postfix == "DATE" then DATE
    else postfix
  }

  /** The position of %l, or -1. */
  function FindMillis(s: string, i: nat): (r: int)
    ensures r == -1 || i <= r <= |s| - 2
    decreases |s| - i
  {
    if i + 2 > |s| then -1 else if s[i] == '%' && s[i + 1] == 'l' then i else FindMillis(s, i + 1)
  }

  function TimeText(format: string, e: Event): string {
    var p := FindMillis(format, 0);
    e.strftime(if p == -1 then format else format[..p] + e.millis + format[p + 2..])
  }

  predicate IsField(c: char) { c in "mcdprRtux" }

  function FieldText(c: char, postfix: string, e: Event): string
    requires IsField(c)
  {
    match c
    case 'm' => e.message
    case 'c' => CategoryText(e.categoryName, Precision(postfix))
    case 'd' => TimeText(TimeFormat(postfix), e)
    case 'p' => e.priorityName
    case 'r' => e.sinceStart
    case 'R' => e.seconds
    case 't' => e.threadName
    case 'u' => e.clock
    case _ => e.ndc
  }

  /** Truncate to max characters (0: no limit), then pad to |min|, on the right when min < 0. */
  function Modify(s: string, min: int, max: nat): string {
    var t := if max > 0 && max < |s| then s[..max] else s;
    if Abs(min) <= |t| then t
    else if min < 0 then t + Repeat(' ', Abs(min) - |t|)
    else Repeat(' ', Abs(min) - |t|) + t
  }

  // ---- Directives ----

  predicate IsSpace(c: char) { c == ' ' || '\t' <= c <= '\r' }

  function SpacesEnd(p: string, i: nat): (j: nat)
    requires i <= |p|
    ensures i <= j <= |p|
    decreases |p| - i
  {
    if i < |p| && IsSpace(p[i]) then SpacesEnd(p, i + 1) else i
  }

  /** An optional sign and digits at i: (negative, magnitude, end). */
  function NumberAt(p: string, i: nat): (r: Option<(bool, nat, nat)>)
    requires i <= |p|
    ensures r.Some? ==> i < r.value.2 <= |p|
  {
    var neg := i < |p| && p[i] == '-';
    var d := if i < |p| && (p[i] == '-' || p[i] == '+') then i + 1 else i;
    var e := DigitsEnd(p, d);
    if e == d then None else Some((neg, Numeral(p[d..e]), e))
  }

  /** What stream >> int reads at i: fails without digits or out of range. */
  function IntAt(p: string, i: nat): (r: Option<(int, nat)>)
    requires i <= |p|
    ensures r.Some? ==> i < r.value.1 <= |p|
  {
    match NumberAt(p, i)
    case None => None
    case Some((neg, v, e)) =>
      if v > (if neg then INT_MAX + 1 else INT_MAX) then None else var x: int := v; Some((if neg then -x else x, e))
  }

  /** What stream >> size_t reads at i: a minus sign negates modulo 2^64. */
  function SizeAt(p: string, i: nat): (r: Option<(nat, nat)>)
    requires i <= |p|
    ensures r.Some? ==> i < r.value.1 <= |p|
  {
    match NumberAt(p, i)
    case None => None
    case Some((neg, v, e)) =>
      if v >= SIZE then None else Some((if neg then (SIZE - v) % SIZE else v, e))
  }

  /** One directive: the modifiers it gives, its character, the text in braces, and where it ends. */
  datatype Directive = Directive(min: Option<int>, max: Option<nat>, conv: char, postfix: string, next: nat)

  /** The text in braces at i, if any, and the position after it. */
  function PostfixAt(p: string, i: nat): (r: (string, nat))
    requires i <= |p|
    ensures i <= r.1 <= |p|
  {
    if i < |p| && p[i] == '{' then
      var z := Find(p, '}', i + 1);
      if z == -1 then (p[i + 1..], |p|) else (p[i + 1..z], z + 1)
    else ("", i)
  }

  /** The part of a directive from its character on. */
  function ConversionAt(p: string, i: nat, min: Option<int>, max: Option<nat>): (r: Option<Directive>)
    requires i <= |p|
    ensures r.Some? ==> i < r.value.next <= |p|
  {
    if i == |p| then None
    else var (postfix, next) := PostfixAt(p, i + 1); Some(Directive(min, max, p[i], postfix, next))
  }

  /** The part of a directive after its minimal width. */
  function PrecisionAt(p: string, i: nat, min: Option<int>): (r: Option<Directive>)
    requires i <= |p|
    ensures r.Some? ==> i < r.value.next <= |p|
  {
    if i < |p| && p[i] == '.' then
      match SizeAt(p, SpacesEnd(p, i + 1))
      case None => None
      case Some((max, e)) => ConversionAt(p, e, min, Some(max))
    else ConversionAt(p, i, min, None)
  }

  predicate StartsNumber(c: char) { c == '-' || IsDigit(c) }

  /** The directive whose % is at i - 1; None when the pattern is rejected there. */
  function DirectiveAt(p: string, i: nat): (r: Option<Directive>)
    requires i <= |p|
    ensures r.Some? ==> i < r.value.next <= |p|
  {
    if i < |p| && StartsNumber(p[i]) then
      match IntAt(p, i)
      case None => None
      case Some((min, e)) => PrecisionAt(p, e, Some(min))
    else PrecisionAt(p, i, None)
  }

  function OrElse<T>(o: Option<T>, d: T): T { if o.Some? then o.value else d }

  function Prepend(s: string, r: Option<string>): Option<string> {
    if r.Some? then Some(s + r.value) else None
  }

  /** Prepending one text after another. */
  lemma PrependTwice(a: string, b: string, r: Option<string>)
    ensures Prepend(a, Prepend(b, r)) == Prepend(a + b, r)
  {
    if r.Some? { assert a + (b + r.value) == a + b + r.value; }
  }

  /** The meaning of the pattern from position i on. Widths given by a literal directive (%% or %n)
      stay pending until the next field; a directive overrides only what it gives itself. */
  function Meaning(p: string, i: nat, e: Event, min: int, max: nat): Option<string>
    requires i <= |p|
    decreases |p| - i, 0
  {
    if i == |p| then Some("")
    else if p[i] != '%' then Prepend([p[i]], Meaning(p, i + 1, e, min, max))
    else match DirectiveAt(p, i + 1)
      case None => None
      case Some(d) => DirectiveMeaning(p, d, e, OrElse(d.min, min), OrElse(d.max, max))
  }

  function DirectiveMeaning(p: string, d: Directive, e: Event, min: int, max: nat): Option<string>
    requires d.next <= |p|
    decreases |p| - d.next, 1
  {
    if d.conv == '%' then Prepend("%", Meaning(p, d.next, e, min, max))
    else if d.conv == 'n' then Prepend("\n", Meaning(p, d.next, e, min, max))
    else if IsField(d.conv) then
      Prepend(Modify(FieldText(d.conv, d.postfix, e), min, max), Meaning(p, d.next, e, 0, 0))
    else None
  }

  // ---- %c{n} ----

  /** The dots in name[i..]. */
  function DotsFrom(name: string, i: nat): nat
    requires i <= |name|
    decreases |name| - i
  {
    if i == |name| then 0 else (if name[i] == '.' then 1 else 0) + DotsFrom(name, i + 1)
  }

  function Dots(name: string): nat { DotsFrom(name, 0) }

  /** The last n dot-separated components of a name start at begin; all of it when there are no more
      than n. */
  ghost predicate LastComponents(name: string, n: nat, begin: nat)
    requires begin <= |name|
  {
    if begin == 0 then Dots(name) < n
    else name[begin - 1] == '.' && DotsFrom(name, begin) == n - 1
  }

  predicate LeadingDot(name: string) { name != "" && name[0] == '.' }

  /** A search that wraps has found the dot in front of the name and starts again from the end. */
  ghost predicate Astray(name: string, n: nat, b: nat)
    requires b <= |name|
  {
    LeadingDot(name) && n > Dots(name) && b >= 1 && name[b - 1] == '.' && DotsFrom(name, b) < n - 1
  }

  /** No dots from i up to b. */
  lemma {:induction false} NoDotsBetween(name: string, i: nat, b: nat)
    requires i <= b <= |name| && forall k :: i <= k < b ==> name[k] != '.'
    ensures DotsFrom(name, i) == DotsFrom(name, b)
    decreases b - i
  {
    if i < b { NoDotsBetween(name, i + 1, b); }
  }

  /** A search that starts in front of position b, behind which d dots lie. */
  lemma Search(name: string, b: nat)
    requires b <= |name|
    ensures var r := FindLast(name, '.', b - 1) + 1;
      && DotsFrom(name, r) == DotsFrom(name, b)
      && (r >= 1 ==> name[r - 1] == '.')
      && (LeadingDot(name) && b >= 1 ==> r >= 1)
  {
    NoDotsBetween(name, FindLast(name, '.', b - 1) + 1, b);
  }

  /** There are no fewer dots from an earlier position on. */
  lemma {:induction false} DotsFromMonotone(name: string, i: nat, b: nat)
    requires i <= b <= |name|
    ensures DotsFrom(name, i) >= DotsFrom(name, b)
    decreases b - i
  {
    if i < b { DotsFromMonotone(name, i + 1, b); }
  }

  /** The invariant of the search: on course, or astray. */
  ghost predicate Searched(name: string, n: nat, b: nat)
    requires b <= |name|
  {
    if LeadingDot(name) && n > Dots(name) then Astray(name, n, b) else LastComponents(name, n, b)
  }

  /** The next start of the search from b. */
  function NextBegin(name: string, b: nat): (r: nat)
    requires b <= |name|
    ensures r <= |name|
  {
    if b == 0 then 0 else FindLast(name, '.', if b >= 2 then b - 2 else |name| - 1) + 1
  }

  /** From b >= 2 a search moves one component to the left and does not wrap. */
  lemma SearchLeft(name: string, n: nat, b: nat)
    requires n >= 2 && 2 <= b <= |name| && Searched(name, n - 1, b)
    ensures Searched(name, n, NextBegin(name, b))
  {
    Search(name, b - 1);
    DotsFromMonotone(name, 1, b - 1);
  }

  /** From b == 1 it wraps, which it can only do on a leading dot. */
  lemma SearchWraps(name: string, n: nat)
    requires n >= 2 && 1 <= |name| && Searched(name, n - 1, 1)
    ensures Searched(name, n, NextBegin(name, 1))
  {
    Search(name, |name|);
  }

  /** While it does not wrap, each search step moves one component to the left. */
  lemma {:induction false} CategorySteps(name: string, n: nat)
    requires n >= 1
    ensures Searched(name, n, CategoryBegin(name, n))
  {
    if n == 1 {
      FirstSearch(name);
    } else {
      var b := CategoryBegin(name, n - 1);
      CategorySteps(name, n - 1);
      if b >= 2 {
        SearchLeft(name, n, b);
      } else if b == 1 {
        SearchWraps(name, n);
      }
    }
  }

  /** The first search starts from the end of the name. */
  lemma FirstSearch(name: string)
    ensures Searched(name, 1, CategoryBegin(name, 1))
  {
    assert CategoryBegin(name, 0) == -1;
    Search(name, |name|);
  }

  /** %c{n} with n >= 1 gives the last n components of the name, except exactly when the name starts
      with a dot and has no more than n - 1 dots. */
  lemma CategoryExact(name: string, n: nat)
    requires n >= 1
    ensures LastComponents(name, n, CategoryBegin(name, n)) <==> !(LeadingDot(name) && n > Dots(name))
  {
    CategorySteps(name, n);
  }

  /** %c{2} of ".a" gives "a", though the name has just the two components "" and "a". */
  lemma LeadingDotExample()
    ensures CategoryText(".a", 2) == "a" && LastComponents(".a", 2, 0)
  {
    assert CategoryBegin(".a", 0) == -1 && CategoryBegin(".a", 1) == 1;
    assert DotsFrom(".a", 1) == 0;
  }
}

module PatternLayout {
  import opened Text
  import opened PatternMeaning

  const NPOS: nat := SIZE - 1

  // ---- Components ----

  datatype Component =
    | StringLiteral(literal: string)
    | CategoryName(precision: int)
    | Message | NDC | Priority | ThreadName | ProcessorTime
    | TimeStamp(timeFormat1: string, timeFormat2: string, printMillis: bool)
    | SecondsSinceEpoch | MillisSinceEpoch
    | FormatModifier(component: Component, minWidth: nat, maxWidth: nat, alignLeft: bool)

  function TimeStampComponent(postfix: string): Component {
    var format := TimeFormat(postfix);
    var p := FindMillis(format, 0);
    if p == -1 then TimeStamp(format, "", false) else TimeStamp(format[..p], format[p + 2..], true)
  }

  function FieldComponent(c: char, postfix: string): Component
    requires IsField(c)
  {
    match c
    case 'm' => Message
    case 'c' => CategoryName(Precision(postfix))
    case 'd' => TimeStampComponent(postfix)
    case 'p' => Priority
    case 'r' => MillisSinceEpoch
    case 'R' => SecondsSinceEpoch
    case 't' => ThreadName
    case 'u' => ProcessorTime
    case _ => NDC
  }

  /** What a component appends for an event. */
  function Appended(c: Component, e: Event): string {
    match c
    case StringLiteral(s) => s
    case CategoryName(precision) => CategoryText(e.categoryName, precision)
    case Message => e.message
    case NDC => e.ndc
    case Priority => e.priorityName
    case ThreadName => e.threadName
    case ProcessorTime => e.clock
    case TimeStamp(f1, f2, printMillis) => e.strftime(if printMillis then f1 + e.millis + f2 else f1)
    case SecondsSinceEpoch => e.seconds
    case MillisSinceEpoch => e.sinceStart
    case FormatModifier(inner, min, max, alignLeft) => 
      var width: int := min;
      Modify(Appended(inner, e), if alignLeft then -width else width, max)
  }

  function AllAppended(cs: seq<Component>, e: Event): string {
    if cs == [] then "" else AllAppended(cs[..|cs| - 1], e) + Appended(cs[|cs| - 1], e)
  }

  lemma AllAppendedPush(cs: seq<Component>, c: Component, e: Event)
    ensures AllAppended(cs + [c], e) == AllAppended(cs, e) + Appended(c, e)
  {
    assert (cs + [c])[..|cs|] == cs;
  }

  lemma TimeStampText(postfix: string, e: Event)
    ensures Appended(TimeStampComponent(postfix), e) == TimeText(TimeFormat(postfix), e)
  {
    hide FindMillis, TimeFormat;
  }

  lemma FieldComponentText(c: char, postfix: string, e: Event)
    requires IsField(c)
    ensures Appended(FieldComponent(c, postfix), e) == FieldText(c, postfix, e)
  {
    hide CategoryText, Precision, TimeText, TimeFormat, TimeStampComponent;
    TimeStampText(postfix, e);
  }

  /** std::string::rfind of a dot. */
  function RFindDot(s: string, from: nat): (r: nat)
    requires |s| < NPOS
    ensures r == NPOS || r < |s|
  {
    var r := FindLast(s, '.', if from < |s| then from else |s| - 1);
    if r == -1 then NPOS else r
  }

  /** begin - 2 in size_t. */
  function TwoBefore(begin: nat): nat
    requires begin < SIZE
  {
    if begin < 2 then begin + SIZE - 2 else begin - 2
  }

  lemma NextSearch(name: string, i: nat, begin: nat)
    requires |name| < SIZE / 2 && (begin == NPOS || 0 < begin <= |name|)
    requires CategoryBegin(name, i) == if begin == NPOS then -1 else begin
    ensures var r := RFindDot(name, TwoBefore(begin));
      CategoryBegin(name, i + 1) == if r == NPOS then 0 else r + 1
  {
    if begin == NPOS {
      assert i == 0;
    }
  }

  lemma NoSearch(name: string, n: int)
    requires n <= 0
    ensures CategoryBegin(name, n) == -1
  {
  }

  /** CategoryNameComponent::append, in size_t arithmetic. */
  method AppendCategoryName(precision: int, name: string) returns (out: string)
    requires |name| < SIZE / 2
    ensures out == CategoryText(name, precision)
  {
    hide FindLast, RFindDot, TwoBefore, CategoryBegin;
    NoSearch(name, 0);
    if precision < 0 { NoSearch(name, precision); }
    if precision == -1 { return name; }
    var begin, i := NPOS, 0;
    while i < precision
      invariant 0 <= i <= if precision < 0 then 0 else precision
      invariant begin == NPOS || 0 < begin <= |name|
      invariant CategoryBegin(name, i) == if begin == NPOS then -1 else begin
    {
      NextSearch(name, i, begin);
      begin := RFindDot(name, TwoBefore(begin));
      if begin == NPOS {
        BeginStaysAtZero(name, i + 1, precision);
        begin := 0;
        break;
      }
      begin := begin + 1;
      i := i + 1;
    }
    if begin == NPOS { begin := 0; }
    return name[begin..];
  }

  lemma {:induction false} BeginStaysAtZero(name: string, i: nat, n: nat)
    requires 1 <= i <= n && CategoryBegin(name, i) == 0
    ensures CategoryBegin(name, n) == 0
    decreases n - i
  {
    if i < n { BeginStaysAtZero(name, i + 1, n); }
  }

  /** The append methods of the component classes. */
  method Append(c: Component, e: Event) returns (out: string)
    requires |e.categoryName| < SIZE / 2
    ensures out == Appended(c, e)
    decreases c
  {
    match c
    case CategoryName(precision) => out := AppendCategoryName(precision, e.categoryName);
    case FormatModifier(inner, min, max, alignLeft) =>
      var msg := Append(inner, e);
      if max > 0 && max < |msg| { msg := msg[..max]; }
      if min > |msg| {
        out := if alignLeft then msg + Repeat(' ', min - |msg|) else Repeat(' ', min - |msg|) + msg;
      } else {
        out := msg;
      }
    case StringLiteral(literal) => out := literal;
    case Message => out := e.message;
    case NDC => out := e.ndc;
    case Priority => out := e.priorityName;
    case ThreadName => out := e.threadName;
    case ProcessorTime => out := e.clock;
    case TimeStamp(timeFormat1, timeFormat2, printMillis) =>
      var timeFormat := if printMillis then timeFormat1 + e.millis + timeFormat2 else timeFormat1;
      out := e.strftime(timeFormat);
    case SecondsSinceEpoch => out := e.seconds;
    case MillisSinceEpoch => out := e.sinceStart;
  }

  // ---- Reading the pattern ----

  /** The input string stream a pattern is read from. At its end every read fails. */
  class IStream {
    const text: string
    var pos: nat
    var good: bool

    ghost predicate Valid() reads this { pos <= |text| }

    /** No read has failed, except perhaps at the end of the text. */
    ghost predicate Sound() reads this { Valid() && (good || pos == |text|) }

    constructor (text: string)
      ensures this.text == text && pos == 0 && good
    {
      this.text, pos, good := text, 0, true;
    }

    /** get(c): leaves c as it was when there is nothing to read. */
    method Get(c: char) returns (ok: bool, r: char)
      requires Valid()
      modifies this
      ensures Valid() && ok == good == old(good && pos < |text|)
      ensures if ok then pos == old(pos) + 1 && r == text[old(pos)] else pos == old(pos) && r == c
    {
      good := good && pos < |text|;
      ok, r := good, c;
      if ok {
        r := text[pos];
        pos := pos + 1;
      }
    }

    /** putback(c), which fails unless c is the character before the position. */
    method Putback(c: char)
      requires Valid()
      modifies this
      ensures Valid() && good == old(good && pos > 0 && text[pos - 1] == c)
      ensures pos == if good then old(pos) - 1 else old(pos)
    {
      good := good && pos > 0 && text[pos - 1] == c;
      if good { pos := pos - 1; }
    }

    /** >> into an int. */
    method ReadInt(prev: int) returns (x: int)
      requires Valid()
      modifies this
      ensures Valid() && (old(good) && IntAt(text, SpacesEnd(text, old(pos))).Some? ==>
        good && (x, pos) == IntAt(text, SpacesEnd(text, old(pos))).value)
      ensures !(old(good) && IntAt(text, SpacesEnd(text, old(pos))).Some?) ==> !good && pos == old(pos)
    {
      x := prev;
      var r := IntAt(text, SpacesEnd(text, pos));
      good := good && r.Some?;
      if good { x, pos := r.value.0, r.value.1; }
    }

    /** >> into a size_t. */
    method ReadSize(prev: nat) returns (x: nat)
      requires Valid()
      modifies this
      ensures Valid() && (old(good) && SizeAt(text, SpacesEnd(text, old(pos))).Some? ==>
        good && (x, pos) == SizeAt(text, SpacesEnd(text, old(pos))).value)
      ensures !(old(good) && SizeAt(text, SpacesEnd(text, old(pos))).Some?) ==> !good && pos == old(pos)
    {
      x := prev;
      var r := SizeAt(text, SpacesEnd(text, pos));
      good := good && r.Some?;
      if good { x, pos := r.value.0, r.value.1; }
    }

    /** The postfix loop after the conversion character. */
    method ReadPostfix(c: char) returns (postfix: string)
      requires Valid() && good
      modifies this
      ensures Sound() && (postfix, pos) == PostfixAt(text, old(pos))
    {
      postfix := "";
      var ok, ch2 := Get(c);
      if !ok { return; }
      if ch2 != '{' {
        Putback(ch2);
        return;
      }
      ghost var start := pos;
      ok, ch2 := Get(ch2);
      while ok && ch2 != '}'
        invariant Valid() && start <= pos && ok == good
        invariant ok ==> start < pos && ch2 == text[pos - 1] && postfix == text[start..pos - 1]
        invariant ok ==> Find(text, '}', start) == Find(text, '}', pos - 1)
        invariant !ok ==> pos == |text| && postfix == text[start..] && Find(text, '}', start) == -1
        decreases |text| - pos, ok
      {
        postfix := postfix + [ch2];
        ok, ch2 := Get(ch2);
      }
    }
  }

  lemma NothingAtEnd(p: string, min: Option<int>)
    ensures PrecisionAt(p, |p|, min) == None
  {
  }

  /** Reads the minimal width of a directive after its %, and the character ch2 behind it. */
  method ReadMinWidth(s: IStream, c: char, minWidth: int) returns (min: int, ch2: char, ghost mi: Option<int>)
    requires s.Valid() && s.good
    modifies s
    ensures s.Valid() && min == OrElse(mi, minWidth)
    ensures DirectiveAt(s.text, old(s.pos)) ==
      if s.good && s.pos > 0 then PrecisionAt(s.text, s.pos - 1, mi) else None
    ensures s.good ==> s.pos > 0 && ch2 == s.text[s.pos - 1]
  {
    hide PrecisionAt, IntAt;
    min, mi := minWidth, None;
    NothingAtEnd(s.text, None);
    var got;
    got, ch2 := s.Get(c);
    if StartsNumber(ch2) {
      s.Putback(ch2);
      min := s.ReadInt(min);
      mi := Some(min);
      NothingAtEnd(s.text, mi);
      got, ch2 := s.Get(ch2);
    }
  }

  /** Reads the maximal width, if ch2 is a dot; otherwise puts it back. */
  method ReadMaxWidth(s: IStream, ch2: char, maxWidth: nat, ghost mi: Option<int>)
    returns (max: nat, ghost ma: Option<nat>)
    requires s.Valid() && (s.good ==> s.pos > 0 && ch2 == s.text[s.pos - 1])
    modifies s
    ensures s.Valid() && max == OrElse(ma, maxWidth)
    ensures (if old(s.good) then PrecisionAt(s.text, old(s.pos) - 1, mi) else None) ==
      if s.good then ConversionAt(s.text, s.pos, mi, ma) else None
  {
    max, ma := maxWidth, None;
    if ch2 == '.' {
      max := s.ReadSize(max);
      ma := Some(max);
    } else {
      s.Putback(ch2);
    }
  }

  /** Reads the rest of a directive after its %. A failed read ends in the unterminated-specifier
      failure, whatever the uninitialised character c is. */
  method ReadDirective(s: IStream, c: char, minWidth: int, maxWidth: nat)
    returns (ok: bool, ch: char, postfix: string, min: int, max: nat)
    requires s.Valid() && s.good
    modifies s
    ensures s.Valid() && ok == DirectiveAt(s.text, old(s.pos)).Some?
    ensures ok ==> var d := DirectiveAt(s.text, old(s.pos)).value;
      s.Sound() && s.pos == d.next && ch == d.conv && postfix == d.postfix &&
      min == OrElse(d.min, minWidth) && max == OrElse(d.max, maxWidth)
  {
    hide DirectiveAt, PrecisionAt, PostfixAt;
    postfix := "";
    var ch2;
    ghost var mi, ma;
    min, ch2, mi := ReadMinWidth(s, c, minWidth);
    max, ma := ReadMaxWidth(s, ch2, maxWidth, mi);
    ok, ch := s.Get(c);
    if ok {
      postfix := s.ReadPostfix(ch);
    }
  }

  // ---- The layout ----

  /** A field's component, wrapped when a width is given, means the field. */
  lemma WrappedField(d: Directive, min: int, max: nat, e: Event)
    requires IsField(d.conv)
    ensures Appended(Wrapped(FieldComponent(d.conv, d.postfix), min, max), e) ==
      Modify(FieldText(d.conv, d.postfix, e), min, max)
  {
    FieldComponentText(d.conv, d.postfix, e);
  }

  function Wrapped(c: Component, min: int, max: nat): Component {
    if min != 0 || max != 0 then FormatModifier(c, Abs(min), max, min < 0) else c
  }

  /** The components after a pending literal has been pushed. */
  function Flushed(cs: seq<Component>, literal: string): seq<Component> {
    if literal == "" then cs else cs + [StringLiteral(literal)]
  }

  lemma FlushedText(cs: seq<Component>, literal: string, e: Event)
    ensures AllAppended(Flushed(cs, literal), e) == AllAppended(cs, e) + literal
  {
    if literal != "" { AllAppendedPush(cs, StringLiteral(literal), e); }
  }

  /** What has been compiled, followed by what the rest of the pattern means. */
  function Remaining(p: string, pos: nat, e: Event, cs: seq<Component>, literal: string, min: int, max: nat)
    : Option<string>
    requires pos <= |p|
  {
    Prepend(AllAppended(cs, e) + literal, Meaning(p, pos, e, min, max))
  }

  /** A literal character moves into the pending literal. */
  lemma LiteralStep(p: string, pos: nat, e: Event, cs: seq<Component>, literal: string, min: int, max: nat)
    requires pos < |p| && p[pos] != '%'
    ensures Remaining(p, pos, e, cs, literal, min, max) == Remaining(p, pos + 1, e, cs, literal + [p[pos]], min, max)
  {
    PrependTwice(AllAppended(cs, e) + literal, [p[pos]], Meaning(p, pos + 1, e, min, max));
    assert AllAppended(cs, e) + literal + [p[pos]] == AllAppended(cs, e) + (literal + [p[pos]]);
  }

  /** So does the text of %% and %n; the widths stay pending. */
  lemma EscapeStep(p: string, d: Directive, e: Event, cs: seq<Component>, literal: string, min: int, max: nat)
    requires d.next <= |p| && (d.conv == '%' || d.conv == 'n')
    ensures var t := if d.conv == '%' then "%" else "\n";
      Prepend(AllAppended(cs, e) + literal, DirectiveMeaning(p, d, e, min, max)) ==
      Remaining(p, d.next, e, cs, literal + t, min, max)
  {
    var t := if d.conv == '%' then "%" else "\n";
    PrependTwice(AllAppended(cs, e) + literal, t, Meaning(p, d.next, e, min, max));
    assert AllAppended(cs, e) + literal + t == AllAppended(cs, e) + (literal + t);
  }

  /** A field becomes a component after the pending literal, and uses up the widths. */
  lemma FieldStep(p: string, d: Directive, e: Event, cs: seq<Component>, literal: string, min: int, max: nat)
    requires d.next <= |p| && IsField(d.conv)
    ensures var c := Wrapped(FieldComponent(d.conv, d.postfix), min, max);
      Prepend(AllAppended(cs, e) + literal, DirectiveMeaning(p, d, e, min, max)) ==
      Remaining(p, d.next, e, Flushed(cs, literal) + [c], "", 0, 0)
  {
    hide FieldComponent, FieldText, Modify, Appended, AllAppended, Wrapped;
    WrappedField(d, min, max, e);
    PushedField(cs, literal, Wrapped(FieldComponent(d.conv, d.postfix), min, max), e, Meaning(p, d.next, e, 0, 0));
  }

  lemma PushedField(cs: seq<Component>, literal: string, c: Component, e: Event, rest: Option<string>)
    ensures Prepend(AllAppended(cs, e) + literal, Prepend(Appended(c, e), rest)) ==
      Prepend(AllAppended(Flushed(cs, literal) + [c], e) + "", rest)
  {
    hide AllAppended, Appended, Flushed, Prepend;
    PrependTwice(AllAppended(cs, e) + literal, Appended(c, e), rest);
    FlushedText(cs, literal, e);
    AllAppendedPush(Flushed(cs, literal), c, e);
    assert AllAppended(Flushed(cs, literal) + [c], e) + "" == AllAppended(Flushed(cs, literal) + [c], e);
  }

  lemma DirectiveStart(p: string, pos: nat, e: Event, cs: seq<Component>, literal: string, min: int, max: nat)
    requires pos < |p| && p[pos] == '%'
    ensures Remaining(p, pos, e, cs, literal, min, max) ==
      match DirectiveAt(p, pos + 1)
      case None => None
      case Some(d) => Prepend(AllAppended(cs, e) + literal,
        DirectiveMeaning(p, d, e, OrElse(d.min, min), OrElse(d.max, max)))
  {
  }

  lemma Rejected(p: string, pos: nat, e: Event, cs: seq<Component>, literal: string, min: int, max: nat)
    requires pos < |p| && p[pos] == '%'
    requires var d := DirectiveAt(p, pos + 1);
      d.Some? ==> d.value.conv != '%' && d.value.conv != 'n' && !IsField(d.value.conv)
    ensures Remaining(p, pos, e, cs, literal, min, max) == None
  {
    DirectiveStart(p, pos, e, cs, literal, min, max);
  }

  lemma Finished(p: string, e: Event, cs: seq<Component>, literal: string, min: int, max: nat)
    ensures Remaining(p, |p|, e, cs, literal, min, max) == Some(AllAppended(Flushed(cs, literal), e))
  {
    FlushedText(cs, literal, e);
    assert AllAppended(cs, e) + literal + "" == AllAppended(cs, e) + literal;
  }

  class PatternLayout {
    var components: seq<Component>
    var conversionPattern: string

    /** The default pattern is "%m%n". */
    constructor (c: char)
      ensures conversionPattern == "%m%n"
      ensures forall e: Event :: Meaning("%m%n", 0, e, 0, 0) == Some(AllAppended(components, e))
    {
      components, conversionPattern := [], "";
      new;
      var ok := SetConversionPattern("%m%n", c);
      DefaultAccepted(Event("", "", "", "", "", "", "", "", "", s => s));
    }

    /** Compiles a pattern. It is accepted exactly when it has a meaning, whatever the event, and then
        the components mean the same as the pattern. c is an uninitialised character. */
    method SetConversionPattern(p: string, c: char) returns (ok: bool)
      modifies this
      ensures ok ==> conversionPattern == p
      ensures ok ==> forall e: Event :: Meaning(p, 0, e, 0, 0) == Some(AllAppended(components, e))
      ensures !ok ==> conversionPattern == "" && forall e: Event :: Meaning(p, 0, e, 0, 0) == None
    {
      hide Meaning, DirectiveMeaning, Remaining, AllAppended, Appended, DirectiveAt, FieldComponent, FieldText;
      components, conversionPattern := [], "";
      var s := new IStream(p);
      var literal, min, max := "", 0, 0;
      ok := true;
      forall e: Event ensures Remaining(p, 0, e, [], "", 0, 0) == Meaning(p, 0, e, 0, 0) {
        Start(p, e);
      }
      var got, ch := s.Get(c);
      while got
        invariant ok && s.Valid() && s.text == p && fresh(s) && conversionPattern == ""
        invariant if got then s.good && s.pos >= 1 && ch == p[s.pos - 1] else s.pos == |p|
        invariant forall e: Event ::
          Meaning(p, 0, e, 0, 0) == Remaining(p, if got then s.pos - 1 else s.pos, e, components, literal, min, max)
        decreases |p| - s.pos, got
      {
        ghost var was, wasMin, wasMax, pos := components, min, max, s.pos - 1;
        if ch == '%' {
          var postfix;
          ok, ch, postfix, min, max := ReadDirective(s, c, min, max);
          if !ok || !(ch == '%' || ch == 'n' || IsField(ch)) {
            forall e: Event ensures Meaning(p, 0, e, 0, 0) == None {
              Rejected(p, pos, e, was, literal, wasMin, wasMax);
            }
            return false;
          }
          ghost var d := DirectiveAt(p, pos + 1).value;
          if ch == '%' || ch == 'n' {
            forall e: Event ensures Meaning(p, 0, e, 0, 0) ==
              Remaining(p, s.pos, e, was, literal + if ch == '%' then "%" else "\n", min, max) {
              DirectiveStart(p, pos, e, was, literal, wasMin, wasMax);
              EscapeStep(p, d, e, was, literal, min, max);
            }
            literal := literal + if ch == '%' then "%" else "\n";
          } else {
            ghost var field := Wrapped(FieldComponent(ch, postfix), min, max);
            forall e: Event ensures Meaning(p, 0, e, 0, 0) ==
              Remaining(p, s.pos, e, Flushed(was, literal) + [field], "", 0, 0) {
              DirectiveStart(p, pos, e, was, literal, wasMin, wasMax);
              FieldStep(p, d, e, was, literal, min, max);
            }
            var component := FieldComponent(ch, postfix);
            if literal != "" {
              components := components + [StringLiteral(literal)];
              literal := "";
            }
            if min != 0 || max != 0 {
              component := FormatModifier(component, Abs(min), max, min < 0);
              min, max := 0, 0;
            }
            components := components + [component];
          }
        } else {
          forall e: Event ensures Meaning(p, 0, e, 0, 0) ==
            Remaining(p, s.pos, e, was, literal + [ch], min, max) {
            LiteralStep(p, pos, e, was, literal, min, max);
          }
          literal := literal + [ch];
        }
        got, ch := s.Get(ch);
      }
      forall e: Event ensures Meaning(p, 0, e, 0, 0) == Some(AllAppended(Flushed(components, literal), e)) {
        Finished(p, e, components, literal, min, max);
      }
      if literal != "" {
        components := components + [StringLiteral(literal)];
      }
      conversionPattern := p;
    }

    /** Formats an event with the components. */
    method Format(e: Event) returns (message: string)
      requires |e.categoryName| < SIZE / 2
      ensures message == AllAppended(components, e)
    {
      message := "";
      for i := 0 to |components|
        invariant message == AllAppended(components[..i], e)
      {
        var text := Append(components[i], e);
        AllAppendedPush(components[..i], components[i], e);
        assert components[..i + 1] == components[..i] + [components[i]];
        message := message + text;
      }
      assert components[..|components|] == components;
    }
  }

  lemma Start(p: string, e: Event)
    ensures Remaining(p, 0, e, [], "", 0, 0) == Meaning(p, 0, e, 0, 0)
  {
    var m := Meaning(p, 0, e, 0, 0);
    if m.Some? { assert "" + "" + m.value == m.value; }
  }

  lemma DefaultAccepted(e: Event)
    ensures Meaning("%m%n", 0, e, 0, 0).Some?
  {
  }
}
