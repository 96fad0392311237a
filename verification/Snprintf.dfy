/** portable_vsnprintf: what a format and its arguments expand to (FormatSpec), how the expansion is
    stored into a buffer of str_m bytes (BoundedWriter), and the code itself (Snprintf).

    The three paddings are computed in size_t, so a converted text that is wider than its field gives
    a gap of 2^64 minus the excess. The parameter documented selects between that arithmetic and the
    max(0, width - length) that the comments describe. */
module FormatSpec {
  import opened Text

  /** SIZE_MAX + 1. */
  const SIZE: nat := 0x1_0000_0000_0000_0000
  const UINT: nat := 0x1_0000_0000

  /** One variadic argument, as each kind of conversion would read it. */
  datatype Arg = Arg(num: int, str: Option<CStr>, ptrNull: bool, ptrText: CStr)

  /** What va_arg yields past the end of the arguments; C leaves it undefined. */
  const NO_ARG: Arg := Arg(0, None, true, "")

  function First(args: seq<Arg>): Arg { if args == [] then NO_ARG else args[0] }
  function Rest(args: seq<Arg>): seq<Arg> { if args == [] then [] else args[1..] }

  function ToUnsigned(v: int, modulus: nat): (r: nat)
    requires modulus > 0
    ensures r < modulus
  { v % modulus }

  function ToSigned(v: int, modulus: nat): int
    requires modulus > 0
  {
    var u := v % modulus;
    if 2 * u >= modulus then u - modulus else u
  }

  /** *p, with the terminating NUL at the end. */
  function At(fmt: CStr, i: nat): char { if i < |fmt| then fmt[i] else '\0' }

  // ---- Parsing a conversion specification ----

  predicate IsFlag(c: char) { c == '0' || c == '-' || c == '+' || c == ' ' || c == '#' || c == '\'' }

  function FlagsEnd(fmt: CStr, i: nat): (j: nat)
    requires i <= |fmt|
    ensures i <= j <= |fmt|
    decreases |fmt| - i
  {
    if i < |fmt| && IsFlag(fmt[i]) then FlagsEnd(fmt, i + 1) else i
  }

  /** A width or precision written in the format, accumulated in unsigned int. */
  function UIntAt(fmt: CStr, i: nat): nat
    requires i <= |fmt|
  {
    Numeral(fmt[i..DigitsEnd(fmt, i)]) % UINT
  }

  /** A width: (value, forces left justification, next position, remaining arguments). */
  function WidthAt(fmt: CStr, i: nat, args: seq<Arg>): (r: (nat, bool, nat, seq<Arg>))
    requires i <= |fmt|
    ensures i <= r.2 <= |fmt|
  {
    if At(fmt, i) == '*' then
      var j := ToSigned(First(args).num, UINT);
      (if j >= 0 then j else -j, j < 0, i + 1, Rest(args))
    else (UIntAt(fmt, i), false, DigitsEnd(fmt, i), args)
  }

  /** A precision: (specified, value, next position, remaining arguments). A negative one counts as
      not specified. */
  function PrecisionAt(fmt: CStr, i: nat, args: seq<Arg>): (r: (bool, nat, nat, seq<Arg>))
    requires i <= |fmt|
    ensures i <= r.2 <= |fmt|
  {
    if At(fmt, i) != '.' then (false, 0, i, args)
    else if At(fmt, i + 1) == '*' then
      var j := ToSigned(First(args).num, UINT);
      (j >= 0, if j >= 0 then j else 0, i + 2, Rest(args))
    else (true, UIntAt(fmt, i + 1), DigitsEnd(fmt, i + 1), args)
  }

  /** A length modifier and the next position; ll is treated as l. */
  function LengthAt(fmt: CStr, i: nat): (r: (char, nat))
    requires i <= |fmt|
    ensures i <= r.1 <= |fmt|
  {
    if At(fmt, i) == 'h' then ('h', i + 1)
    else if At(fmt, i) == 'l' then ('l', if At(fmt, i + 1) == 'l' then i + 2 else i + 1)
    else ('\0', i)
  }

  datatype Spec = Spec(
    zero: bool, left: bool, plus: bool, space: bool, alt: bool, width: nat,
    precise: bool, precision: nat, long: char, conv: char,
    raw: char,             // the character at the end, before synonyms; NUL at the end of the format
    next: nat, args: seq<Arg>)

  /** The specification whose % is at i - 1. */
  function SpecAt(fmt: CStr, i: nat, args: seq<Arg>): (s: Spec)
    requires i <= |fmt|
    ensures i <= s.next <= |fmt|
  {
    var f := FlagsEnd(fmt, i);
    var flags := fmt[i..f];
    var (width, left, w, args1) := WidthAt(fmt, f, args);
    var (precise, precision, p, args2) := PrecisionAt(fmt, w, args1);
    var (long, l) := LengthAt(fmt, p);
    var c := At(fmt, l);
    Spec('0' in flags, left || '-' in flags, '+' in flags, ' ' in flags, '#' in flags, width,
         precise, precision,
         if c == 'D' || c == 'U' || c == 'O' then 'l' else long,
         if c == 'i' || c == 'D' then 'd' else if c == 'U' then 'u' else if c == 'O' then 'o' else c,
         c, if l < |fmt| then l + 1 else l, args2)
  }

  // ---- Converting an argument ----

  /** A converted argument: its text, where zeros are inserted into it and how many, and its field. */
  datatype FieldData = Field(text: string, ins: nat, zeros: nat, zero: bool, left: bool, width: nat)
  type Field = f: FieldData | f.ins <= |f.text| witness Field("", 0, 0, false, false, 0)

  function HexDigit(d: nat, upper: bool): char
    requires d < 16
  {
    if d < 10 then '0' + d as char else (if upper then 'A' else 'a') + (d - 10) as char
  }

  function BaseDigits(n: nat, base: nat, upper: bool): string
    requires 2 <= base <= 16
  {
    (if n < base then "" else BaseDigits(n / base, base, upper)) + [HexDigit(n % base, upper)]
  }

  function Modulus(long: char): nat { if long == 'l' then SIZE else UINT }

  /** The value of an integer argument, before sprintf narrows it for the modifier h. */
  function IntValue(s: Spec): int {
    var n := First(s.args).num;
    if s.conv == 'd' then ToSigned(n, Modulus(s.long)) else ToUnsigned(n, Modulus(s.long))
  }

  function ArgSign(s: Spec): int {
    if s.conv == 'p' then if First(s.args).ptrNull then 0 else 1
    else if IntValue(s) > 0 then 1 else if IntValue(s) < 0 then -1 else 0
  }

  /** What the C library's sprintf writes for the argument. */
  function Sprintf(s: Spec): string {
    var v := IntValue(s);
    if s.conv == 'p' then First(s.args).ptrText
    else if s.conv == 'd' then SignedDigits(if s.long == 'h' then ToSigned(v, 0x1_0000) else v)
    else
      var u := if s.long == 'h' then ToUnsigned(v, 0x1_0000) else ToUnsigned(v, SIZE);
      if s.conv == 'u' then Digits(u)
      else BaseDigits(u, if s.conv == 'o' then 8 else 16, s.conv == 'X')
  }

  function Prefix(s: Spec): string {
    if s.conv == 'd' then
      if (s.plus || s.space) && ArgSign(s) >= 0 then [if s.plus then '+' else ' '] else ""
    else if s.alt && ArgSign(s) != 0 && (s.conv == 'x' || s.conv == 'X') then ['0', s.conv] else ""
  }

  /** Zeros go after a sign and after 0x. */
  function InsertionPoint(text: string, ins: nat): (r: nat)
    requires ins <= |text|
    ensures ins <= r <= |text|
  {
    var i := if ins < |text| && text[ins] == '-' then ins + 1 else ins;
    if i + 1 < |text| && text[i] == '0' && (text[i + 1] == 'x' || text[i + 1] == 'X') then i + 2 else i
  }

  /** The number of characters left to reach width: in size_t, or as documented. */
  function Gap(documented: bool, width: nat, length: nat): nat {
    if documented && length > width then 0 else (width - length) % SIZE
  }

  /** An integer conversion with the zeros its precision asks for. */
  function IntField(s: Spec): Field {
    var prefix := Prefix(s);
    var prec0 := if s.precise then s.precision else 1;
    var empty := prec0 == 0 && ArgSign(s) == 0;
    var text := if empty then prefix else prefix + Sprintf(s);
    var ins := if empty then |prefix| else InsertionPoint(text, |prefix|);
    var digits := |text| - ins;
    var octal := s.alt && s.conv == 'o' && !(ins < |text| && text[ins] == '0');
    var prec := if octal && (!s.precise || prec0 < digits + 1) then digits + 1 else prec0;
    Field(text, ins, if digits < prec then prec - digits else 0, s.zero && !s.precise, s.left, s.width)
  }

  /** The characters %s takes from its argument. */
  function StrText(s: Spec): string {
    match First(s.args).str
    case None => ""
    case Some(v) => if s.precise && s.precision < |v| then v[..s.precision] else v
  }

  /** Whether the conversion consumes an argument. */
  predicate TakesArg(s: Spec) {
    s.conv in "csduoxXp"
  }

  function FieldOf(s: Spec): Field {
    if s.conv == '%' then Field("%", 0, 0, false, s.left, s.width)
    else if s.conv == 'c' then Field([(First(s.args).num % 256) as char], 0, 0, false, s.left, s.width)
    else if s.conv == 's' then Field(StrText(s), 0, 0, false, s.left, s.width)
    else if s.conv in "duoxXp" then IntField(s)
    else Field(if s.raw == '\0' then "" else [s.raw], 0, 0, false, true, 0)
  }

  /** The length of the converted text with the zeros its precision asks for. */
  function NaturalLength(f: Field): nat { |f.text| + f.zeros }

  /** Zero padding to the field width, for the flag 0 without left justification. */
  function ZeroPad(f: Field, documented: bool): Field {
    if f.zero && !f.left then f.(zeros := (f.zeros + Gap(documented, f.width, NaturalLength(f))) % SIZE) else f
  }

  // ---- The expansion ----

  datatype Chunk = Run(s: string) | Fill(c: char, n: nat)

  function ChunkLen(c: Chunk): nat { match c case Run(s) => |s| case Fill(_, n) => n }

  /** What one conversion emits, in order. */
  function FieldChunks(g: Field, documented: bool): seq<Chunk> {
    var f := ZeroPad(g, documented);
    var gap := Gap(documented, f.width, NaturalLength(f));
    (if f.left then [] else [Fill(if f.zero then '0' else ' ', gap)])
    + (if f.zeros == 0 then [Run(f.text)]
       else [Run(f.text[..f.ins]), Fill('0', f.zeros), Run(f.text[f.ins..])])
    + (if f.left then [Fill(' ', gap)] else [])
  }

  /** The end of the literal run that starts at i. */
  function RunEnd(fmt: CStr, i: nat): (j: nat)
    requires i < |fmt|
    ensures i < j <= |fmt|
  {
    var q := Find(fmt, '%', i + 1);
    if q == -1 then |fmt| else q
  }

  /** The arguments left after a conversion. */
  function ArgsAfter(s: Spec): seq<Arg> { if TakesArg(s) then Rest(s.args) else s.args }

  /** A format taken apart: literal runs and converted arguments. */
  datatype Piece = Literal(s: string) | Conversion(f: Field)

  function Pieces(fmt: CStr, i: nat, args: seq<Arg>): seq<Piece>
    requires i <= |fmt|
    decreases |fmt| - i
  {
    if i == |fmt| then []
    else if fmt[i] != '%' then
      var j := RunEnd(fmt, i);
      [Literal(fmt[i..j])] + Pieces(fmt, j, args)
    else
      var s := SpecAt(fmt, i + 1, args);
      [Conversion(FieldOf(s))] + Pieces(fmt, s.next, ArgsAfter(s))
  }

  function PieceChunks(p: Piece, documented: bool): seq<Chunk> {
    match p case Literal(s) => [Run(s)] case Conversion(f) => FieldChunks(f, documented)
  }

  function Chunks(ps: seq<Piece>, documented: bool): seq<Chunk> {
    if ps == [] then [] else PieceChunks(ps[0], documented) + Chunks(ps[1..], documented)
  }

  /** The characters of a chunk. */
  function Chars(c: Chunk): string { match c case Run(s) => s case Fill(x, n) => Repeat(x, n) }

  function Flatten(cs: seq<Chunk>): string {
    if cs == [] then "" else Chars(cs[0]) + Flatten(cs[1..])
  }

  function TotalLen(cs: seq<Chunk>): nat {
    if cs == [] then 0 else ChunkLen(cs[0]) + TotalLen(cs[1..])
  }

  lemma LiteralPiece(fmt: CStr, p: nat, ap: seq<Arg>, j: nat)
    requires p < |fmt| && fmt[p] != '%' && j == RunEnd(fmt, p)
    ensures Pieces(fmt, p, ap) == [Literal(fmt[p..j])] + Pieces(fmt, j, ap)
  {
  }

  lemma ConversionPiece(fmt: CStr, p: nat, ap: seq<Arg>, s: Spec)
    requires p < |fmt| && fmt[p] == '%' && s == SpecAt(fmt, p + 1, ap)
    ensures p < s.next <= |fmt|
    ensures Pieces(fmt, p, ap) == [Conversion(FieldOf(s))] + Pieces(fmt, s.next, ArgsAfter(s))
  {
  }

  /** What the documentation promises for a large enough buffer. */
  function Expand(fmt: CStr, args: seq<Arg>): string {
    Flatten(Chunks(Pieces(fmt, 0, args), true))
  }
}

/** Conversion specifications written out: parsing gives back what was written. */
module FormatNotation {
  import opened Text
  import opened FormatSpec

  /** A width or precision: not written, a number, or taken from the arguments. */
  datatype Amount = Absent | Number(n: nat) | Star

  datatype Length = NoLength | H | L | LL

  datatype Notation = Notation(flags: string, width: Amount, precision: Amount, length: Length, conv: char)

  function WidthText(w: Amount): string {
    match w case Absent => "" case Number(n) => Digits(n) case Star => "*"
  }

  function PrecisionText(p: Amount): string {
    match p case Absent => "" case Number(n) => "." + Digits(n) case Star => ".*"
  }

  function LengthText(l: Length): string {
    match l case NoLength => "" case H => "h" case L => "l" case LL => "ll"
  }

  function Rendered(x: Notation): string {
    x.flags + WidthText(x.width) + PrecisionText(x.precision) + LengthText(x.length) + [x.conv]
  }

  /** A character that can end a specification: none that belongs to what comes before. */
  predicate EndsSpec(c: char) {
    !IsFlag(c) && !IsDigit(c) && c != '*' && c != '.' && c != 'h' && c != 'l' && c != '\0'
  }

  /** A width of 0 would be read as the flag 0; numbers are unsigned ints. */
  predicate Writable(x: Notation) {
    && (forall k :: 0 <= k < |x.flags| ==> IsFlag(x.flags[k]))
    && (x.width.Number? ==> 0 < x.width.n < UINT)
    && (x.precision.Number? ==> x.precision.n < UINT)
    && EndsSpec(x.conv)
  }

  /** The int that an amount stands for, and the arguments behind it. */
  function Value(a: Amount, args: seq<Arg>): int {
    match a case Absent => 0 case Number(n) => n case Star => ToSigned(First(args).num, UINT)
  }

  function Behind(a: Amount, args: seq<Arg>): seq<Arg> { if a == Star then Rest(args) else args }

  lemma HereAt(fmt: CStr, i: nat, s: string, k: nat)
    requires Here(fmt, i, s) && k < |s|
    ensures At(fmt, i + k) == s[k]
  {
  }

  lemma {:induction false} FlagsBack(fmt: CStr, i: nat, j: nat)
    requires i <= j <= |fmt| && (forall k :: i <= k < j ==> IsFlag(fmt[k])) && !IsFlag(At(fmt, j))
    ensures FlagsEnd(fmt, i) == j
    decreases j - i
  {
    if i < j { FlagsBack(fmt, i + 1, j); }
  }

  lemma NumberBack(fmt: CStr, i: nat, n: nat)
    requires Here(fmt, i, Digits(n)) && !IsDigit(At(fmt, i + |Digits(n)|)) && n < UINT
    ensures DigitsEnd(fmt, i) == i + |Digits(n)| && UIntAt(fmt, i) == n
  {
    DigitsHere(fmt, i, n);
    hide Digits, DigitsEnd, Numeral;
  }

  lemma WidthAbsentBack(fmt: CStr, i: nat, args: seq<Arg>)
    requires i <= |fmt| && !IsDigit(At(fmt, i)) && At(fmt, i) != '*'
    ensures WidthAt(fmt, i, args) == (0, false, i, args)
  {
    DigitsEndIs(fmt, i, i);
    assert fmt[i..i] == "";
  }

  lemma WidthNumberBack(fmt: CStr, i: nat, n: nat, args: seq<Arg>)
    requires Here(fmt, i, Digits(n)) && n < UINT && !IsDigit(At(fmt, i + |Digits(n)|))
    ensures WidthAt(fmt, i, args) == (n, false, i + |Digits(n)|, args)
  {
    hide Here, Digits, UIntAt, DigitsEnd;
    HereAt(fmt, i, Digits(n), 0);
    NumberBack(fmt, i, n);
  }

  lemma WidthBack(fmt: CStr, i: nat, w: Amount, args: seq<Arg>)
    requires Here(fmt, i, WidthText(w)) && (w.Number? ==> w.n < UINT)
    requires var c := At(fmt, i + |WidthText(w)|); !IsDigit(c) && c != '*'
    ensures WidthAt(fmt, i, args) ==
      (Abs(Value(w, args)), Value(w, args) < 0, i + |WidthText(w)|, Behind(w, args))
  {
    hide Digits;
    match w
    case Absent => WidthAbsentBack(fmt, i, args);
    case Number(n) => WidthNumberBack(fmt, i, n, args);
    case Star => HereAt(fmt, i, "*", 0);
  }

  lemma PrecisionNumberBack(fmt: CStr, i: nat, n: nat, args: seq<Arg>)
    requires Here(fmt, i, "." + Digits(n)) && n < UINT && !IsDigit(At(fmt, i + 1 + |Digits(n)|))
    ensures PrecisionAt(fmt, i, args) == (true, n, i + 1 + |Digits(n)|, args)
  {
    hide Here, Digits, UIntAt, DigitsEnd;
    HereSplit(fmt, i, ".", Digits(n));
    HereAt(fmt, i, ".", 0);
    HereAt(fmt, i + 1, Digits(n), 0);
    NumberBack(fmt, i + 1, n);
  }

  lemma PrecisionBack(fmt: CStr, i: nat, p: Amount, args: seq<Arg>)
    requires Here(fmt, i, PrecisionText(p)) && (p.Number? ==> p.n < UINT)
    requires var c := At(fmt, i + |PrecisionText(p)|); !IsDigit(c) && c != '*' && c != '.'
    ensures PrecisionAt(fmt, i, args) ==
      (p != Absent && Value(p, args) >= 0, if Value(p, args) >= 0 then Value(p, args) else 0,
       i + |PrecisionText(p)|, Behind(p, args))
  {
    match p
    case Absent =>
    case Number(n) => PrecisionNumberBack(fmt, i, n, args);
    case Star =>
      HereAt(fmt, i, ".*", 0);
      HereAt(fmt, i, ".*", 1);
  }

  lemma LengthBack(fmt: CStr, i: nat, l: Length)
    requires Here(fmt, i, LengthText(l))
    requires var c := At(fmt, i + |LengthText(l)|); c != 'h' && c != 'l'
    ensures LengthAt(fmt, i) ==
      (match l case NoLength => '\0' case H => 'h' case L => 'l' case LL => 'l', i + |LengthText(l)|)
  {
    match l
    case NoLength =>
    case H => HereAt(fmt, i, "h", 0);
    case L => HereAt(fmt, i, "l", 0);
    case LL => HereAt(fmt, i, "ll", 0); HereAt(fmt, i, "ll", 1);
  }

  /** The conversion and the length modifier that a character stands for. */
  function Meant(c: char, l: Length): (char, char) {
    var long := match l case NoLength => '\0' case H => 'h' case L => 'l' case LL => 'l';
    if c == 'i' then ('d', long)
    else if c == 'D' then ('d', 'l') else if c == 'U' then ('u', 'l') else if c == 'O' then ('o', 'l')
    else (c, long)
  }

  lemma FiveHere(fmt: CStr, i: nat, a: string, b: string, c: string, d: string, e: string)
    requires Here(fmt, i, a + b + c + d + e)
    ensures Here(fmt, i, a) && Here(fmt, i + |a|, b) && Here(fmt, i + |a| + |b|, c)
    ensures Here(fmt, i + |a| + |b| + |c|, d) && Here(fmt, i + |a| + |b| + |c| + |d|, e)
  {
    hide Here;
    HereSplit(fmt, i, a + b + c + d, e);
    HereSplit(fmt, i, a + b + c, d);
    HereSplit(fmt, i, a + b, c);
    HereSplit(fmt, i, a, b);
  }

  /** Where the parts of a specification start. */
  lemma PartsHere(fmt: CStr, i: nat, x: Notation)
    requires Here(fmt, i, Rendered(x))
    ensures var f := i + |x.flags|; var w := f + |WidthText(x.width)|; var p := w + |PrecisionText(x.precision)|;
      && Here(fmt, i, x.flags) && Here(fmt, f, WidthText(x.width)) && Here(fmt, w, PrecisionText(x.precision))
      && Here(fmt, p, LengthText(x.length)) && Here(fmt, p + |LengthText(x.length)|, [x.conv])
      && i + |Rendered(x)| == p + |LengthText(x.length)| + 1
  {
    hide Here, WidthText, PrecisionText, LengthText;
    FiveHere(fmt, i, x.flags, WidthText(x.width), PrecisionText(x.precision), LengthText(x.length), [x.conv]);
  }

  lemma LengthFirst(fmt: CStr, p: nat, l: Length, c: char)
    requires Here(fmt, p, LengthText(l)) && Here(fmt, p + |LengthText(l)|, [c])
    ensures At(fmt, p + |LengthText(l)|) == c
    ensures At(fmt, p) == 'h' || At(fmt, p) == 'l' || At(fmt, p) == c
  {
    hide Here;
    HereAt(fmt, p + |LengthText(l)|, [c], 0);
    if l != NoLength { HereAt(fmt, p, LengthText(l), 0); }
  }

  lemma PrecisionFirst(fmt: CStr, w: nat, a: Amount)
    requires Here(fmt, w, PrecisionText(a)) && a != Absent
    ensures At(fmt, w) == '.'
  {
    hide Here;
    HereAt(fmt, w, PrecisionText(a), 0);
  }

  lemma WidthFirst(fmt: CStr, f: nat, a: Amount)
    requires Here(fmt, f, WidthText(a)) && a != Absent && (a.Number? ==> a.n > 0)
    ensures !IsFlag(At(fmt, f))
  {
    hide Here;
    HereAt(fmt, f, WidthText(a), 0);
    if a.Number? { FirstDigit(a.n); }
  }

  /** No part starts with a character that the part before it would take. */
  lemma PartsApart(fmt: CStr, i: nat, x: Notation)
    requires Writable(x) && Here(fmt, i, Rendered(x))
    ensures var f := i + |x.flags|; var w := f + |WidthText(x.width)|; var p := w + |PrecisionText(x.precision)|;
      && !IsFlag(At(fmt, f)) && !IsDigit(At(fmt, w)) && At(fmt, w) != '*'
      && !IsDigit(At(fmt, p)) && At(fmt, p) != '*' && At(fmt, p) != '.'
      && At(fmt, p + |LengthText(x.length)|) == x.conv
  {
    hide Rendered, Here, PrecisionText, WidthText, LengthText, At;
    PartsHere(fmt, i, x);
    var f := i + |x.flags|;
    var w := f + |WidthText(x.width)|;
    var p := w + |PrecisionText(x.precision)|;
    LengthFirst(fmt, p, x.length, x.conv);
    if x.precision != Absent { PrecisionFirst(fmt, w, x.precision); } else { NoTexts(); }
    if x.width != Absent { WidthFirst(fmt, f, x.width); } else { NoTexts(); }
  }

  lemma NoTexts()
    ensures WidthText(Absent) == "" && PrecisionText(Absent) == ""
  {
  }

  /** A specification put together from its parts. */
  lemma SpecOf(fmt: CStr, i: nat, args: seq<Arg>, f: nat, width: (nat, bool, nat, seq<Arg>),
               precision: (bool, nat, nat, seq<Arg>), length: (char, nat), c: char)
    requires i <= f <= |fmt| && FlagsEnd(fmt, i) == f && WidthAt(fmt, f, args) == width
    requires width.2 <= |fmt| && PrecisionAt(fmt, width.2, width.3) == precision
    requires precision.2 <= |fmt| && LengthAt(fmt, precision.2) == length
    requires length.1 < |fmt| && fmt[length.1] == c
    ensures var s := SpecAt(fmt, i, args); var flags := fmt[i..f];
      && s.zero == ('0' in flags) && s.plus == ('+' in flags) && s.space == (' ' in flags)
      && s.alt == ('#' in flags) && s.left == (width.1 || '-' in flags) && s.width == width.0
      && s.precise == precision.0 && s.precision == precision.1 && s.raw == c
      && s.conv == (if c == 'i' || c == 'D' then 'd' else if c == 'U' then 'u' else if c == 'O' then 'o' else c)
      && s.long == (if c == 'D' || c == 'U' || c == 'O' then 'l' else length.0)
      && s.next == length.1 + 1 && s.args == precision.3
  {
    hide FlagsEnd, WidthAt, PrecisionAt, LengthAt;
  }

  /** Parsing a written specification gives back all its parts: the flags that occur, the width, with left
      justification for a negative one, the precision, unless negative, the length modifier and the
      conversion character, synonyms resolved; and goes on behind it, with the arguments not used. */
  lemma SpecBack(fmt: CStr, i: nat, x: Notation, args: seq<Arg>)
    requires Writable(x) && Here(fmt, i, Rendered(x))
    ensures var width, args1 := Value(x.width, args), Behind(x.width, args);
      var precision := Value(x.precision, args1);
      var s := SpecAt(fmt, i, args);
      && s.zero == ('0' in x.flags) && s.plus == ('+' in x.flags) && s.space == (' ' in x.flags)
      && s.alt == ('#' in x.flags) && s.left == ('-' in x.flags || width < 0) && s.width == Abs(width)
      && s.precise == (x.precision != Absent && precision >= 0) && (s.precise ==> s.precision == precision)
      && (s.conv, s.long) == Meant(x.conv, x.length) && s.raw == x.conv
      && s.next == i + |Rendered(x)| && s.args == Behind(x.precision, args1)
  {
    hide SpecAt, WidthAt, PrecisionAt, LengthAt, FlagsEnd, Rendered, WidthText, PrecisionText, LengthText, Here;
    PartsHere(fmt, i, x);
    PartsApart(fmt, i, x);
    var f := i + |x.flags|;
    var w := f + |WidthText(x.width)|;
    var p := w + |PrecisionText(x.precision)|;
    var l := p + |LengthText(x.length)|;
    FlagsHere(fmt, i, x.flags);
    WidthBack(fmt, f, x.width, args);
    PrecisionBack(fmt, w, x.precision, Behind(x.width, args));
    LengthBack(fmt, p, x.length);
    LastHere(fmt, l, x.conv);
    SpecOf(fmt, i, args, f, WidthAt(fmt, f, args), PrecisionAt(fmt, w, Behind(x.width, args)), LengthAt(fmt, p),
           x.conv);
  }

  lemma FlagsHere(fmt: CStr, i: nat, flags: string)
    requires Here(fmt, i, flags) && (forall k :: 0 <= k < |flags| ==> IsFlag(flags[k])) && !IsFlag(At(fmt, i + |flags|))
    ensures FlagsEnd(fmt, i) == i + |flags| && fmt[i..i + |flags|] == flags
  {
    assert forall k :: i <= k < i + |flags| ==> fmt[k] == fmt[i..i + |flags|][k - i];
    FlagsBack(fmt, i, i + |flags|);
  }

  lemma LastHere(fmt: CStr, l: nat, c: char)
    requires Here(fmt, l, [c])
    ensures l < |fmt| && fmt[l] == c
  {
  }
}

/** Lengths: the code's result is the number of literal characters plus the sum of the field widths;
    the documented one takes the longer of field and text. */
module FormatLength {
  import opened Text
  import opened FormatSpec

  lemma SpecBounds(fmt: CStr, i: nat, args: seq<Arg>)
    requires i <= |fmt|
    ensures SpecAt(fmt, i, args).width < SIZE && SpecAt(fmt, i, args).precision < SIZE
  {
  }

  predicate Fits(f: Field) {
    NaturalLength(f) <= f.width
  }

  function Max(a: nat, b: nat): nat { if a < b then b else a }

  /** Equal as size_t values. */
  ghost predicate Congruent(a: nat, b: nat) { a % SIZE == b % SIZE }

  lemma ModAdd(a: int, b: int)
    ensures (a + b % SIZE) % SIZE == (a + b) % SIZE
  {
    var q := b / SIZE;
    assert b == q * SIZE + b % SIZE;
    ModShift(a + b % SIZE, q);
  }

  lemma {:induction false} ModShift(a: int, q: int)
    ensures (a + q * SIZE) % SIZE == a % SIZE
    decreases if q < 0 then -q else q
  {
    if q > 0 {
      ModShift(a, q - 1);
      assert a + q * SIZE == (a + (q - 1) * SIZE) + SIZE;
    } else if q < 0 {
      ModShift(a, q + 1);
      assert a + q * SIZE == (a + (q + 1) * SIZE) - SIZE;
    }
  }

  lemma FieldTotal(g: Field, documented: bool)
    ensures var f := ZeroPad(g, documented);
      TotalLen(FieldChunks(g, documented)) == NaturalLength(f) + Gap(documented, f.width, NaturalLength(f))
  {
    var f := ZeroPad(g, documented);
    var gap := Gap(documented, f.width, NaturalLength(f));
    var b, l, r := Fill(if f.zero then '0' else ' ', gap), Run(f.text[..f.ins]), Run(f.text[f.ins..]);
    var z, t, e := Fill('0', f.zeros), Run(f.text), Fill(' ', gap);
    if f.left {
      if f.zeros == 0 { Total2(t, e); assert FieldChunks(g, documented) == [t, e]; }
      else { Total4(l, z, r, e); assert FieldChunks(g, documented) == [l, z, r, e]; }
    } else {
      if f.zeros == 0 { Total2(b, t); assert FieldChunks(g, documented) == [b, t]; }
      else { Total4(b, l, z, r); assert FieldChunks(g, documented) == [b, l, z, r]; }
    }
  }

  lemma Total1(a: Chunk)
    ensures TotalLen([a]) == ChunkLen(a)
  {
    assert [a][1..] == [];
  }

  lemma Total2(a: Chunk, b: Chunk)
    ensures TotalLen([a, b]) == ChunkLen(a) + ChunkLen(b)
  {
    assert [a, b][1..] == [b];
    Total1(b);
  }

  lemma Total4(a: Chunk, b: Chunk, c: Chunk, d: Chunk)
    ensures TotalLen([a, b, c, d]) == ChunkLen(a) + ChunkLen(b) + ChunkLen(c) + ChunkLen(d)
  {
    assert [a, b, c, d][1..] == [b, c, d] && [b, c, d][1..] == [c, d];
    Total2(c, d);
  }

  lemma {:induction false} TotalAppend(a: seq<Chunk>, b: seq<Chunk>)
    ensures TotalLen(a + b) == TotalLen(a) + TotalLen(b)
  {
    if a == [] {
      assert a + b == b;
    } else {
      TotalAppend(a[1..], b);
      assert (a + b)[1..] == a[1..] + b;
    }
  }

  lemma {:induction false} FlattenLength(cs: seq<Chunk>)
    ensures |Flatten(cs)| == TotalLen(cs)
  {
    if cs != [] { FlattenLength(cs[1..]); }
  }

  /** Width and zeros stay below 2^64. */
  ghost predicate Bounded(f: Field) {
    f.zeros < SIZE && f.width < SIZE
  }

  lemma FieldBounds(fmt: CStr, i: nat, args: seq<Arg>)
    requires i <= |fmt|
    ensures Bounded(FieldOf(SpecAt(fmt, i, args)))
  {
    SpecBounds(fmt, i, args);
    ConvertedBounds(SpecAt(fmt, i, args));
  }

  lemma ConvertedBounds(s: Spec)
    requires s.width < SIZE && s.precision < SIZE
    ensures Bounded(FieldOf(s))
  {
  }

  /** As documented, a conversion emits the longer of its field and its text. */
  lemma DocumentedField(f: Field)
    requires Bounded(f)
    ensures TotalLen(FieldChunks(f, true)) == Max(NaturalLength(f), f.width)
  {
    FieldTotal(f, true);
  }

  /** As coded, a conversion advances the output by exactly its field width, modulo 2^64. */
  lemma CodedField(g: Field)
    ensures Congruent(TotalLen(FieldChunks(g, false)), g.width)
  {
    var f := ZeroPad(g, false);
    FieldTotal(g, false);
    ModAdd(NaturalLength(f), f.width - NaturalLength(f));
  }

  /** A text that fits its field is emitted as documented. */
  lemma FittingField(f: Field)
    requires Bounded(f) && Fits(f)
    ensures FieldChunks(f, false) == FieldChunks(f, true)
  {
  }

  /** Every conversion's text fits its field. */
  predicate AllFit(ps: seq<Piece>) {
    forall k :: 0 <= k < |ps| && ps[k].Conversion? ==> Fits(ps[k].f)
  }

  ghost predicate AllBounded(ps: seq<Piece>) {
    forall k :: 0 <= k < |ps| && ps[k].Conversion? ==> Bounded(ps[k].f)
  }

  function PieceWidth(p: Piece): nat {
    match p case Literal(s) => |s| case Conversion(f) => f.width
  }

  /** Literal characters plus field widths. */
  function WidthSum(ps: seq<Piece>): nat {
    if ps == [] then 0 else PieceWidth(ps[0]) + WidthSum(ps[1..])
  }

  lemma CodedPiece(p: Piece)
    ensures Congruent(TotalLen(PieceChunks(p, false)), PieceWidth(p))
  {
    match p
    case Literal(s) => Total1(Run(s));
    case Conversion(f) => CodedField(f);
  }

  lemma {:induction false} CodedLength(ps: seq<Piece>)
    ensures Congruent(TotalLen(Chunks(ps, false)), WidthSum(ps))
  {
    if ps != [] {
      CodedPiece(ps[0]);
      CodedLength(ps[1..]);
      CodedSum(PieceChunks(ps[0], false), Chunks(ps[1..], false), PieceWidth(ps[0]), WidthSum(ps[1..]));
    }
  }

  lemma CodedSum(a: seq<Chunk>, b: seq<Chunk>, m: nat, n: nat)
    requires Congruent(TotalLen(a), m) && Congruent(TotalLen(b), n)
    ensures Congruent(TotalLen(a + b), m + n)
  {
    TotalAppend(a, b);
    ModAdd(TotalLen(a), TotalLen(b));
    ModAdd(TotalLen(b) % SIZE, TotalLen(a));
    ModAdd(m, n);
    ModAdd(n % SIZE, m);
  }

  lemma {:induction false} DocumentedLength(ps: seq<Piece>)
    requires AllBounded(ps)
    ensures var total := TotalLen(Chunks(ps, true));
      WidthSum(ps) <= total && (WidthSum(ps) == total <==> AllFit(ps))
  {
    if ps != [] {
      TotalAppend(PieceChunks(ps[0], true), Chunks(ps[1..], true));
      match ps[0] {
        case Literal(s) => Total1(Run(s));
        case Conversion(f) => DocumentedField(f);
      }
      DocumentedLength(ps[1..]);
      assert AllFit(ps) <==> AllFit(ps[..1]) && AllFit(ps[1..]) by {
        assert ps == ps[..1] + ps[1..];
      }
    }
  }

  /** When everything fits, the code emits exactly what is documented. */
  lemma {:induction false} FittingChunks(ps: seq<Piece>)
    requires AllFit(ps) && AllBounded(ps)
    ensures Chunks(ps, false) == Chunks(ps, true)
  {
    if ps != [] {
      if ps[0].Conversion? { FittingField(ps[0].f); }
      FittingChunks(ps[1..]);
    }
  }

  lemma {:induction false} PiecesBounded(fmt: CStr, i: nat, args: seq<Arg>)
    requires i <= |fmt|
    ensures AllBounded(Pieces(fmt, i, args))
    decreases |fmt| - i
  {
    if i < |fmt| && fmt[i] != '%' {
      PiecesBounded(fmt, RunEnd(fmt, i), args);
    } else if i < |fmt| {
      var s := SpecAt(fmt, i + 1, args);
      FieldBounds(fmt, i + 1, args);
      PiecesBounded(fmt, s.next, ArgsAfter(s));
    }
  }
}

/** The 32-byte buffer tmp that a number is converted in. */
module TemporaryBuffer {
  import opened Text
  import opened FormatSpec

  /** Numerals of 20 decimal, 22 octal or 16 hexadecimal digits cover 64 bits. */
  lemma Ranges()
    ensures Pow(10, 20) >= SIZE && Pow(8, 22) >= SIZE && Pow(16, 16) >= SIZE
  {
    PowAdd(10, 5, 5);
    PowAdd(10, 10, 10);
    PowAdd(8, 4, 7);
    PowAdd(8, 11, 11);
    PowAdd(16, 4, 4);
    PowAdd(16, 8, 8);
    assert Pow(10, 5) == 100000 && Pow(8, 4) == 4096 && Pow(8, 7) == 2097152 && Pow(16, 4) == 65536;
  }

  lemma QuotientBelow(n: nat, base: nat, q: nat)
    requires base > 0 && n < base * q
    ensures n / base < q
  {
    if n / base >= q { ProductGrows(base, q, n / base); }
  }

  lemma ProductGrows(x: nat, y: nat, z: nat)
    requires y <= z
    ensures x * y <= x * z
  {
  }

  lemma {:induction false} BaseDigitsLength(n: nat, base: nat, k: nat)
    requires 2 <= base <= 16 && k >= 1 && n < Pow(base, k)
    ensures |BaseDigits(n, base, false)| <= k && |BaseDigits(n, base, true)| <= k
    decreases k
  {
    if n >= base && k > 1 {
      QuotientBelow(n, base, Pow(base, k - 1));
      BaseDigitsLength(n / base, base, k - 1);
    }
  }

  lemma SignedLength(v: int)
    requires v < SIZE && -v < SIZE
    ensures |SignedDigits(v)| <= 21
  {
    Ranges();
    DigitsLength(if v < 0 then -v else v, 20);
  }

  lemma UnsignedLength(u: nat)
    requires u < SIZE
    ensures |Digits(u)| <= 20 && |BaseDigits(u, 8, false)| <= 22
    ensures |BaseDigits(u, 16, false)| <= 16 && |BaseDigits(u, 16, true)| <= 16
  {
    Ranges();
    DigitsLength(u, 20);
    BaseDigitsLength(u, 8, 22);
    BaseDigitsLength(u, 16, 16);
  }

  lemma SprintfLength(s: Spec)
    requires s.conv in "duoxX"
    ensures |Sprintf(s)| <= 22
  {
    var v := IntValue(s);
    if s.conv == 'd' {
      SignedLength(if s.long == 'h' then ToSigned(v, 0x1_0000) else v);
    } else {
      UnsignedLength(if s.long == 'h' then ToUnsigned(v, 0x1_0000) else ToUnsigned(v, SIZE));
    }
  }

  /** With the terminating NUL, no integer conversion overruns tmp. */
  lemma IntegerFitsTmp(s: Spec)
    requires s.conv in "duoxX"
    ensures |IntField(s).text| + 1 <= 32
  {
    SprintfLength(s);
    assert |Prefix(s)| <= 2;
  }
}

/** Storing a sequence of chunks into a buffer of limited size. */
module BoundedWriter {
  import opened Text
  import opened FormatSpec
  import opened FormatLength

  /** fast_memcpy or fast_memset of as much of the chunk as fits behind position l. */
  function Put(b: string, l: nat, c: Chunk): (r: string)
    ensures |r| == |b|
  {
    if l < |b| then
      var k := Min(ChunkLen(c), |b| - l);
      b[..l] + Chars(c)[..k] + b[l + k..]
    else b
  }

  /** The position after a chunk; str_l is a size_t. */
  function Next(l: nat, c: Chunk): nat { (l + ChunkLen(c)) % SIZE }

  function PutAll(b: string, l: nat, cs: seq<Chunk>): (r: (string, nat))
    ensures |r.0| == |b|
    decreases |cs|
  {
    if cs == [] then (b, l) else PutAll(Put(b, l, cs[0]), Next(l, cs[0]), cs[1..])
  }

  lemma PutAllHead(b: string, l: nat, cs: seq<Chunk>)
    requires cs != []
    ensures PutAll(b, l, cs) == PutAll(Put(b, l, cs[0]), Next(l, cs[0]), cs[1..])
  {
  }

  lemma {:induction false} PutAllAppend(b: string, l: nat, a: seq<Chunk>, c: seq<Chunk>)
    ensures PutAll(b, l, a + c) == PutAll(PutAll(b, l, a).0, PutAll(b, l, a).1, c)
    decreases |a|
  {
    if a == [] {
      assert a + c == c;
    } else {
      var b1, l1 := Put(b, l, a[0]), Next(l, a[0]);
      PutAllAppend(b1, l1, a[1..], c);
      PutAllHead(b, l, a + c);
      assert (a + c)[1..] == a[1..] + c;
    }
  }

  /** The final position is the total length modulo 2^64, whatever the buffer. */
  lemma {:induction false} FinalPosition(b: string, l: nat, cs: seq<Chunk>)
    requires l < SIZE
    ensures PutAll(b, l, cs).1 == (l + TotalLen(cs)) % SIZE
    decreases |cs|
  {
    if cs != [] {
      FinalPosition(Put(b, l, cs[0]), Next(l, cs[0]), cs[1..]);
      ModAdd(TotalLen(cs[1..]), l + ChunkLen(cs[0]));
    }
  }

  /** The buffer holds as much of out as fits. */
  ghost predicate Holds(b: string, out: string) {
    forall k :: 0 <= k < |b| && k < |out| ==> b[k] == out[k]
  }

  lemma PutHolds(b: string, out: string, c: Chunk)
    requires Holds(b, out)
    ensures Holds(Put(b, |out|, c), out + Chars(c))
  {
    var l := |out|;
    var r := Put(b, l, c);
    if l < |b| {
      var k := Min(ChunkLen(c), |b| - l);
      forall j | 0 <= j < |r| && j < |out + Chars(c)| ensures r[j] == (out + Chars(c))[j] {
        if j < l {
        } else {
          assert j - l < k;
          assert r[j] == Chars(c)[..k][j - l];
        }
      }
    }
  }

  /** While the position does not wrap, the buffer holds as much of the expansion as fits. */
  lemma {:induction false} PutAllHolds(b: string, out: string, cs: seq<Chunk>)
    requires Holds(b, out) && |out| + TotalLen(cs) < SIZE
    ensures Holds(PutAll(b, |out|, cs).0, out + Flatten(cs))
    decreases |cs|
  {
    hide Put, Holds;
    if cs == [] {
      assert out + Flatten(cs) == out;
    } else {
      var c := cs[0];
      PutHolds(b, out, c);
      assert Next(|out|, c) == |out + Chars(c)|;
      PutAllHolds(Put(b, |out|, c), out + Chars(c), cs[1..]);
      assert out + Flatten(cs) == out + Chars(c) + Flatten(cs[1..]);
    }
  }

  /** The terminating NUL. */
  function Terminate(b: string, l: nat): (r: string)
    ensures |r| == |b|
  {
    if b == "" then b else b[Min(l, |b| - 1) := '\0']
  }

  /** The buffer and str_l when portable_vsnprintf returns. */
  function Written(b: string, ps: seq<Piece>): (r: (string, nat))
    ensures |r.0| == |b|
  {
    var (w, l) := PutAll(b, 0, Chunks(ps, false));
    (Terminate(w, l), l)
  }

  /** The length returned does not depend on the buffer: it is the number of literal characters plus
      the field widths. */
  lemma ReturnedLength(b: string, ps: seq<Piece>)
    ensures Written(b, ps).1 == WidthSum(ps) % SIZE
  {
    FinalPosition(b, 0, Chunks(ps, false));
    CodedLength(ps);
  }

  /** A non-empty buffer is terminated at the returned length, or at its last byte. */
  lemma Terminated(b: string, ps: seq<Piece>)
    requires b != ""
    ensures var (w, l) := Written(b, ps); w[Min(l, |b| - 1)] == '\0'
  {
  }

  /** What snprintf promises for a buffer of |b| bytes: the length of the whole expansion, and as much
      of the expansion as fits in front of the NUL. */
  ghost predicate Delivers(b: string, l: nat, expansion: string) {
    && l == |expansion|
    && (b != "" ==>
          var k := Min(l, |b| - 1); b[..k] == expansion[..k] && b[k] == '\0')
  }

  lemma TerminateDelivers(b: string, e: string)
    requires Holds(b, e)
    ensures Delivers(Terminate(b, |e|), |e|, e)
  {
    if b != "" {
      var k := Min(|e|, |b| - 1);
      assert Terminate(b, |e|)[..k] == e[..k];
    }
  }

  lemma ChunksDeliver(b: string, cs: seq<Chunk>)
    requires |Flatten(cs)| < SIZE
    ensures var (w, l) := PutAll(b, 0, cs); Delivers(Terminate(w, l), l, Flatten(cs))
  {
    FlattenLength(cs);
    FinalPosition(b, 0, cs);
    PutAllHolds(b, "", cs);
    assert "" + Flatten(cs) == Flatten(cs);
    TerminateDelivers(PutAll(b, 0, cs).0, Flatten(cs));
  }

  /** With the padding the comments describe, every format would keep the promise. */
  lemma DocumentedDelivers(b: string, fmt: CStr, args: seq<Arg>)
    requires |Expand(fmt, args)| < SIZE
    ensures var (w, l) := PutAll(b, 0, Chunks(Pieces(fmt, 0, args), true));
      Delivers(Terminate(w, l), l, Expand(fmt, args))
  {
    ChunksDeliver(b, Chunks(Pieces(fmt, 0, args), true));
  }

  lemma WrongLength(b: string, ps: seq<Piece>)
    requires AllBounded(ps) && |Flatten(Chunks(ps, true))| < SIZE && !AllFit(ps)
    ensures Written(b, ps).1 < |Flatten(Chunks(ps, true))|
  {
    FlattenLength(Chunks(ps, true));
    DocumentedLength(ps);
    WidthBelow(b, ps);
  }

  lemma WidthBelow(b: string, ps: seq<Piece>)
    requires WidthSum(ps) < SIZE
    ensures Written(b, ps).1 == WidthSum(ps)
  {
    ReturnedLength(b, ps);
  }

  /** For every buffer, format and arguments with an expansion below 2^64 characters, the code keeps
      that promise exactly when every conversion's text fits its field. */
  lemma DeliversIffAllFit(b: string, fmt: CStr, args: seq<Arg>)
    requires |Expand(fmt, args)| < SIZE
    ensures var ps := Pieces(fmt, 0, args); var (w, l) := Written(b, ps);
      Delivers(w, l, Expand(fmt, args)) <==> AllFit(ps)
  {
    var ps := Pieces(fmt, 0, args);
    PiecesBounded(fmt, 0, args);
    if AllFit(ps) {
      FittingChunks(ps);
      ChunksDeliver(b, Chunks(ps, true));
    } else {
      WrongLength(b, ps);
    }
  }
}

/** The int that is returned: the low 32 bits of the length. */
module ReturnedInt {
  import opened Text
  import opened FormatSpec
  import opened FormatLength
  import opened BoundedWriter

  lemma ModOfMod(x: nat)
    ensures x % SIZE % UINT == x % UINT
  {
    var q, r := x / SIZE, x % SIZE;
    assert x == r + (q * UINT) * UINT;
    ModMultiple(r, q * UINT);
  }

  lemma ModMultiple(r: nat, q: nat)
    ensures (r + q * UINT) % UINT == r % UINT
  {
  }

  /** The result is the literal characters plus the field widths as a 32-bit int, whatever the buffer. */
  lemma ReturnedValue(b: string, ps: seq<Piece>)
    ensures ToSigned(Written(b, ps).1, UINT) == ToSigned(WidthSum(ps), UINT)
  {
    ReturnedLength(b, ps);
    ModOfMod(WidthSum(ps));
  }

  lemma SmallIsItself(x: nat)
    requires x < 0x8000_0000
    ensures ToSigned(x, UINT) == x
  {
  }

  /** For every expansion that an int can count, the buffer and the int that the code returns keep the
      promise of snprintf exactly when every conversion's text fits its field. */
  lemma PromiseIffAllFit(b: string, fmt: CStr, args: seq<Arg>)
    requires |Expand(fmt, args)| < 0x8000_0000
    ensures var ps := Pieces(fmt, 0, args); var (w, l) := Written(b, ps); var r := ToSigned(l, UINT);
      (r >= 0 && Delivers(w, r, Expand(fmt, args))) <==> AllFit(ps)
  {
    hide Pieces, Written, AllFit, Delivers, ToSigned;
    var ps := Pieces(fmt, 0, args);
    DeliversIffAllFit(b, fmt, args);
    NeverLonger(b, fmt, args);
    SmallIsItself(Written(b, ps).1);
  }

  lemma NeverLonger(b: string, fmt: CStr, args: seq<Arg>)
    requires |Expand(fmt, args)| < SIZE
    ensures Written(b, Pieces(fmt, 0, args)).1 <= |Expand(fmt, args)|
  {
    hide Pieces, Written;
    var ps := Pieces(fmt, 0, args);
    PiecesBounded(fmt, 0, args);
    FlattenLength(Chunks(ps, true));
    DocumentedLength(ps);
    WidthBelow(b, ps);
  }
}

module Snprintf {
  import opened Text
  import opened FormatSpec
  import opened FormatLength
  import opened BoundedWriter
  import opened ReturnedInt

  // ---- Parsing ----

  method ParseFlags(fmt: CStr, i: nat) returns (j: nat, zero: bool, left: bool, plus: bool, space: bool, alt: bool)
    requires i <= |fmt|
    ensures j == FlagsEnd(fmt, i)
    ensures var flags := fmt[i..j];
      zero == ('0' in flags) && left == ('-' in flags) && plus == ('+' in flags)
      && space == (' ' in flags) && alt == ('#' in flags)
  {
    j, zero, left, plus, space, alt := i, false, false, false, false, false;
    while IsFlag(At(fmt, j))
      invariant i <= j <= |fmt| && FlagsEnd(fmt, i) == FlagsEnd(fmt, j)
      invariant var flags := fmt[i..j];
        zero == ('0' in flags) && left == ('-' in flags) && plus == ('+' in flags)
        && space == (' ' in flags) && alt == ('#' in flags)
      decreases |fmt| - j
    {
      match fmt[j] {
        case '0' => zero := true;
        case '-' => left := true;
        case '+' => plus := true;
        case ' ' => space := true;
        case '#' => alt := true;
        case _ =>
      }
      assert fmt[i..j + 1] == fmt[i..j] + [fmt[j]];
      j := j + 1;
    }
  }

  lemma NumeralSnoc(fmt: CStr, i: nat, j: nat)
    requires i <= j < |fmt| && forall k :: i <= k <= j ==> IsDigit(fmt[k])
    ensures Numeral(fmt[i..j + 1]) == 10 * Numeral(fmt[i..j]) + (fmt[j] as nat - '0' as nat)
  {
    assert fmt[i..j + 1][..j - i] == fmt[i..j];
  }

  lemma MulAddMod(u: nat, d: nat)
    ensures (10 * (u % UINT) + d) % UINT == (10 * u + d) % UINT
  {
    var q := u / UINT;
    assert 10 * u + d == (10 * (u % UINT) + d) + (10 * q) * UINT;
  }

  /** The digit loops, in unsigned int. */
  method ParseUInt(fmt: CStr, i: nat) returns (j: nat, uj: nat)
    requires i <= |fmt|
    ensures j == DigitsEnd(fmt, i) && uj == UIntAt(fmt, i)
  {
    j, uj := i, 0;
    while IsDigit(At(fmt, j))
      invariant i <= j <= |fmt| && DigitsEnd(fmt, i) == DigitsEnd(fmt, j)
      invariant forall k :: i <= k < j ==> IsDigit(fmt[k])
      invariant uj == Numeral(fmt[i..j]) % UINT
      decreases |fmt| - j
    {
      NumeralSnoc(fmt, i, j);
      MulAddMod(Numeral(fmt[i..j]), fmt[j] as nat - '0' as nat);
      uj := (10 * uj + (fmt[j] as nat - '0' as nat)) % UINT;
      j := j + 1;
    }
  }

  method ParseWidth(fmt: CStr, i: nat, args: seq<Arg>) returns (p: nat, ap: seq<Arg>, width: nat, left: bool)
    requires i <= |fmt|
    ensures (width, left, p, ap) == WidthAt(fmt, i, args)
  {
    p, ap, width, left := i, args, 0, false;
    if At(fmt, p) == '*' {
      p := p + 1;
      var j := ToSigned(First(ap).num, UINT);
      ap := Rest(ap);
      if j >= 0 { width := j; } else { width := -j; left := true; }
    } else {
      p, width := ParseUInt(fmt, p);
    }
  }

  method ParsePrecision(fmt: CStr, i: nat, args: seq<Arg>)
    returns (p: nat, ap: seq<Arg>, precise: bool, precision: nat)
    requires i <= |fmt|
    ensures (precise, precision, p, ap) == PrecisionAt(fmt, i, args)
  {
    p, ap, precise, precision := i, args, false, 0;
    if At(fmt, p) == '.' {
      p := p + 1;
      precise := true;
      if At(fmt, p) == '*' {
        p := p + 1;
        var j := ToSigned(First(ap).num, UINT);
        ap := Rest(ap);
        if j >= 0 { precision := j; } else { precise := false; }
      } else {
        p, precision := ParseUInt(fmt, p);
      }
    }
  }

  method ParseLength(fmt: CStr, i: nat) returns (p: nat, long: char)
    requires i <= |fmt|
    ensures (long, p) == LengthAt(fmt, i)
  {
    p, long := i, '\0';
    if At(fmt, p) == 'h' || At(fmt, p) == 'l' {
      long := At(fmt, p);
      p := p + 1;
      if long == 'l' && At(fmt, p) == 'l' { p := p + 1; }
    }
  }

  method ParseSpec(fmt: CStr, i: nat, args: seq<Arg>) returns (s: Spec)
    requires i <= |fmt|
    ensures s == SpecAt(fmt, i, args)
  {
    var f, zero, left, plus, space, alt := ParseFlags(fmt, i);
    var w, args1, width, negative := ParseWidth(fmt, f, args);
    var p, args2, precise, precision := ParsePrecision(fmt, w, args1);
    var l, long := ParseLength(fmt, p);
    var raw := At(fmt, l);
    var conv := raw;
    match raw {
      case 'i' => conv := 'd';
      case 'D' => conv, long := 'd', 'l';
      case 'U' => conv, long := 'u', 'l';
      case 'O' => conv, long := 'o', 'l';
      case _ =>
    }
    if l < |fmt| { l := l + 1; }
    s := Spec(zero, left || negative, plus, space, alt, width, precise, precision, long, conv, raw, l, args2);
  }

  // ---- Emitting ----

  /** s in the place of |s| characters of b from at on. */
  function Splice(b: string, at: nat, s: string): string
    requires at + |s| <= |b|
  {
    b[..at] + s + b[at + |s|..]
  }

  method FastMemcpy(str: array<char>, at: nat, s: string, n: nat)
    requires n <= |s| && at + n <= str.Length
    modifies str
    ensures str[..] == Splice(old(str[..]), at, s[..n])
  {
    for k := 0 to n
      invariant str[..at] == old(str[..at]) && str[at + k..] == old(str[at + k..])
      invariant forall j :: at <= j < at + k ==> str[j] == s[j - at]
    {
      str[at + k] := s[k];
    }
  }

  method FastMemset(str: array<char>, at: nat, c: char, n: nat)
    requires at + n <= str.Length
    modifies str
    ensures str[..] == Splice(old(str[..]), at, Repeat(c, n))
  {
    for k := 0 to n
      invariant str[..at] == old(str[..at]) && str[at + k..] == old(str[at + k..])
      invariant forall j :: at <= j < at + k ==> str[j] == c
    {
      str[at + k] := c;
    }
  }

  lemma SplicePut(b: string, m: nat, l: nat, c: Chunk)
    requires l < m <= |b|
    ensures var k := Min(ChunkLen(c), m - l); var r := Splice(b, l, Chars(c)[..k]);
      r[..m] == Put(b[..m], l, c) && r[m..] == b[m..]
  {
  }

  lemma RepeatPrefix(c: char, n: nat, k: nat)
    requires k <= n
    ensures Repeat(c, n)[..k] == Repeat(c, k)
  {
  }

  /** Every store is at an index below m. */
  method Emit(str: array<char>, m: nat, l: nat, c: Chunk) returns (l': nat)
    requires m <= str.Length
    modifies str
    ensures str[..m] == Put(old(str[..m]), l, c) && str[m..] == old(str[m..])
    ensures l' == Next(l, c)
  {
    if l < m {
      var avail := m - l;
      var n := if ChunkLen(c) > avail then avail else ChunkLen(c);
      ghost var b := str[..];
      match c {
        case Run(s) => FastMemcpy(str, l, s, n);
        case Fill(x, _) => FastMemset(str, l, x, n); RepeatPrefix(x, ChunkLen(c), n);
      }
      SplicePut(b, m, l, c);
      assert str[..][..m] == str[..m] && str[..][m..] == str[m..] && b[..m] == old(str[..m]) && b[m..] == old(str[m..]);
    }
    l' := (l + ChunkLen(c)) % SIZE;
  }

  method EmitAll(str: array<char>, m: nat, l: nat, cs: seq<Chunk>) returns (l': nat)
    requires m <= str.Length
    modifies str
    ensures PutAll(old(str[..m]), l, cs) == (str[..m], l') && str[m..] == old(str[m..])
  {
    l' := l;
    for k := 0 to |cs|
      invariant PutAll(old(str[..m]), l, cs) == PutAll(str[..m], l', cs[k..])
      invariant str[m..] == old(str[m..])
    {
      assert cs[k..][1..] == cs[k + 1..];
      l' := Emit(str, m, l', cs[k]);
    }
  }

  /** One literal run or conversion, with the position and the arguments after it. */
  method NextPiece(fmt: CStr, p: nat, ap: seq<Arg>) returns (piece: Piece, p': nat, ap': seq<Arg>)
    requires p < |fmt|
    ensures p < p' <= |fmt|
    ensures Pieces(fmt, p, ap) == [piece] + Pieces(fmt, p', ap')
  {
    hide Pieces, SpecAt, FieldOf, ArgsAfter;
    if fmt[p] != '%' {
      var q := Find(fmt, '%', p + 1);
      var n := if q == -1 then |fmt| - p else q - p;
      LiteralPiece(fmt, p, ap, p + n);
      return Literal(fmt[p..p + n]), p + n, ap;
    } else {
      var s := ParseSpec(fmt, p + 1, ap);
      ConversionPiece(fmt, p, ap, s);
      return Conversion(FieldOf(s)), s.next, ArgsAfter(s);
    }
  }

  lemma PutPiece(b: string, l: nat, p: Piece, ps: seq<Piece>)
    ensures var r := PutAll(b, l, PieceChunks(p, false));
      PutAll(b, l, Chunks([p] + ps, false)) == PutAll(r.0, r.1, Chunks(ps, false))
  {
    assert ([p] + ps)[1..] == ps;
    PutAllAppend(b, l, PieceChunks(p, false), Chunks(ps, false));
  }

  lemma NoPieces(fmt: CStr, ap: seq<Arg>)
    ensures Chunks(Pieces(fmt, |fmt|, ap), false) == []
  {
  }

  /** The loop over the format. str_m is m; the stores stay inside str[..m]. */
  method PortableVsnprintf(str: array<char>, m: nat, fmt: CStr, args: seq<Arg>) returns (r: int)
    requires m <= str.Length
    modifies str
    ensures str[..m] == Written(old(str[..m]), Pieces(fmt, 0, args)).0 && str[m..] == old(str[m..])
    ensures r == ToSigned(Written(old(str[..m]), Pieces(fmt, 0, args)).1, UINT)
    ensures |Expand(fmt, args)| < 0x8000_0000 ==>
      ((r >= 0 && Delivers(str[..m], r, Expand(fmt, args))) <==> AllFit(Pieces(fmt, 0, args)))
  {
    hide Pieces, AllFit, Delivers;
    var l: nat, p: nat, ap := 0, 0, args;
    ghost var b0, all := str[..m], Pieces(fmt, 0, args);
    while p < |fmt|
      invariant p <= |fmt|
      invariant PutAll(b0, 0, Chunks(all, false)) == PutAll(str[..m], l, Chunks(Pieces(fmt, p, ap), false))
      invariant str[m..] == old(str[m..])
      decreases |fmt| - p
    {
      var piece, p', ap' := NextPiece(fmt, p, ap);
      PutPiece(str[..m], l, piece, Pieces(fmt, p', ap'));
      l := EmitAll(str, m, l, PieceChunks(piece, false));
      p, ap := p', ap';
    }
    NoPieces(fmt, ap);
    assert (str[..m], l) == PutAll(b0, 0, Chunks(all, false));
    if m > 0 {
      str[if l <= m - 1 then l else m - 1] := '\0';
    }
    r := ToSigned(l, UINT);
    if |Expand(fmt, args)| < 0x8000_0000 { PromiseIffAllFit(b0, fmt, args); }
  }

  /** The result StringUtil::vform is for: the whole expansion, when everything fits. */
  ghost predicate Formatted(s: string, ps: seq<Piece>) {
    var e := Flatten(Chunks(ps, true));
    AllFit(ps) && |e| < SIZE ==> s == CString(e + ['\0'])
  }

  lemma DeliveredString(b: string, w: string, n: nat, ps: seq<Piece>)
    requires Written(b, ps) == (w, n) && n < |w| && AllBounded(ps)
    ensures Formatted(CString(w), ps)
  {
    var e := Flatten(Chunks(ps, true));
    if AllFit(ps) && |e| < SIZE {
      FittingChunks(ps);
      ChunksDeliver(b, Chunks(ps, true));
      CutString(w, e);
    }
  }

  /** The string that one call leaves in a buffer. */
  ghost predicate LeftIn(s: string, b: string, ps: seq<Piece>) {
    s == CString(Written(b, ps).0)
  }

  /** One call of vsnprintf with a fresh buffer, whose bytes are b, and the string in it. */
  method TryFormat(size: nat, fmt: CStr, args: seq<Arg>, ghost ps: seq<Piece>)
    returns (n: int, s: string, ghost b: string)
    requires size > 0 && ps == Pieces(fmt, 0, args) && WidthSum(ps) < 0x8000_0000
    ensures n == WidthSum(ps) && |b| == size && LeftIn(s, b, ps)
    ensures n < size ==> Formatted(s, ps)
  {
    hide Pieces, WidthSum, Written, Formatted, CString, Delivers;
    var buffer := new char[size];
    b := buffer[..size];
    PiecesBounded(fmt, 0, args);
    n := PortableVsnprintf(buffer, size, fmt, args);
    WidthBelow(b, ps);
    SmallIsItself(WidthSum(ps));
    s := CString(buffer[..size]);
    if n < size { DeliveredString(b, buffer[..size], n, ps); }
  }

  /** StringUtil::vform retries with a buffer of the length it was told, so with results below 2^31
      it returns after at most two calls: with what is left in a buffer of 1024 bytes, or of just the
      length needed. That is the whole expansion when everything fits its field. */
  method Vform(fmt: CStr, args: seq<Arg>) returns (s: string)
    requires WidthSum(Pieces(fmt, 0, args)) < 0x8000_0000
    ensures var ps := Pieces(fmt, 0, args);
      exists b :: |b| == (if WidthSum(ps) < 1024 then 1024 else WidthSum(ps) + 1) && LeftIn(s, b, ps)
    ensures Formatted(s, Pieces(fmt, 0, args))
  {
    hide Pieces, LeftIn, Formatted;
    var size := 1024;
    ghost var ps := Pieces(fmt, 0, args);
    while true
      invariant size == 1024 || (size == WidthSum(ps) + 1 && WidthSum(ps) >= 1024)
      decreases if size > WidthSum(ps) then 0 else 1
    {
      var n;
      ghost var b;
      n, s, b := TryFormat(size, fmt, args, ps);
      if n > -1 && n < size {
        return;
      }
      size := if n > -1 then n + 1 else size * 2;
    }
  }

  lemma CutString(b: string, e: string)
    requires |e| < |b| && b[..|e|] == e && b[|e|] == '\0'
    ensures CString(b) == CString(e + ['\0'])
  {
    var z, y := Find(b, '\0', 0), Find(e + ['\0'], '\0', 0);
    assert (e + ['\0'])[|e|] == '\0';
    assert forall k :: 0 <= k <= |e| ==> b[k] == (e + ['\0'])[k];
    assert z == y;
    assert b[..z] == (e + ['\0'])[..z];
  }

  const FIVE: seq<Arg> := [Arg(5, None, true, "")]

  lemma PlainSpec()
    ensures SpecAt("%d", 1, FIVE) == Spec(false, false, false, false, false, 0, false, 0, '\0', 'd', 'd', 2, FIVE)
  {
    assert "%d"[1..1] == "";
  }

  lemma PlainField(s: Spec)
    requires s == Spec(false, false, false, false, false, 0, false, 0, '\0', 'd', 'd', 2, FIVE)
    ensures FieldOf(s) == Field("5", 0, 0, false, false, 0) && ArgsAfter(s) == []
  {
    assert "" + "5" == "5";
  }

  lemma PlainPieces()
    ensures Pieces("%d", 0, FIVE) == [Conversion(Field("5", 0, 0, false, false, 0))]
  {
    hide SpecAt, FieldOf, ArgsAfter;
    PlainSpec();
    PlainField(SpecAt("%d", 1, FIVE));
    assert Pieces("%d", 2, []) == [];
  }

  lemma PlainChunks(p: Piece)
    requires p == Conversion(Field("5", 0, 0, false, false, 0))
    ensures Chunks([p], true) == [Fill(' ', 0), Run("5")]
    ensures Chunks([p], false) == [Fill(' ', SIZE - 1), Run("5")]
  {
    assert [p][1..] == [];
  }

  /** The promise is broken for the simplest conversion: "%d" of 5 should give "5" and 1; it returns 0
      and leaves an empty string. */
  lemma PlainConversionFails()
    ensures Expand("%d", FIVE) == "5" && !AllFit(Pieces("%d", 0, FIVE))
    ensures Written("....", Pieces("%d", 0, FIVE)) == ("\0   ", 0)
  {
    hide Pieces, SpecAt, PutAll, Put, PieceChunks;
    PlainPieces();
    PlainChunks(Conversion(Field("5", 0, 0, false, false, 0)));
    FiveExpanded(Fill(' ', 0), Run("5"));
    BlankThenFive(Fill(' ', SIZE - 1), Run("5"));
    assert Terminate("    ", 0) == "\0   ";
  }

  lemma FiveExpanded(none: Chunk, five: Chunk)
    requires none == Fill(' ', 0) && five == Run("5")
    ensures Flatten([none, five]) == "5"
  {
    assert [none, five][1..] == [five] && [five][1..] == [];
    assert Flatten([five]) == "5" + Flatten([]) == "5";
    assert Chars(none) == "";
  }

  lemma BlankThenFive(blank: Chunk, five: Chunk)
    requires blank == Fill(' ', SIZE - 1) && five == Run("5")
    ensures PutAll("....", 0, [blank, five]) == ("    ", 0)
  {
    assert [blank, five][1..] == [five] && [five][1..] == [];
    assert Put("....", 0, blank) == "    ";
    assert Put("    ", SIZE - 1, five) == "    ";
    PutAllHead("....", 0, [blank, five]);
    PutAllHead("    ", SIZE - 1, [five]);
  }
}
