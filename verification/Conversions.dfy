/** The text of a conversion, told from the value of its argument, without reference to how the code gets
    there: where the sign, the prefix, the zeros, the digits and the blanks stand and how many there are. */
module ConversionText {
  import opened Text
  import opened FormatSpec
  import opened FormatLength

  // ---- Numerals ----

  function DigitSet(upper: bool): string { if upper then "0123456789ABCDEF" else "0123456789abcdef" }

  /** The value of a digit, or -1. */
  function DigitValue(c: char, upper: bool): int { Find(DigitSet(upper), c, 0) }

  function NumeralValue(t: string, base: nat, upper: bool): int {
    if t == "" then 0 else base * NumeralValue(t[..|t| - 1], base, upper) + DigitValue(t[|t| - 1], upper)
  }

  ghost predicate AllDigits(t: string, base: nat, upper: bool) {
    forall k :: 0 <= k < |t| ==> 0 <= DigitValue(t[k], upper) < base
  }

  /** t is the numeral of n: digits of the base, of value n, without a leading zero. */
  ghost predicate Denotes(t: string, n: nat, base: nat, upper: bool) {
    && t != "" && AllDigits(t, base, upper) && NumeralValue(t, base, upper) == n
    && (t[0] == '0' ==> t == "0")
  }

  lemma DigitSetAt(d: nat, upper: bool)
    requires d < 16
    ensures DigitSet(upper)[d] == HexDigit(d, upper)
  {
  }

  lemma DigitBack(d: nat, upper: bool)
    requires d < 16
    ensures DigitValue(HexDigit(d, upper), upper) == d
  {
    forall k: nat | k <= d ensures DigitSet(upper)[k] == HexDigit(k, upper) { DigitSetAt(k, upper); }
    hide DigitSet;
    FindFirst(DigitSet(upper), HexDigit(d, upper), d);
  }

  /** A digit is no minus sign, and no x. */
  lemma DigitIsNoSign(c: char, upper: bool)
    requires DigitValue(c, upper) >= 0
    ensures c !in "-xX"
  {
    DigitSetAt(DigitValue(c, upper), upper);
  }

  lemma ZeroDenotesZero(base: nat, upper: bool)
    ensures NumeralValue("0", base, upper) == 0
  {
    hide DigitValue;
    DigitBack(0, upper);
    assert HexDigit(0, upper) == '0';
    assert "0"[..0] == "" && NumeralValue("", base, upper) == 0;
  }

  lemma DigitDenotes(d: nat, base: nat, upper: bool)
    requires d < base <= 16
    ensures Denotes([HexDigit(d, upper)], d, base, upper)
  {
    hide DigitValue;
    DigitBack(d, upper);
    assert [HexDigit(d, upper)][..0] == "" && NumeralValue("", base, upper) == 0;
  }

  lemma DenotesMore(t: string, q: nat, d: nat, base: nat, upper: bool)
    requires Denotes(t, q, base, upper) && q > 0 && d < base <= 16
    ensures Denotes(t + [HexDigit(d, upper)], base * q + d, base, upper)
  {
    hide DigitValue, HexDigit;
    DigitBack(d, upper);
    ZeroDenotesZero(base, upper);
    assert (t + [HexDigit(d, upper)])[..|t|] == t;
  }

  lemma Divided(n: nat, base: nat)
    requires base > 0
    ensures n == base * (n / base) + n % base && (n >= base ==> n / base > 0)
  {
  }

  lemma BaseDigitsIs(n: nat, base: nat, upper: bool)
    requires 2 <= base <= 16
    ensures BaseDigits(n, base, upper)
      == if n < base then [HexDigit(n, upper)] else BaseDigits(n / base, base, upper) + [HexDigit(n % base, upper)]
  {
  }

  lemma {:induction false} BaseDigitsDenote(n: nat, base: nat, upper: bool)
    requires 2 <= base <= 16
    ensures Denotes(BaseDigits(n, base, upper), n, base, upper)
  {
    hide Denotes, HexDigit, BaseDigits;
    BaseDigitsIs(n, base, upper);
    Divided(n, base);
    if n < base {
      DigitDenotes(n, base, upper);
    } else {
      BaseDigitsDenote(n / base, base, upper);
      DenotesMore(BaseDigits(n / base, base, upper), n / base, n % base, base, upper);
    }
  }

  lemma {:induction false} DecimalDigits(n: nat)
    ensures Digits(n) == BaseDigits(n, 10, false)
  {
    if n >= 10 { DecimalDigits(n / 10); }
  }

  /** The digits after a sign or prefix, for the base of the conversion. */
  function Base(conv: char): nat {
    if conv == 'o' then 8 else if conv == 'x' || conv == 'X' then 16 else 10
  }

  // ---- Layout ----

  /** m - n, but not less than 0. */
  function Beyond(m: nat, n: nat): nat { if m > n then m - n else 0 }

  /** A sign or prefix, zeros and the rest, with blanks in front or, for left justification, behind. */
  function Padded(lead: string, zeros: nat, body: string, blanks: nat, left: bool): string {
    var t := lead + Repeat('0', zeros) + body;
    if left then t + Repeat(' ', blanks) else Repeat(' ', blanks) + t
  }

  lemma Flat2(a: Chunk, b: Chunk)
    ensures Flatten([a, b]) == Chars(a) + Chars(b)
  {
    Flat1(b);
    assert [a, b][1..] == [b];
  }

  lemma Flat1(a: Chunk)
    ensures Flatten([a]) == Chars(a)
  {
    assert [a][1..] == [];
    assert Chars(a) + "" == Chars(a);
  }

  lemma Flat4(a: Chunk, b: Chunk, c: Chunk, d: Chunk)
    ensures Flatten([a, b, c, d]) == Chars(a) + Chars(b) + Chars(c) + Chars(d)
  {
    Flat2(c, d);
    assert [a, b, c, d][1..] == [b, c, d] && [b, c, d][1..] == [c, d];
    hide Chars;
    assert Flatten([a, b, c, d]) == Chars(a) + (Chars(b) + (Chars(c) + Chars(d)));
  }

  lemma NoFill(c: char)
    ensures Chars(Fill(c, 0)) == ""
  {
  }

  /** A field as documented: the zeros of its precision, or those that fill its width, stand between the
      two parts of its text; blanks stand behind it exactly when it is left justified. */
  lemma FieldLayout(g: Field)
    requires Bounded(g)
    ensures var fills := g.zero && !g.left;
      var zeros := if fills then Max(g.zeros, Beyond(g.width, |g.text|)) else g.zeros;
      var blanks := if fills then 0 else Beyond(g.width, |g.text| + g.zeros);
      Flatten(FieldChunks(g, true)) == Padded(g.text[..g.ins], zeros, g.text[g.ins..], blanks, g.left)
  {
    var f := ZeroPad(g, true);
    var gap := Gap(true, f.width, NaturalLength(f));
    FieldPieces(g, f, gap);
    ZerosAndBlanks(g, f, gap);
    hide FieldChunks, ZeroPad, Gap, NaturalLength, Padded, Beyond;
    PaddedIs(f.text, f.ins, f.zeros, gap, f.left, f.zero && !f.left);
  }

  lemma ZerosAndBlanks(g: Field, f: Field, gap: nat)
    requires Bounded(g) && f == ZeroPad(g, true) && gap == Gap(true, f.width, NaturalLength(f))
    ensures f == g.(zeros := f.zeros)
    ensures f.zeros == if g.zero && !g.left then Max(g.zeros, Beyond(g.width, |g.text|)) else g.zeros
    ensures gap == if g.zero && !g.left then 0 else Beyond(g.width, |g.text| + g.zeros)
  {
    GapIs(g.width, |g.text| + g.zeros);
    GapIs(g.width, NaturalLength(f));
    hide Gap;
  }

  lemma GapIs(width: nat, length: nat)
    requires width < SIZE
    ensures Gap(true, width, length) == Beyond(width, length)
  {
  }

  lemma PaddedIs(text: string, ins: nat, zeros: nat, gap: nat, left: bool, fills: bool)
    requires ins <= |text| && (fills ==> gap == 0 && !left)
    ensures var t := if zeros == 0 then text else text[..ins] + Repeat('0', zeros) + text[ins..];
      (if left then t + Repeat(' ', gap) else Repeat(if fills then '0' else ' ', gap) + t)
      == Padded(text[..ins], zeros, text[ins..], gap, left)
  {
    if zeros == 0 { assert text[..ins] + Repeat('0', zeros) + text[ins..] == text; }
  }

  lemma FieldPieces(g: Field, f: Field, gap: nat)
    requires f == ZeroPad(g, true) && gap == Gap(true, f.width, NaturalLength(f))
    ensures var text := if f.zeros == 0 then f.text else f.text[..f.ins] + Repeat('0', f.zeros) + f.text[f.ins..];
      Flatten(FieldChunks(g, true))
      == if f.left then text + Repeat(' ', gap) else Repeat(if f.zero then '0' else ' ', gap) + text
  {
    if f.left { LeftPieces(g, f, gap); } else { RightPieces(g, f, gap); }
  }

  lemma LeftPieces(g: Field, f: Field, gap: nat)
    requires f == ZeroPad(g, true) && gap == Gap(true, f.width, NaturalLength(f)) && f.left
    ensures var text := if f.zeros == 0 then f.text else f.text[..f.ins] + Repeat('0', f.zeros) + f.text[f.ins..];
      Flatten(FieldChunks(g, true)) == text + Repeat(' ', gap)
  {
    var l, r, z, t, e := Run(f.text[..f.ins]), Run(f.text[f.ins..]), Fill('0', f.zeros), Run(f.text), Fill(' ', gap);
    assert FieldChunks(g, true) == if f.zeros == 0 then [t, e] else [l, z, r, e];
    hide FieldChunks, ZeroPad, Gap, Flatten;
    Flat2(t, e);
    Flat4(l, z, r, e);
  }

  lemma RightPieces(g: Field, f: Field, gap: nat)
    requires f == ZeroPad(g, true) && gap == Gap(true, f.width, NaturalLength(f)) && !f.left
    ensures var text := if f.zeros == 0 then f.text else f.text[..f.ins] + Repeat('0', f.zeros) + f.text[f.ins..];
      Flatten(FieldChunks(g, true)) == Repeat(if f.zero then '0' else ' ', gap) + text
  {
    var b, l, r := Fill(if f.zero then '0' else ' ', gap), Run(f.text[..f.ins]), Run(f.text[f.ins..]);
    var z, t := Fill('0', f.zeros), Run(f.text);
    assert FieldChunks(g, true) == if f.zeros == 0 then [b, t] else [b, l, z, r];
    hide FieldChunks, ZeroPad, Gap, Flatten;
    Flat2(b, t);
    Flat4(b, l, z, r);
    FourthApart(Chars(b), Chars(l), Chars(z), Chars(r));
  }

  lemma FourthApart(a: string, b: string, c: string, d: string)
    ensures a + b + c + d == a + (b + c + d)
  {
  }

  // ---- Strings, characters and everything else ----

  /** What a conversion writes as documented. */
  function Output(s: Spec): string { Flatten(FieldChunks(FieldOf(s), true)) }

  lemma PlainOutput(s: Spec, text: string)
    requires s.width < SIZE
    requires FieldOf(s) == Field(text, 0, 0, false, s.left, s.width)
    ensures Output(s) == Padded("", 0, text, Beyond(s.width, |text|), s.left)
  {
    hide FieldOf, FieldChunks, Padded;
    FieldLayout(FieldOf(s));
    assert text[..0] == "" && text[0..] == text;
  }

  /** %s writes the longest prefix of its argument that its precision allows, and nothing for NULL. */
  lemma StringText(s: Spec) returns (text: string)
    requires s.conv == 's' && s.width < SIZE
    ensures match First(s.args).str
      case None => text == ""
      case Some(v) => text <= v && (s.precise ==> |text| <= s.precision)
                      && (text != v ==> s.precise && |text| == s.precision)
    ensures Output(s) == Padded("", 0, text, Beyond(s.width, |text|), s.left)
  {
    hide FieldChunks, Padded, Beyond;
    text := StrText(s);
    PlainOutput(s, text);
  }

  /** %c writes its argument as an unsigned char, and %% a percent sign, in a field like %s. */
  lemma CharText(s: Spec)
    requires (s.conv == 'c' || s.conv == '%') && s.width < SIZE
    ensures var text := [if s.conv == '%' then '%' else (First(s.args).num % 256) as char];
      Output(s) == Padded("", 0, text, Beyond(s.width, 1), s.left)
  {
    hide FieldChunks, Padded, Beyond;
    PlainOutput(s, [if s.conv == '%' then '%' else (First(s.args).num % 256) as char]);
  }

  /** An unknown conversion writes its character, and none at the end of the format, whatever its width. */
  lemma UnknownText(s: Spec)
    requires s.conv !in "csduoxXp%"
    ensures Output(s) == if s.raw == '\0' then "" else [s.raw]
  {
    var text := if s.raw == '\0' then "" else [s.raw];
    assert FieldOf(s) == Field(text, 0, 0, false, true, 0);
    hide FieldOf, FieldChunks;
    FieldLayout(FieldOf(s));
    assert text[..0] == "" && text[0..] == text;
    assert "" + Repeat('0', 0) + text + Repeat(' ', 0) == text;
  }

  // ---- Integers ----

  /** The 2^64 or 2^32 values an integer argument can take. */
  function Range(long: char): nat { if long == 'l' then 0x1_0000_0000_0000_0000 else 0x1_0000_0000 }

  /** v is the number that an argument of the given range stands for. */
  ghost predicate ReadAs(num: int, range: nat, signed: bool, v: int)
    requires range > 0
  {
    (v - num) % range == 0 && if signed then -1 * range <= 2 * v < range else 0 <= v < range
  }

  lemma UnsignedReads(num: int, long: char)
    ensures ReadAs(num, Range(long), false, ToUnsigned(num, Modulus(long)))
  {
  }

  lemma SignedReads(num: int, long: char)
    ensures ReadAs(num, Range(long), true, ToSigned(num, Modulus(long)))
  {
  }

  lemma ShortReads(num: int)
    ensures ReadAs(num, 0x1_0000, false, ToUnsigned(num, 0x1_0000))
    ensures ReadAs(num, 0x1_0000, true, ToSigned(num, 0x1_0000))
  {
  }

  /** The value of the argument, and the value written, which the modifier h makes shorter. */
  ghost predicate Values(s: Spec, v: int, w: int) {
    && ReadAs(First(s.args).num, Range(s.long), s.conv == 'd', v)
    && if s.long == 'h' then ReadAs(v, 0x1_0000, s.conv == 'd', w) else w == v
  }

  /** What sprintf writes: a minus sign for a negative value, and the numeral of its magnitude. */
  lemma SprintfParts(s: Spec) returns (w: int, digits: string)
    requires s.conv in "duoxX"
    ensures Values(s, IntValue(s), w) && (w < 0 ==> s.conv == 'd')
    ensures Denotes(digits, Abs(w), Base(s.conv), s.conv == 'X')
    ensures Sprintf(s) == (if w < 0 then "-" else "") + digits
  {
    hide ReadAs, Denotes, ToSigned, Digits, BaseDigits;
    var v := IntValue(s);
    UnsignedReads(First(s.args).num, s.long);
    SignedReads(First(s.args).num, s.long);
    ShortReads(v);
    w := if s.long != 'h' then v else if s.conv == 'd' then ToSigned(v, 0x1_0000) else ToUnsigned(v, 0x1_0000);
    if s.conv != 'd' { WholeValue(s); }
    digits := BaseDigits(Abs(w), Base(s.conv), s.conv == 'X');
    BaseDigitsDenote(Abs(w), Base(s.conv), s.conv == 'X');
    DecimalDigits(Abs(w));
  }

  lemma WholeValue(s: Spec)
    requires s.conv in "uoxX"
    ensures 0 <= IntValue(s) && IntValue(s) == ToUnsigned(IntValue(s), SIZE)
  {
  }

  /** The zeros go behind the sign: a numeral starts with no sign and no 0x. */
  lemma InsertionBehindSign(prefix: string, sign: string, digits: string, n: nat, base: nat, upper: bool)
    requires (sign == "" || sign == "-") && Denotes(digits, n, base, upper)
    ensures InsertionPoint(prefix + (sign + digits), |prefix|) == |prefix| + |sign|
  {
    var text := prefix + (sign + digits);
    var i := |prefix| + |sign|;
    assert text[i] == digits[0] && (|digits| > 1 ==> text[i + 1] == digits[1]);
    DigitIsNoSign(digits[0], upper);
    if |digits| > 1 { DigitIsNoSign(digits[1], upper); }
    hide DigitValue;
  }

  /** The sign of a value that is not negative, when a flag asks for one, or the prefix of a value that is
      not 0. It goes by the whole value, not by the one that h makes shorter. */
  function Lead(s: Spec, v: int): string {
    if s.conv == 'd' && v >= 0 && s.plus then "+"
    else if s.conv == 'd' && v >= 0 && s.space then " "
    else if s.conv == 'x' && v != 0 && s.alt then "0x"
    else if s.conv == 'X' && v != 0 && s.alt then "0X"
    else ""
  }

  lemma PrefixIsLead(s: Spec)
    requires s.conv in "duoxX"
    ensures Prefix(s) == Lead(s, IntValue(s)) && (ArgSign(s) == 0 <==> IntValue(s) == 0)
  {
    hide IntValue;
    if s.conv != 'd' { WholeValue(s); }
  }

  /** A zero precision writes nothing for 0. */
  predicate Empty(s: Spec, v: int) { s.precise && s.precision == 0 && v == 0 }

  /** The zeros in front of the digits, before flag 0 fills the width: those that bring the digits to the
      precision, and for the octal alternate form at least one, unless a 0 is there already. */
  function PrecisionZeros(s: Spec, digits: string): nat {
    var zeros := Beyond(if s.precise then s.precision else 1, |digits|);
    if s.alt && s.conv == 'o' && (digits == "" || digits[0] != '0') then Max(zeros, 1) else zeros
  }

  lemma IntParts(s: Spec) returns (w: int, digits: string)
    requires s.conv in "duoxX"
    ensures Values(s, IntValue(s), w)
    ensures if Empty(s, IntValue(s)) then digits == "" else Denotes(digits, Abs(w), Base(s.conv), s.conv == 'X')
    ensures var lead := Lead(s, IntValue(s)) + if w < 0 then "-" else "";
      IntField(s)
      == Field(lead + digits, |lead|, PrecisionZeros(s, digits), s.zero && !s.precise, s.left, s.width)
  {
    hide Denotes, Values, Sprintf, IntValue, Lead, Prefix, ArgSign, InsertionPoint;
    w, digits := SprintfParts(s);
    PrefixIsLead(s);
    var prefix, sign := Prefix(s), if w < 0 then "-" else "";
    InsertionBehindSign(prefix, sign, digits, Abs(w), Base(s.conv), s.conv == 'X');
    assert prefix + (sign + digits) == prefix + sign + digits;
    if Empty(s, IntValue(s)) {
      digits := "";
      EmptyHasNoSign(s, w);
    }
  }

  lemma EmptyHasNoSign(s: Spec, w: int)
    requires IntValue(s) == 0 && Values(s, IntValue(s), w)
    ensures w == 0
  {
  }

  lemma NumberField(s: Spec)
    requires s.conv in "duoxXp" && s.width < SIZE && s.precision < SIZE
    ensures FieldOf(s) == IntField(s) && Bounded(IntField(s))
  {
    hide IntField;
    ConvertedBounds(s);
  }

  lemma LeadAndBody(lead: string, body: string, natural: nat, zero: bool, left: bool, width: nat)
    requires natural < SIZE && width < SIZE
    ensures var zeros := if zero && !left then Max(natural, Beyond(width, |lead| + |body|)) else natural;
      Flatten(FieldChunks(Field(lead + body, |lead|, natural, zero, left, width), true))
      == Padded(lead, zeros, body, Beyond(width, |lead| + zeros + |body|), left)
  {
    hide FieldChunks, Padded, Flatten;
    FieldLayout(Field(lead + body, |lead|, natural, zero, left, width));
    assert (lead + body)[..|lead|] == lead && (lead + body)[|lead|..] == body;
  }

  /** An integer conversion. With v the value of the argument and w the value written, it writes blanks, then
      the sign or prefix, then zeros, then the numeral of w's magnitude, and blanks again if left justified.
      No zero stands in front of a sign or prefix. Flag 0 fills the width with zeros, unless a precision is
      given or the field is left justified. */
  lemma IntegerText(s: Spec) returns (v: int, w: int, digits: string)
    requires s.conv in "duoxX" && s.width < SIZE && s.precision < SIZE
    ensures Values(s, v, w)
    ensures if Empty(s, v) then digits == "" else Denotes(digits, Abs(w), Base(s.conv), s.conv == 'X')
    ensures var lead, natural := Lead(s, v) + (if w < 0 then "-" else ""), PrecisionZeros(s, digits);
      var zeros :=
        if s.zero && !s.precise && !s.left then Max(natural, Beyond(s.width, |lead| + |digits|)) else natural;
      Output(s) == Padded(lead, zeros, digits, Beyond(s.width, |lead| + zeros + |digits|), s.left)
  {
    hide Denotes, Values, IntField, Lead, FieldChunks, Padded, PrecisionZeros, FieldOf, Flatten;
    v := IntValue(s);
    w, digits := IntParts(s);
    NumberField(s);
    var lead := Lead(s, v) + (if w < 0 then "-" else "");
    LeadAndBody(lead, digits, PrecisionZeros(s, digits), s.zero && !s.precise, s.left, s.width);
  }

  /** %p writes the platform's text for the pointer, its sign and 0x in front of any zeros, or nothing for
      NULL with precision 0. */
  lemma PointerText(s: Spec) returns (lead: string, body: string)
    requires s.conv == 'p' && s.width < SIZE && s.precision < SIZE
    ensures lead + body == if s.precise && s.precision == 0 && First(s.args).ptrNull then "" else First(s.args).ptrText
    ensures lead in {"", "-", "0x", "0X", "-0x", "-0X"}
    ensures lead == "" ==> !("-" <= body)
    ensures lead in {"", "-"} ==> !("0x" <= body || "0X" <= body)
    ensures var natural := Beyond(if s.precise then s.precision else 1, |body|);
      var zeros := if s.zero && !s.precise && !s.left then Max(natural, Beyond(s.width, |lead| + |body|)) else natural;
      Output(s) == Padded(lead, zeros, body, Beyond(s.width, |lead| + zeros + |body|), s.left)
  {
    hide FieldChunks, Padded, IntField, FieldOf, Flatten;
    NumberField(s);
    lead, body := PointerParts(s);
    var zeros := Beyond(if s.precise then s.precision else 1, |body|);
    LeadAndBody(lead, body, zeros, s.zero && !s.precise, s.left, s.width);
  }

  lemma PointerParts(s: Spec) returns (lead: string, body: string)
    requires s.conv == 'p'
    ensures lead + body == if s.precise && s.precision == 0 && First(s.args).ptrNull then "" else First(s.args).ptrText
    ensures lead in {"", "-", "0x", "0X", "-0x", "-0X"}
    ensures lead == "" ==> !("-" <= body)
    ensures lead in {"", "-"} ==> !("0x" <= body || "0X" <= body)
    ensures IntField(s) == Field(lead + body, |lead|, Beyond(if s.precise then s.precision else 1, |body|),
                                 s.zero && !s.precise, s.left, s.width)
  {
    hide InsertionPoint;
    assert Prefix(s) == "" && Sprintf(s) == First(s.args).ptrText;
    if s.precise && s.precision == 0 && First(s.args).ptrNull {
      lead, body := "", "";
    } else {
      lead, body := PointerSplit(First(s.args).ptrText);
      assert "" + First(s.args).ptrText == First(s.args).ptrText;
    }
  }

  lemma PointerSplit(text: string) returns (lead: string, body: string)
    ensures text == lead + body && |lead| == InsertionPoint(text, 0)
    ensures lead in {"", "-", "0x", "0X", "-0x", "-0X"}
    ensures lead == "" ==> !("-" <= body)
    ensures lead in {"", "-"} ==> !("0x" <= body || "0X" <= body)
  {
    var i := InsertionPoint(text, 0);
    lead, body := text[..i], text[i..];
    if i == 1 {
      assert lead == "-";
    } else if i == 2 {
      assert lead == "0x" || lead == "0X";
    } else if i == 3 {
      assert lead == "-0x" || lead == "-0X";
    }
  }

  /** Both a sign flag's character and a minus sign are written exactly when h makes a value that is not
      negative a negative one. */
  lemma TwoSignsExactly(s: Spec, v: int, w: int)
    requires s.conv == 'd' && Values(s, v, w)
    ensures Lead(s, v) != "" && w < 0
      <==> (s.plus || s.space) && s.long == 'h' && v >= 0 && v % 0x1_0000 >= 0x8000
  {
  }

  /** As for %+hd of 65535. */
  lemma TwoSignsExample() returns (s: Spec)
    ensures s.conv == 'd' && s.plus && s.long == 'h' && First(s.args).num == 65535
    ensures "+-" <= Output(s)
  {
    s := Spec(false, false, true, false, false, 0, false, 0, 'h', 'd', 'd', 0, [Arg(65535, None, true, "")]);
    assert First(s.args).num == 65535 && Range(s.long) == 0x1_0000_0000;
    hide Output, Denotes, PrecisionZeros, Padded, First, Range, ReadAs;
    var v, w, digits := IntegerText(s);
    ShortMinusOne(v, w);
    assert Lead(s, v) + "-" == "+-";
    LeadFirst("+-", PrecisionZeros(s, digits), digits);
  }

  lemma ShortMinusOne(v: int, w: int)
    requires ReadAs(65535, 0x1_0000_0000, true, v) && ReadAs(v, 0x1_0000, true, w)
    ensures v == 65535 && w == -1
  {
  }

  lemma LeadFirst(lead: string, zeros: nat, body: string)
    ensures lead <= Padded(lead, zeros, body, 0, false)
  {
    assert Padded(lead, zeros, body, 0, false) == lead + (Repeat('0', zeros) + body);
  }

  /** Without a width nothing at all is written exactly for a zero with precision 0 that asks neither for a
      sign nor for the octal alternate form. */
  lemma NothingWrittenExactly(s: Spec)
    requires s.conv in "duoxX" && s.width == 0 && s.precision < SIZE
    ensures Output(s) == "" <==>
      && s.precise && s.precision == 0 && First(s.args).num % Range(s.long) == 0
      && !(s.conv == 'd' && (s.plus || s.space)) && !(s.conv == 'o' && s.alt)
  {
    assert Range(s.long) in {0x1_0000_0000, 0x1_0000_0000_0000_0000};
    hide Output, FieldOf, Range, First;
    var v, w, digits := IntegerText(s);
    ZeroReadsZero(First(s.args).num, Range(s.long), s.conv == 'd', v);
    if v == 0 && s.long == 'h' { ZeroReadsZero(v, 0x1_0000, s.conv == 'd', w); }
  }

  lemma ZeroReadsZero(num: int, range: nat, signed: bool, v: int)
    requires range in {0x1_0000, 0x1_0000_0000, 0x1_0000_0000_0000_0000} && ReadAs(num, range, signed, v)
    ensures v == 0 <==> num % range == 0
  {
    var q := Quotient(v - num, range);
    var p := Quotient(num, range);
    Distributes(range, q, p);
    ProductTooBig(v, range, q + p);
    if v == 0 { ZeroRemainder(num, range, -q); }
  }

  lemma Quotient(x: int, d: nat) returns (q: int)
    requires d > 0
    ensures x == d * q + x % d && 0 <= x % d < d
  {
    q := x / d;
  }

  lemma Distributes(d: int, a: int, b: int)
    ensures d * (a + b) == d * a + d * b && d * -a == -(d * a)
  {
  }

  lemma ZeroRemainder(num: int, range: nat, q: int)
    requires range > 0 && num == range * q
    ensures num % range == 0
  {
    var p := Quotient(num, range);
    Distributes(range, q, -p);
    Distributes(range, p, 0);
    ProductTooBig(num % range, range, q + -p);
  }

  lemma ProductTooBig(v: int, range: nat, q: int)
    requires range > 0
    ensures v == range * q && -1 * range < v < range ==> v == 0
  {
    if q >= 1 {
      assert range * q >= range;
    } else if q <= -1 {
      assert range * q <= -1 * range;
    }
  }
}

/** A format written out as literal texts and conversion specifications: it expands to the literal texts and
    the texts of the conversions, in order, each conversion with the next arguments. */
module FormatText {
  import opened Text
  import opened FormatSpec
  import opened FormatNotation
  import opened ConversionText

  datatype Part = Plain(s: string) | Conv(x: Notation)

  function WrittenPart(p: Part): string {
    match p case Plain(s) => s case Conv(x) => "%" + Rendered(x)
  }

  function Written(xs: seq<Part>): string {
    if xs == [] then "" else WrittenPart(xs[0]) + Written(xs[1..])
  }

  /** Literal texts have no percent sign and do not touch each other. */
  ghost predicate WellFormed(xs: seq<Part>) {
    xs == [] || (WellPlaced(xs[0], xs[1..]) && WellFormed(xs[1..]))
  }

  ghost predicate WellPlaced(p: Part, rest: seq<Part>) {
    match p
    case Plain(s) => s != "" && '%' !in s && (rest != [] ==> rest[0].Conv?)
    case Conv(x) => Writable(x)
  }

  /** The specification that a notation stands for, with its arguments. */
  function Specified(x: Notation, args: seq<Arg>): Spec {
    var width, args1 := Value(x.width, args), Behind(x.width, args);
    var precision := Value(x.precision, args1);
    var precise := x.precision != Absent && precision >= 0;
    var (conv, long) := Meant(x.conv, x.length);
    Spec('0' in x.flags, '-' in x.flags || width < 0, '+' in x.flags, ' ' in x.flags, '#' in x.flags, Abs(width),
         precise, if precise then precision else 0, long, conv, x.conv, 0, Behind(x.precision, args1))
  }

  /** The arguments behind a conversion: all but %% and unknown ones take one of their own. */
  function Unused(x: Notation, args: seq<Arg>): seq<Arg> {
    var rest := Behind(x.precision, Behind(x.width, args));
    if x.conv in "csdiuoxXpDUO" then Rest(rest) else rest
  }

  function Expanded(xs: seq<Part>, args: seq<Arg>): string {
    if xs == [] then "" else
      match xs[0]
      case Plain(s) => s + Expanded(xs[1..], args)
      case Conv(x) => Output(Specified(x, args)) + Expanded(xs[1..], Unused(x, args))
  }

  lemma {:induction false} FlattenAppend(a: seq<Chunk>, b: seq<Chunk>)
    ensures Flatten(a + b) == Flatten(a) + Flatten(b)
  {
    if a == [] {
      assert a + b == b;
    } else {
      FlattenAppend(a[1..], b);
      FlattenHead(a);
      FlattenHead(a + b);
      hide Flatten;
      assert (a + b)[1..] == a[1..] + b;
      Associates(Chars(a[0]), Flatten(a[1..]), Flatten(b));
    }
  }

  lemma FlattenHead(cs: seq<Chunk>)
    requires cs != []
    ensures Flatten(cs) == Chars(cs[0]) + Flatten(cs[1..])
  {
  }

  /** What a format piece contributes. */
  function PieceText(p: Piece): string {
    match p case Literal(s) => s case Conversion(f) => Flatten(FieldChunks(f, true))
  }

  lemma PiecesText(p: Piece, ps: seq<Piece>)
    ensures Flatten(Chunks([p] + ps, true)) == PieceText(p) + Flatten(Chunks(ps, true))
  {
    assert ([p] + ps)[1..] == ps;
    hide FieldChunks, Flatten;
    FlattenAppend(PieceChunks(p, true), Chunks(ps, true));
    if p.Literal? { Flat1(Run(p.s)); }
  }

  lemma LiteralPieces(fmt: CStr, i: nat, s: string, args: seq<Arg>)
    requires Here(fmt, i, s) && s != "" && '%' !in s && (i + |s| < |fmt| ==> fmt[i + |s|] == '%')
    ensures i + |s| <= |fmt|
    ensures Pieces(fmt, i, args) == [Literal(s)] + Pieces(fmt, i + |s|, args)
  {
    hide *;
    RunIs(fmt, i, s);
    LiteralPiece(fmt, i, args, i + |s|);
  }

  lemma RunIs(fmt: CStr, i: nat, s: string)
    requires Here(fmt, i, s) && s != "" && '%' !in s && (i + |s| < |fmt| ==> fmt[i + |s|] == '%')
    ensures i + |s| <= |fmt| && RunEnd(fmt, i) == i + |s| && fmt[i] != '%' && fmt[i..i + |s|] == s
  {
    assert forall k :: i <= k < i + |s| ==> fmt[k] == fmt[i..i + |s|][k - i];
  }

  lemma ConversionPieces(fmt: CStr, i: nat, x: Notation, args: seq<Arg>)
    requires Writable(x) && Here(fmt, i, "%" + Rendered(x))
    ensures Pieces(fmt, i, args)
      == [Conversion(FieldOf(Specified(x, args)))] + Pieces(fmt, i + 1 + |Rendered(x)|, Unused(x, args))
  {
    HereSplit(fmt, i, "%", Rendered(x));
    assert fmt[i] == '%';
    var s := SpecAt(fmt, i + 1, args);
    SpecBack(fmt, i + 1, x, args);
    hide SpecAt, FieldOf, Rendered, Here, Writable;
    SpecifiedIs(x, args, s);
    assert i < |fmt|;
    ConversionPiece(fmt, i, args, SpecAt(fmt, i + 1, args));
  }

  lemma SpecifiedIs(x: Notation, args: seq<Arg>, s: Spec)
    requires var t := Specified(x, args);
      s == t.(next := s.next, precision := s.precision) && (s.precise ==> s.precision == t.precision)
    ensures FieldOf(s) == FieldOf(Specified(x, args)) && ArgsAfter(s) == Unused(x, args)
  {
    SameField(s, Specified(x, args));
    hide FieldOf;
  }

  lemma SameField(s: Spec, t: Spec)
    requires s == t.(next := s.next, precision := s.precision) && (s.precise ==> s.precision == t.precision)
    ensures FieldOf(s) == FieldOf(t)
  {
    hide FieldOf, IntField;
    if s.conv in "duoxXp" {
      SameNumber(s, t);
      IsNumber(s);
      IsNumber(t);
    } else {
      SameOther(s, t);
    }
  }

  lemma IsNumber(s: Spec)
    requires s.conv in "duoxXp"
    ensures FieldOf(s) == IntField(s)
  {
    hide IntField;
  }

  lemma SameOther(s: Spec, t: Spec)
    requires s == t.(next := s.next, precision := s.precision) && (s.precise ==> s.precision == t.precision)
    requires s.conv !in "duoxXp"
    ensures FieldOf(s) == FieldOf(t)
  {
    hide IntField;
    assert StrText(s) == StrText(t);
  }

  lemma SameNumber(s: Spec, t: Spec)
    requires s == t.(next := s.next, precision := s.precision) && (s.precise ==> s.precision == t.precision)
    ensures IntField(s) == IntField(t)
  {
    SameParts(s, t);
    hide Prefix, ArgSign, Sprintf, InsertionPoint;
  }

  lemma SameParts(s: Spec, t: Spec)
    requires s == t.(next := s.next, precision := s.precision)
    ensures Prefix(s) == Prefix(t) && ArgSign(s) == ArgSign(t) && Sprintf(s) == Sprintf(t)
  {
    assert IntValue(s) == IntValue(t);
    hide IntValue;
  }

  lemma PlainExpanded(fmt: CStr, i: nat, s: string, rest: seq<Part>, args: seq<Arg>)
    requires WellPlaced(Plain(s), rest) && Here(fmt, i, s)
    requires Here(fmt, i + |s|, Written(rest)) && i + |s| + |Written(rest)| == |fmt|
    ensures Flatten(Chunks(Pieces(fmt, i, args), true)) == s + Flatten(Chunks(Pieces(fmt, i + |s|, args), true))
  {
    hide Here, Pieces, Flatten, Chunks, Written;
    NextIsPercent(fmt, i + |s|, rest);
    LiteralPieces(fmt, i, s, args);
    PiecesText(Literal(s), Pieces(fmt, i + |s|, args));
  }

  lemma ConvExpanded(fmt: CStr, i: nat, x: Notation, args: seq<Arg>)
    requires Writable(x) && Here(fmt, i, "%" + Rendered(x))
    ensures i + 1 + |Rendered(x)| <= |fmt|
    ensures Flatten(Chunks(Pieces(fmt, i, args), true)) ==
      Output(Specified(x, args)) + Flatten(Chunks(Pieces(fmt, i + 1 + |Rendered(x)|, Unused(x, args)), true))
  {
    assert i + 1 + |Rendered(x)| <= |fmt|;
    hide Here, Pieces, Flatten, Chunks, Rendered, FieldOf, FieldChunks, Writable, Specified, Unused;
    ConversionPieces(fmt, i, x, args);
    PiecesText(Conversion(FieldOf(Specified(x, args))), Pieces(fmt, i + 1 + |Rendered(x)|, Unused(x, args)));
  }

  lemma NothingLeft(fmt: CStr, args: seq<Arg>)
    ensures Flatten(Chunks(Pieces(fmt, |fmt|, args), true)) == ""
  {
  }

  lemma {:induction false} PartsExpanded(fmt: CStr, i: nat, xs: seq<Part>, args: seq<Arg>)
    requires WellFormed(xs) && Here(fmt, i, Written(xs)) && i + |Written(xs)| == |fmt|
    ensures Flatten(Chunks(Pieces(fmt, i, args), true)) == Expanded(xs, args)
    decreases |xs|
  {
    hide Here, Pieces, Flatten, Chunks, Rendered, Writable, Specified, Unused, Output;
    if xs == [] {
      NothingLeft(fmt, args);
    } else {
      HereSplit(fmt, i, WrittenPart(xs[0]), Written(xs[1..]));
      ExpandedHead(xs, args);
      hide Expanded;
      match xs[0] {
        case Plain(s) =>
          PlainExpanded(fmt, i, s, xs[1..], args);
          PartsExpanded(fmt, i + |s|, xs[1..], args);
        case Conv(x) =>
          ConvExpanded(fmt, i, x, args);
          PartsExpanded(fmt, i + 1 + |Rendered(x)|, xs[1..], Unused(x, args));
      }
    }
  }

  lemma ExpandedHead(xs: seq<Part>, args: seq<Arg>)
    requires xs != []
    ensures Expanded(xs, args) ==
      if xs[0].Plain? then xs[0].s + Expanded(xs[1..], args)
      else Output(Specified(xs[0].x, args)) + Expanded(xs[1..], Unused(xs[0].x, args))
  {
  }

  lemma NextIsPercent(fmt: CStr, i: nat, xs: seq<Part>)
    requires Here(fmt, i, Written(xs)) && i + |Written(xs)| == |fmt| && (xs != [] ==> xs[0].Conv?)
    ensures i < |fmt| ==> fmt[i] == '%'
  {
    if xs != [] {
      assert Written(xs)[0] == '%';
      assert fmt[i] == fmt[i..i + |Written(xs)|][0];
    }
  }

  /** What the documentation promises for a format, part by part. */
  lemma FormatExpanded(fmt: CStr, xs: seq<Part>, args: seq<Arg>)
    requires WellFormed(xs) && fmt == Written(xs)
    ensures Expand(fmt, args) == Expanded(xs, args)
  {
    assert fmt[0..|fmt|] == fmt;
    PartsExpanded(fmt, 0, xs, args);
  }
}
