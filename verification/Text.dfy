/** Character-string helpers shared by the other modules: the searches of std::string and
    decimal numerals. */
module Text {
  datatype Option<+T> = None | Some(value: T)

  /** A C string without its NUL. */
  type CStr = s: string | '\0' !in s witness ""

  /** The C string at the start of a buffer: it stops at the first NUL. */
  function CString(b: string): string {
    var z := Find(b, '\0', 0);
    if z == -1 then b else b[..z]
  }

  function Min(a: nat, b: nat): nat { if a <= b then a else b }

  function Abs(x: int): nat { if x < 0 then -x else x }

  lemma Associates<T>(x: seq<T>, y: seq<T>, z: seq<T>)
    ensures x + (y + z) == (x + y) + z
  {
  }

  /** std::string::find(c, from); -1 stands for npos. */
  function Find(s: string, c: char, from: nat): (r: int)
    ensures r == -1 || from <= r < |s|
    ensures r >= 0 ==> s[r] == c && forall k :: from <= k < r ==> s[k] != c
    ensures r == -1 ==> forall k :: from <= k < |s| ==> s[k] != c
    decreases |s| - from
  {
    if from >= |s| then -1 else if s[from] == c then from else Find(s, c, from + 1)
  }

  /** A search from i in a string is a search from i - k in its suffix from k. */
  lemma {:induction false} FindInSuffix(s: string, c: char, k: nat, i: nat)
    requires k <= i && k <= |s|
    ensures Find(s, c, i) == var r := Find(s[k..], c, i - k); if r == -1 then -1 else r + k
    decreases |s| - i
  {
    if i < |s| && s[i] != c { FindInSuffix(s, c, k, i + 1); }
  }

  /** The first c of a + [c] + b, when a has none. */
  lemma FindFirst(s: string, c: char, n: nat)
    requires n <= |s| && (forall k :: 0 <= k < n ==> s[k] != c) && (n < |s| ==> s[n] == c)
    ensures Find(s, c, 0) == if n < |s| then n else -1
  {
  }

  /** std::string::rfind(c, upTo) for upTo < |s|, looking at indices upTo, upTo-1, ... */
  function FindLast(s: string, c: char, upTo: int): (r: int)
    requires -1 <= upTo < |s|
    ensures -1 <= r <= upTo
    ensures r >= 0 ==> s[r] == c
    ensures forall k :: r < k <= upTo ==> s[k] != c
    decreases upTo + 1
  {
    if upTo == -1 then -1 else if s[upTo] == c then upTo else FindLast(s, c, upTo - 1)
  }

  function Repeat(c: char, n: nat): (r: string)
    ensures |r| == n && forall i :: 0 <= i < n ==> r[i] == c
  {
    seq(n, _ => c)
  }

  function Concat(parts: seq<string>): string {
    if parts == [] then "" else parts[0] + Concat(parts[1..])
  }

  lemma ConcatHead(a: seq<string>)
    requires a != []
    ensures Concat(a) == a[0] + Concat(a[1..])
  {
  }

  lemma {:induction false} ConcatAppend(a: seq<string>, b: seq<string>)
    ensures Concat(a + b) == Concat(a) + Concat(b)
  {
    if a == [] {
      assert a + b == b;
    } else {
      hide Concat;
      ConcatAppend(a[1..], b);
      assert (a + b)[1..] == a[1..] + b;
      ConcatHead(a);
      ConcatHead(a + b);
      Associates(a[0], Concat(a[1..]), Concat(b));
    }
  }

  lemma ConcatSnoc(a: seq<string>, x: string)
    ensures Concat(a + [x]) == Concat(a) + x
  {
    ConcatAppend(a, [x]);
    assert Concat([x]) == x + Concat([]) == x;
  }

  predicate IsDigit(c: char) { '0' <= c <= '9' }

  /** The end of the digits that start at i. */
  function DigitsEnd(s: string, i: nat): (j: nat)
    requires i <= |s|
    ensures i <= j <= |s| && forall k :: i <= k < j ==> IsDigit(s[k])
    decreases |s| - i
  {
    if i < |s| && IsDigit(s[i]) then DigitsEnd(s, i + 1) else i
  }

  /** The decimal numeral that printf's %u writes for n. */
  function Digits(n: nat): (s: string)
    ensures |s| >= 1 && forall i :: 0 <= i < |s| ==> IsDigit(s[i])
  {
    var d := [(n % 10) as char + '0'];
    if n < 10 then d else Digits(n / 10) + d
  }

  /** The number that a string of digits denotes. */
  function Numeral(s: string): nat
    requires forall i :: 0 <= i < |s| ==> IsDigit(s[i])
  {
    if s == "" then 0 else
      assert IsDigit(s[|s| - 1]);
      10 * Numeral(s[..|s| - 1]) + (s[|s| - 1] - '0') as nat
  }

  lemma {:induction false} NumeralOfDigits(n: nat)
    ensures Numeral(Digits(n)) == n
  {
    var s := Digits(n);
    if n < 10 {
      assert s[..0] == "";
    } else {
      NumeralOfDigits(n / 10);
      assert s[..|s| - 1] == Digits(n / 10);
    }
  }

  /** Each digit more multiplies by ten and adds itself. */
  lemma NumeralMore(s: string, d: nat)
    requires d < 10 && forall i :: 0 <= i < |s| ==> IsDigit(s[i])
    ensures IsDigit("0123456789"[d]) && Numeral(s + ["0123456789"[d]]) == 10 * Numeral(s) + d
    ensures Numeral("") == 0
  {
    DigitAt(d);
    NumeralThen(s, '0' + d as char);
  }

  lemma DigitAt(d: nat)
    requires d < 10
    ensures "0123456789"[d] == '0' + d as char
  {
  }

  lemma NumeralThen(s: string, c: char)
    requires IsDigit(c) && forall i :: 0 <= i < |s| ==> IsDigit(s[i])
    ensures Numeral(s + [c]) == 10 * Numeral(s) + (c - '0') as nat
  {
    assert (s + [c])[..|s|] == s;
  }

  /** A numeral does not start with 0, unless it is 0. */
  lemma {:induction false} FirstDigit(n: nat)
    ensures if n == 0 then Digits(n) == "0" else Digits(n)[0] != '0'
  {
    if n >= 10 { FirstDigit(n / 10); }
  }

  /** The numeral printf's %d writes. */
  function SignedDigits(n: int): string {
    if n < 0 then "-" + Digits(-n) else Digits(n)
  }

  function Pow(base: nat, k: nat): nat { if k == 0 then 1 else base * Pow(base, k - 1) }

  lemma ProductAssociates(x: int, y: int, z: int)
    ensures x * (y * z) == (x * y) * z
  {
  }

  lemma {:induction false} PowAdd(base: nat, m: nat, n: nat)
    ensures Pow(base, m + n) == Pow(base, m) * Pow(base, n)
  {
    if m > 0 {
      PowAdd(base, m - 1, n);
      ProductAssociates(base, Pow(base, m - 1), Pow(base, n));
    }
  }

  lemma {:induction false} DigitsLength(n: nat, k: nat)
    requires k >= 1 && n < Pow(10, k)
    ensures |Digits(n)| <= k
  {
    if n >= 10 && k > 1 {
      DigitsLength(n / 10, k - 1);
    }
  }

  /** Where a run of digits ends. */
  lemma {:induction false} DigitsEndIs(s: string, i: nat, j: nat)
    requires i <= j <= |s| && (forall k :: i <= k < j ==> IsDigit(s[k])) && (j < |s| ==> !IsDigit(s[j]))
    ensures DigitsEnd(s, i) == j
    decreases j - i
  {
    if i < j { DigitsEndIs(s, i + 1, j); }
  }

  /** t has s from i on. */
  predicate Here(t: string, i: nat, s: string) {
    i + |s| <= |t| && t[i..i + |s|] == s
  }

  lemma HereSplit(t: string, i: nat, a: string, b: string)
    requires Here(t, i, a + b)
    ensures Here(t, i, a) && Here(t, i + |a|, b)
  {
    assert t[i..i + |a|] == t[i..i + |a + b|][..|a|];
    assert t[i + |a|..i + |a| + |b|] == t[i..i + |a + b|][|a|..];
  }

  lemma HereToEnd(t: string, i: nat, s: string)
    requires i <= |t| && t[i..] == s
    ensures Here(t, i, s) && i + |s| == |t|
  {
  }

  /** A numeral in t, with no digit behind it. */
  lemma DigitsHere(t: string, i: nat, n: nat)
    requires Here(t, i, Digits(n)) && (i + |Digits(n)| < |t| ==> !IsDigit(t[i + |Digits(n)|]))
    ensures DigitsEnd(t, i) == i + |Digits(n)| && IsDigit(t[i]) && Numeral(t[i..i + |Digits(n)|]) == n
  {
    NumeralOfDigits(n);
    hide Digits, Numeral;
    var j := i + |Digits(n)|;
    assert forall k :: i <= k < j ==> t[k] == t[i..j][k - i];
    DigitsEndIs(t, i, j);
  }
}
