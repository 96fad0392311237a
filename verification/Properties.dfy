/** Properties: variable substitution (Substitution), and loading and saving a property file
    (Properties). */
module Substitution {
  import opened Text

  type Environment = string -> Option<string>

  /** std::string::find("${", from); -1 stands for npos. */
  function FindOpen(s: string, from: nat): (r: int)
    ensures r == -1 || from <= r <= |s| - 2
    ensures r >= 0 ==> s[r] == '$' && s[r + 1] == '{' && NoOpen(s, from, r)
    ensures r == -1 ==> NoOpen(s, from, |s|)
    decreases |s| - from
  {
    if from + 2 > |s| then -1 else if s[from] == '$' && s[from + 1] == '{' then from else FindOpen(s, from + 1)
  }

  /** No ${ starts from i up to j. */
  ghost predicate NoOpen(s: string, i: nat, j: int) {
    forall k :: i <= k < j && k + 1 < |s| ==> !(s[k] == '$' && s[k + 1] == '{')
  }

  /** What a reference ${key} stands for: the environment goes before the properties. */
  function Lookup(key: string, env: Environment, m: map<string, string>): string {
    if key == "${" then "${"
    else match env(key)
      case Some(text) => text
      case None => if key in m then m[key] else ""
  }

  /** The references of s[from..] replaced, in one pass from the left. Without a closing brace the
      rest is taken literally. */
  function Subst(s: string, from: nat, env: Environment, m: map<string, string>): string
    requires from <= |s|
    decreases |s| - from
  {
    var open := FindOpen(s, from);
    var close := if open == -1 then -1 else Find(s, '}', open + 2);
    if close == -1 then s[from..]
    else s[from..open] + Lookup(s[open + 2..close], env, m) + Subst(s, close + 1, env, m)
  }

  lemma SubstLiteral(s: string, from: nat, env: Environment, m: map<string, string>)
    requires from <= |s| && (FindOpen(s, from) == -1 || Find(s, '}', FindOpen(s, from) + 2) == -1)
    ensures Subst(s, from, env, m) == s[from..]
  {
  }

  lemma SubstReference(s: string, from: nat, open: nat, close: nat, env: Environment, m: map<string, string>)
    requires from <= |s| && FindOpen(s, from) == open && Find(s, '}', open + 2) == close
    ensures from <= open < open + 2 <= close < |s|
    ensures Subst(s, from, env, m) == s[from..open] + Lookup(s[open + 2..close], env, m) + Subst(s, close + 1, env, m)
  {
    hide FindOpen, Find, NoOpen, Lookup;
  }

  lemma Regroup(a: string, b: string, c: string, d: string)
    ensures a + (b + c + d) == a + b + c + d
  {
  }

  /** What one reference is replaced by: ${ for itself, else the environment's text, else the property's,
      else nothing. */
  method Resolve(key: string, env: Environment, m: map<string, string>) returns (text: string)
    ensures text == Lookup(key, env, m)
    ensures key == "${" ==> text == "${"
    ensures key != "${" && env(key).Some? ==> env(key) == Some(text)
    ensures key != "${" && env(key) == None && key in m ==> text == m[key]
    ensures key != "${" && env(key) == None && key !in m ==> text == ""
  {
    text := "";
    if key == "${" {
      text := "${";
    } else {
      var envValue := env(key);
      if envValue.Some? {
        text := envValue.value;
      } else if key in m {
        text := m[key];
      }
    }
  }

  method SubstituteVariables(value: string, env: Environment, m: map<string, string>) returns (r: string)
    ensures r == Subst(value, 0, env, m)
  {
    hide Subst, FindOpen, Find, NoOpen, Lookup, Pending;
    var result, left := "", 0;
    var right := FindOpen(value, left);
    if right == -1 {
      SubstLiteral(value, left, env, m);
      return value;
    }
    NothingDone(value, env, m);
    while true
      invariant left <= |value| && right == FindOpen(value, left) && Pending(result, value, left, env, m)
      decreases |value| - left
    {
      ghost var from, open, done := left, right, result;
      if right == -1 {
        LiteralEnd(done, value, from, env, m);
        return result + value[left..];
      }
      result := result + value[left..right];
      left := right + 2;
      right := Find(value, '}', left);
      if right == -1 {
        LiteralTail(done, value, from, open);
        LiteralEnd(done, value, from, env, m);
        return result + value[left - 2..];
      }
      var text := Resolve(value[left..right], env, m);
      ReferenceStep(done, value, from, open, right, env, m);
      result := result + text;
      left := right + 1;
      right := FindOpen(value, left);
    }
  }

  /** The result so far and the substitution of the rest make up the whole. */
  ghost predicate Pending(result: string, value: string, left: nat, env: Environment, m: map<string, string>)
    requires left <= |value|
  {
    result + Subst(value, left, env, m) == Subst(value, 0, env, m)
  }

  lemma NothingDone(value: string, env: Environment, m: map<string, string>)
    ensures Pending("", value, 0, env, m)
  {
    hide Subst;
  }

  lemma LiteralEnd(done: string, value: string, from: nat, env: Environment, m: map<string, string>)
    requires from <= |value| && Pending(done, value, from, env, m)
    requires FindOpen(value, from) == -1 || Find(value, '}', FindOpen(value, from) + 2) == -1
    ensures done + value[from..] == Subst(value, 0, env, m)
  {
    hide Subst;
    SubstLiteral(value, from, env, m);
  }

  lemma LiteralTail(done: string, value: string, from: nat, open: nat)
    requires from <= open <= |value|
    ensures done + value[from..open] + value[open..] == done + value[from..]
  {
  }

  lemma ReferenceStep(done: string, value: string, from: nat, open: nat, close: nat, env: Environment,
                      m: map<string, string>)
    requires from <= |value| && Pending(done, value, from, env, m)
    requires FindOpen(value, from) == open && Find(value, '}', open + 2) == close
    ensures from <= open < open + 2 <= close < |value|
    ensures Pending(done + value[from..open] + Lookup(value[open + 2..close], env, m), value, close + 1, env, m)
  {
    hide Subst, FindOpen, Find, NoOpen, Lookup;
    SubstReference(value, from, open, close, env, m);
    Regroup(done, value[from..open], Lookup(value[open + 2..close], env, m), Subst(value, close + 1, env, m));
  }

  // ---- What a reference stands for ----

  /** Neither the environment nor the properties can redefine the escape. */
  lemma EscapeFixed(env: Environment, m: map<string, string>)
    ensures Lookup("${", env, m) == "${"
  {
  }

  /** A variable of the environment hides the property of the same name, whatever that is. */
  lemma EnvironmentFirst(key: string, env: Environment, m: map<string, string>)
    requires key != "${" && env(key).Some?
    ensures Some(Lookup(key, env, m)) == env(key)
    ensures forall n: map<string, string> :: Lookup(key, env, n) == Lookup(key, env, m)
  {
  }

  /** Without one, the property of that name decides, and no other; without either, nothing is left. */
  lemma PropertyNext(key: string, env: Environment, m: map<string, string>, n: map<string, string>)
    requires key != "${" && env(key) == None
    requires if key in m then key in n && n[key] == m[key] else key !in n
    ensures Lookup(key, env, m) == Lookup(key, env, n) == if key in m then m[key] else ""
  {
  }

  // ---- What a substitution means ----

  /** t is s[k..]. */
  ghost predicate IsSuffix(t: string, s: string, k: nat) {
    |s| == |t| + k && forall i :: 0 <= i < |t| ==> t[i] == s[i + k]
  }

  lemma {:induction false} FindOpenInSuffix(s: string, t: string, k: nat, i: nat)
    requires k <= i && IsSuffix(t, s, k)
    ensures FindOpen(s, i) == var r := FindOpen(t, i - k); if r == -1 then -1 else r + k
    decreases |s| - i
  {
    if i + 2 <= |s| {
      assert s[i] == t[i - k] && s[i + 1] == t[i + 1 - k];
      if !(s[i] == '$' && s[i + 1] == '{') { FindOpenInSuffix(s, t, k, i + 1); }
    }
  }

  lemma CloseInSuffix(s: string, t: string, k: nat, i: nat)
    requires k <= i && IsSuffix(t, s, k)
    ensures Find(s, '}', i) == var r := Find(t, '}', i - k); if r == -1 then -1 else r + k
  {
    FindInSuffix(s, '}', k, i);
    assert t == s[k..];
  }

  lemma SliceInSuffix(s: string, t: string, k: nat, i: nat, j: nat)
    requires k <= i <= j <= |s| && IsSuffix(t, s, k)
    ensures |t| == |s| - k && s[i..j] == t[i - k..j - k]
  {
  }

  /** Substitution of the rest of a string is substitution of that suffix. */
  lemma {:induction false} SubstInSuffix(s: string, t: string, k: nat, i: nat, env: Environment, m: map<string, string>)
    requires k <= i <= |s| && IsSuffix(t, s, k)
    ensures i - k <= |t| && Subst(s, i, env, m) == Subst(t, i - k, env, m)
    decreases |s| - i
  {
    hide Subst, FindOpen, Find, Lookup, NoOpen, IsSuffix;
    var open := FindOpen(s, i);
    FindOpenInSuffix(s, t, k, i);
    SliceInSuffix(s, t, k, i, |s|);
    assert s[i..|s|] == s[i..] && t[i - k..|s| - k] == t[i - k..];
    if open == -1 {
      SubstLiteral(s, i, env, m);
      SubstLiteral(t, i - k, env, m);
      return;
    }
    CloseInSuffix(s, t, k, open + 2);
    var close := Find(s, '}', open + 2);
    if close == -1 {
      SubstLiteral(s, i, env, m);
      SubstLiteral(t, i - k, env, m);
      return;
    }
    SubstInSuffix(s, t, k, close + 1, env, m);
    SameReference(s, t, k, i, open, close, env, m);
  }

  /** One reference, seen in both. */
  lemma SameReference(s: string, t: string, k: nat, i: nat, open: nat, close: nat, env: Environment,
                      m: map<string, string>)
    requires k <= i <= |s| && IsSuffix(t, s, k)
    requires FindOpen(s, i) == open && Find(s, '}', open + 2) == close && close < |s|
    requires |t| == |s| - k && FindOpen(t, i - k) == open - k && Find(t, '}', open - k + 2) == close - k
    requires Subst(s, close + 1, env, m) == Subst(t, close + 1 - k, env, m)
    ensures Subst(s, i, env, m) == Subst(t, i - k, env, m)
  {
    hide Subst, FindOpen, Find, Lookup, NoOpen, IsSuffix;
    SubstReference(s, i, open, close, env, m);
    SubstReference(t, i - k, open - k, close - k, env, m);
    SliceInSuffix(s, t, k, i, open);
    SliceInSuffix(s, t, k, open + 2, close);
  }

  lemma {:induction false} FindOpenFirst(s: string, i: nat, n: nat)
    requires i <= n && n + 1 < |s| && NoOpen(s, i, n) && s[n] == '$' && s[n + 1] == '{'
    ensures FindOpen(s, i) == n
    decreases n - i
  {
    if i < n { FindOpenFirst(s, i + 1, n); }
  }

  /** The first reference of a text is replaced by what it stands for. That text is not looked at
      again, whatever it is: substitution goes on behind the reference. */
  lemma ReferenceReplaced(a: string, key: string, b: string, env: Environment, m: map<string, string>)
    requires NoOpen(a, 0, |a|) && '}' !in key
    ensures Subst(a + "${" + key + "}" + b, 0, env, m) == a + Lookup(key, env, m) + Subst(b, 0, env, m)
  {
    hide Subst, FindOpen, Find, Lookup;
    var s := a + "${" + key + "}" + b;
    var n, close := |a|, |a| + 2 + |key|;
    FindOpenFirst(s, 0, n);
    ClosingBrace(s, n + 2, close);
    SubstInSuffix(s, b, close + 1, close + 1, env, m);
    assert s[n + 2..close] == key && s[0..n] == a;
    SubstReference(s, 0, n, close, env, m);
  }

  lemma ClosingBrace(s: string, i: nat, n: nat)
    requires i <= n < |s| && s[n] == '}' && forall k :: i <= k < n ==> s[k] != '}'
    ensures Find(s, '}', i) == n
  {
  }

  /** A text in which the first ${ has no } behind it is left as it is. */
  predicate NoReference(s: string) {
    var open := FindOpen(s, 0);
    open == -1 || Find(s, '}', open + 2) == -1
  }

  /** Every variable stands for the empty text. */
  ghost predicate Blank(env: Environment, m: map<string, string>) {
    forall key :: key != "${" ==> Lookup(key, env, m) == ""
  }

  /** Then substitution shortens a text by three or more for each reference. */
  lemma {:induction false} Shortened(s: string, from: nat, env: Environment, m: map<string, string>)
    requires from <= |s| && Blank(env, m)
    ensures |Subst(s, from, env, m)| <= |s| - from
    decreases |s| - from
  {
    hide Subst, FindOpen, Find, NoOpen;
    var open := FindOpen(s, from);
    var close := if open == -1 then -1 else Find(s, '}', open + 2);
    if close == -1 {
      SubstLiteral(s, from, env, m);
    } else {
      SubstReference(s, from, open, close, env, m);
      Shortened(s, close + 1, env, m);
    }
  }

  lemma ReferenceShortens(s: string, env: Environment, m: map<string, string>)
    requires !NoReference(s) && Blank(env, m)
    ensures |Subst(s, 0, env, m)| < |s|
  {
    hide Subst, FindOpen, Find, NoOpen;
    var open := FindOpen(s, 0);
    var close := Find(s, '}', open + 2);
    SubstReference(s, 0, open, close, env, m);
    Shortened(s, close + 1, env, m);
  }

  /** Texts without a reference are exactly the ones that every substitution leaves alone. */
  lemma UnchangedExactly(s: string)
    ensures NoReference(s) <==> forall env: Environment, m :: Subst(s, 0, env, m) == s
  {
    hide Subst, FindOpen, Find, NoOpen;
    if NoReference(s) {
      forall env: Environment, m ensures Subst(s, 0, env, m) == s { SubstLiteral(s, 0, env, m); }
    } else {
      var blank: Environment := _ => Some("");
      ReferenceShortens(s, blank, map[]);
      assert |Subst(s, 0, blank, map[])| < |s|;
    }
  }

  // ---- Escaping ----

  /** Every ${ written as ${${}. */
  function Escape(s: string): string {
    if |s| >= 2 && s[0] == '$' && s[1] == '{' then "${${}" + Escape(s[2..])
    else if s == "" then ""
    else [s[0]] + Escape(s[1..])
  }

  lemma LiteralHead(s: string, env: Environment, m: map<string, string>)
    requires s != "" && !(|s| >= 2 && s[0] == '$' && s[1] == '{')
    ensures Subst(s, 0, env, m) == [s[0]] + Subst(s[1..], 0, env, m)
  {
    hide Subst, Find, Lookup, NoOpen;
    SubstInSuffix(s, s[1..], 1, 1, env, m);
    assert FindOpen(s, 0) == if |s| >= 2 then FindOpen(s, 1) else -1;
    var open := FindOpen(s, 0);
    if open == -1 || Find(s, '}', open + 2) == -1 {
      SubstLiteral(s, 0, env, m);
      SubstLiteral(s, 1, env, m);
    } else {
      var close := Find(s, '}', open + 2);
      SubstReference(s, 0, open, close, env, m);
      SubstReference(s, 1, open, close, env, m);
      assert s[0..open] == [s[0]] + s[1..open];
      Regroup([s[0]], s[1..open], Lookup(s[open + 2..close], env, m), Subst(s, close + 1, env, m));
    }
  }

  /** Substitution undoes escaping, for every text, environment and set of properties. */
  lemma {:induction false} EscapeUndone(s: string, env: Environment, m: map<string, string>)
    ensures Subst(Escape(s), 0, env, m) == s
  {
    hide Subst, FindOpen, Find;
    if |s| >= 2 && s[0] == '$' && s[1] == '{' {
      EscapeUndone(s[2..], env, m);
      ReferenceReplaced("", "${", Escape(s[2..]), env, m);
      assert "" + "${" + "${" + "}" + Escape(s[2..]) == Escape(s);
      assert s == "${" + s[2..];
    } else if s != "" {
      EscapeUndone(s[1..], env, m);
      assert s[1..] != "" ==> Escape(s[1..])[0] == s[1];
      LiteralHead(Escape(s), env, m);
      assert Escape(s)[1..] == Escape(s[1..]);
    } else {
      SubstLiteral("", 0, env, m);
    }
  }
}

module Properties {
  import opened Text
  import opened Substitution

  type Entries = map<string, string>

  // ---- Lines ----

  predicate IsWhite(c: char) { c == ' ' || c == '\t' || c == '\r' || c == '\n' }

  /** find_first_not_of. */
  function TrimStart(s: string, i: nat): (b: nat)
    requires i <= |s|
    ensures i <= b <= |s| && (b < |s| ==> !IsWhite(s[b])) && forall k :: i <= k < b ==> IsWhite(s[k])
    decreases |s| - i
  {
    if i < |s| && IsWhite(s[i]) then TrimStart(s, i + 1) else i
  }

  /** One more than find_last_not_of. */
  function TrimEnd(s: string, j: nat): (e: nat)
    requires j <= |s|
    ensures e <= j && (e > 0 ==> !IsWhite(s[e - 1])) && forall k :: e <= k < j ==> IsWhite(s[k])
  {
    if j > 0 && IsWhite(s[j - 1]) then TrimEnd(s, j - 1) else j
  }

  function Trim(s: string): string {
    var b := TrimStart(s, 0);
    if b == |s| then "" else assert !IsWhite(s[b]); s[b..TrimEnd(s, |s|)]
  }

  /** Neither starts nor ends with white space. */
  predicate Trimmed(s: string) {
    s != "" ==> s[0] !in " \t\r\n" && s[|s| - 1] !in " \t\r\n"
  }

  /** Trimming leaves a text alone exactly when it has no white space at its ends. */
  lemma TrimKeeps(s: string)
    ensures Trimmed(s) <==> Trim(s) == s
    ensures |Trim(s)| <= |s| && (|Trim(s)| == |s| ==> Trim(s) == s)
  {
    if s != "" {
      var b, e := TrimStart(s, 0), TrimEnd(s, |s|);
      if Trimmed(s) {
        assert b == 0 && e == |s|;
      } else if b < |s| {
        assert |s[b..e]| < |s|;
      }
    }
  }

  /** The command on a line: everything in front of a #, unless the line starts with one. */
  function Command(line: string): Option<string> {
    var h := Find(line, '#', 0);
    if h == -1 then Some(line) else if h > 0 then Some(line[..h]) else None
  }

  function StripPrefix(key: string): string {
    var dot := Find(key, '.', 0);
    var first := if dot == -1 then key else key[..dot];
    if first == "log4j" || first == "log4cpp" then key[dot + 1..] else key
  }

  /** The entry on a line, given the entries before it. */
  function EntryOn(line: string, env: Environment, m: Entries): Option<(string, string)> {
    var command := Command(line);
    var eq := if command.None? then -1 else Find(command.value, '=', 0);
    if eq == -1 then None
    else Some((StripPrefix(Trim(command.value[..eq])), Subst(Trim(command.value[eq + 1..]), 0, env, m)))
  }

  /** map::insert keeps the value of a key that is there already. */
  function Inserted(m: Entries, entry: Option<(string, string)>): Entries {
    if entry.None? || entry.value.0 in m then m else m[entry.value.0 := entry.value.1]
  }

  // ---- Reading lines in pieces of 255 characters ----

  const MAX_LINE: nat := 255

  /** What is left of a physical line after it has been read in pieces. */
  function Reassembled(line: string): string {
    if |line| <= MAX_LINE then CString(line) else CString(line[..MAX_LINE]) + Reassembled(line[MAX_LINE..])
  }

  function LineEnd(s: string): (e: nat)
    ensures e <= |s| && (e < |s| ==> s[e] == '\n') && forall k :: 0 <= k < e ==> s[k] != '\n'
  {
    var e := Find(s, '\n', 0);
    if e == -1 then |s| else e
  }

  /** The entries after the lines of text, with partial in front of the first one. */
  function Loaded(partial: string, text: string, env: Environment, m: Entries): Entries
    decreases |text|
  {
    var e := LineEnd(text);
    var line := partial + Reassembled(text[..e]);
    var m' := Inserted(m, EntryOn(line, env, m));
    if e == |text| then m' else Loaded("", text[e + 1..], env, m')
  }

  /** A file that is read line by line, without errors other than its end. */
  class InputStream {
    const text: string
    var pos: nat
    var eof: bool
    var fail: bool

    ghost predicate Valid() reads this { pos <= |text| && (eof ==> pos == |text|) }

    /** What has not been read yet. */
    ghost function Rest(): string
      reads this
      requires Valid()
    {
      text[pos..]
    }

    constructor (text: string)
      ensures Valid() && Rest() == text && !eof && !fail
    {
      this.text, pos, eof, fail := text, 0, false, false;
    }

    /** getline(line, 256). The end is noticed first, then a newline, then a full buffer. */
    method GetLine() returns (line: string)
      requires Valid() && !fail
      modifies this
      ensures Valid() && |Rest()| <= |old(Rest())|
      ensures old(eof) ==> eof && fail && line == ""
      ensures !old(eof) ==> Piece(old(Rest()), line, Rest(), eof, fail)
    {
      if eof {
        fail := true;
        return "";
      }
      ghost var rest, e, start := text[pos..], LineEnd(text[pos..]), pos;
      var read := "";
      while true
        invariant start <= pos <= |text| && pos - start <= e && pos - start <= MAX_LINE
        invariant read == rest[..pos - start]
        invariant !eof && !fail
        decreases |text| - pos
      {
        if pos == |text| {
          eof, fail := true, read == "";
          break;
        } else if text[pos] == '\n' {
          pos := pos + 1;
          break;
        } else if |read| == MAX_LINE {
          fail := true;
          break;
        }
        assert text[pos] == rest[pos - start];
        read := read + [text[pos]];
        pos := pos + 1;
      }
      assert text[pos..] == rest[pos - start..];
      return CString(read);
    }
  }

  /** What getline takes from a text: a whole line, or the first 255 characters of a longer one. */
  ghost predicate Piece(text: string, line: string, rest: string, eof: bool, fail: bool) {
    var e := LineEnd(text);
    if e > MAX_LINE then !eof && fail && line == CString(text[..MAX_LINE]) && rest == text[MAX_LINE..]
    else
      && line == CString(text[..e]) && eof == (e == |text|) && fail == (text == "")
      && rest == if eof then "" else text[e + 1..]
  }

  lemma CommandIs(line: string, h: int)
    requires h == Find(line, '#', 0)
    ensures Command(line) == if h == -1 then Some(line) else if h > 0 then Some(line[..h]) else None
  {
    hide Find;
  }

  lemma NoCommand(line: string, env: Environment, m: Entries)
    requires Command(line) == None
    ensures EntryOn(line, env, m) == None
  {
    hide Command;
  }

  lemma EntryIs(line: string, command: string, eq: int, env: Environment, m: Entries)
    requires Command(line) == Some(command) && eq == Find(command, '=', 0)
    ensures EntryOn(line, env, m) ==
      if eq == -1 then None
      else Some((StripPrefix(Trim(command[..eq])), Subst(Trim(command[eq + 1..]), 0, env, m)))
  {
    hide Command, Find, StripPrefix, Trim, Subst;
  }

  lemma PrefixIs(key: string, dot: int)
    requires dot == Find(key, '.', 0)
    ensures var first := if dot == -1 then key else key[..dot];
      StripPrefix(key) == if first == "log4j" || first == "log4cpp" then key[dot + 1..] else key
  {
    hide Find;
  }

  lemma NoEntryInserted(m: Entries)
    ensures Inserted(m, None) == m
  {
  }

  lemma EntryInserted(m: Entries, key: string, value: string)
    ensures Inserted(m, Some((key, value))) == if key in m then m else m[key := value]
  {
  }

  lemma EmptyLine(env: Environment, m: Entries)
    ensures EntryOn("", env, m) == None
  {
  }

  lemma LoadedHead(partial: string, text: string, e: nat, line: string, env: Environment, m: Entries)
    requires e == LineEnd(text) && line == partial + Reassembled(text[..e])
    ensures var m' := Inserted(m, EntryOn(line, env, m));
      Loaded(partial, text, env, m) == if e == |text| then m' else Loaded("", text[e + 1..], env, m')
  {
    hide LineEnd, Reassembled, EntryOn, Inserted;
  }

  lemma ReassembledHead(a: string, b: string)
    requires |a| == MAX_LINE && b != ""
    ensures Reassembled(a + b) == CString(a) + Reassembled(b)
  {
    hide CString;
    assert (a + b)[..MAX_LINE] == a && (a + b)[MAX_LINE..] == b;
  }

  /** Reading one full piece of a longer line. */
  lemma LoadedPiece(partial: string, text: string, line: string, rest: string, env: Environment, m: Entries)
    requires Piece(text, line, rest, false, true)
    ensures |rest| < |text| && Loaded(partial, text, env, m) == Loaded(partial + line, rest, env, m)
  {
    hide Loaded, Reassembled, EntryOn, Inserted, CString;
    var e := LineEnd(text);
    var a, b := text[..MAX_LINE], rest[..e - MAX_LINE];
    LineEndBehind(text, MAX_LINE);
    hide LineEnd;
    assert text[..e] == a + b;
    ReassembledHead(a, b);
    var tail := Reassembled(b);
    assert partial + (line + tail) == partial + line + tail;
    LoadedHead(partial, text, e, partial + Reassembled(text[..e]), env, m);
    LoadedHead(partial + line, rest, e - MAX_LINE, partial + line + tail, env, m);
    assert e < |text| ==> text[e + 1..] == rest[e - MAX_LINE + 1..];
  }

  lemma LineEndBehind(text: string, k: nat)
    requires k <= LineEnd(text)
    ensures LineEnd(text[k..]) == LineEnd(text) - k
  {
    FindFirst(text[k..], '\n', LineEnd(text) - k);
  }

  /** Reading the rest of the last line, or of a line that a newline ends. */
  lemma LoadedLine(partial: string, text: string, line: string, rest: string, eof: bool, fail: bool, env: Environment,
                   m: Entries)
    requires Piece(text, line, rest, eof, fail) && (fail ==> eof)
    ensures var m' := Inserted(m, EntryOn(partial + line, env, m));
      Loaded(partial, text, env, m) == if eof then m' else Loaded("", rest, env, m')
    ensures !eof ==> |rest| < |text|
  {
    hide Loaded, EntryOn, Inserted, CString, LineEnd;
    LoadedHead(partial, text, LineEnd(text), partial + line, env, m);
  }

  class Properties {
    var storage: Entries

    constructor ()
      ensures storage == map[]
    {
      storage := map[];
    }

    /** The part of the loop that handles one whole line. */
    method AddLine(line: string, env: Environment)
      modifies this
      ensures storage == Inserted(old(storage), EntryOn(line, env, old(storage)))
    {
      hide EntryOn, Inserted, Command, StripPrefix, Subst, Trim, Find;
      NoEntryInserted(storage);
      var length := Find(line, '#', 0);
      CommandIs(line, length);
      var command;
      if length == -1 {
        command := line;
      } else if length > 0 {
        command := line[..length];
      } else {
        NoCommand(line, env, storage);
        return;
      }
      length := Find(command, '=', 0);
      EntryIs(line, command, length, env, storage);
      if length == -1 { return; }
      var leftSide, rightSide := Trim(command[..length]), Trim(command[length + 1..]);
      rightSide := SubstituteVariables(rightSide, env, storage);
      length := Find(leftSide, '.', 0);
      PrefixIs(leftSide, length);
      var first := if length == -1 then leftSide else leftSide[..length];
      if first == "log4j" || first == "log4cpp" {
        leftSide := leftSide[length + 1..];
      }
      EntryInserted(storage, leftSide, rightSide);
      if leftSide !in storage {
        storage := storage[leftSide := rightSide];
      }
    }

    method Load(input: InputStream, env: Environment)
      requires input.Valid() && !input.fail && !input.eof
      modifies this, input
      ensures storage == Loaded("", old(input.Rest()), env, map[])
    {
      hide Loaded, EntryOn, Inserted, Piece;
      storage := map[];
      var fullLine, partiallyRead := "", false;
      ghost var all := Loaded("", input.Rest(), env, map[]);
      while !input.fail
        invariant input.Valid()
        invariant input.fail ==> input.eof
        invariant input.eof && !input.fail ==> !partiallyRead
        invariant all == if input.eof then storage
          else Loaded(if partiallyRead then fullLine else "", input.Rest(), env, storage)
        decreases |input.Rest()|, !input.eof, !input.fail
      {
        ghost var partial, text, ended := if partiallyRead then fullLine else "", input.Rest(), input.eof;
        var line := input.GetLine();
        fullLine := if partiallyRead then fullLine + line else line;
        partiallyRead := input.fail;
        if partiallyRead && !input.eof {
          LoadedPiece(partial, text, line, input.Rest(), env, storage);
          assert fullLine == partial + line;
          input.fail := false;
          continue;
        }
        if ended {
          EmptyLine(env, storage);
          NoEntryInserted(storage);
        } else {
          LoadedLine(partial, text, line, input.Rest(), input.eof, input.fail, env, storage);
          assert fullLine == partial + line;
        }
        AddLine(fullLine, env);
      }
    }

    /** The entries in the order the map enumerates them. */
    method Save(order: seq<string>) returns (out: string)
      requires forall i :: 0 <= i < |order| ==> order[i] in storage
      ensures out == Rendered(order, storage)
    {
      hide Rendered;
      out := "";
      for i := 0 to |order|
        invariant out + Rendered(order[i..], storage) == Rendered(order, storage)
      {
        assert order[i..][1..] == order[i + 1..];
        RenderedHead(order[i..], storage, out);
        out := out + (order[i] + "=" + storage[order[i]] + "\n");
      }
      RenderedNothing(storage);
      assert order[|order|..] == [] && out + "" == out;
    }
  }

  function Rendered(order: seq<string>, m: Entries): string
    requires forall i :: 0 <= i < |order| ==> order[i] in m
  {
    if order == [] then "" else order[0] + "=" + m[order[0]] + "\n" + Rendered(order[1..], m)
  }

  lemma RenderedHead(order: seq<string>, m: Entries, before: string)
    requires order != [] && forall i :: 0 <= i < |order| ==> order[i] in m
    ensures before + Rendered(order, m) ==
      before + (order[0] + "=" + m[order[0]] + "\n") + Rendered(order[1..], m)
  {
  }

  lemma RenderedNothing(m: Entries)
    ensures Rendered([], m) == ""
  {
  }

  // ---- The pieces of a line ----

  lemma CStringExact(s: string)
    ensures |CString(s)| <= |s| && (CString(s) == s <==> '\0' !in s) && (|CString(s)| == |s| ==> CString(s) == s)
  {
  }

  /** A line of any length is put together again exactly when it has no NUL in it. */
  lemma {:induction false} ReassembledExact(line: string)
    ensures |Reassembled(line)| <= |line|
    ensures Reassembled(line) == line <==> '\0' !in line
  {
    if |line| <= MAX_LINE {
      CStringExact(line);
    } else {
      var a, b := line[..MAX_LINE], line[MAX_LINE..];
      assert line == a + b;
      CStringExact(a);
      ReassembledExact(b);
    }
  }

  /** The lines between the newlines of a text. */
  function Lines(text: string): seq<string>
    decreases |text|
  {
    var e := LineEnd(text);
    [text[..e]] + if e == |text| then [] else Lines(text[e + 1..])
  }

  function AllInserted(lines: seq<string>, env: Environment, m: Entries): Entries {
    if lines == [] then m else AllInserted(lines[1..], env, Inserted(m, EntryOn(lines[0], env, m)))
  }

  /** Loading a text without NULs handles exactly its lines, in order, however long they are. */
  lemma {:induction false} LinesLoaded(text: string, env: Environment, m: Entries)
    requires '\0' !in text
    ensures Loaded("", text, env, m) == AllInserted(Lines(text), env, m)
    decreases |text|
  {
    hide EntryOn, Inserted, LineEnd, Reassembled, Loaded;
    var e := LineEnd(text);
    ReassembledExact(text[..e]);
    var m' := Inserted(m, EntryOn(text[..e], env, m));
    assert "" + text[..e] == text[..e];
    LoadedHead("", text, e, text[..e], env, m);
    if e == |text| {
      assert Lines(text)[1..] == [];
    } else {
      LinesLoaded(text[e + 1..], env, m');
      assert Lines(text)[1..] == Lines(text[e + 1..]);
    }
  }

  // ---- Saving and loading ----

  predicate Prefixed(key: string) {
    var dot := Find(key, '.', 0);
    dot != -1 && (key[..dot] == "log4j" || key[..dot] == "log4cpp")
  }

  /** An entry that its line stands for. */
  ghost predicate Clean(key: string, value: string) {
    && '#' !in key && '#' !in value && '=' !in key
    && Trimmed(key) && Trimmed(value) && !Prefixed(key) && NoReference(value)
  }

  lemma StripPrefixExact(key: string)
    ensures |StripPrefix(key)| <= |key| && (StripPrefix(key) == key <==> !Prefixed(key))
    ensures |StripPrefix(key)| == |key| ==> StripPrefix(key) == key
  {
  }

  lemma CommandExact(line: string)
    ensures var c := Command(line);
      if '#' !in line then c == Some(line) else c.Some? ==> |c.value| < |line|
  {
  }

  lemma CleanEntry(key: string, value: string, env: Environment, m: Entries)
    requires Clean(key, value)
    ensures EntryOn(key + "=" + value, env, m) == Some((key, value))
  {
    hide Subst, NoReference, Trim, Trimmed, StripPrefix, Prefixed, Command;
    var line := key + "=" + value;
    assert '#' !in line;
    CommandExact(line);
    FindFirst(line, '=', |key|);
    assert line[..|key|] == key && line[|key| + 1..] == value;
    TrimKeeps(key);
    TrimKeeps(value);
    StripPrefixExact(key);
    UnchangedExactly(value);
    assert StripPrefix(Trim(line[..|key|])) == key && Subst(Trim(value), 0, env, m) == value;
  }

  /** While every variable is empty, an entry is never longer than its line, and as long only when it
      is clean and the line is its own. */
  lemma TightEntry(line: string, env: Environment, m: Entries, key: string, value: string)
    requires Blank(env, m) && EntryOn(line, env, m) == Some((key, value))
    ensures |key| + 1 + |value| <= |line|
    ensures |key| + 1 + |value| == |line| ==> line == key + "=" + value && Clean(key, value)
  {
    hide Subst, NoReference, Trim, Trimmed, StripPrefix, Prefixed, Command, FindOpen;
    CommandExact(line);
    var c := Command(line).value;
    var eq := Find(c, '=', 0);
    var left, right := c[..eq], c[eq + 1..];
    StripPrefixExact(Trim(left));
    TrimKeeps(left);
    TrimKeeps(right);
    Shortened(Trim(right), 0, env, m);
    if |key| + 1 + |value| == |line| {
      assert c == line && left == key && Trim(right) == right && line == left + "=" + right;
      if !NoReference(right) { ReferenceShortens(right, env, m); }
      assert Subst(right, 0, env, m) == right by { NoReferenceKept(right, env, m); }
    }
  }

  lemma NoReferenceKept(s: string, env: Environment, m: Entries)
    requires NoReference(s)
    ensures Subst(s, 0, env, m) == s
  {
    UnchangedExactly(s);
  }

  /** The line of an entry gives the entry back, whatever the environment and the properties, exactly
      when the entry is clean. */
  lemma EntryExact(key: string, value: string)
    ensures Clean(key, value) <==>
      forall env: Environment, m :: EntryOn(key + "=" + value, env, m) == Some((key, value))
  {
    hide EntryOn, Clean;
    if Clean(key, value) {
      forall env: Environment, m ensures EntryOn(key + "=" + value, env, m) == Some((key, value)) {
        CleanEntry(key, value, env, m);
      }
    } else {
      var blank: Environment := _ => Some("");
      if EntryOn(key + "=" + value, blank, map[]) == Some((key, value)) {
        TightEntry(key + "=" + value, blank, map[], key, value);
      }
    }
  }

  /** A key with a prefix comes back without it. */
  lemma PrefixLost(env: Environment, m: Entries)
    ensures EntryOn("log4j.a=b", env, m) == Some(("a", "b"))
  {
    hide Subst, Command, Trim, FindOpen;
    var line, key, value := "log4j.a=b", "log4j.a", "b";
    CommandExact(line);
    FindFirst(line, '=', 7);
    FindFirst(key, '.', 5);
    assert line[..7] == key && line[8..] == value && key[..5] == "log4j" && key[6..] == "a";
    TrimKeeps(key);
    TrimKeeps(value);
    SubstLiteral(value, 0, env, m);
  }

  predicate OneLine(s: string) { '\n' !in s && '\0' !in s }

  ghost predicate Enumerates(order: seq<string>, m: Entries) {
    && (forall i :: 0 <= i < |order| ==> order[i] in m)
    && (forall k :: k in m ==> k in order)
    && Distinct(order)
  }

  ghost predicate Savable(m: Entries) {
    forall k :: k in m ==> Clean(k, m[k]) && OneLine(k) && OneLine(m[k])
  }

  /** Loading one saved line in front of more text. */
  lemma SavedLine(key: string, value: string, text: string, env: Environment, m: Entries)
    requires Clean(key, value) && OneLine(key) && OneLine(value) && key !in m
    ensures Loaded("", key + "=" + value + "\n" + text, env, m) == Loaded("", text, env, m[key := value])
  {
    hide EntryOn, Clean, Reassembled;
    var line := key + "=" + value;
    var all := line + "\n" + text;
    assert '\0' !in line && '\n' !in line;
    FindFirst(all, '\n', |line|);
    assert all[..|line|] == line && all[|line| + 1..] == text && "" + line == line;
    ReassembledExact(line);
    CleanEntry(key, value, env, m);
  }

  lemma NothingSaved(env: Environment, m: Entries)
    ensures Loaded("", "", env, m) == m
  {
    EmptyLine(env, m);
  }

  lemma {:induction false} SavedFrom(order: seq<string>, i: nat, m: Entries, env: Environment, acc: Entries)
    requires i <= |order| && Enumerates(order, m) && Savable(m)
    requires forall k :: k in acc <==> k in order[..i]
    requires forall k :: k in acc ==> k in m && acc[k] == m[k]
    ensures Loaded("", Rendered(order[i..], m), env, acc) == m
    decreases |order| - i
  {
    hide Loaded, Clean, OneLine;
    if i == |order| {
      assert order[i..] == [] && order[..i] == order;
      NothingSaved(env, acc);
      assert acc == m;
    } else {
      var k := order[i];
      assert order[i..][0] == k && order[i..][1..] == order[i + 1..] && order[..i + 1] == order[..i] + [k];
      SavedLine(k, m[k], Rendered(order[i + 1..], m), env, acc);
      SavedFrom(order, i + 1, m, env, acc[k := m[k]]);
    }
  }

  function SavedAndLoaded(order: seq<string>, m: Entries, env: Environment): Entries
    requires forall i :: 0 <= i < |order| ==> order[i] in m
  {
    Loaded("", Rendered(order, m), env, map[])
  }

  /** Loading what was saved gives back the same map, in whatever order it was enumerated and
      whatever the environment. */
  lemma SaveThenLoad(order: seq<string>, m: Entries, env: Environment)
    requires Enumerates(order, m) && Savable(m)
    ensures SavedAndLoaded(order, m, env) == m
  {
    hide Loaded, Savable, Enumerates, Rendered;
    assert order[0..] == order && order[..0] == [];
    SavedFrom(order, 0, m, env, map[]);
  }

  // ---- Only those maps come back ----

  /** The length of the lines of the entries in keys. */
  function Size(keys: seq<string>, m: Entries): nat
    requires forall i :: 0 <= i < |keys| ==> keys[i] in m
  {
    if keys == [] then 0
    else
      var k := keys[|keys| - 1];
      Size(keys[..|keys| - 1], m) + |k| + |m[k]| + 2
  }

  lemma {:induction false} SizeAppend(a: seq<string>, b: seq<string>, m: Entries)
    requires (forall i :: 0 <= i < |a| ==> a[i] in m) && forall i :: 0 <= i < |b| ==> b[i] in m
    ensures Size(a + b, m) == Size(a, m) + Size(b, m)
    decreases |b|
  {
    if b == [] {
      assert a + b == a;
    } else {
      var n := |b| - 1;
      SizeAppend(a, b[..n], m);
      assert (a + b)[..|a + b| - 1] == a + b[..n] && (a + b)[|a + b| - 1] == b[n];
    }
  }

  lemma {:induction false} SizeExtended(keys: seq<string>, m: Entries, k: string, v: string)
    requires (forall i :: 0 <= i < |keys| ==> keys[i] in m) && k !in m
    ensures Size(keys + [k], m[k := v]) == Size(keys, m) + |k| + |v| + 2
  {
    SizeUnchanged(keys, m, k, v);
    assert (keys + [k])[..|keys|] == keys;
  }

  lemma {:induction false} SizeUnchanged(keys: seq<string>, m: Entries, k: string, v: string)
    requires (forall i :: 0 <= i < |keys| ==> keys[i] in m) && k !in m
    ensures Size(keys, m[k := v]) == Size(keys, m)
  {
    if keys != [] { SizeUnchanged(keys[..|keys| - 1], m, k, v); }
  }

  lemma {:induction false} RenderedSize(order: seq<string>, m: Entries)
    requires forall i :: 0 <= i < |order| ==> order[i] in m
    ensures |Rendered(order, m)| == Size(order, m)
  {
    if order != [] {
      RenderedSize(order[1..], m);
      assert order == [order[0]] + order[1..];
      SizeAppend([order[0]], order[1..], m);
      assert [order[0]][..0] == [];
      assert Size([order[0]], m) == |order[0]| + |m[order[0]]| + 2;
    }
  }

  lemma SizeRemoved(keys: seq<string>, j: nat, m: Entries)
    requires j < |keys| && forall i :: 0 <= i < |keys| ==> keys[i] in m
    ensures var k := keys[j]; Size(keys, m) == Size(keys[..j] + keys[j + 1..], m) + |k| + |m[k]| + 2
  {
    var k := keys[j];
    assert keys == keys[..j] + ([k] + keys[j + 1..]);
    SizeAppend(keys[..j], [k] + keys[j + 1..], m);
    SizeAppend([k], keys[j + 1..], m);
    SizeAppend(keys[..j], keys[j + 1..], m);
    assert [k][..0] == [];
    assert Size([k], m) == |k| + |m[k]| + 2;
  }

  /** The size does not depend on the order. */
  lemma {:induction false} SizePermuted(a: seq<string>, b: seq<string>, m: Entries)
    requires (forall k :: k in a ==> k in m) && (forall k :: k in a <==> k in b)
    requires Distinct(a) && Distinct(b)
    ensures Size(a, m) == Size(b, m)
    decreases |a| + |b|, |b|
  {
    hide Distinct;
    if a != [] {
      hide Size;
      var n := |a| - 1;
      assert a[n] in b;
      var j :| 0 <= j < |b| && b[j] == a[n];
      SizeRemoved(b, j, m);
      SizeRemoved(a, n, m);
      assert a[..n] + a[n + 1..] == a[..n];
      RemovedKey(a, b, j);
      SizePermuted(a[..n], b[..j] + b[j + 1..], m);
    } else if b != [] {
      SizePermuted(b, a, m);
    }
  }

  ghost predicate Distinct(keys: seq<string>) {
    forall i, j :: 0 <= i < j < |keys| ==> keys[i] != keys[j]
  }

  lemma RemovedKey(a: seq<string>, b: seq<string>, j: nat)
    requires a != [] && j < |b| && b[j] == a[|a| - 1] && Distinct(a) && Distinct(b)
    requires forall k :: k in a <==> k in b
    ensures var a', b' := a[..|a| - 1], b[..j] + b[j + 1..];
      Distinct(a') && Distinct(b') && forall k :: k in a' <==> k in b'
  {
    var a', b', x := a[..|a| - 1], b[..j] + b[j + 1..], b[j];
    forall k ensures k in a' <==> k in a && k != x {
      if k in a && k != x {
        var i :| 0 <= i < |a| && a[i] == k;
        assert a'[i] == k;
      }
    }
    forall k ensures k in b' <==> k in b && k != x {
      if k in b && k != x {
        var i :| 0 <= i < |b| && b[i] == k;
        assert b'[if i < j then i else i - 1] == k;
      }
    }
  }

  predicate Ended(text: string) { text == "" || text[|text| - 1] == '\n' }

  /** What one whole line adds, while every variable is empty. */
  lemma TightLine(line: string, env: Environment, m: Entries, key: string, value: string)
    requires (forall k :: env(k) == Some("")) && '\n' !in line
    requires EntryOn(Reassembled(line), env, m) == Some((key, value))
    ensures |key| + |value| + 2 <= |line| + 1
    ensures |key| + |value| + 2 == |line| + 1 ==> Clean(key, value) && OneLine(key) && OneLine(value)
  {
    hide EntryOn, Reassembled, Clean;
    ReassembledExact(line);
    TightEntry(Reassembled(line), env, m, key, value);
    if |key| + |value| + 1 == |line| {
      assert Reassembled(line) == line == key + "=" + value by { ReassembledFull(line); }
      assert forall c :: c in key || c in value ==> c in line;
    }
  }

  lemma {:induction false} ReassembledFull(line: string)
    ensures |Reassembled(line)| == |line| ==> Reassembled(line) == line
  {
    if |line| <= MAX_LINE {
      CStringExact(line);
    } else {
      var a, b := line[..MAX_LINE], line[MAX_LINE..];
      assert line == a + b;
      CStringExact(a);
      ReassembledExact(b);
      ReassembledFull(b);
    }
  }

  /** The entries loaded from a text are no larger than the text, and as large only when all of them can
      be saved. keys enumerates the entries so far. */
  lemma {:induction false} TightLoad(text: string, env: Environment, m: Entries, keys: seq<string>)
    returns (all: seq<string>)
    requires Ended(text) && (forall k :: env(k) == Some("")) && Enumerates(keys, m)
    ensures var r := Loaded("", text, env, m);
      && Enumerates(all, r) && Size(all, r) <= Size(keys, m) + |text|
      && (Size(all, r) == Size(keys, m) + |text| && Savable(m) ==> Savable(r))
    decreases |text|
  {
    hide Loaded, EntryOn, Reassembled, Clean, OneLine, Size;
    if text == "" {
      NothingSaved(env, m);
      all := keys;
    } else {
      var e := LineEnd(text);
      var line := text[..e];
      var rest := text[e + 1..];
      assert '\n' !in line && "" + Reassembled(line) == Reassembled(line);
      LoadedHead("", text, e, Reassembled(line), env, m);
      var entry := EntryOn(Reassembled(line), env, m);
      if entry.None? || entry.value.0 in m {
        all := TightLoad(rest, env, m, keys);
      } else {
        var (k, v) := entry.value;
        TightLine(line, env, m, k, v);
        SizeExtended(keys, m, k, v);
        all := TightLoad(rest, env, m[k := v], keys + [k]);
      }
    }
  }

  lemma RenderedEnded(order: seq<string>, m: Entries)
    requires forall i :: 0 <= i < |order| ==> order[i] in m
    ensures Ended(Rendered(order, m))
    decreases |order|
  {
    if order != [] { RenderedEnded(order[1..], m); }
  }

  /** Saving and loading gives back the map in every environment exactly when each of its entries is
      clean and fits on one line. */
  lemma SaveThenLoadExact(order: seq<string>, m: Entries)
    requires Enumerates(order, m)
    ensures Savable(m) <==> forall env: Environment :: SavedAndLoaded(order, m, env) == m
  {
    hide Loaded, Savable, Rendered, Size;
    if Savable(m) {
      forall env: Environment ensures SavedAndLoaded(order, m, env) == m {
        SaveThenLoad(order, m, env);
      }
    } else {
      var blank: Environment := _ => Some("");
      if SavedAndLoaded(order, m, blank) == m {
        RenderedEnded(order, m);
        var all := TightLoad(Rendered(order, m), blank, map[], []);
        NothingSize();
        RenderedSize(order, m);
        SizePermuted(all, order, m);
      }
    }
  }

  lemma NothingSize()
    ensures Size([], map[]) == 0 && Savable(map[])
  {
  }
}
