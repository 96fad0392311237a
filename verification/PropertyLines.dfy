/** What a line of a property file stands for, told on its characters: the blanks around a key and a value,
    comments, prefixes, and which of several entries for one key counts. */
module PropertyLines {
  import opened Text
  import opened Substitution
  import opened Properties

  // ---- White space ----

  predicate AllBlank(s: string) {
    forall k :: 0 <= k < |s| ==> s[k] in " \t\r\n"
  }

  lemma TrimStartIs(s: string, i: nat, b: nat)
    requires i <= b <= |s| && (forall k :: i <= k < b ==> s[k] in " \t\r\n") && (b < |s| ==> s[b] !in " \t\r\n")
    ensures TrimStart(s, i) == b
    decreases b - i
  {
    if i < b { TrimStartIs(s, i + 1, b); }
  }

  lemma TrimEndIs(s: string, e: nat, j: nat)
    requires e <= j <= |s| && (forall k :: e <= k < j ==> s[k] in " \t\r\n") && (e > 0 ==> s[e - 1] !in " \t\r\n")
    ensures TrimEnd(s, j) == e
    decreases j - e
  {
    if e < j { TrimEndIs(s, e, j - 1); }
  }

  /** Trimming takes away exactly the blanks, tabs, carriage returns and newlines at both ends. */
  lemma TrimIs(u: string, t: string, v: string)
    requires AllBlank(u) && AllBlank(v) && Trimmed(t)
    ensures Trim(u + t + v) == t
  {
    hide TrimStart, TrimEnd;
    var s, b, e := u + t + v, |u|, |u + t|;
    assert forall k :: 0 <= k < b ==> s[k] == u[k];
    if t == "" {
      assert forall k :: b <= k < |s| ==> s[k] == v[k - b];
      TrimStartIs(s, 0, |s|);
    } else {
      assert s[b] == t[0] && s[e - 1] == t[|t| - 1] && s[b..e] == t;
      assert forall k :: e <= k < |s| ==> s[k] == v[k - e];
      TrimStartIs(s, 0, b);
      TrimEndIs(s, e, |s|);
    }
  }

  // ---- Lines ----

  lemma NoSign(s: string, c: char)
    requires AllBlank(s) && c !in " \t\r\n"
    ensures c !in s
  {
  }

  /** A key and a value with white space around them make the same entry as without. */
  lemma EntryTrimmed(a: string, key: string, b: string, c: string, value: string, d: string, env: Environment,
                     m: Entries)
    requires AllBlank(a) && AllBlank(b) && AllBlank(c) && AllBlank(d) && Trimmed(key) && Trimmed(value)
    requires '#' !in key && '=' !in key && '#' !in value
    ensures EntryOn((a + key + b) + "=" + (c + value + d), env, m)
      == Some((StripPrefix(key), Subst(value, 0, env, m)))
      == EntryOn(key + "=" + value, env, m)
  {
    hide Trim, StripPrefix, Subst, Command, AllBlank;
    assert AllBlank("") by { EmptyBlank(); }
    SignsApart(a, key, b, '#');
    SignsApart(a, key, b, '=');
    SignsApart(c, value, d, '#');
    SidesTaken(a + key + b, c + value + d, env, m);
    SidesTaken(key, value, env, m);
    TrimIs(a, key, b);
    TrimIs(c, value, d);
    TrimIs("", key, "");
    TrimIs("", value, "");
    assert "" + key + "" == key && "" + value + "" == value;
  }

  lemma EmptyBlank()
    ensures AllBlank("")
  {
  }

  lemma SignsApart(a: string, s: string, b: string, c: char)
    requires AllBlank(a) && AllBlank(b) && c !in s && c !in " \t\r\n"
    ensures c !in a + s + b
  {
    NoSign(a, c);
    NoSign(b, c);
  }

  lemma SidesTaken(left: string, right: string, env: Environment, m: Entries)
    requires '#' !in left && '=' !in left && '#' !in right
    ensures EntryOn(left + "=" + right, env, m) == Some((StripPrefix(Trim(left)), Subst(Trim(right), 0, env, m)))
  {
    hide Trim, StripPrefix, Subst, Command;
    var line := left + "=" + right;
    assert '#' !in line;
    CommandExact(line);
    FindFirst(line, '=', |left|);
    assert line[..|left|] == left && line[|left| + 1..] == right;
  }

  /** A comment behind a command does not matter; a line that starts with one, and a command without an
      equals sign, stand for nothing. */
  lemma CommentIgnored(line: string, comment: string, env: Environment, m: Entries)
    requires '#' !in line
    ensures EntryOn(line + "#" + comment, env, m) == if line == "" then None else EntryOn(line, env, m)
    ensures '=' !in line ==> EntryOn(line, env, m) == None
  {
    hide StripPrefix, Trim, Subst;
    var all := line + "#" + comment;
    FindFirst(all, '#', |line|);
    FindFirst(line, '#', |line|);
    assert all[..|line|] == line;
  }

  /** The first name of a key is left out when it is log4j or log4cpp, and nothing else is. */
  lemma PrefixStripped(key: string)
    ensures StripPrefix("log4j." + key) == key && StripPrefix("log4cpp." + key) == key
    ensures !("log4j." <= key) && !("log4cpp." <= key) ==> StripPrefix(key) == key
  {
    OnePrefix("log4j", key);
    OnePrefix("log4cpp", key);
    assert "log4j" + "." + key == "log4j." + key && "log4cpp" + "." + key == "log4cpp." + key;
    if !("log4j." <= key) && !("log4cpp." <= key) { OtherPrefix(key); }
  }

  lemma OnePrefix(first: string, key: string)
    requires first == "log4j" || first == "log4cpp"
    ensures StripPrefix(first + "." + key) == key
  {
    var all := first + "." + key;
    FindFirst(all, '.', |first|);
    assert all[..|first|] == first && all[|first| + 1..] == key;
  }

  lemma OtherPrefix(key: string)
    requires !("log4j." <= key) && !("log4cpp." <= key)
    ensures StripPrefix(key) == key
  {
    var dot := Find(key, '.', 0);
    if dot == -1 {
      assert key[dot + 1..] == key;
    } else {
      assert key[..dot + 1] == key[..dot] + ".";
    }
  }

  // ---- Files ----

  /** The lines of a text are what its newlines separate. */
  lemma LinesSplit(line: string, text: string)
    requires '\n' !in line
    ensures Lines(line) == [line] && Lines(line + "\n" + text) == [line] + Lines(text)
  {
    var all := line + "\n" + text;
    FindFirst(all, '\n', |line|);
    FindFirst(line, '\n', |line|);
    assert all[..|line|] == line && all[|line| + 1..] == text && line[..|line|] == line;
  }

  lemma {:induction false} InsertedAppend(a: seq<string>, b: seq<string>, env: Environment, m: Entries)
    ensures AllInserted(a + b, env, m) == AllInserted(b, env, AllInserted(a, env, m))
    decreases |a|
  {
    if a == [] {
      assert a + b == b;
    } else {
      assert (a + b)[1..] == a[1..] + b;
      InsertedAppend(a[1..], b, env, Inserted(m, EntryOn(a[0], env, m)));
    }
  }

  lemma {:induction false} EntriesStay(lines: seq<string>, env: Environment, m: Entries, key: string)
    requires key in m
    ensures key in AllInserted(lines, env, m) && AllInserted(lines, env, m)[key] == m[key]
    decreases |lines|
  {
    if lines != [] { EntriesStay(lines[1..], env, Inserted(m, EntryOn(lines[0], env, m)), key); }
  }

  /** The line has an entry for the key. */
  ghost predicate Defines(line: string, key: string, env: Environment, m: Entries) {
    EntryOn(line, env, m).Some? && EntryOn(line, env, m).value.0 == key
  }

  /** The key of a line does not depend on what is known already. */
  lemma KeyFixed(line: string, env: Environment, m: Entries, n: Entries, key: string)
    ensures Defines(line, key, env, m) <==> Defines(line, key, env, n)
  {
    hide Subst, Command, StripPrefix, Trim;
  }

  lemma {:induction false} NotDefined(lines: seq<string>, env: Environment, m: Entries, key: string)
    requires key !in m && forall j :: 0 <= j < |lines| ==> !Defines(lines[j], key, env, m)
    ensures key !in AllInserted(lines, env, m)
    decreases |lines|
  {
    hide EntryOn;
    if lines != [] {
      var m' := Inserted(m, EntryOn(lines[0], env, m));
      assert !Defines(lines[0], key, env, m);
      forall j | 0 <= j < |lines[1..]| ensures !Defines(lines[1..][j], key, env, m') {
        KeyFixed(lines[j + 1], env, m, m', key);
      }
      hide Defines;
      NotDefined(lines[1..], env, m', key);
    }
  }

  /** Of several lines for one key the first counts, with the value it has there; and a key that no line is
      for is not there. */
  lemma FirstLineCounts(lines: seq<string>, i: nat, key: string, env: Environment)
    requires i <= |lines| && (forall j :: 0 <= j < i ==> !Defines(lines[j], key, env, map[]))
    requires i < |lines| ==> Defines(lines[i], key, env, map[])
    ensures var m, before := AllInserted(lines, env, map[]), AllInserted(lines[..i], env, map[]);
      && (key in m <==> i < |lines|)
      && (i < |lines| ==> EntryOn(lines[i], env, before) == Some((key, m[key])))
  {
    hide EntryOn, AllInserted;
    var m := AllInserted(lines[..i], env, map[]);
    NotDefined(lines[..i], env, map[], key);
    if i < |lines| {
      KeyFixed(lines[i], env, map[], m, key);
      assert lines == lines[..i] + ([lines[i]] + lines[i + 1..]);
      InsertedAppend(lines[..i], [lines[i]] + lines[i + 1..], env, map[]);
      var m' := Inserted(m, EntryOn(lines[i], env, m));
      OneInserted(lines[i], lines[i + 1..], env, m);
      EntriesStay(lines[i + 1..], env, m', key);
    } else {
      assert lines[..i] == lines;
    }
  }

  lemma OneInserted(line: string, rest: seq<string>, env: Environment, m: Entries)
    ensures AllInserted([line] + rest, env, m) == AllInserted(rest, env, Inserted(m, EntryOn(line, env, m)))
  {
    assert ([line] + rest)[1..] == rest;
  }
}
