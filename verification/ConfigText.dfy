/** The key=value file on values: how a line and a file are read, how a map is written, and when
    writing and reading again gives the map back. */
module ConfigText {
  import opened Common
  import opened CStrings

  /** fgets with LINE_MAX_LEN - 1 takes at most this many characters. */
  const MAXLINE := 398

  type Items = map<string, string>

  function TrimRight(s: string): string {
    if s == "" || !Blank(s[|s| - 1]) then s else TrimRight(s[..|s| - 1])
  }

  function TrimLeft(s: string): string {
    if s == "" || !Blank(s[0]) then s else TrimLeft(s[1..])
  }

  /** The place of the first equals sign, or the length. */
  function Equals(s: string): (n: nat)
    ensures n <= |s|
  {
    if s == "" || s[0] == '=' then 0 else 1 + Equals(s[1..])
  }

  /** NoEquals: the search for the equals sign fails and its result is written through. */
  datatype LineRead = Skipped | NoEquals | Item(key: string, value: string)

  function ReadTrimmed(p: string): LineRead {
    if p == "" || p[0] == '#' then Skipped
    else if Equals(p) == |p| then NoEquals
    else Item(p[..Equals(p)], p[Equals(p) + 1..])
  }

  /** get_item_from_line. */
  function ReadLine(line: string): LineRead {
    ReadTrimmed(TrimLeft(TrimRight(CString(line))))
  }

  /** How much fgets takes, n characters of it seen: through a newline, to the end, or MAXLINE. */
  function LineLength(text: string, n: nat): (r: nat)
    requires n <= |text| && n <= MAXLINE
    ensures n <= r <= |text| && r <= MAXLINE
    ensures n < |text| && n < MAXLINE ==> n < r
    decreases |text| - n
  {
    if n == |text| || n == MAXLINE then n else if text[n] == '\n' then n + 1 else LineLength(text, n + 1)
  }

  /** insert keeps an entry that is already there. */
  function Insert(m: Items, r: LineRead): Items {
    if r.Item? && r.key !in m then m[r.key := r.value] else m
  }

  /** file_to_items; None when it writes through a null pointer. */
  function Load(text: string, m: Items): Option<Items>
    decreases |text|
  {
    if text == "" then Some(m)
    else
      var n := LineLength(text, 0);
      var r := ReadLine(text[..n]);
      if r.NoEquals? then None else Load(text[n..], Insert(m, r))
  }

  function Line(k: string, v: string): string {
    k + "=" + v + "\n"
  }

  /** What write_conf_value writes, the keys in the order of ks. */
  function Print(m: Items, ks: seq<string>): string
    requires forall i | 0 <= i < |ks| :: ks[i] in m
  {
    if ks == [] then "" else Line(ks[0], m[ks[0]]) + Print(m, ks[1..])
  }

  // ---------------------------------------------------------------- what a file can hold

  /** Text of one line. */
  ghost predicate Plain(s: string) {
    Without(s, NUL) && Without(s, '\n')
  }

  ghost predicate Trimmed(s: string) {
    s == "" || !Blank(s[|s| - 1])
  }

  /** A key as it comes out of a line. */
  ghost predicate Key(k: string) {
    Plain(k) && Without(k, '=') && (k == "" || (!Blank(k[0]) && k[0] != '#'))
  }

  ghost predicate Storable(k: string, v: string) {
    Key(k) && Plain(v) && Trimmed(v) && |k| + 1 + |v| <= MAXLINE
  }

  ghost predicate AllStorable(m: Items) {
    forall k | k in m :: Storable(k, m[k])
  }

  // ---------------------------------------------------------------- reading a line

  lemma {:induction false} TrimRightIsPrefix(s: string)
    ensures |TrimRight(s)| <= |s| && TrimRight(s) == s[..|TrimRight(s)|] && Trimmed(TrimRight(s))
    ensures forall k | |TrimRight(s)| <= k < |s| :: Blank(s[k])
  {
    if s != "" && Blank(s[|s| - 1]) {
      TrimRightIsPrefix(s[..|s| - 1]);
    }
  }

  lemma {:induction false} TrimLeftIsSuffix(s: string)
    ensures |TrimLeft(s)| <= |s| && TrimLeft(s) == s[|s| - |TrimLeft(s)|..]
    ensures TrimLeft(s) != "" ==> !Blank(TrimLeft(s)[0])
  {
    if s != "" && Blank(s[0]) {
      TrimLeftIsSuffix(s[1..]);
    }
  }

  lemma {:induction false} TrimLeftDropsBlanks(s: string)
    ensures |TrimLeft(s)| <= |s| && forall k | 0 <= k < |s| - |TrimLeft(s)| :: Blank(s[k])
  {
    if s != "" && Blank(s[0]) {
      TrimLeftDropsBlanks(s[1..]);
      assert forall k | 0 < k < |s| :: s[k] == s[1..][k - 1];
    }
  }

  lemma {:induction false} EqualsIsFirst(s: string)
    ensures Without(s[..Equals(s)], '=') && (Equals(s) < |s| ==> s[Equals(s)] == '=')
  {
    if s != "" && s[0] != '=' {
      EqualsIsFirst(s[1..]);
      assert s[..Equals(s)] == [s[0]] + s[1..][..Equals(s[1..])];
    }
  }

  lemma {:induction false} EqualsBehind(k: string, v: string)
    requires Without(k, '=')
    ensures Equals(k + "=" + v) == |k|
  {
    if k != "" {
      EqualsBehind(k[1..], v);
      assert (k + "=" + v)[1..] == k[1..] + "=" + v;
    }
  }

  lemma {:induction false} TrimRightBehind(a: string, v: string)
    requires Trimmed(a)
    ensures TrimRight(a + v) == a + TrimRight(v)
  {
    if v == "" {
      assert a + v == a;
    } else if Blank(v[|v| - 1]) {
      assert (a + v)[..|a + v| - 1] == a + v[..|v| - 1];
      TrimRightBehind(a, v[..|v| - 1]);
    }
  }

  lemma TrimRightNewline(v: string, tail: string)
    requires tail == "" || tail == "\n"
    ensures TrimRight(v + tail) == TrimRight(v)
  {
    if tail == "" {
      assert v + tail == v;
    } else {
      assert (v + tail)[..|v|] == v;
    }
  }

  /** The trimmed form of a written line. */
  lemma TrimWritten(k: string, v: string, tail: string)
    requires tail == "" || tail == "\n"
    ensures TrimRight(k + "=" + v + tail) == k + "=" + TrimRight(v)
  {
    TrimRightNewline(v, tail);
    TrimRightBehind(k + "=", v + tail);
    assert k + "=" + (v + tail) == k + "=" + v + tail;
  }

  lemma ReadPair(k: string, v: string)
    requires Key(k)
    ensures ReadTrimmed(TrimLeft(k + "=" + v)) == Item(k, v)
  {
    var p := k + "=" + v;
    assert p[0] == if k == "" then '=' else k[0];
    EqualsBehind(k, v);
    assert p[..|k|] == k && p[|k| + 1..] == v;
  }

  /** A written line is read back, less the blanks at its end. */
  lemma ReadWritten(k: string, v: string, tail: string)
    requires Key(k) && Plain(v) && (tail == "" || tail == "\n")
    ensures ReadLine(k + "=" + v + tail) == Item(k, TrimRight(v))
  {
    CStringOfPlain(k + "=" + v + tail);
    TrimWritten(k, v, tail);
    ReadPair(k, TrimRight(v));
  }

  /** Space, tab, newline, vertical tab, form feed, carriage return. */
  ghost predicate AllSpaces(s: string) {
    forall k | 0 <= k < |s| :: s[k] in [' ', '\t', '\n', 11 as char, 12 as char, '\r']
  }

  lemma {:induction false} SpacesTrimmed(s: string)
    requires AllSpaces(s)
    ensures TrimRight(s) == ""
  {
    if s != "" {
      SpacesTrimmed(s[..|s| - 1]);
    }
  }

  lemma {:induction false} SpacesSkipped(s: string, p: string)
    requires AllSpaces(s) && p != "" && !Blank(p[0])
    ensures TrimLeft(s + p) == p
  {
    if s == "" {
      assert s + p == p;
    } else {
      SpacesSkipped(s[1..], p);
      assert (s + p)[1..] == s[1..] + p;
    }
  }

  lemma PaddedTrimmed(before: string, p: string, after: string)
    requires AllSpaces(before) && AllSpaces(after) && Without(p, NUL) && p != "" && Trimmed(p) && !Blank(p[0])
    ensures TrimLeft(TrimRight(CString(before + p + after))) == p
  {
    CStringOfPlain(before + p + after);
    TrimRightBehind(before + p, after);
    SpacesTrimmed(after);
    assert before + p + "" == before + p;
    SpacesSkipped(before, p);
  }

  /** White space around a line does not matter. */
  lemma PaddedLineRead(before: string, k: string, v: string, after: string)
    requires AllSpaces(before) && AllSpaces(after) && Key(k) && Plain(v) && Trimmed(v)
    ensures ReadLine(before + (k + "=" + v) + after) == Item(k, v)
  {
    PairStarts(k, v);
    PaddedTrimmed(before, k + "=" + v, after);
    ReadPair(k, v);
  }

  lemma LineTrims(before: string, c: char, text: string, line: string)
    requires AllSpaces(before) && !Blank(c) && line == before + [c] + text
    ensures TrimLeft(TrimRight(line)) == [c] + TrimRight(text)
  {
    TrimRightBehind(before + [c], text);
    assert before + [c] + TrimRight(text) == before + ([c] + TrimRight(text));
    SpacesSkipped(before, [c] + TrimRight(text));
  }

  /** A line whose first character behind white space is a number sign is skipped, whatever follows. */
  lemma CommentSkipped(before: string, text: string, line: string)
    requires AllSpaces(before) && Without(text, NUL) && line == before + ['#'] + text
    ensures ReadLine(line) == Skipped
  {
    CStringOfPlain(line);
    LineTrims(before, '#', text, line);
  }

  lemma PairStarts(k: string, v: string)
    requires Key(k) && Plain(v) && Trimmed(v)
    ensures var p := k + "=" + v; Without(p, NUL) && Trimmed(p) && !Blank(p[0]) && TrimLeft(p) == p
  {
    var p := k + "=" + v;
    assert p[0] == if k == "" then '=' else k[0];
    assert p[|p| - 1] == if v == "" then '=' else v[|v| - 1];
  }

  // ---------------------------------------------------------------- reading a written file

  lemma {:induction false} LineLengthOf(line: string, rest: string, n: nat)
    requires Without(line, '\n') && n <= |line| <= MAXLINE
    ensures LineLength(line + "\n" + rest, n) == if |line| < MAXLINE then |line| + 1 else MAXLINE
    decreases |line| - n
  {
    var text := line + "\n" + rest;
    if n < |line| {
      assert text[n] == line[n];
      LineLengthOf(line, rest, n + 1);
    } else if n < MAXLINE {
      assert text[n] == '\n';
    }
  }

  lemma LoadNewline(rest: string, m: Items)
    ensures Load("\n" + rest, m) == Load(rest, m)
  {
    var text := "\n" + rest;
    assert LineLength(text, 0) == 1 && text[..1] == "\n" && text[1..] == rest;
    TrimRightNewline("", "\n");
    assert "" + "\n" == "\n";
    CStringOfPlain("\n");
    assert ReadLine("\n") == Skipped;
  }

  lemma LoadWritten(k: string, v: string, rest: string, m: Items)
    requires Key(k) && Plain(v) && |k| + 1 + |v| <= MAXLINE
    ensures Load(Line(k, v) + rest, m) == Load(rest, Insert(m, Item(k, TrimRight(v))))
  {
    var line, text := k + "=" + v, Line(k, v) + rest;
    assert text == line + "\n" + rest;
    LineLengthOf(line, rest, 0);
    if |line| < MAXLINE {
      ReadWritten(k, v, "\n");
      assert text[..|line| + 1] == k + "=" + v + "\n" && text[|line| + 1..] == rest;
    } else {
      ReadWritten(k, v, "");
      assert text[..|line|] == k + "=" + v + "" && text[|line|..] == "\n" + rest;
      LoadNewline(rest, Insert(m, Item(k, TrimRight(v))));
    }
  }

  /** The keys of m, all of them, in some order. */
  ghost predicate Enumerates(ks: seq<string>, m: Items) {
    (forall i | 0 <= i < |ks| :: ks[i] in m) && (forall k | k in m :: k in ks)
  }

  ghost predicate Writable(k: string, v: string) {
    Key(k) && Plain(v) && |k| + 1 + |v| <= MAXLINE
  }

  function TrimValues(m: Items): Items {
    map k | k in m :: TrimRight(m[k])
  }

  lemma {:induction false} LoadPrint(m: Items, ks: seq<string>, done: Items)
    requires forall k | k in m :: Writable(k, m[k])
    requires forall i | 0 <= i < |ks| :: ks[i] in m
    requires forall k | k in done :: k in m && done[k] == TrimRight(m[k])
    requires forall k | k in m :: k in done || k in ks
    ensures Load(Print(m, ks), done) == Some(TrimValues(m))
    decreases |ks|
  {
    if ks == [] {
      assert done == TrimValues(m);
    } else {
      var k := ks[0];
      LoadWritten(k, m[k], Print(m, ks[1..]), done);
      LoadPrint(m, ks[1..], Insert(done, Item(k, TrimRight(m[k]))));
    }
  }

  // ---------------------------------------------------------------- everything read can be written

  /** What fgets returns: a newline can only be its last character. */
  ghost predicate OneLine(line: string) {
    |line| <= MAXLINE && forall k | 0 <= k < |line| - 1 :: line[k] != '\n'
  }

  lemma {:induction false} LineIsOneLine(text: string, n: nat)
    requires n <= |text| && n <= MAXLINE && Without(text[..n], '\n')
    ensures OneLine(text[..LineLength(text, n)])
    decreases |text| - n
  {
    if n < |text| && n < MAXLINE {
      assert forall k | 0 <= k < n :: text[k] == text[..n][k];
      if text[n] != '\n' {
        LineIsOneLine(text, n + 1);
      }
    }
  }

  lemma TrimmedLineIsPlain(line: string)
    requires OneLine(line)
    ensures var t := TrimRight(CString(line)); Plain(t) && Trimmed(t) && |t| <= MAXLINE
  {
    var c := CString(line);
    var t := TrimRight(c);
    CStringIsPrefix(line);
    TrimRightIsPrefix(c);
    assert forall k | 0 <= k < |t| :: t[k] == c[k] && c[k] == line[k];
    assert |t| == |line| > 0 ==> t[|t| - 1] != '\n';
  }

  lemma ValueTrimmed(p: string, n: nat)
    requires Trimmed(p) && n <= |p|
    ensures Trimmed(p[n..])
  {
  }

  lemma PairIsStorable(p: string)
    requires Plain(p) && Trimmed(p) && |p| <= MAXLINE && (p == "" || !Blank(p[0]))
    ensures ReadTrimmed(p).Item? ==> Storable(ReadTrimmed(p).key, ReadTrimmed(p).value)
  {
    EqualsIsFirst(p);
    if ReadTrimmed(p).Item? {
      ValueTrimmed(p, Equals(p) + 1);
    }
  }

  lemma ReadIsStorable(line: string)
    requires OneLine(line)
    ensures ReadLine(line).Item? ==> Storable(ReadLine(line).key, ReadLine(line).value)
  {
    TrimmedLineIsPlain(line);
    TrimLeftIsSuffix(TrimRight(CString(line)));
    PairIsStorable(TrimLeft(TrimRight(CString(line))));
  }

  lemma {:induction false} LoadIsStorable(text: string, m: Items)
    requires AllStorable(m)
    ensures Load(text, m).Some? ==> AllStorable(Load(text, m).value)
    decreases |text|
  {
    if text != "" {
      var n := LineLength(text, 0);
      var r := ReadLine(text[..n]);
      LineIsOneLine(text, 0);
      ReadIsStorable(text[..n]);
      if !r.NoEquals? {
        LoadIsStorable(text[n..], Insert(m, r));
      }
    }
  }

  // ---------------------------------------------------------------- the first entry wins

  /** The entries of a file, line by line. */
  function Entries(text: string): seq<LineRead>
    decreases |text|
  {
    if text == "" then []
    else
      var n := LineLength(text, 0);
      [ReadLine(text[..n])] + Entries(text[n..])
  }

  ghost predicate FirstEntry(es: seq<LineRead>, k: string, i: nat) {
    i < |es| && es[i].Item? && es[i].key == k && forall j | 0 <= j < i :: es[j].Item? ==> es[j].key != k
  }

  ghost predicate GivenBy(m: Items, es: seq<LineRead>, k: string, v: string) {
    if k in m then m[k] == v else exists i: nat :: FirstEntry(es, k, i) && es[i].value == v
  }

  lemma FirstEntryBehind(e: LineRead, es: seq<LineRead>, k: string, i: nat)
    requires e.Item? ==> e.key != k
    ensures FirstEntry([e] + es, k, i + 1) <==> FirstEntry(es, k, i)
  {
    var all := [e] + es;
    assert forall j | 0 <= j < |es| :: es[j] == all[j + 1];
    if FirstEntry(all, k, i + 1) {
      assert es[i] == all[i + 1];
    }
  }

  lemma GivenByStep(m: Items, e: LineRead, es: seq<LineRead>, k: string, v: string)
    ensures GivenBy(m, [e] + es, k, v) <==> GivenBy(Insert(m, e), es, k, v)
  {
    var all := [e] + es;
    if k !in m {
      if e.Item? && e.key == k {
        assert FirstEntry(all, k, 0);
      } else {
        if GivenBy(m, all, k, v) {
          var i: nat :| FirstEntry(all, k, i) && all[i].value == v;
          FirstEntryBehind(e, es, k, i - 1);
        }
        if GivenBy(Insert(m, e), es, k, v) {
          var i: nat :| FirstEntry(es, k, i) && es[i].value == v;
          FirstEntryBehind(e, es, k, i);
        }
      }
    }
  }

  /** Every key gets the value of the first line that has it. */
  lemma {:induction false} FirstEntryWins(text: string, m: Items, k: string, v: string)
    requires Load(text, m).Some?
    ensures k in Load(text, m).value && Load(text, m).value[k] == v <==> GivenBy(m, Entries(text), k, v)
    decreases |text|
  {
    if text != "" {
      var n := LineLength(text, 0);
      var e := ReadLine(text[..n]);
      GivenByStep(m, e, Entries(text[n..]), k, v);
      FirstEntryWins(text[n..], Insert(m, e), k, v);
    }
  }

  // ---------------------------------------------------------------- round trips

  lemma TrimStorable(m: Items)
    requires AllStorable(m)
    ensures TrimValues(m) == m
  {
  }

  /** A map survives being written and read exactly when all its entries can be stored. */
  lemma RoundTripExactlyWhenStorable(m: Items, ks: seq<string>)
    requires Enumerates(ks, m)
    ensures Load(Print(m, ks), map[]) == Some(m) <==> AllStorable(m)
  {
    LoadIsStorable(Print(m, ks), map[]);
    if AllStorable(m) {
      LoadPrint(m, ks, map[]);
      TrimStorable(m);
    }
  }

  /** A value that one line behind its key can hold. */
  ghost predicate ValueFits(key: string, value: string) {
    Plain(value) && Trimmed(value) && |key| + 1 + |value| <= MAXLINE
  }

  /** write_conf_value writes the entries that were there, with this key's value changed if it is one of
      them. Reading the file again gives what was written exactly when the key is not there or the value
      fits its line: then every key is there that was, every other key has its old value, and this key
      the new one. */
  lemma WriteThenReadExactly(text: string, m: Items, was: Items, key: string, value: string, now: Items,
                             ks: seq<string>)
    requires AllStorable(m) && Load(text, m) == Some(was) && Enumerates(ks, now)
    requires forall k :: k in now <==> k in was
    requires forall k | k in was && k != key :: now[k] == was[k]
    requires key in was ==> now[key] == value
    ensures Load(Print(now, ks), map[]) == Some(now) <==> key !in was || ValueFits(key, value)
    ensures key !in was || ValueFits(key, value) ==>
              var r := Load(Print(now, ks), map[]);
              && r.Some?
              && (forall k :: k in r.value <==> k in was)
              && (forall k | k in was && k != key :: r.value[k] == was[k])
              && (key in was ==> r.value[key] == value)
  {
    LoadIsStorable(text, m);
    RoundTripExactlyWhenStorable(now, ks);
    if key in was {
      assert Storable(key, was[key]);
    }
  }

  /** With blanks at the end, what is read again is the value without them, and every other entry. */
  lemma WriteTrims(text: string, m: Items, was: Items, key: string, value: string, now: Items, ks: seq<string>)
    requires AllStorable(m) && Load(text, m) == Some(was) && Enumerates(ks, now)
    requires forall k :: k in now <==> k in was
    requires forall k | k in was && k != key :: now[k] == was[k]
    requires key in was ==> now[key] == value && Plain(value) && |key| + 1 + |value| <= MAXLINE
    ensures var r := Load(Print(now, ks), map[]);
            && r.Some?
            && (forall k :: k in r.value <==> k in was)
            && (forall k | k in was && k != key :: r.value[k] == was[k])
            && (key in was ==> r.value[key] == TrimRight(value))
  {
    LoadIsStorable(text, m);
    assert forall k | k in was :: Storable(k, was[k]);
    LoadPrint(now, ks, map[]);
  }
}
