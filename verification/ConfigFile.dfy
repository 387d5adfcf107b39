/** The configuration file in place: the line buffer that is trimmed and cut, the map that is filled,
    and the file that is written anew. */
module ConfigFile {
  import opened Common
  import opened CStrings
  import opened ConfigText

  const LINE_MAX_LEN := 400

  /** The buffer p starts with the C string s. */
  ghost predicate Has(p: seq<char>, s: string) {
    |s| < |p| && p[|s|] == NUL && Without(s, NUL) && p[..|s|] == s
  }

  method Strlen(p: array<char>, ghost s: string) returns (n: nat)
    requires Has(p[..], s)
    ensures n == |s|
  {
    assert forall k | 0 <= k < |s| :: s[k] == p[..][..|s|][k] == p[k];
    n := 0;
    while p[n] != NUL
      invariant n <= |s|
      decreases |s| - n
    {
      n := n + 1;
    }
  }

  /** strtrimr: blanks at the end are overwritten with terminators. */
  method Strtrimr(p: array<char>, ghost s: string)
    requires Has(p[..], s)
    modifies p
    ensures Has(p[..], TrimRight(s))
  {
    var i := Strlen(p, s);
    while i > 0 && Blank(p[i - 1])
      invariant 0 <= i <= |s| && Has(p[..], s[..i]) && TrimRight(s[..i]) == TrimRight(s)
    {
      assert p[i - 1] == p[..][..i][i - 1] == s[..i][i - 1];
      i := i - 1;
      p[i] := NUL;
      assert s[..i + 1][..i] == s[..i];
      assert p[..][..i] == s[..i];
    }
    assert i > 0 ==> p[i - 1] == p[..][..i][i - 1] == s[..i][i - 1];
  }

  /** strtriml: the rest of the string, terminator included, is moved to the front. */
  method Strtriml(p: array<char>, ghost s: string)
    requires Has(p[..], s)
    modifies p
    ensures Has(p[..], TrimLeft(s))
  {
    var j := Strlen(p, s);
    var i := 0;
    while i < j && Blank(p[i])
      invariant 0 <= i <= j && TrimLeft(s[i..]) == TrimLeft(s)
    {
      assert p[i] == p[..][..j][i] == s[i..][0] && s[i..][1..] == s[i + 1..];
      i := i + 1;
    }
    assert i < j ==> p[i] == p[..][..j][i] == s[i..][0];
    ghost var was := p[..];
    forall k | 0 <= k <= j - i {
      p[k] := p[i + k];
    }
    assert p[..][..j - i] == was[..j][i..] == s[i..];
  }

  class Config {
    const line: array<char>
    var file: string
    var kvmap: Items

    constructor (file: string)
      ensures line.Length == LINE_MAX_LEN && fresh(line) && this.file == file && kvmap == map[]
    {
      line := new char[LINE_MAX_LEN](_ => NUL);
      this.file, kvmap := file, map[];
    }

    /** get_item_from_line on the line buffer; fault when there is no equals sign to write through. */
    method GetItemFromLine(ghost s: string) returns (fault: bool)
      requires Has(line[..], s)
      modifies line, this`kvmap
      ensures fault <==> ReadTrimmed(TrimLeft(TrimRight(s))).NoEquals?
      ensures kvmap == Insert(old(kvmap), ReadTrimmed(TrimLeft(TrimRight(s))))
    {
      Strtrimr(line, s);
      Strtriml(line, TrimRight(s));
      fault := SplitLine(TrimLeft(TrimRight(s)));
    }

    method SplitLine(ghost p: string) returns (fault: bool)
      requires Has(line[..], p)
      modifies this`kvmap
      ensures fault <==> ReadTrimmed(p).NoEquals?
      ensures kvmap == Insert(old(kvmap), ReadTrimmed(p))
    {
      var len := Strlen(line, p);
      assert line[..len] == p;
      if len == 0 || line[0] == '#' {
        return false;
      }
      var v := 0;
      while v < len && line[v] != '='
        invariant 0 <= v <= len && Equals(p) == v + Equals(p[v..])
      {
        assert p[v..][0] == line[v] && p[v..][1..] == p[v + 1..];
        v := v + 1;
      }
      assert v < len ==> p[v..][0] == line[v];
      if v == len {
        return true;
      }
      var key, value := line[..v], line[v + 1..len];
      assert key == p[..v] && value == p[v + 1..];
      if key !in kvmap {
        kvmap := kvmap[key := value];
      }
      return false;
    }

    /** fgets: through the next newline, at most LINE_MAX_LEN - 2 characters, and a terminator. */
    method Fgets(pos: nat) returns (n: nat)
      requires line.Length == LINE_MAX_LEN && pos <= |file|
      modifies line
      ensures n == LineLength(file[pos..], 0)
      ensures line[n] == NUL && line[..n] == file[pos..][..n]
    {
      ghost var text := file[pos..];
      n := 0;
      var ended := false;
      while !ended && n < MAXLINE && pos + n < |file|
        invariant n <= MAXLINE && n <= |text| && line[..n] == text[..n]
        invariant LineLength(text, 0) == if ended then n else LineLength(text, n)
        decreases !ended, MAXLINE - n
      {
        line[n] := file[pos + n];
        ended := line[n] == '\n';
        n := n + 1;
        assert line[..n] == text[..n];
      }
      line[n] := NUL;
    }

    /** The loop body of file_to_items: the next line, read into the map. */
    method NextLine(pos: nat) returns (n: nat, fault: bool)
      requires line.Length == LINE_MAX_LEN && pos < |file|
      modifies line, this`kvmap
      ensures n == LineLength(file[pos..], 0)
      ensures fault <==> ReadLine(file[pos..][..n]).NoEquals?
      ensures kvmap == Insert(old(kvmap), ReadLine(file[pos..][..n]))
    {
      n := Fgets(pos);
      ghost var s := CString(file[pos..][..n]);
      LineHasCString(line[..], file[pos..][..n]);
      fault := GetItemFromLine(s);
    }

    /** file_to_items; fault when it stops at a line without an equals sign. */
    method FileToItems() returns (fault: bool)
      requires line.Length == LINE_MAX_LEN
      modifies line, this`kvmap
      ensures fault <==> Load(file, old(kvmap)).None?
      ensures !fault ==> Load(file, old(kvmap)) == Some(kvmap)
    {
      var pos, n := 0, 0;
      assert file[0..] == file;
      while pos < |file|
        invariant 0 <= pos <= |file| && Load(file[pos..], kvmap) == Load(file, old(kvmap))
        decreases |file| - pos
      {
        LoadNext(file[pos..], kvmap);
        n, fault := NextLine(pos);
        if fault {
          return;
        }
        assert file[pos..][n..] == file[pos + n..];
        pos := pos + n;
      }
      fault := false;
    }

    /** The write loop over the map, in some order of the keys. */
    method Rewrite() returns (ghost ks: seq<string>)
      modifies this`file
      ensures Enumerates(ks, kvmap) && file == Print(kvmap, ks)
    {
      file, ks := "", [];
      var rest := kvmap.Keys;
      while rest != {}
        invariant forall k | k in rest :: k in kvmap
        invariant forall i | 0 <= i < |ks| :: ks[i] in kvmap
        invariant forall k | k in kvmap :: k in rest || k in ks
        invariant file == Print(kvmap, ks)
        decreases |rest|
      {
        var k :| k in rest;
        PrintAppend(kvmap, ks, k);
        file := file + Line(k, kvmap[k]);
        rest, ks := rest - {k}, ks + [k];
      }
    }

    /** write_conf_value: the entries there, with this key's value changed if it is one of them, are written
        anew as `now`. On a file that could be stored and a value that fits, they can be read again. */
    method WriteConfValue(key: string, value: string) returns (fault: bool, ghost now: Items, ghost ks: seq<string>)
      requires line.Length == LINE_MAX_LEN
      modifies this, line
      ensures fault <==> Load(old(file), old(kvmap)).None?
      ensures !fault ==>
                var was := Load(old(file), old(kvmap)).value;
                && (forall k :: k in now <==> k in was)
                && (forall k | k in was && k != key :: now[k] == was[k])
                && (key in was ==> now[key] == value)
                && Enumerates(ks, now) && file == Print(now, ks) && kvmap == map[]
                && (AllStorable(old(kvmap)) ==>
                      (Load(file, map[]) == Some(now) <==> key !in was || ValueFits(key, value)))
    {
      now, ks := map[], [];
      fault := FileToItems();
      if fault {
        return;
      }
      ghost var was := kvmap;
      if key in kvmap {
        kvmap := kvmap[key := value];
      }
      ks := Rewrite();
      now := kvmap;
      if AllStorable(old(kvmap)) {
        WriteThenReadExactly(old(file), old(kvmap), was, key, value, now, ks);
      }
      kvmap := map[];
    }
  }

  lemma LoadNext(text: string, m: Items)
    requires text != ""
    ensures var n := LineLength(text, 0);
            var r := ReadLine(text[..n]);
            Load(text, m) == if r.NoEquals? then None else Load(text[n..], Insert(m, r))
  {
  }

  lemma {:induction false} PrintAppend(m: Items, ks: seq<string>, k: string)
    requires k in m && forall i | 0 <= i < |ks| :: ks[i] in m
    ensures Print(m, ks + [k]) == Print(m, ks) + Line(k, m[k])
  {
    if ks == [] {
      assert [k][1..] == [] && ks + [k] == [k];
    } else {
      assert (ks + [k])[1..] == ks[1..] + [k];
      PrintAppend(m, ks[1..], k);
    }
  }

  /** The buffer that fgets filled holds the C string of what it took. */
  lemma LineHasCString(p: string, t: string)
    requires |t| < |p| && p[|t|] == NUL && p[..|t|] == t
    ensures Has(p, CString(t))
  {
    CStringIsPrefix(t);
    CStringStops(t);
    assert p[..|t|][..|CString(t)|] == p[..|CString(t)|];
    assert |CString(t)| < |t| ==> p[..|t|][|CString(t)|] == NUL;
  }
}
