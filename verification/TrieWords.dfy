/** What an Aho-Corasick search computes, said about sets of strings only. */
module TrieWords {
  type Uchar = x: int | 0 <= x < 0x100
  type Text = seq<Uchar>

  ghost predicate Suffix(a: Text, s: Text) {
    |a| <= |s| && s[|s| - |a|..] == a
  }

  /** A trie's paths: the empty one, and with every path its parent. */
  ghost predicate PathSet(paths: set<Text>) {
    && [] in paths
    && forall p | p in paths && p != [] :: p[..|p| - 1] in paths
  }

  /** The longest suffix of s that is a path. */
  ghost function Longest(paths: set<Text>, s: Text): (r: Text)
    requires [] in paths
    ensures r in paths && Suffix(r, s)
  {
    if s in paths then s else Longest(paths, s[1..])
  }

  lemma {:induction false} LongestIsLongest(paths: set<Text>, s: Text, q: Text)
    requires [] in paths && q in paths && Suffix(q, s)
    ensures |q| <= |Longest(paths, s)| && Suffix(q, Longest(paths, s))
  {
    if s !in paths {
      assert |q| < |s|;
      assert s[1..][|s| - 1 - |q|..] == q;
      LongestIsLongest(paths, s[1..], q);
    }
  }

  lemma SuffixExtend(a: Text, s: Text, c: Uchar)
    ensures Suffix(a + [c], s + [c]) <==> Suffix(a, s)
  {
    if |a| <= |s| {
      assert (s + [c])[|s| - |a|..] == s[|s| - |a|..] + [c];
      assert (a + [c])[..|a|] == a;
      assert (s[|s| - |a|..] + [c])[..|a|] == s[|s| - |a|..];
    }
  }

  /** Reading one more character can start from the state reached so far:
      what lies before the longest path suffix is never needed again. */
  lemma LongestStep(paths: set<Text>, s: Text, c: Uchar, t: Text)
    requires PathSet(paths) && t == s + [c]
    ensures Longest(paths, t) == Longest(paths, Longest(paths, s) + [c])
  {
    var r := Longest(paths, s);
    var u := Longest(paths, r + [c]);
    SuffixExtend(r, s, c);
    LongestIsLongest(paths, s + [c], u);
    StateSuffices(paths, s, c);
  }

  lemma StateSuffices(paths: set<Text>, s: Text, c: Uchar)
    requires PathSet(paths)
    ensures |Longest(paths, s + [c])| <= |Longest(paths, Longest(paths, s) + [c])|
  {
    var r, t := Longest(paths, s), Longest(paths, s + [c]);
    if t != [] {
      var p := t[..|t| - 1];
      assert t == p + [c];
      SuffixExtend(p, s, c);
      LongestIsLongest(paths, s, p);
      SuffixExtend(p, r, c);
      LongestIsLongest(paths, r + [c], t);
    }
  }

  /** Following a failure link keeps the answer. */
  lemma LongestFail(paths: set<Text>, w: Text, c: Uchar)
    requires PathSet(paths) && w != [] && w + [c] !in paths
    ensures Longest(paths, w + [c]) == Longest(paths, Longest(paths, w[1..]) + [c])
  {
    assert (w + [c])[1..] == w[1..] + [c];
    LongestStep(paths, w[1..], c, w[1..] + [c]);
  }

  // ---------------------------------------------------------------- reported matches

  /** What ac_trie_next returns once `text` has been fed: the leaf mark of the state. */
  ghost function Reported(paths: set<Text>, words: set<Text>, text: Text): nat
    requires [] in paths
  {
    var r := Longest(paths, text);
    if r in words then |r| else 0
  }

  /** The reports of a whole search, one after each character. */
  ghost function Reports(paths: set<Text>, words: set<Text>, text: Text): (r: seq<nat>)
    requires [] in paths
    ensures |r| == |text|
  {
    if text == [] then []
    else Reports(paths, words, text[..|text| - 1]) + [Reported(paths, words, text)]
  }

  ghost predicate EndsWithWord(words: set<Text>, text: Text) {
    exists w :: w in words && w != [] && Suffix(w, text)
  }

  /** A report is a stored word at the end of the text, and no longer one ends there. */
  lemma ReportIsLongestWord(paths: set<Text>, words: set<Text>, text: Text)
    requires PathSet(paths) && words <= paths
    ensures var n := Reported(paths, words, text);
            n > 0 ==> && n <= |text| && text[|text| - n..] in words
                      && forall w | w in words && Suffix(w, text) :: |w| <= n
  {
    forall w | w in words && Suffix(w, text)
      ensures |w| <= |Longest(paths, text)|
    {
      LongestIsLongest(paths, text, w);
    }
  }

  /** No path that ends with a stored word is itself unmarked. */
  ghost predicate MarksSuffixes(paths: set<Text>, words: set<Text>) {
    forall p | p in paths && EndsWithWord(words, p) :: p in words
  }

  ghost predicate FindsEveryEnd(paths: set<Text>, words: set<Text>)
    requires [] in paths
  {
    forall text: Text :: EndsWithWord(words, text) <==> Reported(paths, words, text) > 0
  }

  /** The automaton reports at every position where a stored word ends exactly when the trie
      marks all paths that end with a word; it never walks the failure chain to look for more. */
  lemma CompleteExactlyWhenMarked(paths: set<Text>, words: set<Text>)
    requires PathSet(paths) && words <= paths
    ensures FindsEveryEnd(paths, words) <==> MarksSuffixes(paths, words)
  {
    if MarksSuffixes(paths, words) {
      forall text: Text
        ensures EndsWithWord(words, text) <==> Reported(paths, words, text) > 0
      {
        MarkedReports(paths, words, text);
      }
    }
    if FindsEveryEnd(paths, words) {
      forall p | p in paths && EndsWithWord(words, p)
        ensures p in words
      {
        assert Reported(paths, words, p) > 0;
        assert Longest(paths, p) == p;
      }
    }
  }

  lemma MarkedReports(paths: set<Text>, words: set<Text>, text: Text)
    requires PathSet(paths) && words <= paths && MarksSuffixes(paths, words)
    ensures EndsWithWord(words, text) <==> Reported(paths, words, text) > 0
  {
    var r := Longest(paths, text);
    if EndsWithWord(words, text) {
      var w :| w in words && w != [] && Suffix(w, text);
      LongestIsLongest(paths, text, w);
      assert EndsWithWord(words, r);
    }
    if r in words && r != [] {
      assert EndsWithWord(words, text);
    }
  }

  /** Words "ab" with the longer path of "xabc": reading "xab" stops at the unmarked path "xab",
      so the "ab" that ends there goes unreported. */
  lemma MissedWordExample()
    ensures var paths: set<Text> := {[], [97], [97, 98], [120], [120, 97], [120, 97, 98], [120, 97, 98, 99]};
            var words: set<Text> := {[97, 98], [120, 97, 98, 99]};
            && PathSet(paths) && words <= paths
            && EndsWithWord(words, [120, 97, 98]) && Reported(paths, words, [120, 97, 98]) == 0
  {
    var paths: set<Text> := {[], [97], [97, 98], [120], [120, 97], [120, 97, 98], [120, 97, 98, 99]};
    var words: set<Text> := {[97, 98], [120, 97, 98, 99]};
    var text: Text := [120, 97, 98];
    assert text in paths;
    assert text !in words by {
      assert |text| == 3;
    }
    assert Suffix([97, 98], text);
    forall p | p in paths && p != []
      ensures p[..|p| - 1] in paths
    {
      if |p| == 3 {
        assert p[..2] == [120, 97];
      } else if |p| == 4 {
        assert p[..3] == text;
      } else if |p| == 2 {
        assert p[..1] == [120] || p[..1] == [97];
      } else {
        assert p[..0] == [];
      }
    }
  }
}
