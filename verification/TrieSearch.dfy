/** The linked trie of the connector's my_trie.h: sibling lists, failure links, and the search
    that moves a state along them. A search only reads the nodes, so memory is a sequence of node
    records and a pointer is an index into it; the root is record 0. How a trie is built and
    prepared is not part of this model: `Prepared` is what a prepared trie is. */
module TrieSearch {
  import opened TrieWords

  datatype Link = Null | To(n: nat)

  /** leaf: depth if a word ends here, 0 otherwise; c: label of the edge that leads here. */
  datatype TrieNode = TrieNode(leaf: nat, c: Uchar, next: Link, links: Link, fail: Link)

  const ROOT: nat := 0

  /** What the links mean: each node's path from the root, its parent and its children in order. */
  datatype Layout = Layout(path: seq<Text>, parent: seq<nat>, kids: seq<seq<nat>>)

  datatype Trie = Trie(nodes: seq<TrieNode>, ghost layout: Layout) {
    ghost function Path(n: nat): Text
      requires n < |layout.path|
    {
      layout.path[n]
    }

    ghost function Paths(): set<Text> {
      set p | p in layout.path
    }

    ghost function Words(): set<Text> {
      set n: nat | n < |nodes| && n < |layout.path| && nodes[n].leaf > 0 :: layout.path[n]
    }

    /** The children of n are the sibling list that starts at its `links`. */
    ghost predicate SiblingList(n: nat)
      requires n < |nodes| == |layout.path| == |layout.kids|
    {
      var kids := layout.kids[n];
      && nodes[n].links == (if kids == [] then Null else To(kids[0]))
      && forall i | 0 <= i < |kids| ::
           && kids[i] < |nodes|
           && nodes[kids[i]].next == (if i + 1 < |kids| then To(kids[i + 1]) else Null)
           && layout.path[kids[i]] == layout.path[n] + [nodes[kids[i]].c]
    }

    ghost predicate TreeShape() {
      && 0 < |nodes| == |layout.path| == |layout.parent| == |layout.kids|
      && Path(ROOT) == []
      && (forall n: nat | n < |nodes| :: SiblingList(n))
      && (forall n: nat | n < |nodes| && n != ROOT ::
            layout.parent[n] < |nodes| && n in layout.kids[layout.parent[n]])
      && (forall m: nat, n: nat | m < |nodes| && n < |nodes| && Path(m) == Path(n) :: m == n)
    }

    /** A failure link names the longest proper suffix that is a path. */
    ghost predicate FailLink(n: nat)
      requires n < |nodes| == |layout.path| && Path(n) != []
    {
      && nodes[n].fail.To? && nodes[n].fail.n < |nodes|
      && [] in Paths() && Path(nodes[n].fail.n) == Longest(Paths(), Path(n)[1..])
    }

    ghost predicate Prepared() {
      && TreeShape()
      && (forall n: nat | n < |nodes| && Path(n) != [] :: FailLink(n))
      && (forall n: nat | n < |nodes| :: nodes[n].leaf == 0 || nodes[n].leaf == |Path(n)|)
    }

    lemma ParentOf(m: nat) returns (p: nat)
      requires TreeShape() && m < |nodes| && Path(m) != []
      ensures p < |nodes| && m in layout.kids[p] && Path(m) == Path(p) + [nodes[m].c]
    {
      p := layout.parent[m];
      assert SiblingList(p);
    }

    lemma PathsFormPathSet()
      requires TreeShape()
      ensures PathSet(Paths()) && Words() <= Paths()
    {
      assert Path(ROOT) == [];
      forall w | w in Paths() && w != []
        ensures w[..|w| - 1] in Paths()
      {
        var m :| 0 <= m < |nodes| && layout.path[m] == w;
        var p := ParentOf(m);
        assert layout.path[p] == w[..|w| - 1];
      }
    }

    /** A path one longer than a node's own is one of that node's children. */
    lemma ChildOfPath(n: nat, c: Uchar)
      requires TreeShape() && n < |nodes|
      ensures Path(n) + [c] in Paths() <==> exists k :: k in layout.kids[n] && k < |nodes| && nodes[k].c == c
      ensures SiblingList(n)
    {
      if Path(n) + [c] in Paths() {
        var m :| 0 <= m < |nodes| && layout.path[m] == Path(n) + [c];
        var p := ParentOf(m);
        assert Path(p) == Path(m)[..|Path(n)|] == Path(n);
        assert m in layout.kids[n] && nodes[m].c == c;
      }
      assert SiblingList(n);
      if k :| k in layout.kids[n] && k < |nodes| && nodes[k].c == c {
        assert layout.path[k] == Path(n) + [c];
      }
    }

    /** What trie_goto is to return: the child along c, the root for the root, else null. */
    ghost predicate GoesTo(n: nat, c: Uchar, r: Link)
      requires n < |nodes| == |layout.path|
    {
      if Path(n) + [c] in Paths() then r.To? && r.n < |nodes| && Path(r.n) == Path(n) + [c]
      else r == if n == ROOT then To(ROOT) else Null
    }

    method Goto(n: nat, c: Uchar) returns (r: Link)
      requires TreeShape() && n < |nodes|
      ensures GoesTo(n, c, r)
    {
      r := Child(n, c);
      if r.Null? && n == ROOT {
        r := To(ROOT);
      }
    }

    method Child(n: nat, c: Uchar) returns (r: Link)
      requires TreeShape() && n < |nodes|
      ensures Path(n) + [c] in Paths() <==> r.To?
      ensures r.To? ==> r.n < |nodes| && Path(r.n) == Path(n) + [c]
    {
      ChildOfPath(n, c);
      r := Sibling(n, c);
    }

    /** The loop over one sibling list, shared by trie_goto and trie_search. */
    method Sibling(n: nat, c: Uchar) returns (r: Link)
      requires n < |nodes| == |layout.path| == |layout.kids| && SiblingList(n)
      ensures r.Null? ==> forall k | k in layout.kids[n] :: nodes[k].c != c
      ensures r.To? ==> r.n in layout.kids[n] && nodes[r.n].c == c
    {
      r := nodes[n].links;
      ghost var i := 0;
      ghost var kids := layout.kids[n];
      while r.To? && nodes[r.n].c != c
        invariant 0 <= i <= |kids|
        invariant r == if i < |kids| then To(kids[i]) else Null
        invariant forall j | 0 <= j < i :: nodes[kids[j]].c != c
        decreases |kids| - i
      {
        assert nodes[kids[i]].next == if i + 1 < |kids| then To(kids[i + 1]) else Null;
        r := nodes[r.n].next;
        i := i + 1;
      }
    }
  }

  /** A search in progress: ac_trie_init starts it at the root, ac_trie_next moves it. */
  class AcTrieState {
    const trie: Trie
    var node: nat

    ghost predicate Valid()
      reads this
    {
      trie.Prepared() && node < |trie.nodes|
    }

    constructor (trie: Trie)
      requires trie.Prepared()
      ensures this.trie == trie && node == ROOT && Valid()
    {
      this.trie, this.node := trie, ROOT;
    }

    /** One character: the state moves to the longest suffix that is a path. */
    method Next(c: Uchar) returns (matched: nat)
      requires Valid()
      modifies this
      ensures Valid() && [] in trie.Paths()
      ensures trie.Path(node) == Longest(trie.Paths(), old(trie.Path(node)) + [c])
      ensures matched == trie.nodes[node].leaf
    {
      trie.PathsFormPathSet();
      node := Follow(trie, node, c);
      matched := trie.nodes[node].leaf;
    }

    /** A whole text from the root: after each prefix the search has reported that prefix's match. */
    method Feed(text: Text) returns (matched: seq<nat>)
      requires Valid() && node == ROOT
      modifies this
      ensures Valid() && PathSet(trie.Paths())
      ensures trie.Path(node) == Longest(trie.Paths(), text)
      ensures matched == Reports(trie.Paths(), trie.Words(), text)
    {
      trie.PathsFormPathSet();
      matched := [];
      assert text[..0] == [];
      for i := 0 to |text|
        invariant Valid()
        invariant trie.Path(node) == Longest(trie.Paths(), text[..i])
        invariant matched == Reports(trie.Paths(), trie.Words(), text[..i])
      {
        var m := Next(text[i]);
        FedState(trie.Paths(), text, i);
        LeafIsReport(trie, node, text[..i + 1]);
        ReportsExtend(trie.Paths(), trie.Words(), text, i);
        matched := matched + [m];
      }
      assert text[..|text|] == text;
    }
  }

  lemma FedState(paths: set<Text>, text: Text, i: nat)
    requires PathSet(paths) && i < |text|
    ensures Longest(paths, Longest(paths, text[..i]) + [text[i]]) == Longest(paths, text[..i + 1])
  {
    assert text[..i + 1] == text[..i] + [text[i]];
    LongestStep(paths, text[..i], text[i], text[..i + 1]);
  }

  lemma ReportsExtend(paths: set<Text>, words: set<Text>, text: Text, i: nat)
    requires [] in paths && i < |text|
    ensures Reports(paths, words, text[..i + 1])
         == Reports(paths, words, text[..i]) + [Reported(paths, words, text[..i + 1])]
  {
    assert text[..i + 1][..i] == text[..i];
  }

  /** Where the character c should lead from node `at`. */
  ghost function Aim(t: Trie, at: nat, c: Uchar): Text
    requires t.TreeShape() && at < |t.nodes|
  {
    t.PathsFormPathSet();
    Longest(t.Paths(), t.Path(at) + [c])
  }

  /** The fail loop of ac_trie_next; it ends because each link shortens the path. */
  method Follow(t: Trie, node: nat, c: Uchar) returns (r: nat)
    requires t.Prepared() && node < |t.nodes|
    ensures r < |t.nodes| && t.Path(r) == Aim(t, node, c)
  {
    var at: nat := node;
    var to := t.Goto(at, c);
    while to.Null?
      invariant at < |t.nodes| && t.GoesTo(at, c, to) && Aim(t, at, c) == Aim(t, node, c)
      decreases |t.Path(at)|
    {
      at, to := Retry(t, at, c);
    }
    r := to.n;
  }

  method Retry(t: Trie, at: nat, c: Uchar) returns (fail: nat, to: Link)
    requires t.Prepared() && at < |t.nodes| && t.Path(at) != []
    ensures fail < |t.nodes| && |t.Path(fail)| < |t.Path(at)| && t.GoesTo(fail, c, to)
    ensures t.GoesTo(at, c, Null) ==> Aim(t, fail, c) == Aim(t, at, c)
  {
    FailShortens(t, at, c);
    fail := t.nodes[at].fail.n;
    to := t.Goto(fail, c);
  }

  lemma FailShortens(t: Trie, at: nat, c: Uchar)
    requires t.Prepared() && at < |t.nodes| && t.Path(at) != []
    ensures t.nodes[at].fail.To? && t.nodes[at].fail.n < |t.nodes|
    ensures |t.Path(t.nodes[at].fail.n)| < |t.Path(at)|
    ensures t.GoesTo(at, c, Null) ==> Aim(t, t.nodes[at].fail.n, c) == Aim(t, at, c)
  {
    t.PathsFormPathSet();
    assert t.FailLink(at);
    if t.Path(at) + [c] !in t.Paths() {
      LongestFail(t.Paths(), t.Path(at), c);
    }
  }

  lemma LeafIsReport(t: Trie, n: nat, text: Text)
    requires t.Prepared() && n < |t.nodes| && [] in t.Paths()
    ensures t.Path(n) == Longest(t.Paths(), text) ==> t.nodes[n].leaf == Reported(t.Paths(), t.Words(), text)
  {
    if t.Path(n) in t.Words() {
      var m: nat :| m < |t.nodes| && t.nodes[m].leaf > 0 && t.layout.path[m] == t.Path(n);
      assert t.Path(m) == t.Path(n);
    }
  }

  /** A nonzero return is the length of a stored word that ends the text read so far. */
  lemma ReturnIsStoredWord(t: Trie, n: nat, text: Text)
    requires t.Prepared() && n < |t.nodes| && [] in t.Paths()
    ensures t.Path(n) == Longest(t.Paths(), text) && t.nodes[n].leaf > 0 ==>
              t.nodes[n].leaf <= |text| && text[|text| - t.nodes[n].leaf..] in t.Words()
  {
    assert t.nodes[n].leaf > 0 ==> t.layout.path[n] in t.Words();
  }

  /** trie_search: exact lookup of a non-empty key. */
  method Search(t: Trie, key: Text) returns (found: bool)
    requires t.TreeShape() && key != []
    ensures found <==> key in t.Words()
  {
    var node: nat := ROOT;
    for k := 0 to |key|
      invariant node < |t.nodes| && t.Path(node) == key[..k]
    {
      assert key[..k] + [key[k]] == key[..k + 1];
      var next := t.Child(node, key[k]);
      if next.Null? {
        PrefixMissing(t, key, k);
        return false;
      }
      node := next.n;
    }
    assert key[..|key|] == key;
    found := t.nodes[node].leaf > 0;
    WordAt(t, node);
  }

  lemma WordAt(t: Trie, n: nat)
    requires t.TreeShape() && n < |t.nodes|
    ensures t.Path(n) in t.Words() <==> t.nodes[n].leaf > 0
  {
    if t.Path(n) in t.Words() {
      var m: nat :| m < |t.nodes| && t.nodes[m].leaf > 0 && t.layout.path[m] == t.Path(n);
      assert t.Path(m) == t.Path(n);
    }
    assert t.nodes[n].leaf > 0 ==> t.layout.path[n] in t.Words();
  }

  lemma PrefixMissing(t: Trie, key: Text, k: nat)
    requires t.TreeShape() && k < |key| && key[..k + 1] !in t.Paths()
    ensures key !in t.Words()
  {
    t.PathsFormPathSet();
    PrefixOfPath(t.Paths(), key, k + 1);
  }

  lemma {:induction false} PrefixOfPath(paths: set<Text>, p: Text, k: nat)
    requires PathSet(paths) && k <= |p|
    ensures p in paths ==> p[..k] in paths
    decreases |p| - k
  {
    if k == |p| {
      assert p[..k] == p;
    } else {
      PrefixOfPath(paths, p, k + 1);
      if p in paths {
        assert p[..k + 1][..k] == p[..k];
      }
    }
  }
}
