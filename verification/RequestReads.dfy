/** What the server reads from a printed request, exactly: for every order of the pairs, every tail,
    every text carried over from an earlier request, and whatever stands behind the text. */
module RequestReads {
  import opened CStrings
  import opened RequestText
  import opened RequestChunks
  import opened RequestPrint

  /** Carried-over text: none, or a text that starts with the keyword. */
  ghost predicate Stale(u: string) {
    u == "" || MatchAt(u, 0, "navto")
  }

  /** Where the carried-over text has this key behind its keyword; its length if it has not. */
  function KeyIn(u: string, tag: Tag): (r: nat)
    ensures r <= |u|
  {
    if |u| < 6 then |u| else First(u, Key(tag), 6, |u|)
  }

  ghost predicate AllKeys(order: seq<Tag>) {
    Serial in order && Md5 in order && X in order && Y in order
  }

  // ---------------------------------------------------------------- where a key is found

  lemma Mismatch(t: string, at: nat, kw: string, k: nat)
    requires k < |kw| && at + k < |t| && !Same(t[at + k], kw[k])
    ensures !MatchAt(t, at, kw)
  {
  }

  /** No letter of the keyword starts a key, and the first one is in none. */
  lemma NavIsForeign(sp: Spelling, tag: Tag, k: nat, j: nat)
    requires k < |Key(tag)| && j < 6 && (k == 0 || j == 0)
    ensures |sp.nav| == 5 && !Same((sp.nav + "?")[j], Key(tag)[k])
  {
    SpelledNav(sp);
    if j < 5 {
      NavDiffers(tag, k, j);
      KeyIsLower(tag, k);
      SameIsLower(sp.nav[j], Key(tag)[k]);
    }
  }

  lemma NavDiffers(tag: Tag, k: nat, j: nat)
    requires k < |Key(tag)| && j < 5 && (k == 0 || j == 0)
    ensures "navto"[j] != Key(tag)[k]
  {
  }

  /** No key reaches from the carried-over text into the keyword behind it, or starts inside that. */
  lemma MatchInStale(u: string, sp: Spelling, rest: string, tag: Tag, t: string, at: nat)
    requires t == u + (sp.nav + "?" + rest) && at < |u| + 6
    ensures MatchAt(t, at, Key(tag)) <==> MatchAt(u, at, Key(tag))
  {
    var kw := Key(tag);
    if at + |kw| <= |u| {
      assert forall j | 0 <= j < |u| :: t[j] == u[j];
    } else if at < |u| {
      NavIsForeign(sp, tag, |u| - at, 0);
      assert t[|u|] == (sp.nav + "?")[0];
      Mismatch(t, at, kw, |u| - at);
    } else {
      NavIsForeign(sp, tag, 0, at - |u|);
      assert t[at] == (sp.nav + "?")[at - |u|];
      Mismatch(t, at, kw, 0);
    }
  }

  lemma StaleKeyFound(u: string, sp: Spelling, rest: string, tag: Tag, t: string)
    requires t == u + (sp.nav + "?" + rest) && KeyIn(u, tag) < |u|
    ensures First(t, Key(tag), 6, |t|) == KeyIn(u, tag)
  {
    var a := KeyIn(u, tag);
    FirstIsFirst(u, Key(tag), 6, |u|);
    forall at: nat | 6 <= at < a
      ensures !MatchAt(t, at, Key(tag))
    {
      MatchInStale(u, sp, rest, tag, t, at);
    }
    MatchInStale(u, sp, rest, tag, t, a);
    FirstUnique(t, Key(tag), 6, |t|, a);
  }

  lemma StaleKeySkipped(u: string, sp: Spelling, rest: string, tag: Tag, t: string)
    requires t == u + (sp.nav + "?" + rest) && KeyIn(u, tag) == |u|
    ensures First(t, Key(tag), 6, |t|) == First(t, Key(tag), |u| + 6, |t|)
  {
    forall at: nat | 6 <= at < |u| + 6
      ensures !MatchAt(t, at, Key(tag))
    {
      MatchInStale(u, sp, rest, tag, t, at);
      if |u| >= 6 {
        FirstIsFirst(u, Key(tag), 6, |u|);
      }
    }
    FirstSkips(t, Key(tag), 6, |u| + 6);
  }

  /** The message a connection parses: carried-over text and a printed request. */
  ghost predicate Message(t: string, u: string, sp: Spelling, order: seq<Tag>, f: Fields, tail: string) {
    Stale(u) && AllKeys(order) && Printable(f) && t == u + Printed(sp, order, f, tail)
  }

  /** Where the value of a tag is read. */
  function ValueAt(t: string, tag: Tag): nat
    requires |t| >= 6
  {
    First(t, Key(tag), 6, |t|) + |Key(tag)| + 1
  }

  /** A key that the carried-over text has is found there. */
  lemma StaleValue(t: string, u: string, sp: Spelling, order: seq<Tag>, f: Fields, tail: string, tag: Tag)
    requires Message(t, u, sp, order, f, tail) && KeyIn(u, tag) < |u|
    ensures |t| >= 6 && ValueAt(t, tag) == KeyIn(u, tag) + |Key(tag)| + 1 <= |u| + 1
  {
    StaleKeyFound(u, sp, Pairs(sp, order, f, tail), tag, t);
    FirstIsFirst(u, Key(tag), 6, |u|);
  }

  /** A key that it has not is found at its own pair. */
  lemma OwnKey(t: string, u: string, sp: Spelling, order: seq<Tag>, f: Fields, tail: string, tag: Tag)
    requires Message(t, u, sp, order, f, tail) && tag in order && KeyIn(u, tag) == |u|
    ensures |t| >= 6 && Found(t, 6, tag, sp, f, tail, Closed(order, tail, tag))
  {
    StaleKeySkipped(u, sp, Pairs(sp, order, f, tail), tag, t);
    SpelledNav(sp);
    assert t == u + (sp.nav + "?") + Pairs(sp, order, f, tail);
    KeyFound(u + (sp.nav + "?"), sp, order, f, tail, tag, t);
  }

  lemma OwnValue(t: string, u: string, sp: Spelling, order: seq<Tag>, f: Fields, tail: string, tag: Tag)
    requires Message(t, u, sp, order, f, tail) && tag in order && KeyIn(u, tag) == |u|
    ensures |t| >= 6 && Placed(t, ValueAt(t, tag), Value(tag, f), tail, Closed(order, tail, tag))
  {
    OwnKey(t, u, sp, order, f, tail, tag);
    FoundValue(t, tag, sp, f, tail, Closed(order, tail, tag));
  }

  lemma FoundValue(t: string, tag: Tag, sp: Spelling, f: Fields, tail: string, closed: bool)
    requires |t| >= 6 && Found(t, 6, tag, sp, f, tail, closed)
    ensures Placed(t, ValueAt(t, tag), Value(tag, f), tail, closed)
  {
    ValuePlaced(t, First(t, Key(tag), 6, |t|), tag, sp, f, tail, closed);
  }

  // ---------------------------------------------------------------- serial and md5

  lemma PrintedLong(sp: Spelling, order: seq<Tag>, f: Fields, tail: string)
    requires Printable(f) && AllKeys(order)
    ensures |Printed(sp, order, f, tail)| >= 42
  {
    SpelledNav(sp);
    KeyFound(sp.nav + "?", sp, order, f, tail, Md5, Printed(sp, order, f, tail));
  }

  lemma MessageChars(t: string, u: string, sp: Spelling, order: seq<Tag>, f: Fields, tail: string)
    requires Message(t, u, sp, order, f, tail)
    ensures |t| >= |u| + 42 && LowerChar(t[|u|]) == 'n' && LowerChar(t[|u| + 2]) == 'v' && t[..|u|] == u
  {
    PrintedLong(sp, order, f, tail);
    var q := Printed(sp, order, f, tail);
    SpelledNav(sp);
    assert t[|u|] == q[0] == sp.nav[0] && t[|u| + 2] == q[2] == sp.nav[2];
  }

  /** A value of fixed length is read as printed when the carried-over text does not have its key, or
      has the very same value. */
  ghost predicate FixedOwn(u: string, tag: Tag, f: Fields) {
    KeyIn(u, tag) == |u| || Stands(u, KeyIn(u, tag) + |Key(tag)| + 1, Value(tag, f))
  }

  /** A value cannot reach into the keyword behind the carried-over text. */
  lemma StandsInStale(t: string, u: string, b: nat, v: string)
    requires |t| >= |u| + 42 && LowerChar(t[|u|]) == 'n' && LowerChar(t[|u| + 2]) == 'v' && t[..|u|] == u
    requires AllPlain(v) && 3 <= |v| && b <= |u| + 1
    ensures Stands(t, b, v) <==> Stands(u, b, v)
  {
    assert forall j | 0 <= j < |u| :: t[j] == u[j];
    if b + |v| > |u| {
      var k := if b <= |u| then |u| - b else |u| + 2 - b;
      assert Plain(v[k]) && t[b + k] != v[k];
    }
  }

  lemma FixedStands(t: string, u: string, sp: Spelling, order: seq<Tag>, f: Fields, tail: string, tag: Tag)
    requires Message(t, u, sp, order, f, tail) && (tag == Serial || tag == Md5)
    ensures |t| >= 6 && ValueAt(t, tag) + |Value(tag, f)| <= |t|
    ensures Stands(t, ValueAt(t, tag), Value(tag, f)) <==> FixedOwn(u, tag, f)
  {
    if KeyIn(u, tag) == |u| {
      OwnValue(t, u, sp, order, f, tail, tag);
    } else {
      StaleFixedStands(t, u, sp, order, f, tail, tag);
    }
  }

  lemma StaleFixedStands(t: string, u: string, sp: Spelling, order: seq<Tag>, f: Fields, tail: string, tag: Tag)
    requires Message(t, u, sp, order, f, tail) && (tag == Serial || tag == Md5) && KeyIn(u, tag) < |u|
    ensures |t| >= 6 && ValueAt(t, tag) + |Value(tag, f)| <= |t|
    ensures Stands(t, ValueAt(t, tag), Value(tag, f))
            <==> Stands(u, KeyIn(u, tag) + |Key(tag)| + 1, Value(tag, f))
  {
    StaleValue(t, u, sp, order, f, tail, tag);
    var v := Value(tag, f);
    assert 3 <= |v| <= MD5_LEN && AllPlain(v);
    MessageChars(t, u, sp, order, f, tail);
    StandsInStale(t, u, ValueAt(t, tag), v);
  }

  lemma PlainIsCString(v: string)
    requires AllPlain(v)
    ensures Without(v, NUL) && CString(v) == v
  {
    CStringOfPlain(v);
  }

  lemma HeldIs(t: string, b: nat, v: string)
    requires b + |v| <= |t| && AllPlain(v)
    ensures Held(t, b, |v|) == v <==> Stands(t, b, v)
  {
    PlainIsCString(v);
    CStringFull(Slice(t, b, |v|), v);
  }

  lemma FixedRead(t: string, u: string, sp: Spelling, order: seq<Tag>, f: Fields, tail: string, tag: Tag)
    requires Message(t, u, sp, order, f, tail) && (tag == Serial || tag == Md5)
    ensures |t| >= 6 && ValueAt(t, tag) + |Value(tag, f)| <= |t|
    ensures Held(t, ValueAt(t, tag), |Value(tag, f)|) == Value(tag, f) <==> FixedOwn(u, tag, f)
  {
    FixedStands(t, u, sp, order, f, tail, tag);
    HeldIs(t, ValueAt(t, tag), Value(tag, f));
  }

  // ---------------------------------------------------------------- coordinates

  /** Eleven characters without a space or an ampersand, and one more character in the buffer. */
  ghost predicate NoEnd(p: string, b: nat) {
    b + GPS_LEN < |p| && forall j | b <= j < b + GPS_LEN :: !Ends(p[j])
  }

  lemma {:induction false} FullLength(p: string, b: nat, k: nat)
    requires k <= GPS_LEN
    ensures CoordLength(p, b, k) == GPS_LEN <==> b + GPS_LEN < |p| && forall j | b + k <= j < b + GPS_LEN :: !Ends(p[j])
    decreases GPS_LEN - k
  {
    if b + k < |p| && k < GPS_LEN && !Ends(p[b + k]) {
      FullLength(p, b, k + 1);
    }
  }

  lemma {:induction false} LengthTo(p: string, b: nat, n: nat, k: nat)
    requires k <= n < GPS_LEN && b + n < |p| && forall j | b + k <= j < b + n :: !Ends(p[j])
    ensures CoordLength(p, b, k) == n <==> Ends(p[b + n])
    decreases n - k
  {
    if k < n {
      LengthTo(p, b, n, k + 1);
    }
  }

  /** A space or an ampersand among the next eleven characters of the buffer. */
  ghost predicate EndComes(p: string, b: nat) {
    exists j :: b <= j < b + GPS_LEN && j < |p| && Ends(p[j])
  }

  lemma {:induction false} EndFound(p: string, b: nat, k: nat)
    requires k <= GPS_LEN
    ensures CoordLength(p, b, k) < GPS_LEN <==> exists j :: b + k <= j < b + GPS_LEN && j < |p| && Ends(p[j])
    decreases GPS_LEN - k
  {
    if b + k < |p| && k < GPS_LEN && !Ends(p[b + k]) {
      EndFound(p, b, k + 1);
    }
  }

  /** What the coordinate at b is read as, if anything: the C string up to its end, or else the old value. */
  ghost predicate Reads(p: string, b: nat, was: string, v: string) {
    CoordLength(p, b, 0) != PAST && Coord(p, b, was) == v
  }

  /** A coordinate that stands in the text and is ended there. */
  lemma EndedReads(p: string, b: nat, was: string, v: string)
    requires Stands(p, b, v) && AllPlain(v) && |v| < GPS_LEN && EndsAt(p, b + |v|)
    ensures Reads(p, b, was, v)
  {
    assert forall j | b <= j < b + |v| :: p[j] == v[j - b];
    LengthTo(p, b, |v|, 0);
    HeldIs(p, b, v);
  }

  /** What is copied beyond v is cut off again only by a terminator right behind v. */
  lemma LongHeld(p: string, b: nat, v: string, n: nat)
    requires Stands(p, b, v) && AllPlain(v) && |v| < n && b + n <= |p|
    ensures Held(p, b, n) == v <==> p[b + |v|] == NUL
  {
    var s := Slice(p, b, n);
    PlainIsCString(v);
    assert s[|v|] == p[b + |v|];
    assert forall k | 0 <= k < |v| :: s[k] == p[b + k];
    assert s[..|v|] == v;
    CStringCut(s, v);
  }

  lemma {:induction false} LengthAtLeast(p: string, b: nat, n: nat, k: nat)
    requires k <= n <= GPS_LEN && b + n <= |p| && forall j | b + k <= j < b + n :: !Ends(p[j])
    ensures CoordLength(p, b, k) >= n
    decreases n - k
  {
    if k < n {
      LengthAtLeast(p, b, n, k + 1);
    }
  }

  /** A coordinate that is not ended right behind it: when an end comes in time, what is stored is too
      long unless a terminator stands between; when none comes, the old value stays. */
  lemma OpenReads(p: string, b: nat, was: string, v: string)
    requires Stands(p, b, v) && AllPlain(v) && |v| < GPS_LEN && b + |v| < |p| && !Ends(p[b + |v|])
    ensures Reads(p, b, was, v) <==> (EndComes(p, b) && p[b + |v|] == NUL) || (NoEnd(p, b) && was == v)
  {
    var n := CoordLength(p, b, 0);
    FullLength(p, b, 0);
    EndFound(p, b, 0);
    assert forall j | b <= j < b + |v| :: p[j] == v[j - b];
    LengthAtLeast(p, b, |v| + 1, 0);
    if n < GPS_LEN {
      LongHeld(p, b, v, n);
    }
  }

  lemma {:induction false} CoordInPrefix(p: string, u: string, b: nat, k: nat)
    requires |u| <= |p| && p[..|u|] == u && k <= GPS_LEN && CoordLength(u, b, k) != PAST
    ensures CoordLength(p, b, k) == CoordLength(u, b, k)
    decreases GPS_LEN - k
  {
    assert p[..|u|][b + k] == u[b + k];
    if !Ends(u[b + k]) && k < GPS_LEN {
      CoordInPrefix(p, u, b, k + 1);
    }
  }

  /** A coordinate that is not ended inside the text has no end inside it. */
  lemma {:induction false} NotInside(u: string, b: nat, k: nat, j: nat)
    requires k <= GPS_LEN && CoordLength(u, b, k) >= GPS_LEN && b + k <= j < b + GPS_LEN && j < |u|
    ensures !Ends(u[j])
    decreases GPS_LEN - k
  {
    if b + k < j {
      NotInside(u, b, k + 1, j);
    }
  }

  lemma SpelledHasNoEnd(tag: Tag, sp: Spelling, k: nat)
    requires k < |Spelled(tag, sp)|
    ensures !Ends(Spelled(tag, sp)[k])
  {
    SpelledIsKey(tag, sp);
    KeyHasNoEnd(tag, k);
  }

  lemma KeyHasNoEnd(tag: Tag, k: nat)
    requires k < |Key(tag)|
    ensures !Ends(Key(tag)[k])
  {
  }

  lemma PairHasNoEnd(tag: Tag, sp: Spelling, f: Fields)
    requires Printable(f)
    ensures |Pair(tag, sp, f)| >= 7 && forall k | 0 <= k < |Pair(tag, sp, f)| :: !Ends(Pair(tag, sp, f)[k])
  {
    SpelledIsKey(tag, sp);
    var p := Pair(tag, sp, f);
    forall k | 0 <= k < |p|
      ensures !Ends(p[k])
    {
      if k > |Spelled(tag, sp)| {
        assert p[k] == Value(tag, f)[k - |Spelled(tag, sp)| - 1];
        assert Plain(p[k]);
      } else if k < |Spelled(tag, sp)| {
        SpelledHasNoEnd(tag, sp, k);
      }
    }
  }

  lemma PrintedStart(sp: Spelling, order: seq<Tag>, f: Fields, tail: string)
    requires Printable(f) && order != []
    ensures var q := Printed(sp, order, f, tail); |q| >= 13 && forall k | 0 <= k < 13 :: !Ends(q[k])
  {
    var q, p := Printed(sp, order, f, tail), Pair(order[0], sp, f);
    PairHasNoEnd(order[0], sp, f);
    SpelledNav(sp);
    assert forall k | 0 <= k < |p| :: q[6 + k] == p[k];
    forall k | 0 <= k < 13
      ensures !Ends(q[k])
    {
      if k >= 6 {
        assert q[6 + (k - 6)] == p[k - 6];
      } else if k < 5 {
        assert q[k] == sp.nav[k];
      }
    }
  }

  /** A coordinate whose key is carried over and whose value is not ended there finds no end in the
      printed request either. */
  lemma StaleHasNoEnd(t: string, u: string, sp: Spelling, order: seq<Tag>, f: Fields, tail: string, r: string, b: nat)
    requires Message(t, u, sp, order, f, tail) && Begins(r, t) && b <= |u| + 1 && !CoordInside(u, b)
    ensures NoEnd(r, b)
  {
    MessageChars(t, u, sp, order, f, tail);
    PrintedStart(sp, order, f, tail);
    forall j | b <= j < b + GPS_LEN
      ensures !Ends(r[j])
    {
      assert r[j] == t[j];
      if j < |u| {
        assert t[..|u|][j] == u[j];
        NotInside(u, b, 0, j);
      } else {
        assert t[j] == Printed(sp, order, f, tail)[j - |u|];
      }
    }
  }

  /** A carried-over coordinate is read as v when it has v, or is not ended and v is the old value. */
  ghost predicate StaleCoordOwn(u: string, b: nat, was: string, v: string) {
    if CoordInside(u, b) then CoordOf(u, b) == v else was == v
  }

  lemma StaleCoordRead(t: string, u: string, sp: Spelling, order: seq<Tag>, f: Fields, tail: string, r: string, b: nat,
                       was: string, v: string)
    requires Message(t, u, sp, order, f, tail) && Begins(r, t) && b <= |u| + 1
    ensures Reads(r, b, was, v) <==> StaleCoordOwn(u, b, was, v)
  {
    if CoordInside(u, b) {
      CoordInPrefix(r, u, b, 0);
      SliceOfPrefix(r, u, b, CoordLength(u, b, 0));
    } else {
      StaleHasNoEnd(t, u, sp, order, f, tail, r, b);
      FullLength(r, b, 0);
    }
  }

  lemma SliceOfPrefix(p: string, u: string, b: nat, n: nat)
    requires |u| <= |p| && p[..|u|] == u && b + n <= |u|
    ensures Slice(p, b, n) == Slice(u, b, n)
  {
    assert forall j | 0 <= j < |u| :: p[..|u|][j] == p[j];
  }

  /** A value that the tail does not end is still read when the text stops right behind it and an end is
      left over in the buffer, or when no end comes and it is the old value. */
  ghost predicate OpenOwn(r: string, b: nat, tail: string, was: string, v: string) {
    (EndComes(r, b) && (tail == "" || tail[0] == NUL)) || (NoEnd(r, b) && was == v)
  }

  lemma OwnCoordRead(t: string, u: string, sp: Spelling, order: seq<Tag>, f: Fields, tail: string, tag: Tag, r: string,
                     was: string)
    requires Message(t, u, sp, order, f, tail) && (tag == X || tag == Y) && KeyIn(u, tag) == |u| && Begins(r, t)
    ensures |t| >= 6 && ValueAt(t, tag) + |Value(tag, f)| <= |t|
    ensures !Closed(order, tail, tag) ==> ValueAt(t, tag) + |Value(tag, f)| + |tail| == |t|
    ensures Reads(r, ValueAt(t, tag), was, Value(tag, f))
            <==> Closed(order, tail, tag) || OpenOwn(r, ValueAt(t, tag), tail, was, Value(tag, f))
  {
    OwnValue(t, u, sp, order, f, tail, tag);
    PlacedReads(t, ValueAt(t, tag), Value(tag, f), tail, Closed(order, tail, tag), r, was);
  }

  lemma PlacedReads(t: string, b: nat, v: string, tail: string, closed: bool, r: string, was: string)
    requires Placed(t, b, v, tail, closed) && Begins(r, t) && AllPlain(v) && |v| < GPS_LEN
    ensures Reads(r, b, was, v) <==> closed || OpenOwn(r, b, tail, was, v)
  {
    assert forall j | 0 <= j < |t| :: r[j] == t[j];
    assert Stands(r, b, v);
    if closed {
      EndedReads(r, b, was, v);
    } else {
      assert tail != "" ==> t[b + |v|] == t[b + |v|..][0];
      OpenReads(r, b, was, v);
    }
  }

  /** A coordinate is read as printed: its key is carried over and gives the same value; or it is not
      and the value is ended behind its pair; or it is not ended there and read all the same. */
  ghost predicate CoordOwn(t: string, u: string, order: seq<Tag>, f: Fields, tail: string, tag: Tag, r: string,
                           was: string)
    requires tag in order
  {
    var v := Value(tag, f);
    if KeyIn(u, tag) < |u| then StaleCoordOwn(u, KeyIn(u, tag) + |Key(tag)| + 1, was, v)
    else
      || Closed(order, tail, tag)
      || (|v| + |tail| <= |t| && OpenOwn(r, |t| - |tail| - |v|, tail, was, v))
  }

  lemma CoordRead(t: string, u: string, sp: Spelling, order: seq<Tag>, f: Fields, tail: string, tag: Tag, r: string,
                  was: string)
    requires Message(t, u, sp, order, f, tail) && (tag == X || tag == Y) && Begins(r, t)
    ensures |t| >= 6 && First(t, Key(tag), 6, |t|) < |t|
    ensures Reads(r, ValueAt(t, tag), was, Value(tag, f)) <==> CoordOwn(t, u, order, f, tail, tag, r, was)
  {
    if KeyIn(u, tag) < |u| {
      StaleKeyCoordRead(t, u, sp, order, f, tail, tag, r, was);
    } else {
      OwnKeyCoordRead(t, u, sp, order, f, tail, tag, r, was);
    }
  }

  lemma StaleKeyCoordRead(t: string, u: string, sp: Spelling, order: seq<Tag>, f: Fields, tail: string, tag: Tag,
                          r: string, was: string)
    requires Message(t, u, sp, order, f, tail) && (tag == X || tag == Y) && KeyIn(u, tag) < |u| && Begins(r, t)
    ensures |t| >= 6 && First(t, Key(tag), 6, |t|) < |t|
    ensures Reads(r, ValueAt(t, tag), was, Value(tag, f)) <==> CoordOwn(t, u, order, f, tail, tag, r, was)
  {
    StaleValue(t, u, sp, order, f, tail, tag);
    StaleCoordRead(t, u, sp, order, f, tail, r, ValueAt(t, tag), was, Value(tag, f));
    StaleMeans(t, u, order, f, tail, tag, r, was, ValueAt(t, tag));
  }

  lemma StaleMeans(t: string, u: string, order: seq<Tag>, f: Fields, tail: string, tag: Tag, r: string,
                   was: string, b: nat)
    requires tag in order && KeyIn(u, tag) < |u| && b == KeyIn(u, tag) + |Key(tag)| + 1
    ensures CoordOwn(t, u, order, f, tail, tag, r, was) <==> StaleCoordOwn(u, b, was, Value(tag, f))
  {
  }

  lemma OwnKeyCoordRead(t: string, u: string, sp: Spelling, order: seq<Tag>, f: Fields, tail: string, tag: Tag,
                        r: string, was: string)
    requires Message(t, u, sp, order, f, tail) && (tag == X || tag == Y) && KeyIn(u, tag) == |u| && Begins(r, t)
    ensures |t| >= 6 && First(t, Key(tag), 6, |t|) < |t|
    ensures Reads(r, ValueAt(t, tag), was, Value(tag, f)) <==> CoordOwn(t, u, order, f, tail, tag, r, was)
  {
    OwnCoordRead(t, u, sp, order, f, tail, tag, r, was);
    OwnMeans(t, u, order, f, tail, tag, r, was, ValueAt(t, tag));
  }

  lemma OwnMeans(t: string, u: string, order: seq<Tag>, f: Fields, tail: string, tag: Tag, r: string,
                 was: string, b: nat)
    requires tag in order && KeyIn(u, tag) == |u|
    requires !Closed(order, tail, tag) ==> b + |Value(tag, f)| + |tail| == |t|
    ensures CoordOwn(t, u, order, f, tail, tag, r, was)
            <==> Closed(order, tail, tag) || OpenOwn(r, b, tail, was, Value(tag, f))
  {
  }

  // ---------------------------------------------------------------- the whole request

  /** All four values are read as printed. */
  ghost predicate AllOwn(t: string, u: string, order: seq<Tag>, f: Fields, tail: string, r: string, was: Fields)
    requires AllKeys(order)
  {
    && FixedOwn(u, Serial, f) && FixedOwn(u, Md5, f)
    && CoordOwn(t, u, order, f, tail, X, r, was.x) && CoordOwn(t, u, order, f, tail, Y, r, was.y)
  }

  /** The keys are there and the fixed copies stay inside the buffer. */
  ghost predicate Fits(r: string, at: Places, len: nat) {
    && at.s < len && at.m < len && at.x < len && at.y < len
    && at.s + 7 + SERIAL_LEN <= |r| && at.m + 4 + MD5_LEN <= |r|
  }

  lemma FixedInBuffer(t: string, u: string, sp: Spelling, order: seq<Tag>, f: Fields, tail: string, tag: Tag, r: string)
    requires Message(t, u, sp, order, f, tail) && (tag == Serial || tag == Md5) && Begins(r, t)
    ensures |t| >= 6 && First(t, Key(tag), 6, |t|) < |t| && ValueAt(t, tag) + |Value(tag, f)| <= |r|
    ensures Held(r, ValueAt(t, tag), |Value(tag, f)|) == Value(tag, f) <==> FixedOwn(u, tag, f)
  {
    FixedRead(t, u, sp, order, f, tail, tag);
    SliceInText(r, t, ValueAt(t, tag), |Value(tag, f)|);
  }

  /** The places of the four keys, counted to the values behind them. */
  lemma PlacesOfValues(t: string)
    requires |t| >= 6
    ensures var at := Find(t, 6, |t|);
            && at.s + 7 == ValueAt(t, Serial) && at.m + 4 == ValueAt(t, Md5)
            && at.x + 7 == ValueAt(t, X) && at.y + 7 == ValueAt(t, Y)
  {
  }

  lemma PlacesInside(t: string, u: string, sp: Spelling, order: seq<Tag>, f: Fields, tail: string, r: string)
    requires Message(t, u, sp, order, f, tail) && Begins(r, t)
    ensures |t| >= 6 && Fits(r, Find(t, 6, |t|), |t|)
  {
    FixedInBuffer(t, u, sp, order, f, tail, Serial, r);
    FixedInBuffer(t, u, sp, order, f, tail, Md5, r);
    CoordRead(t, u, sp, order, f, tail, X, r, "");
    CoordRead(t, u, sp, order, f, tail, Y, r, "");
  }

  lemma ParseAtPlaces(r: string, t: string, was: Fields)
    requires Begins(r, t) && |t| >= 6
    ensures ParseFields(r, |t|, was) == Extract(r, Find(t, 6, |t|), |t|, was)
  {
    FindInText(r, t);
  }

  /** What is read of a message, in terms of the four places. */
  ghost predicate FourRead(r: string, at: Places, was: Fields, g: Fields)
    requires at.s + 7 + SERIAL_LEN <= |r| && at.m + 4 + MD5_LEN <= |r|
  {
    && Held(r, at.s + 7, SERIAL_LEN) == g.serial && Held(r, at.m + 4, MD5_LEN) == g.md5
    && Reads(r, at.x + 7, was.x, g.x) && Reads(r, at.y + 7, was.y, g.y)
  }

  lemma MessageReads(t: string, u: string, sp: Spelling, order: seq<Tag>, f: Fields, tail: string, r: string,
                     was: Fields, g: Fields)
    requires Message(t, u, sp, order, f, tail) && Begins(r, t)
    ensures |t| >= 6 && Fits(r, Find(t, 6, |t|), |t|)
    ensures ParseFields(r, |t|, was) == Complete(g) <==> FourRead(r, Find(t, 6, |t|), was, g)
  {
    PlacesInside(t, u, sp, order, f, tail, r);
    ParseAtPlaces(r, t, was);
  }

  lemma FourOwn(t: string, u: string, sp: Spelling, order: seq<Tag>, f: Fields, tail: string, r: string, was: Fields)
    requires Message(t, u, sp, order, f, tail) && Begins(r, t)
    ensures |t| >= 6 && Fits(r, Find(t, 6, |t|), |t|)
    ensures FourRead(r, Find(t, 6, |t|), was, f) <==> AllOwn(t, u, order, f, tail, r, was)
  {
    PlacesInside(t, u, sp, order, f, tail, r);
    PlacesOfValues(t);
    FixedInBuffer(t, u, sp, order, f, tail, Serial, r);
    FixedInBuffer(t, u, sp, order, f, tail, Md5, r);
    CoordRead(t, u, sp, order, f, tail, X, r, was.x);
    CoordRead(t, u, sp, order, f, tail, Y, r, was.y);
  }

  /** Whatever is carried over and whatever stands behind the text, a printed request is read back as
      printed exactly when each of its values is. */
  lemma PrintedReadExactly(t: string, u: string, sp: Spelling, order: seq<Tag>, f: Fields, tail: string, r: string,
                           was: Fields)
    requires Message(t, u, sp, order, f, tail) && Begins(r, t)
    ensures |t| >= 6
    ensures ParseFields(r, |t|, was) == Complete(f) <==> AllOwn(t, u, order, f, tail, r, was)
  {
    MessageReads(t, u, sp, order, f, tail, r, was, f);
    FourOwn(t, u, sp, order, f, tail, r, was);
  }
}
