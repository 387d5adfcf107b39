/** Print a request, send it, receive it: when the connection holds the printed values afterwards. */
module RequestTrips {
  import opened CStrings
  import opened RequestText
  import opened RequestChunks
  import opened RequestFeeds
  import opened RequestPrint
  import opened RequestReads

  lemma AfterServes(c: Conn, p: string, r: Parsed, f: Fields)
    requires !r.NoKeyword? && !r.Partial?
    ensures Served(After(c, p, r), f, c.notified) <==> r == Complete(f)
  {
  }

  lemma ParsePrintedExactly(d: Conn, p: string, t: string, r: string, w: string, sp: Spelling, order: seq<Tag>,
                            f: Fields, tail: string)
    requires Message(t, w, sp, order, f, tail) && Begins(r, t)
    ensures |t| >= 6
    ensures Served(After(d, p, ParseFields(r, |t|, d.fields)), f, d.notified)
            <==> AllOwn(t, w, order, f, tail, r, d.fields)
  {
    PrintedReadExactly(t, w, sp, order, f, tail, r, d.fields);
    AfterServes(d, p, ParseFields(r, |t|, d.fields), f);
  }

  /** One receive that completes a printed request, behind text w of earlier requests. */
  lemma ReceivePrintedExactly(d: Conn, u: string, chunk: string, w: string, sp: Spelling, order: seq<Tag>, f: Fields,
                              tail: string)
    requires Carrying(d, u) && |u + chunk| <= MAXBUF && KeywordIn(u + chunk) + MIN_TEXT <= |u + chunk|
    requires Message(TextFrom(u, chunk), w, sp, order, f, tail)
    ensures Served(Receive(d, chunk), f, d.notified)
            <==> AllOwn(TextFrom(u, chunk), w, order, f, tail, BufferFrom(d, u, chunk), d.fields)
  {
    ChunkParsed(d, u, chunk);
    ParsePrintedExactly(d, Filled(d, chunk), TextFrom(u, chunk), BufferFrom(d, u, chunk), w, sp, order, f, tail);
  }

  /** A printed request in any text and any chunks, every order and every tail: the connection holds
      the printed values afterwards exactly when its last receive finds each of them. */
  lemma PrintThenReceive(c: Conn, junk: seq<string>, first: string, rest: seq<string>, text: string, sp: Spelling,
                         order: seq<Tag>, f: Fields, tail: string) returns (d: Conn, u: string, chunk: string)
    requires InChunks(c, junk, first, rest, text) && Message(text[KeywordIn(text)..], "", sp, order, f, tail)
    ensures LastReceive(c, junk + [first] + rest, text[KeywordIn(text)..], d, u, chunk)
    ensures Served(Feed(c, junk + [first] + rest), f, c.notified)
            <==> AllOwn(text[KeywordIn(text)..], "", order, f, tail, BufferFrom(d, u, chunk), c.fields)
  {
    d, u, chunk := ChunksUntilLast(c, junk, first, rest, text);
    ReceivePrintedExactly(d, u, chunk, "", sp, order, f, tail);
  }

  /** The same behind text that the connection still carries. */
  lemma PrintBehindCarried(c: Conn, w: string, pieces: seq<string>, sp: Spelling, order: seq<Tag>, f: Fields,
                           tail: string)
      returns (d: Conn, u: string, chunk: string)
    requires Carrying(c, w) && MatchAt(w, 0, "navto") && LastCompletes(w, pieces)
    requires Message(w + Concat(pieces), w, sp, order, f, tail)
    ensures LastReceive(c, pieces, w + Concat(pieces), d, u, chunk)
    ensures Served(Feed(c, pieces), f, c.notified)
            <==> AllOwn(w + Concat(pieces), w, order, f, tail, BufferFrom(d, u, chunk), c.fields)
  {
    d, u, chunk := PiecesUntilLast(c, w, pieces);
    ReceivePrintedExactly(d, u, chunk, w, sp, order, f, tail);
  }

  // ---------------------------------------------------------------- requests that are always read

  ghost predicate NoKeysIn(w: string) {
    KeyIn(w, Serial) == KeyIn(w, Md5) == KeyIn(w, X) == KeyIn(w, Y) == |w|
  }

  /** Both coordinates are ended by what follows them. */
  ghost predicate BothClosed(order: seq<Tag>, tail: string)
    requires AllKeys(order)
  {
    Closed(order, tail, X) && Closed(order, tail, Y)
  }

  lemma OwnWhenClosed(t: string, w: string, order: seq<Tag>, f: Fields, tail: string, r: string, was: Fields)
    requires AllKeys(order) && NoKeysIn(w) && BothClosed(order, tail)
    ensures AllOwn(t, w, order, f, tail, r, was)
  {
  }

  /** With both coordinates ended, in any chunks. */
  lemma ClosedRequestIsServed(c: Conn, junk: seq<string>, first: string, rest: seq<string>, text: string,
                              sp: Spelling, order: seq<Tag>, f: Fields, tail: string)
    requires InChunks(c, junk, first, rest, text) && Message(text[KeywordIn(text)..], "", sp, order, f, tail)
    requires BothClosed(order, tail)
    ensures Served(Feed(c, junk + [first] + rest), f, c.notified)
  {
    var d, u, chunk := PrintThenReceive(c, junk, first, rest, text, sp, order, f, tail);
    OwnWhenClosed(text[KeywordIn(text)..], "", order, f, tail, BufferFrom(d, u, chunk), c.fields);
  }

  /** And behind carried-over text that has none of the keys. */
  lemma ClosedRequestBehindCarried(c: Conn, w: string, pieces: seq<string>, sp: Spelling, order: seq<Tag>, f: Fields,
                                   tail: string)
    requires Carrying(c, w) && MatchAt(w, 0, "navto") && LastCompletes(w, pieces)
    requires Message(w + Concat(pieces), w, sp, order, f, tail) && NoKeysIn(w) && BothClosed(order, tail)
    ensures Served(Feed(c, pieces), f, c.notified)
  {
    var d, u, chunk := PrintBehindCarried(c, w, pieces, sp, order, f, tail);
    OwnWhenClosed(w + Concat(pieces), w, order, f, tail, BufferFrom(d, u, chunk), c.fields);
  }

  // ---------------------------------------------------------------- the end of the text

  lemma {:induction false} ClosedExactly(order: seq<Tag>, tail: string, tag: Tag)
    requires tag in order
    ensures Closed(order, tail, tag) <==> tag in order[..|order| - 1] || EndsText(tail)
  {
    if order[0] != tag {
      ClosedExactly(order[1..], tail, tag);
      var init, rest := order[..|order| - 1], order[1..];
      assert init == [order[0]] + rest[..|rest| - 1];
    } else if |order| > 1 {
      assert order[..|order| - 1][0] == tag;
    }
  }

  /** The four pairs once each: a coordinate is ended unless it is last and the tail does not end it. */
  lemma ClosedUnlessLast(order: seq<Tag>, tail: string, tag: Tag)
    requires |order| == 4 && AllKeys(order)
    ensures tag in order && (Closed(order, tail, tag) <==> order[3] != tag || EndsText(tail))
  {
    assert order == [order[0], order[1], order[2], order[3]];
    assert order[..3] == [order[0], order[1], order[2]];
    assert tag == Serial || tag == Md5 || tag == X || tag == Y;
    ClosedExactly(order, tail, tag);
  }

  /** The buffer of an idle connection still has a space or an ampersand behind the text t and its
      terminator, within eleven characters of the value v that t ends with. */
  ghost predicate LeftOverEnd(c: Conn, t: string, v: string) {
    exists j :: |t| < j < |t| - |v| + GPS_LEN && j < |c.buf| && Ends(c.buf[j])
  }

  lemma LeftOverDecides(c: Conn, t: string, v: string)
    requires Carrying(c, "") && |v| <= |t| <= MAXBUF && |v| < GPS_LEN && Stands(t, |t| - |v|, v) && AllPlain(v)
    ensures EndComes(Filled(c, t), |t| - |v|) <==> LeftOverEnd(c, t, v)
    ensures NoEnd(Filled(c, t), |t| - |v|) <==> |t| - |v| + GPS_LEN <= MAXBUF && !LeftOverEnd(c, t, v)
  {
    var r, b := Filled(c, t), |t| - |v|;
    assert forall j | b <= j < |t| :: r[j] == t[b + (j - b)] == v[j - b];
    assert forall j | |t| < j < |r| :: r[j] == c.buf[j];
    if j :| b <= j < b + GPS_LEN && j < |r| && Ends(r[j]) {
      assert j > |t| && Ends(c.buf[j]);
    }
  }

  lemma BufferOfWhole(c: Conn, t: string, sp: Spelling, order: seq<Tag>, f: Fields)
    requires Carrying(c, "") && |t| <= MAXBUF && t == Printed(sp, order, f, "")
    ensures |"" + t| <= MAXBUF && BufferFrom(c, "", t) == Filled(c, t)
  {
    WholeText(t, sp, order, f, "");
    assert Filled(c, t)[0..] == Filled(c, t);
  }

  /** What decides about the last pair when nothing follows it: an end that is left over in the buffer,
      or else the old value, unless the loop runs out of the buffer. */
  ghost predicate LastOwn(c: Conn, t: string, tag: Tag, f: Fields) {
    || LeftOverEnd(c, t, Value(tag, f))
    || (|t| - |Value(tag, f)| + GPS_LEN <= MAXBUF && Value(tag, c.fields) == Value(tag, f))
  }

  lemma LastOpenOwn(c: Conn, sp: Spelling, order: seq<Tag>, f: Fields, t: string)
    requires Carrying(c, "") && |order| == 4 && Message(t, "", sp, order, f, "") && |t| <= MAXBUF
    requires order[3] == X || order[3] == Y
    ensures var v := Value(order[3], f);
            && |v| <= |t|
            && (OpenOwn(Filled(c, t), |t| - |v|, "", Value(order[3], c.fields), v) <==> LastOwn(c, t, order[3], f))
  {
    LastValueStands(t, sp, order, f);
    LeftOverDecides(c, t, Value(order[3], f));
  }

  lemma CoordOwnAlone(t: string, order: seq<Tag>, f: Fields, tag: Tag, r: string, was: string)
    requires |order| == 4 && AllKeys(order) && (order[3] == tag ==> |Value(tag, f)| <= |t|)
    ensures tag in order
    ensures CoordOwn(t, "", order, f, "", tag, r, was)
            <==> order[3] != tag || OpenOwn(r, |t| - |Value(tag, f)|, "", was, Value(tag, f))
  {
    ClosedUnlessLast(order, "", tag);
  }

  lemma LastCoordOwn(c: Conn, sp: Spelling, order: seq<Tag>, f: Fields, t: string, tag: Tag)
    requires Carrying(c, "") && |order| == 4 && Message(t, "", sp, order, f, "") && |t| <= MAXBUF
    requires tag == X || tag == Y
    ensures CoordOwn(t, "", order, f, "", tag, Filled(c, t), Value(tag, c.fields))
            <==> order[3] != tag || LastOwn(c, t, tag, f)
  {
    if order[3] == tag {
      LastOpenOwn(c, sp, order, f, t);
    }
    CoordOwnAlone(t, order, f, tag, Filled(c, t), Value(tag, c.fields));
  }

  /** A request with nothing behind it, on any idle connection: its values are read exactly when the last
      pair is the serial or the md5, or an end is left over in the buffer in time, or none is and the
      connection held the last coordinate already. */
  lemma LastPairExactly(c: Conn, sp: Spelling, order: seq<Tag>, f: Fields, t: string)
    requires Carrying(c, "") && |order| == 4 && Message(t, "", sp, order, f, "") && MIN_TEXT <= |t| <= MAXBUF
    ensures Served(Receive(c, t), f, c.notified) <==>
            order[3] == Serial || order[3] == Md5 || LastOwn(c, t, order[3], f)
  {
    WholeText(t, sp, order, f, "");
    BufferOfWhole(c, t, sp, order, f);
    ReceivePrintedExactly(c, "", t, "", sp, order, f, "");
    LastCoordOwn(c, sp, order, f, t, X);
    LastCoordOwn(c, sp, order, f, t, Y);
  }

  /** Nothing but zeros behind the text, as on a new connection. */
  ghost predicate ZeroBehind(c: Conn, n: nat) {
    forall k | n <= k < |c.buf| :: c.buf[k] == NUL
  }

  /** On a connection with nothing behind the text, only the old value can help. */
  lemma LastPairDecides(c: Conn, sp: Spelling, order: seq<Tag>, f: Fields, t: string)
    requires Carrying(c, "") && |order| == 4 && Message(t, "", sp, order, f, "") && ZeroBehind(c, |t|)
    requires MIN_TEXT <= |t| && |t| + GPS_LEN <= MAXBUF
    ensures Served(Receive(c, t), f, c.notified) <==>
            order[3] == Serial || order[3] == Md5 || Value(order[3], c.fields) == Value(order[3], f)
  {
    LastPairExactly(c, sp, order, f, t);
  }

  lemma PrintedMatches(t: string, sp: Spelling, order: seq<Tag>, f: Fields, tail: string)
    requires t == Printed(sp, order, f, tail)
    ensures MatchAt(t, 0, "navto")
  {
    SpelledNav(sp);
    forall k | 0 <= k < 5
      ensures Same(t[0 + k], "navto"[k])
    {
      assert t[k] == sp.nav[k];
      SameIsLower(t[k], "navto"[k]);
    }
  }

  lemma WholeText(t: string, sp: Spelling, order: seq<Tag>, f: Fields, tail: string)
    requires t == Printed(sp, order, f, tail)
    ensures KeywordIn(t) == 0 && "" + t == t && TextFrom("", t) == t
  {
    PrintedMatches(t, sp, order, f, tail);
    FirstUnique(t, "navto", 0, |t|, 0);
    assert "" + t == t;
    assert t[0..] == t;
  }

  lemma LastValueStands(t: string, sp: Spelling, order: seq<Tag>, f: Fields)
    requires |order| == 4 && Message(t, "", sp, order, f, "")
    ensures var v := Value(order[3], f); |v| <= |t| && Stands(t, |t| - |v|, v) && AllPlain(v)
  {
    LastPlaced(t, sp, order, f, order[3]);
    PlacedAtEnd(t, ValueAt(t, order[3]), Value(order[3], f));
    ValueIsPlain(order[3], f);
  }

  lemma LastPlaced(t: string, sp: Spelling, order: seq<Tag>, f: Fields, tag: Tag)
    requires |order| == 4 && Message(t, "", sp, order, f, "") && tag == order[3]
    ensures |t| >= 6 && Placed(t, ValueAt(t, tag), Value(tag, f), "", false)
  {
    ClosedUnlessLast(order, "", tag);
    OwnValue(t, "", sp, order, f, "", tag);
  }

  lemma PlacedAtEnd(t: string, b: nat, v: string)
    requires Placed(t, b, v, "", false)
    ensures b + |v| == |t|
  {
  }

  lemma ValueIsPlain(tag: Tag, f: Fields)
    requires Printable(f)
    ensures AllPlain(Value(tag, f))
  {
  }

  /** The printed values, but for a coordinate in the last pair, which is the old one. */
  function KeepLast(f: Fields, last: Tag, was: Fields): Fields {
    Fields(f.serial, f.md5, if last == X then was.x else f.x, if last == Y then was.y else f.y)
  }

  /** A last coordinate without an end keeps its old value; the other one is ended by the next pair. */
  lemma CoordAlone(t: string, sp: Spelling, order: seq<Tag>, f: Fields, tag: Tag, r: string, was: string)
    requires |order| == 4 && Message(t, "", sp, order, f, "") && Begins(r, t) && (tag == X || tag == Y)
    requires order[3] == tag ==> |Value(tag, f)| <= |t| && NoEnd(r, |t| - |Value(tag, f)|)
    ensures |t| >= 6 && Reads(r, ValueAt(t, tag), was, if order[3] == tag then was else Value(tag, f))
  {
    ClosedUnlessLast(order, "", tag);
    OwnCoordRead(t, "", sp, order, f, "", tag, r, was);
    if order[3] == tag {
      FullLength(r, ValueAt(t, tag), 0);
    }
  }

  lemma FixedAlone(t: string, sp: Spelling, order: seq<Tag>, f: Fields, tag: Tag, r: string)
    requires Message(t, "", sp, order, f, "") && Begins(r, t) && (tag == Serial || tag == Md5)
    ensures |t| >= 6 && ValueAt(t, tag) + |Value(tag, f)| <= |r|
    ensures Held(r, ValueAt(t, tag), |Value(tag, f)|) == Value(tag, f)
  {
    FixedInBuffer(t, "", sp, order, f, "", tag, r);
  }

  lemma FourKept(t: string, sp: Spelling, order: seq<Tag>, f: Fields, r: string, was: Fields)
    requires |order| == 4 && Message(t, "", sp, order, f, "") && Begins(r, t) && (order[3] == X || order[3] == Y)
    requires |Value(order[3], f)| <= |t| && NoEnd(r, |t| - |Value(order[3], f)|)
    ensures |t| >= 6 && Fits(r, Find(t, 6, |t|), |t|)
    ensures FourRead(r, Find(t, 6, |t|), was, KeepLast(f, order[3], was))
  {
    PlacesInside(t, "", sp, order, f, "", r);
    PlacesOfValues(t);
    FixedAlone(t, sp, order, f, Serial, r);
    FixedAlone(t, sp, order, f, Md5, r);
    CoordAlone(t, sp, order, f, X, r, was.x);
    CoordAlone(t, sp, order, f, Y, r, was.y);
  }

  lemma FieldsKept(t: string, sp: Spelling, order: seq<Tag>, f: Fields, r: string, was: Fields)
    requires |order| == 4 && Message(t, "", sp, order, f, "") && Begins(r, t) && (order[3] == X || order[3] == Y)
    requires |Value(order[3], f)| <= |t| && NoEnd(r, |t| - |Value(order[3], f)|)
    ensures |t| >= 6 && ParseFields(r, |t|, was) == Complete(KeepLast(f, order[3], was))
  {
    MessageReads(t, "", sp, order, f, "", r, was, KeepLast(f, order[3], was));
    FourKept(t, sp, order, f, r, was);
  }

  lemma LastHasNoEnd(c: Conn, sp: Spelling, order: seq<Tag>, f: Fields, t: string)
    requires Carrying(c, "") && |order| == 4 && Message(t, "", sp, order, f, "") && ZeroBehind(c, |t|)
    requires |t| + GPS_LEN <= MAXBUF && (order[3] == X || order[3] == Y)
    ensures |Value(order[3], f)| <= |t| && NoEnd(Filled(c, t), |t| - |Value(order[3], f)|)
  {
    LastValueStands(t, sp, order, f);
    LeftOverDecides(c, t, Value(order[3], f));
  }

  /** The coordinate in the last pair keeps its old value, and the request is served all the same. */
  lemma LastCoordinateKept(c: Conn, sp: Spelling, order: seq<Tag>, f: Fields, t: string)
    requires Carrying(c, "") && |order| == 4 && Message(t, "", sp, order, f, "") && ZeroBehind(c, |t|)
    requires MIN_TEXT <= |t| && |t| + GPS_LEN <= MAXBUF && (order[3] == X || order[3] == Y)
    ensures Served(Receive(c, t), KeepLast(f, order[3], c.fields), c.notified)
  {
    WholeText(t, sp, order, f, "");
    BufferOfWhole(c, t, sp, order, f);
    ChunkParsed(c, "", t);
    LastHasNoEnd(c, sp, order, f, t);
    FieldsKept(t, sp, order, f, Filled(c, t), c.fields);
    AfterServes(c, Filled(c, t), ParseFields(Filled(c, t), |t|, c.fields), KeepLast(f, order[3], c.fields));
  }

  /** The values of the request that the source gives as its example. */
  const EXAMPLE := Fields("356823032255122", MD5A + MD5B, "11.222", "33.333")

  const MD5A := "2eb399b9588b1ac2"
  const MD5B := "ccc35dce6f266033"

  lemma ExampleIsPrintable()
    ensures Printable(EXAMPLE)
  {
    PlainHalves();
    assert AllPlain("356823032255122");
    assert AllPlain("11.222");
    assert AllPlain("33.333");
  }

  lemma PlainHalves()
    ensures |MD5A + MD5B| == MD5_LEN && AllPlain(MD5A + MD5B)
  {
    assert AllPlain(MD5A);
    assert AllPlain(MD5B);
  }

  const USUAL: seq<Tag> := [Serial, Md5, X, Y]

  lemma SpelledLengths(sp: Spelling)
    ensures |sp.serial| == 6 && |sp.md5| == 3 && |sp.x| == 6 && |sp.y| == 6
  {
    SpelledIsKey(Serial, sp);
    SpelledIsKey(Md5, sp);
    SpelledIsKey(X, sp);
    SpelledIsKey(Y, sp);
  }

  lemma UsualLength(sp: Spelling, f: Fields)
    requires Printable(f)
    ensures |Printed(sp, USUAL, f, "")| == 81 + |f.x| + |f.y|
  {
    SpelledNav(sp);
    SpelledLengths(sp);
    assert USUAL[1..] == [Md5, X, Y];
    assert [Md5, X, Y][1..] == [X, Y];
    assert [X, Y][1..] == [Y];
    assert |Pairs(sp, [Y], f, "")| == 7 + |f.y|;
    assert |Pairs(sp, [X, Y], f, "")| == 8 + |f.x| + |Pairs(sp, [Y], f, "")|;
    assert |Pairs(sp, [Md5, X, Y], f, "")| == 37 + |Pairs(sp, [X, Y], f, "")|;
  }

  /** The example of the source, sent with nothing behind it, is just long enough, and its second
      coordinate is not read. */
  lemma ExampleLosesY(c: Conn, sp: Spelling)
    requires Carrying(c, "") && ZeroBehind(c, 0)
    ensures |Printed(sp, USUAL, EXAMPLE, "")| == MIN_TEXT
    ensures Served(Receive(c, Printed(sp, USUAL, EXAMPLE, "")), EXAMPLE.(y := c.fields.y), c.notified)
  {
    ExampleIsPrintable();
    UsualLength(sp, EXAMPLE);
    LastCoordinateKept(c, sp, USUAL, EXAMPLE, Printed(sp, USUAL, EXAMPLE, ""));
  }

  const BLANKS := seq(120, _ => ' ')

  /** A chunk that is dropped stays in the buffer. */
  lemma DroppedStays(c: Conn, chunk: string, j: nat, more: seq<string>) returns (d: Conn)
    requires Carrying(c, "") && NoKeywordIn(chunk) && j < |chunk|
    ensures Feed(c, [chunk] + more) == Feed(d, more) && Carrying(d, "") && SameResult(c, d) && d.buf[j] == chunk[j]
  {
    d := JunkChunk(c, chunk);
    assert "" + chunk == chunk;
    ChunkDropped(c, "", chunk);
    assert ([chunk] + more)[1..] == more;
  }

  lemma BlanksHaveNoKeyword()
    ensures NoKeywordIn(BLANKS)
  {
    forall at: nat | at < |BLANKS|
      ensures !MatchAt(BLANKS, at, "navto")
    {
      Mismatch(BLANKS, at, "navto", 0);
    }
    FirstUnique(BLANKS, "navto", 0, |BLANKS|, |BLANKS|);
  }

  lemma ServedByLeftOver(d: Conn, sp: Spelling, f: Fields, t: string)
    requires Carrying(d, "") && Printable(f) && t == Printed(sp, USUAL, f, "") && MIN_TEXT <= |t| < MAXBUF
    requires |f.y| < 10 && Ends(d.buf[|t| + 1])
    ensures Served(Receive(d, t), f, d.notified)
  {
    assert LeftOverEnd(d, t, f.y);
    LastPairExactly(d, sp, USUAL, f, t);
  }

  /** So a usual request without anything behind it is read whole after any dropped chunk that left an
      end right behind the terminator's place. */
  lemma ServedBehindJunk(c: Conn, junk: string, sp: Spelling, f: Fields, t: string)
    requires Carrying(c, "") && NoKeywordIn(junk) && |t| + 1 < |junk| && Ends(junk[|t| + 1])
    requires Printable(f) && t == Printed(sp, USUAL, f, "") && MIN_TEXT <= |t| && |f.y| < 10
    ensures Served(Feed(c, [junk] + [t]), f, c.notified)
  {
    var d := DroppedStays(c, junk, |t| + 1, [t]);
    ServedByLeftOver(d, sp, f, t);
    FeedOne(d, t);
  }

  lemma UsualAfterBlanks(c: Conn, sp: Spelling, f: Fields, t: string)
    requires Carrying(c, "") && Printable(f) && t == Printed(sp, USUAL, f, "") && MIN_TEXT <= |t| && |f.y| < 10
    ensures Served(Feed(c, [BLANKS] + [t]), f, c.notified)
  {
    UsualLength(sp, f);
    BlanksHaveNoKeyword();
    ServedBehindJunk(c, BLANKS, sp, f, t);
  }

  lemma ExampleAfterBlanks(c: Conn, sp: Spelling)
    requires Carrying(c, "")
    ensures Served(Feed(c, [BLANKS] + [Printed(sp, USUAL, EXAMPLE, "")]), EXAMPLE, c.notified)
  {
    ExampleIsPrintable();
    UsualLength(sp, EXAMPLE);
    UsualAfterBlanks(c, sp, EXAMPLE, Printed(sp, USUAL, EXAMPLE, ""));
  }

  // ---------------------------------------------------------------- the next request on a connection

  /** After a request that came in several chunks, and left the text w behind, the next one is read as its
      own values exactly when what is left does not change any of them. */
  lemma NextRequestExactly(c: Conn, junk: seq<string>, first: string, rest: seq<string>, text: string, w: string,
                           pieces: seq<string>, sp: Spelling, order: seq<Tag>, f: Fields, tail: string)
      returns (d: Conn, u: string, chunk: string)
    requires InChunks(c, junk, first, rest, text) && rest != []
    requires text[KeywordIn(text)..] == w + rest[|rest| - 1] && LastCompletes(w, pieces)
    requires AllKeys(order) && Printable(f) && Concat(pieces) == Printed(sp, order, f, tail)
    ensures var r := Feed(c, junk + [first] + rest);
            r.Alive? ==>
              && LastReceive(r.conn, pieces, w + Concat(pieces), d, u, chunk)
              && (Served(Feed(r.conn, pieces), f, r.conn.notified)
                  <==> AllOwn(w + Concat(pieces), w, order, f, tail, BufferFrom(d, u, chunk), r.conn.fields))
  {
    ServedStillCarries(c, junk, first, rest, text);
    TextBeforeLast(text, w, rest[|rest| - 1]);
    var r := Feed(c, junk + [first] + rest);
    d, u, chunk := c, "", "";
    if r.Alive? {
      d, u, chunk := PrintBehindCarried(r.conn, w, pieces, sp, order, f, tail);
    }
  }

  lemma NoKeyFrom(w: string, tag: Tag)
    requires |w| >= 6 && forall j | 6 <= j < |w| :: !Same(w[j], Key(tag)[0])
    ensures KeyIn(w, tag) == |w|
  {
    forall at: nat | 6 <= at < |w|
      ensures !MatchAt(w, at, Key(tag))
    {
      Mismatch(w, at, Key(tag), 0);
    }
    FirstUnique(w, Key(tag), 6, |w|, |w|);
  }

  /** A first chunk that ends inside its serial. */
  function CutSerial(digits: string): string {
    "navto?serial=" + digits
  }

  lemma SerialOfCut(digits: string)
    ensures Stale(CutSerial(digits)) && KeyIn(CutSerial(digits), Serial) == 6
  {
    var w := CutSerial(digits);
    assert MatchAt(w, 0, "navto");
    assert MatchAt(w, 6, "serial");
  }

  lemma OthersOfCut(digits: string, tag: Tag)
    requires AllPlain(digits) && tag != Serial
    ensures KeyIn(CutSerial(digits), tag) == |CutSerial(digits)|
  {
    var w := CutSerial(digits);
    forall j | 6 <= j < |w|
      ensures !Same(w[j], Key(tag)[0])
    {
      if j < 13 {
        assert w[j] == "navto?serial="[j];
      } else {
        assert w[j] == digits[j - 13];
      }
    }
    NoKeyFrom(w, tag);
  }

  /** The digits there are, and then the next request's first characters. */
  lemma SerialReadBehindCut(t: string, digits: string, r: string, sp: Spelling, order: seq<Tag>, f: Fields,
                            tail: string)
    requires |digits| < SERIAL_LEN && Message(t, CutSerial(digits), sp, order, f, tail) && Begins(r, t)
    ensures |t| >= 6 && ValueAt(t, Serial) == 13 && |r| >= 28 && |Printed(sp, order, f, tail)| >= SERIAL_LEN
    ensures Held(r, 13, SERIAL_LEN) == CString(digits + Printed(sp, order, f, tail)[..SERIAL_LEN - |digits|])
  {
    var w, q := CutSerial(digits), Printed(sp, order, f, tail);
    SerialOfCut(digits);
    StaleValue(t, w, sp, order, f, tail, Serial);
    PrintedLong(sp, order, f, tail);
    SliceInText(r, t, 13, SERIAL_LEN);
    JoinSlice(t, w, digits, q);
  }

  lemma JoinSlice(t: string, w: string, digits: string, q: string)
    requires |w| == 13 + |digits| && w[13..] == digits && |digits| < SERIAL_LEN <= |q| && t == w + q
    ensures Slice(t, 13, SERIAL_LEN) == digits + q[..SERIAL_LEN - |digits|]
  {
    assert forall k | 0 <= k < |digits| :: t[13 + k] == w[13..][k];
  }

  /** Behind it the serial of every next request is misread, and the request is served like that: the
      digits, and then the next request from its keyword on. */
  lemma NextSerialMisread(c: Conn, digits: string, sp: Spelling, order: seq<Tag>, f: Fields, tail: string,
                          chunk: string)
    requires Carrying(c, CutSerial(digits)) && AllPlain(digits) && |digits| < SERIAL_LEN
    requires AllKeys(order) && Printable(f) && BothClosed(order, tail)
    requires chunk == Printed(sp, order, f, tail) && MIN_TEXT <= |CutSerial(digits) + chunk| <= MAXBUF
    ensures |chunk| >= SERIAL_LEN
    ensures Served(Receive(c, chunk), f.(serial := digits + CString(chunk[..SERIAL_LEN - |digits|])), c.notified)
    ensures !Served(Receive(c, chunk), f, c.notified)
  {
    var w := CutSerial(digits);
    SerialOfCut(digits);
    KeywordStays(w, chunk);
    var t, r := w + chunk, BufferFrom(c, w, chunk);
    assert TextFrom(w, chunk) == t;
    ChunkParsed(c, w, chunk);
    SerialReadBehindCut(t, digits, r, sp, order, f, tail);
    PlainIsCString(digits);
    CStringBehind(digits, chunk[..SERIAL_LEN - |digits|]);
    var g := f.(serial := digits + CString(chunk[..SERIAL_LEN - |digits|]));
    OthersRead(t, digits, sp, order, f, tail, r, c.fields, g);
    AfterServes(c, Filled(c, chunk), ParseFields(r, |t|, c.fields), g);
    SpelledNav(sp);
    assert chunk[0] == sp.nav[0];
    WrongSerial(digits, chunk, f, g);
  }

  lemma WrongSerial(digits: string, chunk: string, f: Fields, g: Fields)
    requires |digits| < SERIAL_LEN <= |chunk| && LowerChar(chunk[0]) == 'n' && Printable(f)
    requires g.serial == digits + CString(chunk[..SERIAL_LEN - |digits|])
    ensures g != f
  {
    assert g.serial[|digits|] == chunk[0];
    assert Plain(f.serial[|digits|]);
  }

  lemma OthersRead(t: string, digits: string, sp: Spelling, order: seq<Tag>, f: Fields, tail: string, r: string,
                   was: Fields, g: Fields)
    requires Message(t, CutSerial(digits), sp, order, f, tail) && Begins(r, t)
    requires AllPlain(digits) && BothClosed(order, tail)
    requires |r| >= 28 && g == f.(serial := Held(r, 13, SERIAL_LEN)) && |t| >= 6 && ValueAt(t, Serial) == 13
    ensures ParseFields(r, |t|, was) == Complete(g)
  {
    var w := CutSerial(digits);
    OthersOfCut(digits, Md5);
    OthersOfCut(digits, X);
    OthersOfCut(digits, Y);
    FixedInBuffer(t, w, sp, order, f, tail, Md5, r);
    CoordRead(t, w, sp, order, f, tail, X, r, was.x);
    CoordRead(t, w, sp, order, f, tail, Y, r, was.y);
    PlacesOfValues(t);
    MessageReads(t, w, sp, order, f, tail, r, was, g);
  }

  // ---------------------------------------------------------------- every printed request can be sent

  /** Any printed request of enough length, whatever its tail, can be sent at once, or cut anywhere
      behind its keyword before the minimum length. */
  lemma CutRequestIsSent(c: Conn, sp: Spelling, order: seq<Tag>, f: Fields, tail: string, t: string, cut: nat)
    requires Carrying(c, "") && AllKeys(order) && Printable(f) && t == Printed(sp, order, f, tail)
    requires MIN_TEXT <= |t| <= MAXBUF && 5 <= cut < MIN_TEXT
    ensures Message(t[KeywordIn(t)..], "", sp, order, f, tail)
    ensures InChunks(c, [], t, [], t) && InChunks(c, [], t[..cut], [t[cut..]], t)
  {
    WholeText(t, sp, order, f, tail);
    assert t[0..] == t;
    WholeIsOneChunk(t);
    CutIsTwoChunks(t, cut);
  }

  lemma WholeIsOneChunk(t: string)
    ensures Concat([] + [t] + []) == t
  {
    assert [] + [t] + [] == [t];
    OnePiece("", [t]);
    assert Concat([t]) == "" + Concat([t]);
  }

  lemma CutIsTwoChunks(t: string, cut: nat)
    requires cut <= |t|
    ensures Concat([] + [t[..cut]] + [t[cut..]]) == t && |Concat([] + [t[..cut]] + [t[cut..]][..0])| == cut
  {
    TextOfChunks([], t[..cut], [t[cut..]]);
    WholeIsOneChunk(t[cut..]);
    assert [t[cut..]] == [] + [t[cut..]] + [];
    WholeIsOneChunk(t[..cut]);
    assert [] + [t[..cut]] + [t[cut..]][..0] == [] + [t[..cut]] + [];
  }
}
