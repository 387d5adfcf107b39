/** Whole conversations: the chunks of a request one after the other against the same text at once. */
module RequestFeeds {
  import opened RequestText
  import opened RequestChunks

  function Concat(chunks: seq<string>): string {
    if chunks == [] then "" else chunks[0] + Concat(chunks[1..])
  }

  lemma {:induction false} ConcatAppend(a: seq<string>, b: seq<string>)
    ensures Concat(a + b) == Concat(a) + Concat(b)
  {
    if a == [] {
      assert a + b == b;
    } else {
      assert (a + b)[1..] == a[1..] + b;
      ConcatAppend(a[1..], b);
    }
  }

  /** One receive per chunk. An empty one means that the peer has closed, and kills the connection;
      one larger than the receive window cannot come from recv and is Dead here too. */
  function Feed(c: Conn, chunks: seq<string>): Received
    decreases |chunks|
  {
    if chunks == [] then Alive(c)
    else if chunks[0] == "" || !(|c.buf| == MAXBUF + 1 && c.offset + |chunks[0]| <= MAXBUF) then Dead
    else
      var r := Receive(c, chunks[0]);
      if r.Alive? then Feed(r.conn, chunks[1..]) else r
  }

  /** The request has been read as these values and handed to the workers once more than before. */
  ghost predicate Served(r: Received, f: Fields, before: nat) {
    r.Alive? && r.conn.fields == f && r.conn.status == 1 && r.conn.notified == before + 1
  }

  ghost predicate NonEmpty(chunks: seq<string>) {
    forall k | 0 <= k < |chunks| :: chunks[k] != ""
  }

  /** In every conversation the window stays open and kept text starts with the keyword. */
  lemma {:induction false} FeedKeepsValid(c: Conn, chunks: seq<string>)
    requires c.Valid()
    ensures Feed(c, chunks).Alive? ==> Feed(c, chunks).conn.Valid() && Feed(c, chunks).conn.offset < MAXBUF
    decreases |chunks|
  {
    if chunks != [] && Feed(c, chunks).Alive? {
      ReceiveKeepsValid(c, chunks[0]);
      FeedKeepsValid(Receive(c, chunks[0]).conn, chunks[1..]);
    }
  }

  ghost predicate SameResult(c: Conn, d: Conn) {
    d.fields == c.fields && d.status == c.status && d.notified == c.notified
  }

  lemma FeedOne(c: Conn, chunk: string)
    requires |c.buf| == MAXBUF + 1 && c.offset + |chunk| <= MAXBUF && chunk != ""
    ensures Feed(c, [chunk]) == Receive(c, chunk)
  {
    assert [chunk][1..] == [];
  }

  // ---------------------------------------------------------------- the pieces behind the keyword

  /** A text that starts with the keyword still does with more behind it. */
  lemma KeywordStays(u: string, chunk: string)
    requires MatchAt(u, 0, "navto")
    ensures KeywordIn(u + chunk) == 0 && MatchAt(u + chunk, 0, "navto")
  {
    assert MatchAt(u + chunk, 0, "navto");
    FirstUnique(u + chunk, "navto", 0, |u + chunk|, 0);
  }

  /** The pieces whose last one alone makes the text long enough. */
  ghost predicate LastCompletes(u: string, pieces: seq<string>) {
    && pieces != [] && NonEmpty(pieces) && MIN_TEXT <= |u + Concat(pieces)| <= MAXBUF
    && |u + Concat(pieces[..|pieces| - 1])| < MIN_TEXT
  }

  lemma LastCompletesRest(u: string, pieces: seq<string>)
    requires LastCompletes(u, pieces) && |pieces| > 1
    ensures LastCompletes(u + pieces[0], pieces[1..]) && |u + pieces[0]| < MIN_TEXT
    ensures u + Concat(pieces) == u + pieces[0] + Concat(pieces[1..])
  {
    var init := pieces[..|pieces| - 1];
    assert init[0] == pieces[0] && init[1..] == pieces[1..][..|pieces| - 2];
    assert Concat(init) == pieces[0] + Concat(pieces[1..][..|pieces| - 2]);
  }

  /** All pieces but the last are carried over, and nothing else comes of them. */
  lemma {:induction false} FeedUntilLast(c: Conn, u: string, pieces: seq<string>) returns (d: Conn)
    requires Carrying(c, u) && MatchAt(u, 0, "navto") && LastCompletes(u, pieces)
    ensures var init, last := pieces[..|pieces| - 1], pieces[|pieces| - 1];
            && Carrying(d, u + Concat(init)) && SameResult(c, d) && MatchAt(u + Concat(init), 0, "navto")
            && d.offset + |last| <= MAXBUF && |d.buf| == MAXBUF + 1
            && Feed(c, pieces) == Receive(d, last)
            && u + Concat(init) + last == u + Concat(pieces)
    decreases |pieces|
  {
    if |pieces| == 1 {
      OnePiece(u, pieces);
      assert u + Concat(pieces[..0]) == u;
      d := c;
      FeedOne(c, pieces[0]);
    } else {
      LastCompletesRest(u, pieces);
      var e := FeedCarried(c, u, pieces[0]);
      d := FeedUntilLast(e, u + pieces[0], pieces[1..]);
      InitOfRest(u, pieces);
    }
  }

  lemma InitOfRest(u: string, pieces: seq<string>)
    requires |pieces| > 1
    ensures var rest := pieces[1..];
            && u + pieces[0] + Concat(rest[..|rest| - 1]) == u + Concat(pieces[..|pieces| - 1])
            && rest[|rest| - 1] == pieces[|pieces| - 1]
            && u + pieces[0] + Concat(rest) == u + Concat(pieces)
  {
    var init, rest := pieces[..|pieces| - 1], pieces[1..];
    assert init[0] == pieces[0] && init[1..] == rest[..|rest| - 1];
  }

  lemma OnePiece(u: string, pieces: seq<string>)
    requires |pieces| == 1
    ensures pieces == [pieces[0]] && u + Concat(pieces) == u + pieces[0]
  {
    assert pieces[1..] == [];
  }

  lemma FeedCarried(c: Conn, u: string, chunk: string) returns (d: Conn)
    requires Carrying(c, u) && MatchAt(u, 0, "navto") && |u + chunk| < MIN_TEXT
    ensures Receive(c, chunk) == Alive(d) && Carrying(d, u + chunk) && MatchAt(u + chunk, 0, "navto")
    ensures SameResult(c, d)
  {
    KeywordStays(u, chunk);
    assert (u + chunk)[0..] == u + chunk;
    ChunkCarried(c, u, chunk);
    d := Receive(c, chunk).conn;
  }

  // ---------------------------------------------------------------- chunks before the keyword

  ghost predicate NoKeywordIn(chunk: string) {
    0 < |chunk| <= MAXBUF && KeywordIn(chunk) == |chunk|
  }

  /** Without carried-over text, a chunk that does not hold the whole keyword leaves nothing. */
  lemma JunkChunk(c: Conn, chunk: string) returns (d: Conn)
    requires Carrying(c, "") && NoKeywordIn(chunk)
    ensures Receive(c, chunk) == Alive(d) && Carrying(d, "") && SameResult(c, d)
  {
    assert "" + chunk == chunk;
    ChunkDropped(c, "", chunk);
    ReceiveKeepsValid(c, chunk);
    d := c.(buf := Filled(c, chunk));
  }

  lemma {:induction false} FeedJunk(c: Conn, junk: seq<string>, more: seq<string>) returns (d: Conn)
    requires Carrying(c, "") && forall k | 0 <= k < |junk| :: NoKeywordIn(junk[k])
    ensures Feed(c, junk + more) == Feed(d, more) && Carrying(d, "") && SameResult(c, d)
    decreases |junk|
  {
    if junk == [] {
      assert junk + more == more;
      d := c;
    } else {
      assert (junk + more)[1..] == junk[1..] + more;
      d := JunkChunk(c, junk[0]);
      d := FeedJunk(d, junk[1..], more);
    }
  }

  // ---------------------------------------------------------------- chunks and the whole text

  ghost predicate NoMatchBefore(s: string, n: nat) {
    forall at: nat | at < n :: !MatchAt(s, at, "navto")
  }

  lemma MatchInPart(a: string, b: string, at: nat)
    requires MatchAt(a, at, "navto")
    ensures MatchAt(a + b, at, "navto")
  {
    assert (a + b)[..|a|] == a;
    MatchKept(a, a + b, at, "navto");
  }

  lemma MatchBehind(a: string, b: string, at: nat)
    ensures MatchAt(b, at, "navto") <==> MatchAt(a + b, |a| + at, "navto")
  {
    assert forall j: nat | |a| <= j < |a + b| :: (a + b)[j] == b[j - |a|];
    if MatchAt(a + b, |a| + at, "navto") {
      assert forall j: nat | at <= j < at + 5 :: b[j] == (a + b)[|a| + j];
    }
  }

  lemma PartNoKeyword(a: string, b: string, n: nat)
    requires NoMatchBefore(a + b, n) && |a| <= n
    ensures KeywordIn(a) == |a| && NoMatchBefore(b, n - |a|)
  {
    forall at: nat | at < |a|
      ensures !MatchAt(a, at, "navto")
    {
      if MatchAt(a, at, "navto") {
        MatchInPart(a, b, at);
      }
    }
    FirstUnique(a, "navto", 0, |a|, |a|);
    forall at: nat | at < n - |a|
      ensures !MatchAt(b, at, "navto")
    {
      MatchBehind(a, b, at);
    }
  }

  lemma {:induction false} JunkHasNone(junk: seq<string>, tail: string, n: nat)
    requires NonEmpty(junk) && NoMatchBefore(Concat(junk) + tail, n) && |Concat(junk)| <= n && |Concat(junk)| <= MAXBUF
    ensures forall k | 0 <= k < |junk| :: NoKeywordIn(junk[k])
    ensures NoMatchBefore(tail, n - |Concat(junk)|)
  {
    if junk == [] {
      assert "" + tail == tail;
    } else {
      assert Concat(junk) + tail == junk[0] + (Concat(junk[1..]) + tail);
      PartNoKeyword(junk[0], Concat(junk[1..]) + tail, n);
      JunkHasNone(junk[1..], tail, n - |junk[0]|);
    }
  }

  lemma FirstHas(first: string, tail: string, i: nat)
    requires NoMatchBefore(first + tail, i) && MatchAt(first + tail, i, "navto") && i + 5 <= |first|
    ensures KeywordIn(first) == i
  {
    assert (first + tail)[..|first|] == first;
    MatchKept(first + tail, first, i, "navto");
    forall at: nat | at < i
      ensures !MatchAt(first, at, "navto")
    {
      if MatchAt(first, at, "navto") {
        MatchInPart(first, tail, at);
      }
    }
    FirstUnique(first, "navto", 0, |first|, i);
  }

  /** What parse has in hand when the last chunk arrives: the connection, what it carries, the chunk. */
  ghost predicate LastReceive(c: Conn, all: seq<string>, t: string, d: Conn, u: string, chunk: string) {
    && Carrying(d, u) && SameResult(c, d) && |u + chunk| <= MAXBUF
    && Feed(c, all) == Receive(d, chunk)
    && TextFrom(u, chunk) == t && KeywordIn(u + chunk) + MIN_TEXT <= |u + chunk|
  }

  /** The pieces of a request behind carried-over text come down to one last receive. */
  lemma PiecesUntilLast(c: Conn, w: string, pieces: seq<string>) returns (d: Conn, u: string, chunk: string)
    requires Carrying(c, w) && MatchAt(w, 0, "navto") && LastCompletes(w, pieces)
    ensures LastReceive(c, pieces, w + Concat(pieces), d, u, chunk)
    ensures chunk == pieces[|pieces| - 1] && MatchAt(u, 0, "navto") && u + chunk == w + Concat(pieces)
  {
    d := FeedUntilLast(c, w, pieces);
    u, chunk := w + Concat(pieces[..|pieces| - 1]), pieces[|pieces| - 1];
    KeywordStays(u, chunk);
    assert TextFrom(u, chunk) == u + chunk;
  }

  /** From the chunk with the keyword on. */
  lemma RequestUntilLast(c: Conn, first: string, rest: seq<string>) returns (d: Conn, u: string, chunk: string)
    requires Carrying(c, "") && KeywordIn(first) < |first| <= MAXBUF
    requires rest == [] ==> KeywordIn(first) + MIN_TEXT <= |first|
    requires rest != [] ==> LastCompletes(first[KeywordIn(first)..], rest)
    ensures LastReceive(c, [first] + rest, first[KeywordIn(first)..] + Concat(rest), d, u, chunk)
    ensures rest != [] ==> chunk == rest[|rest| - 1] && MatchAt(u, 0, "navto") && TextFrom(u, chunk) == u + chunk
  {
    assert "" + first == first;
    if rest == [] {
      assert [first] + rest == [first];
      FeedOne(c, first);
      d, u, chunk := c, "", first;
    } else {
      var e := FirstChunk(c, first, rest);
      d, u, chunk := PiecesUntilLast(e, first[KeywordIn(first)..], rest);
    }
  }

  lemma FirstChunk(c: Conn, first: string, rest: seq<string>) returns (e: Conn)
    requires Carrying(c, "") && KeywordIn(first) < |first| <= MAXBUF && LastCompletes(first[KeywordIn(first)..], rest)
    ensures Carrying(e, first[KeywordIn(first)..]) && MatchAt(first[KeywordIn(first)..], 0, "navto")
    ensures SameResult(c, e) && Feed(c, [first] + rest) == Feed(e, rest)
  {
    assert "" + first == first;
    ChunkCarried(c, "", first);
    FirstCarried(first);
    assert ([first] + rest)[1..] == rest;
    e := Receive(c, first).conn;
  }

  lemma FirstCarried(first: string)
    requires KeywordIn(first) < |first|
    ensures MatchAt(first[KeywordIn(first)..], 0, "navto")
  {
    FirstIsFirst(first, "navto", 0, |first|);
    MatchMoved(first, KeywordIn(first), first[KeywordIn(first)..], "navto");
  }

  /** The keyword of the whole text lies inside one chunk. */
  ghost predicate KeywordInside(junk: seq<string>, first: string, text: string) {
    |Concat(junk)| <= KeywordIn(text) && KeywordIn(text) + 5 <= |Concat(junk) + first|
  }

  lemma KeywordOfChunk(junk: seq<string>, first: string, tail: string, text: string)
    requires NonEmpty(junk) && text == Concat(junk) + (first + tail) && |text| <= MAXBUF
    requires KeywordInside(junk, first, text)
    ensures forall k | 0 <= k < |junk| :: NoKeywordIn(junk[k])
    ensures KeywordIn(first) + |Concat(junk)| == KeywordIn(text)
  {
    var n := KeywordIn(text);
    var i := n - |Concat(junk)|;
    FirstIsFirst(text, "navto", 0, |text|);
    JunkHasNone(junk, first + tail, n);
    MatchBehind(Concat(junk), first + tail, i);
    FirstHas(first, tail, i);
  }

  /** The text from the keyword on, when only the last chunk makes it long enough. */
  ghost predicate LastNeeded(before: seq<string>, rest: seq<string>, keyword: nat) {
    rest == [] || |Concat(before + rest[..|rest| - 1])| < keyword + MIN_TEXT
  }

  lemma TextOfChunks(junk: seq<string>, first: string, rest: seq<string>)
    ensures Concat(junk + [first] + rest) == Concat(junk) + (first + Concat(rest))
  {
    ConcatAppend(junk + [first], rest);
    ConcatAppend(junk, [first]);
    OnePiece("", [first]);
    assert Concat([first]) == "" + Concat([first]) == "" + first == first;
  }

  lemma TextFromKeyword(a: string, first: string, tail: string, i: nat)
    requires i <= |first|
    ensures (a + (first + tail))[|a| + i..] == first[i..] + tail
  {
  }

  lemma LastNeededCompletes(junk: seq<string>, first: string, rest: seq<string>, i: nat)
    requires i <= |first| && rest != [] && NonEmpty(rest) && |first + Concat(rest)| <= MAXBUF
    requires i + MIN_TEXT <= |first + Concat(rest)|
    requires LastNeeded(junk + [first], rest, |Concat(junk)| + i)
    ensures LastCompletes(first[i..], rest)
  {
    TextOfChunks(junk, first, rest[..|rest| - 1]);
  }

  /** A text sent in chunks to an idle connection: its keyword lies inside one of them, and only the
      last one makes the text from there on long enough. */
  ghost predicate InChunks(c: Conn, junk: seq<string>, first: string, rest: seq<string>, text: string) {
    && Carrying(c, "") && NonEmpty(junk) && NonEmpty(rest)
    && text == Concat(junk + [first] + rest) && |text| <= MAXBUF
    && KeywordInside(junk, first, text) && LastNeeded(junk + [first], rest, KeywordIn(text))
    && KeywordIn(text) + MIN_TEXT <= |text|
  }

  lemma ChunksUntilLast(c: Conn, junk: seq<string>, first: string, rest: seq<string>, text: string)
      returns (d: Conn, u: string, chunk: string)
    requires InChunks(c, junk, first, rest, text)
    ensures LastReceive(c, junk + [first] + rest, text[KeywordIn(text)..], d, u, chunk)
    ensures rest != [] ==> chunk == rest[|rest| - 1] && MatchAt(u, 0, "navto") && TextFrom(u, chunk) == u + chunk
  {
    SplitText(junk, first, rest, text);
    SplitTail(junk, first, rest, text);
    if rest != [] {
      LastNeededCompletes(junk, first, rest, KeywordIn(first));
    }
    d, u, chunk := SplitUntilLast(c, junk, first, rest);
  }

  lemma SplitUntilLast(c: Conn, junk: seq<string>, first: string, rest: seq<string>)
      returns (d: Conn, u: string, chunk: string)
    requires Carrying(c, "") && forall k | 0 <= k < |junk| :: NoKeywordIn(junk[k])
    requires KeywordIn(first) < |first| <= MAXBUF
    requires rest == [] ==> KeywordIn(first) + MIN_TEXT <= |first|
    requires rest != [] ==> LastCompletes(first[KeywordIn(first)..], rest)
    ensures LastReceive(c, junk + [first] + rest, first[KeywordIn(first)..] + Concat(rest), d, u, chunk)
    ensures rest != [] ==> chunk == rest[|rest| - 1] && MatchAt(u, 0, "navto") && TextFrom(u, chunk) == u + chunk
  {
    var e := FeedJunk(c, junk, [first] + rest);
    assert junk + [first] + rest == junk + ([first] + rest);
    d, u, chunk := RequestUntilLast(e, first, rest);
  }

  /** A request fed in chunks is read as the same request at once: same values, same status, one
      notification. */
  lemma ChunksServeAsAtOnce(c: Conn, junk: seq<string>, first: string, rest: seq<string>, text: string)
    requires InChunks(c, junk, first, rest, text) && Whole(text[KeywordIn(text)..])
    ensures Served(Feed(c, junk + [first] + rest), FieldsOf(text[KeywordIn(text)..]), c.notified)
    ensures Served(Feed(c, [text]), FieldsOf(text[KeywordIn(text)..]), c.notified)
  {
    var d, u, chunk := ChunksUntilLast(c, junk, first, rest, text);
    ChunkRead(d, u, chunk);
    assert "" + text == text;
    ChunkRead(c, "", text);
    FeedOne(c, text);
  }

  lemma PiecesServed(c: Conn, w: string, pieces: seq<string>, t: string)
    requires Carrying(c, w) && MatchAt(w, 0, "navto") && LastCompletes(w, pieces)
    requires t == w + Concat(pieces) && Whole(t)
    ensures Served(Feed(c, pieces), FieldsOf(t), c.notified)
  {
    var d, u, chunk := PiecesUntilLast(c, w, pieces);
    ChunkRead(d, u, chunk);
  }

  /** The same on a connection that still carries text of a request before: that text is read first. */
  lemma PiecesServeAsAtOnce(c: Conn, w: string, pieces: seq<string>, t: string)
    requires Carrying(c, w) && MatchAt(w, 0, "navto") && LastCompletes(w, pieces)
    requires t == w + Concat(pieces) && Whole(t)
    ensures Served(Feed(c, pieces), FieldsOf(t), c.notified)
    ensures Served(Feed(c, [Concat(pieces)]), FieldsOf(t), c.notified)
  {
    PiecesServed(c, w, pieces, t);
    AtOnceCompletes(w, pieces);
    OnePiece(w, [Concat(pieces)]);
    PiecesServed(c, w, [Concat(pieces)], t);
  }

  /** What a request that came in several chunks leaves behind: its text before the last chunk. */
  function LeftBehind(text: string, last: string): string
    requires KeywordIn(text) + |last| <= |text|
  {
    text[KeywordIn(text)..|text| - |last|]
  }

  /** Serving a request does not drop the text carried over for it. */
  lemma ServedStillCarries(c: Conn, junk: seq<string>, first: string, rest: seq<string>, text: string)
    requires InChunks(c, junk, first, rest, text) && rest != []
    ensures KeywordIn(text) + |rest[|rest| - 1]| <= |text|
    ensures var r, w := Feed(c, junk + [first] + rest), LeftBehind(text, rest[|rest| - 1]);
            && MatchAt(w, 0, "navto")
            && (r.Alive? ==> Carrying(r.conn, w) && r.conn.status == 1 && r.conn.notified == c.notified + 1)
  {
    var d, u, chunk := ChunksUntilLast(c, junk, first, rest, text);
    ChunkServedExactly(d, u, chunk);
    TextBeforeLast(text, u, chunk);
  }

  lemma TextBeforeLast(text: string, u: string, chunk: string)
    requires text[KeywordIn(text)..] == u + chunk
    ensures KeywordIn(text) + |chunk| <= |text| && LeftBehind(text, chunk) == u
  {
    assert text[KeywordIn(text)..][..|u|] == text[KeywordIn(text)..|text| - |chunk|];
  }

  lemma AtOnceCompletes(w: string, pieces: seq<string>)
    requires LastCompletes(w, pieces)
    ensures LastCompletes(w, [Concat(pieces)])
  {
    OnePiece(w, [Concat(pieces)]);
    assert [Concat(pieces)][..0] == [];
  }

  lemma SplitText(junk: seq<string>, first: string, rest: seq<string>, text: string)
    requires NonEmpty(junk) && text == Concat(junk + [first] + rest) && |text| <= MAXBUF
    requires KeywordInside(junk, first, text)
    ensures forall k | 0 <= k < |junk| :: NoKeywordIn(junk[k])
    ensures KeywordIn(first) + |Concat(junk)| == KeywordIn(text) && KeywordIn(first) < |first|
  {
    TextOfChunks(junk, first, rest);
    KeywordOfChunk(junk, first, Concat(rest), text);
  }

  lemma SplitTail(junk: seq<string>, first: string, rest: seq<string>, text: string)
    requires text == Concat(junk + [first] + rest)
    requires KeywordIn(first) + |Concat(junk)| == KeywordIn(text) && KeywordIn(first) < |first|
    ensures text[KeywordIn(text)..] == first[KeywordIn(first)..] + Concat(rest)
    ensures |text| == |Concat(junk)| + |first + Concat(rest)|
  {
    TextOfChunks(junk, first, rest);
    TextFromKeyword(Concat(junk), first, Concat(rest), KeywordIn(first));
  }

  // ---------------------------------------------------------------- when the keyword is split

  /** Every chunk fits the receive window it meets. */
  ghost predicate Deliverable(c: Conn, chunks: seq<string>)
    decreases |chunks|
  {
    chunks != [] ==>
      && |c.buf| == MAXBUF + 1 && 0 < |chunks[0]| <= MAXBUF - c.offset
      && (Receive(c, chunks[0]).Alive? ==> Deliverable(Receive(c, chunks[0]).conn, chunks[1..]))
  }

  /** Nothing came of it: no text kept, no value read, nobody notified. */
  ghost predicate Untouched(c: Conn, r: Received) {
    r.Alive? && r.conn.offset == 0 && SameResult(c, r.conn)
  }

  /** Text kept, or a request handed on. */
  ghost predicate Noticed(d: Conn, before: nat) {
    d.offset > 0 || d.notified > before
  }

  lemma AfterKeepsNoticed(c: Conn, p: string, r: Parsed, before: nat)
    requires Noticed(c, before) && Carried(p, r) && After(c, p, r).Alive?
    ensures Noticed(After(c, p, r).conn, before)
  {
  }

  lemma ReceiveKeepsNoticed(c: Conn, chunk: string, before: nat)
    requires Noticed(c, before) && |c.buf| == MAXBUF + 1 && c.offset + |chunk| <= MAXBUF
    ensures Receive(c, chunk).Alive? ==> Noticed(Receive(c, chunk).conn, before)
  {
    var p := Filled(c, chunk);
    ParseCarries(p, c.offset + |chunk|, c.fields);
    if Receive(c, chunk).Alive? {
      AfterKeepsNoticed(c, p, Parse(p, c.offset + |chunk|, c.fields), before);
    }
  }

  lemma {:induction false} FeedKeepsNoticed(c: Conn, chunks: seq<string>, before: nat)
    requires Noticed(c, before)
    ensures Feed(c, chunks).Alive? ==> Noticed(Feed(c, chunks).conn, before)
    decreases |chunks|
  {
    if chunks != [] && Feed(c, chunks).Alive? {
      ReceiveKeepsNoticed(c, chunks[0], before);
      FeedKeepsNoticed(Receive(c, chunks[0]).conn, chunks[1..], before);
    }
  }

  lemma FoundNoticed(c: Conn, p: string, i: nat, len: nat)
    requires i < len < |p|
    ensures var r := After(c, p, ParseFrom(p, i, len, c.fields)); r.Alive? ==> Noticed(r.conn, c.notified)
  {
  }

  lemma KeywordNoticed(c: Conn, chunk: string)
    requires Carrying(c, "") && |chunk| <= MAXBUF && KeywordIn(chunk) < |chunk|
    ensures Receive(c, chunk).Alive? ==> Noticed(Receive(c, chunk).conn, c.notified)
  {
    assert "" + chunk == chunk;
    ReceiveFromKeyword(c, "", chunk);
    FoundNoticed(c, Filled(c, chunk), KeywordIn(chunk), |chunk|);
  }

  lemma KeywordNeverUntouched(c: Conn, chunks: seq<string>)
    requires Carrying(c, "") && chunks != [] && |chunks[0]| <= MAXBUF && KeywordIn(chunks[0]) < |chunks[0]|
    ensures !Untouched(c, Feed(c, chunks))
  {
    if Feed(c, chunks).Alive? {
      KeywordNoticed(c, chunks[0]);
      FeedKeepsNoticed(Receive(c, chunks[0]).conn, chunks[1..], c.notified);
    }
  }

  /** What the peer sent is lost without a trace exactly when no single chunk holds the keyword,
      whether or not the chunks together do. */
  lemma {:induction false} LostExactlyWhenNoChunkHoldsKeyword(c: Conn, chunks: seq<string>)
    requires Carrying(c, "") && Deliverable(c, chunks)
    ensures Untouched(c, Feed(c, chunks)) <==> forall k | 0 <= k < |chunks| :: KeywordIn(chunks[k]) == |chunks[k]|
    decreases |chunks|
  {
    if chunks != [] {
      if KeywordIn(chunks[0]) < |chunks[0]| {
        KeywordNeverUntouched(c, chunks);
      } else {
        var d := JunkChunk(c, chunks[0]);
        LostExactlyWhenNoChunkHoldsKeyword(d, chunks[1..]);
      }
    }
  }

  ghost predicate OnlyKeyword(text: string, i: nat) {
    MatchAt(text, i, "navto") && forall at: nat | at != i :: !MatchAt(text, at, "navto")
  }

  lemma CutHasNoKeyword(text: string, i: nat, cut: nat)
    requires OnlyKeyword(text, i) && i < cut < i + 5
    ensures KeywordIn(text[..cut]) == cut && KeywordIn(text[cut..]) == |text| - cut
  {
    var a, b := text[..cut], text[cut..];
    assert text == a + b;
    forall at: nat
      ensures !MatchAt(a, at, "navto") && !MatchAt(b, at, "navto")
    {
      if MatchAt(a, at, "navto") {
        MatchInPart(a, b, at);
      }
      MatchBehind(a, b, at);
    }
    FirstUnique(a, "navto", 0, |a|, |a|);
    FirstUnique(b, "navto", 0, |b|, |b|);
  }

  /** Any request cut inside its keyword is lost, however it goes on. */
  lemma CutInsideKeywordIsLost(c: Conn, text: string, i: nat, cut: nat)
    requires Carrying(c, "") && OnlyKeyword(text, i) && i < cut < i + 5 && |text| <= MAXBUF
    ensures Untouched(c, Feed(c, [text[..cut], text[cut..]]))
  {
    CutHasNoKeyword(text, i, cut);
    var chunks := [text[..cut], text[cut..]];
    var d := FeedJunk(c, chunks, []);
    assert chunks + [] == chunks;
  }
}
