/** What parse finds depends only on the text from the keyword on, so feeding a request in pieces
    and feeding it at once agree; and where that stops being true. */
module RequestChunks {
  import opened CStrings
  import opened RequestText

  const MIN_TEXT := IN_DATA_LEN + 6

  // ---------------------------------------------------------------- buffers and texts

  ghost predicate Keyword(kw: string) {
    forall k | 0 <= k < |kw| :: ' ' < kw[k]
  }

  /** p begins with the text t and a terminator; what follows is left over. */
  ghost predicate Begins(p: string, t: string) {
    |t| < |p| && p[|t|] == NUL && forall k | 0 <= k < |t| :: p[k] == t[k]
  }

  lemma MatchInText(p: string, t: string, at: nat, kw: string)
    requires Begins(p, t) && Keyword(kw) && at <= |t|
    ensures MatchAt(p, at, kw) <==> MatchAt(t, at, kw)
  {
    if MatchAt(p, at, kw) {
      MatchBeforeTerminator(p, at, kw, |t|);
    }
  }

  lemma FirstInText(p: string, t: string, from: nat, kw: string)
    requires Begins(p, t) && Keyword(kw) && from <= |t|
    ensures First(p, kw, from, |t|) == First(t, kw, from, |t|)
  {
    var f := First(t, kw, from, |t|);
    FirstIsFirst(t, kw, from, |t|);
    MatchInText(p, t, f, kw);
    forall at: nat | from <= at < f
      ensures !MatchAt(p, at, kw)
    {
      MatchInText(p, t, at, kw);
    }
    FirstUnique(p, kw, from, |t|, f);
  }

  lemma {:induction false} CoordInText(p: string, t: string, at: nat, k: nat)
    requires Begins(p, t) && k <= GPS_LEN && CoordLength(t, at, k) != PAST
    ensures CoordLength(p, at, k) == CoordLength(t, at, k)
    decreases GPS_LEN - k
  {
    assert p[at + k] == t[at + k];
    if !Ends(t[at + k]) && k < GPS_LEN {
      CoordInText(p, t, at, k + 1);
    }
  }

  lemma {:induction false} CoordLengthIsFirstEnd(p: string, at: nat, k: nat)
    requires at + GPS_LEN < |p| && k <= GPS_LEN
    ensures var n := CoordLength(p, at, k);
            && k <= n <= GPS_LEN && (n < GPS_LEN ==> Ends(p[at + n]))
            && forall j | at + k <= j < at + n :: !Ends(p[j])
    decreases GPS_LEN - k
  {
    if !Ends(p[at + k]) && k < GPS_LEN {
      CoordLengthIsFirstEnd(p, at, k + 1);
    }
  }

  /** A coordinate is read up to its first space or ampersand exactly when one comes early enough;
      otherwise the old value stays. */
  lemma CoordReadExactlyWhenShort(p: string, at: nat, was: string)
    requires at + GPS_LEN < |p|
    ensures var n := CoordLength(p, at, 0);
            && n != PAST && (n < GPS_LEN <==> exists j :: at <= j < at + GPS_LEN && Ends(p[j]))
            && (n < GPS_LEN ==> Coord(p, at, was) == CString(p[at..at + n]) && Ends(p[at + n])
                                && forall j | at <= j < at + n :: !Ends(p[j]))
            && (n == GPS_LEN ==> Coord(p, at, was) == was)
  {
    CoordLengthIsFirstEnd(p, at, 0);
  }

  // ---------------------------------------------------------------- texts that stand on their own

  /** The coordinate at `at` ends inside the text within ten characters. */
  predicate CoordInside(t: string, at: nat) {
    CoordLength(t, at, 0) < GPS_LEN
  }

  /** All four keywords are there, with their values inside the text. */
  predicate WholeAt(t: string, at: Places) {
    && at.s + 7 + SERIAL_LEN <= |t| && at.m + 4 + MD5_LEN <= |t|
    && at.x < |t| && CoordInside(t, at.x + 7) && at.y < |t| && CoordInside(t, at.y + 7)
  }

  predicate Whole(t: string) {
    |t| >= 6 && WholeAt(t, Find(t, 6, |t|))
  }

  function CoordOf(t: string, at: nat): string
    requires CoordInside(t, at)
  {
    Held(t, at, CoordLength(t, at, 0))
  }

  function FieldsAt(t: string, at: Places): Fields
    requires WholeAt(t, at)
  {
    Fields(Held(t, at.s + 7, SERIAL_LEN), Held(t, at.m + 4, MD5_LEN), CoordOf(t, at.x + 7), CoordOf(t, at.y + 7))
  }

  /** The four values of a whole text, read off the text alone. */
  function FieldsOf(t: string): Fields
    requires Whole(t)
  {
    FieldsAt(t, Find(t, 6, |t|))
  }

  lemma SliceInText(p: string, t: string, from: nat, count: nat)
    requires Begins(p, t) && from + count <= |t|
    ensures Slice(p, from, count) == Slice(t, from, count)
  {
    forall k | 0 <= k < count
      ensures Slice(p, from, count)[k] == Slice(t, from, count)[k]
    {
      assert p[from + k] == t[from + k];
    }
  }

  /** The copies made at these places stay inside the buffer. */
  ghost predicate Inside(p: string, at: Places, len: nat) {
    && at.s + 7 + SERIAL_LEN <= len <= |p| && at.m + 4 + MD5_LEN <= len && at.x < len && at.y < len
    && CoordLength(p, at.x + 7, 0) != PAST && CoordLength(p, at.y + 7, 0) != PAST
  }

  lemma InsideText(p: string, t: string, at: Places)
    requires Begins(p, t) && WholeAt(t, at)
    ensures Inside(p, at, |t|)
  {
    CoordInText(p, t, at.x + 7, 0);
    CoordInText(p, t, at.y + 7, 0);
  }

  lemma SerialInText(p: string, t: string, at: Places, was: Fields)
    requires Begins(p, t) && WholeAt(t, at) && Inside(p, at, |t|)
    ensures Copied(p, at, |t|, was).serial == FieldsAt(t, at).serial
  {
    SliceInText(p, t, at.s + 7, SERIAL_LEN);
  }

  lemma Md5InText(p: string, t: string, at: Places, was: Fields)
    requires Begins(p, t) && WholeAt(t, at) && Inside(p, at, |t|)
    ensures Copied(p, at, |t|, was).md5 == FieldsAt(t, at).md5
  {
    SliceInText(p, t, at.m + 4, MD5_LEN);
  }

  lemma XInText(p: string, t: string, at: Places, was: Fields)
    requires Begins(p, t) && WholeAt(t, at) && Inside(p, at, |t|)
    ensures Copied(p, at, |t|, was).x == FieldsAt(t, at).x
  {
    CoordInText(p, t, at.x + 7, 0);
    SliceInText(p, t, at.x + 7, CoordLength(t, at.x + 7, 0));
  }

  lemma YInText(p: string, t: string, at: Places, was: Fields)
    requires Begins(p, t) && WholeAt(t, at) && Inside(p, at, |t|)
    ensures Copied(p, at, |t|, was).y == FieldsAt(t, at).y
  {
    CoordInText(p, t, at.y + 7, 0);
    SliceInText(p, t, at.y + 7, CoordLength(t, at.y + 7, 0));
  }

  lemma FieldsInText(p: string, t: string, at: Places, was: Fields)
    requires Begins(p, t) && WholeAt(t, at)
    ensures Inside(p, at, |t|) && Copied(p, at, |t|, was) == FieldsAt(t, at)
  {
    InsideText(p, t, at);
    SerialInText(p, t, at, was);
    Md5InText(p, t, at, was);
    XInText(p, t, at, was);
    YInText(p, t, at, was);
  }

  /** Parsing a whole text, whatever follows it in the buffer. */
  lemma WholeTextParses(p: string, t: string, was: Fields)
    requires Begins(p, t) && Whole(t)
    ensures ParseFields(p, |t|, was) == Complete(FieldsOf(t))
  {
    FindInText(p, t);
    FieldsInText(p, t, Find(t, 6, |t|), was);
  }

  lemma EnoughText(p: string, i: nat, len: nat, r: string, n: nat, was: Fields)
    requires i + MIN_TEXT <= len < |p| && r == p[i..] && n == len - i
    ensures ParseFrom(p, i, len, was) == ParseFields(r, n, was)
  {
    FromKeyword(p, i, len, was);
    SameParse(p[i..], r, len - i, n, was);
  }

  lemma FromKeyword(p: string, i: nat, len: nat, was: Fields)
    requires i + MIN_TEXT <= len < |p|
    ensures ParseFrom(p, i, len, was) == ParseFields(p[i..], len - i, was)
  {
  }

  lemma SameParse(p: string, q: string, m: nat, n: nat, was: Fields)
    requires p == q && m == n && 6 <= n < |p|
    ensures ParseFields(p, m, was) == ParseFields(q, n, was)
  {
  }

  lemma FindInText(p: string, t: string)
    requires Begins(p, t) && |t| >= 6
    ensures Find(p, 6, |t|) == Find(t, 6, |t|)
  {
    FirstInText(p, t, 6, "serial");
    FirstInText(p, t, 6, "md5");
    FirstInText(p, t, 6, "xbaidu");
    FirstInText(p, t, 6, "ybaidu");
  }

  // ---------------------------------------------------------------- one chunk

  function KeywordIn(text: string): nat {
    First(text, "navto", 0, |text|)
  }

  /** The connection has carried over exactly the text u. */
  ghost predicate Carrying(c: Conn, u: string) {
    c.Valid() && c.offset == |u| && c.buf[..c.offset] == u
  }

  /** What recv leaves in the buffer: the carried-over text, the chunk, a terminator, and then what was there. */
  lemma FilledIs(c: Conn, u: string, chunk: string)
    requires Carrying(c, u) && |u + chunk| <= MAXBUF
    ensures var p, n := Filled(c, chunk), |u + chunk|;
            && p[..|u|] == u && p[|u|..n] == chunk && p[n] == NUL && p[n + 1..] == c.buf[n + 1..]
  {
    assert forall k | 0 <= k < |u| :: Filled(c, chunk)[k] == c.buf[..c.offset][k];
  }

  lemma FilledBegins(c: Conn, u: string, chunk: string, i: nat)
    requires Carrying(c, u) && |u + chunk| <= MAXBUF && i <= |u + chunk|
    ensures Begins(Filled(c, chunk)[i..], (u + chunk)[i..])
  {
    var p, n := Filled(c, chunk), |u + chunk|;
    forall k | 0 <= k < n - i
      ensures p[i..][k] == (u + chunk)[i..][k]
    {
      assert p[..n][i + k] == (u + chunk)[i + k];
    }
  }

  /** A receive parses from the keyword of the carried-over text and the chunk together. */
  lemma ReceiveFromKeyword(c: Conn, u: string, chunk: string)
    requires Carrying(c, u) && |u + chunk| <= MAXBUF
    ensures Receive(c, chunk) ==
            After(c, Filled(c, chunk), ParseFrom(Filled(c, chunk), KeywordIn(u + chunk), |u + chunk|, c.fields))
  {
    KeywordInBuffer(c, u, chunk);
  }

  lemma KeywordInBuffer(c: Conn, u: string, chunk: string)
    requires Carrying(c, u) && |u + chunk| <= MAXBUF
    ensures First(Filled(c, chunk), "navto", 0, |u + chunk|) == KeywordIn(u + chunk)
  {
    FilledBegins(c, u, chunk, 0);
    assert (u + chunk)[0..] == u + chunk && Filled(c, chunk)[0..] == Filled(c, chunk);
    FirstInText(Filled(c, chunk), u + chunk, 0, "navto");
  }

  /** Text without the keyword is dropped: the next receive overwrites it. */
  lemma ChunkDropped(c: Conn, u: string, chunk: string)
    requires Carrying(c, u) && |u + chunk| <= MAXBUF && KeywordIn(u + chunk) == |u + chunk|
    ensures Receive(c, chunk) == Alive(c.(buf := Filled(c, chunk)))
  {
    ReceiveFromKeyword(c, u, chunk);
  }

  /** A short text is carried over from its keyword on, terminated; the buffer behind it stays. */
  lemma ChunkCarried(c: Conn, u: string, chunk: string)
    requires Carrying(c, u) && |u + chunk| <= MAXBUF
    requires KeywordIn(u + chunk) < |u + chunk| < KeywordIn(u + chunk) + MIN_TEXT
    ensures Receive(c, chunk).Alive?
    ensures var d := Receive(c, chunk).conn;
            && Carrying(d, (u + chunk)[KeywordIn(u + chunk)..])
            && d.fields == c.fields && d.status == c.status && d.notified == c.notified
            && d.buf[d.offset] == NUL && forall k | d.offset < k < |d.buf| :: d.buf[k] == Filled(c, chunk)[k]
  {
    ReceiveFromKeyword(c, u, chunk);
    ReceiveKeepsValid(c, chunk);
    FilledBegins(c, u, chunk, KeywordIn(u + chunk));
  }

  /** The text from its keyword on, and the buffer from there on. */
  function TextFrom(u: string, chunk: string): string {
    (u + chunk)[KeywordIn(u + chunk)..]
  }

  function BufferFrom(c: Conn, u: string, chunk: string): string
    requires |c.buf| == MAXBUF + 1 && c.offset == |u| && |u + chunk| <= MAXBUF
  {
    Filled(c, chunk)[KeywordIn(u + chunk)..]
  }

  /** A long enough text is parsed from its keyword on. */
  lemma ChunkParsed(c: Conn, u: string, chunk: string)
    requires Carrying(c, u) && |u + chunk| <= MAXBUF && KeywordIn(u + chunk) + MIN_TEXT <= |u + chunk|
    ensures |TextFrom(u, chunk)| >= MIN_TEXT && Begins(BufferFrom(c, u, chunk), TextFrom(u, chunk))
    ensures Receive(c, chunk) ==
            After(c, Filled(c, chunk), ParseFields(BufferFrom(c, u, chunk), |TextFrom(u, chunk)|, c.fields))
  {
    FilledBegins(c, u, chunk, KeywordIn(u + chunk));
    ChunkOutcome(c, u, chunk, BufferFrom(c, u, chunk), |TextFrom(u, chunk)|);
  }

  lemma ChunkOutcome(c: Conn, u: string, chunk: string, r: string, n: nat)
    requires Carrying(c, u) && |u + chunk| <= MAXBUF && KeywordIn(u + chunk) + MIN_TEXT <= |u + chunk|
    requires r == Filled(c, chunk)[KeywordIn(u + chunk)..] && n == |u + chunk| - KeywordIn(u + chunk)
    ensures Receive(c, chunk) == After(c, Filled(c, chunk), ParseFields(r, n, c.fields))
  {
    ReceiveFromKeyword(c, u, chunk);
    EnoughText(Filled(c, chunk), KeywordIn(u + chunk), |u + chunk|, r, n, c.fields);
  }

  lemma ExtractAlive(c: Conn, p: string, r: string, at: Places, len: nat)
    ensures var s := After(c, p, Extract(r, at, len, c.fields));
            && (s.Alive? <==> Copies(r, at, len))
            && (s.Alive? ==> s.conn == Conn(p, c.offset, Copied(r, at, len, c.fields), 1, c.notified + 1))
  {
  }

  /** f is what stands in the buffer r behind the keys: fifteen and thirty-two characters as C strings, and
      two coordinates; the second one stays as it was without its key. */
  ghost predicate TakenFrom(r: string, at: Places, len: nat, was: Fields, f: Fields)
    requires Copies(r, at, len)
  {
    && f.serial == CString(r[at.s + 7..at.s + 22]) && f.md5 == CString(r[at.m + 4..at.m + 36])
    && CoordTaken(r, at.x + 7, was.x, f.x)
    && if at.y < len then CoordTaken(r, at.y + 7, was.y, f.y) else f.y == was.y
  }

  /** v is the C string before the first space or ampersand, and the old value if none of the next eleven
      characters is one. */
  ghost predicate CoordTaken(r: string, b: nat, was: string, v: string) {
    || (&& v == was && b + GPS_LEN < |r| && forall j | b <= j < b + GPS_LEN :: !Ends(r[j]))
    || (exists n :: && b <= n < b + GPS_LEN && n < |r| && Ends(r[n]) && v == CString(r[b..n])
                    && forall j | b <= j < n :: !Ends(r[j]))
  }

  lemma {:induction false} CoordStops(p: string, at: nat, k: nat)
    requires k <= GPS_LEN && CoordLength(p, at, k) != PAST
    ensures var n := CoordLength(p, at, k);
            && k <= n <= GPS_LEN && at + n < |p| && (n < GPS_LEN ==> Ends(p[at + n]))
            && forall j | at + k <= j < at + n :: !Ends(p[j])
    decreases GPS_LEN - k
  {
    if !Ends(p[at + k]) && k < GPS_LEN {
      CoordStops(p, at, k + 1);
    }
  }

  lemma CoordIsTaken(r: string, b: nat, was: string)
    requires CoordLength(r, b, 0) != PAST
    ensures CoordTaken(r, b, was, Coord(r, b, was))
  {
    CoordStops(r, b, 0);
    var n := CoordLength(r, b, 0);
    if n < GPS_LEN {
      assert Coord(r, b, was) == CString(r[b..b + n]);
    }
  }

  lemma CopiedIsTaken(r: string, at: Places, len: nat, was: Fields)
    requires Copies(r, at, len)
    ensures TakenFrom(r, at, len, was, Copied(r, at, len, was))
  {
    CoordIsTaken(r, at.x + 7, was.x);
    if at.y < len {
      CoordIsTaken(r, at.y + 7, was.y);
    }
  }

  /** A long enough text is served exactly when the serial, md5 and xbaidu keys are there and nothing
      is read outside the buffer; a missing or endless coordinate does not prevent it. The carried-over
      text stays carried over. */
  lemma ChunkServedExactly(c: Conn, u: string, chunk: string)
    requires Carrying(c, u) && |u + chunk| <= MAXBUF && KeywordIn(u + chunk) + MIN_TEXT <= |u + chunk|
    ensures |TextFrom(u, chunk)| >= MIN_TEXT
    ensures var t, r := TextFrom(u, chunk), BufferFrom(c, u, chunk);
            && (Receive(c, chunk).Alive? <==> Copies(r, Find(t, 6, |t|), |t|))
            && (Receive(c, chunk).Alive? ==>
                  var d := Receive(c, chunk).conn;
                  && TakenFrom(r, Find(t, 6, |t|), |t|, c.fields, d.fields)
                  && d.status == 1 && d.notified == c.notified + 1 && Carrying(d, u))
  {
    ChunkParsed(c, u, chunk);
    var t, r := TextFrom(u, chunk), BufferFrom(c, u, chunk);
    FindInText(r, t);
    ExtractAlive(c, Filled(c, chunk), r, Find(t, 6, |t|), |t|);
    if Copies(r, Find(t, 6, |t|), |t|) {
      CopiedIsTaken(r, Find(t, 6, |t|), |t|, c.fields);
    }
    ReceiveKeepsValid(c, chunk);
    assert Filled(c, chunk)[..|u|] == Filled(c, chunk)[..|u + chunk|][..|u|];
  }

  /** With all four values inside, these are the values read, and the workers are told once. */
  lemma ChunkRead(c: Conn, u: string, chunk: string)
    requires Carrying(c, u) && |u + chunk| <= MAXBUF
    requires KeywordIn(u + chunk) + MIN_TEXT <= |u + chunk| && Whole((u + chunk)[KeywordIn(u + chunk)..])
    ensures Receive(c, chunk).Alive?
    ensures var d := Receive(c, chunk).conn;
            && d.fields == FieldsOf((u + chunk)[KeywordIn(u + chunk)..])
            && d.status == 1 && d.notified == c.notified + 1
  {
    ChunkParsed(c, u, chunk);
    WholeTextParses(BufferFrom(c, u, chunk), TextFrom(u, chunk), c.fields);
  }
}
