/** What CClient::receive and parse do to a connection's buffer, on values.
    A buffer is the MAXBUF + 1 characters of iobuf; everything after the terminator is left over
    from earlier data and can be read by the copies, so the buffer is kept whole. */
module RequestText {
  import opened CStrings

  const MAXBUF := 4096
  const IN_DATA_LEN := 87
  const SERIAL_LEN := 15
  const MD5_LEN := 32
  const GPS_LEN := 11

  /** The values of a request, as the C strings in their buffers. */
  datatype Fields = Fields(serial: string, md5: string, x: string, y: string) {
    ghost predicate CStringsOnly() {
      Without(serial, NUL) && Without(md5, NUL) && Without(x, NUL) && Without(y, NUL)
    }
  }

  // ---------------------------------------------------------------- keyword scans

  /** Letters match in either case, anything else exactly. */
  predicate Same(c: char, k: char) {
    c == k || ('a' <= k <= 'z' && c as int == k as int - 32)
  }

  predicate MatchAt(p: string, at: nat, kw: string) {
    at + |kw| <= |p| && forall k | 0 <= k < |kw| :: Same(p[at + k], kw[k])
  }

  function LowerChar(c: char): char {
    if 'A' <= c <= 'Z' then (c as int + 32) as char else c
  }

  function Lower(s: string): string {
    seq(|s|, i requires 0 <= i < |s| => LowerChar(s[i]))
  }

  lemma SameIsLower(c: char, k: char)
    requires !('A' <= k <= 'Z')
    ensures Same(c, k) <==> LowerChar(c) == k
  {
  }

  /** A keyword, which has no capital letters, is matched by exactly the texts that are the keyword once
      their letters are made lower case. */
  lemma MatchIsLower(p: string, at: nat, kw: string)
    requires forall k | 0 <= k < |kw| :: !('A' <= kw[k] <= 'Z')
    ensures MatchAt(p, at, kw) <==> at + |kw| <= |p| && Lower(p[at..at + |kw|]) == kw
  {
    if at + |kw| <= |p| {
      var l := Lower(p[at..at + |kw|]);
      forall k | 0 <= k < |kw|
        ensures Same(p[at + k], kw[k]) <==> l[k] == kw[k]
      {
        SameIsLower(p[at + k], kw[k]);
      }
    }
  }

  /** The first place from `from` on, before len, where the keyword starts; len if there is none. */
  function First(p: string, kw: string, from: nat, len: nat): (r: nat)
    requires from <= len <= |p|
    ensures from <= r <= len
    decreases len - from
  {
    if from == len || MatchAt(p, from, kw) then from else First(p, kw, from + 1, len)
  }

  lemma {:induction false} FirstIsFirst(p: string, kw: string, from: nat, len: nat)
    requires from <= len <= |p|
    ensures var r := First(p, kw, from, len);
            && (r < len ==> MatchAt(p, r, kw))
            && forall at: nat | from <= at < r :: !MatchAt(p, at, kw)
    decreases len - from
  {
    if from < len && !MatchAt(p, from, kw) {
      FirstIsFirst(p, kw, from + 1, len);
    }
  }

  lemma {:induction false} FirstUnique(p: string, kw: string, from: nat, len: nat, r: nat)
    requires from <= r <= len <= |p|
    requires forall at: nat | from <= at < r :: !MatchAt(p, at, kw)
    requires r < len ==> MatchAt(p, r, kw)
    ensures First(p, kw, from, len) == r
    decreases r - from
  {
    if from < r {
      FirstUnique(p, kw, from + 1, len, r);
    }
  }

  /** No keyword contains a terminator, so a match ends before it. */
  lemma MatchBeforeTerminator(p: string, at: nat, kw: string, len: nat)
    requires MatchAt(p, at, kw) && at <= len < |p| && p[len] == NUL
    requires forall k | 0 <= k < |kw| :: ' ' < kw[k]
    ensures at + |kw| <= len
  {
    forall j | at <= j < at + |kw|
      ensures p[j] != NUL
    {
      assert Same(p[at + (j - at)], kw[j - at]);
    }
  }

  // ---------------------------------------------------------------- field extraction

  predicate Ends(c: char) {
    c == ' ' || c == '&'
  }

  const PAST := GPS_LEN + 1

  /** How far the coordinate loop runs from `at`: to a space or ampersand, at most GPS_LEN.
      PAST when it reads past the buffer. The character is read before the bound is tested. */
  function CoordLength(p: string, at: nat, k: nat): (r: nat)
    requires k <= GPS_LEN
    ensures r == PAST || (k <= r <= GPS_LEN && at + r < |p|)
    decreases |p| + GPS_LEN - k
  {
    if at + k >= |p| then PAST
    else if Ends(p[at + k]) || k == GPS_LEN then k
    else CoordLength(p, at, k + 1)
  }

  /** OutOfBuffer: a copy or a scan leaves iobuf. Aborted: an assert of the code fails. */
  datatype Parsed =
    | NoKeyword
    | Partial(buf: string, offset: nat)
    | Aborted
    | OutOfBuffer
    | Complete(fields: Fields)

  /** A coordinate longer than ten characters leaves the field as it was. */
  function Coord(p: string, at: nat, was: string): string
    requires CoordLength(p, at, 0) != PAST
  {
    var n := CoordLength(p, at, 0);
    if n < GPS_LEN then Held(p, at, n) else was
  }

  /** Where the four keywords start; the length of the text for one that is missing. */
  datatype Places = Places(s: nat, m: nat, x: nat, y: nat)

  function Find(p: string, from: nat, len: nat): Places
    requires from <= len <= |p|
  {
    Places(First(p, "serial", from, len), First(p, "md5", from, len),
           First(p, "xbaidu", from, len), First(p, "ybaidu", from, len))
  }

  /** count characters from `from` on, as memcpy takes them. */
  function Slice(p: string, from: nat, count: nat): (r: string)
    requires from + count <= |p|
    ensures |r| == count
  {
    p[from..from + count]
  }

  /** The C string in a field after count characters were copied to it and terminated. */
  function Held(p: string, from: nat, count: nat): string
    requires from + count <= |p|
  {
    CString(Slice(p, from, count))
  }

  /** The copies, when all of them stay inside the buffer. */
  function Copied(p: string, at: Places, len: nat, was: Fields): Fields
    requires at.s + 7 + SERIAL_LEN <= |p| && at.m + 4 + MD5_LEN <= |p|
    requires CoordLength(p, at.x + 7, 0) != PAST && (at.y < len ==> CoordLength(p, at.y + 7, 0) != PAST)
  {
    Fields(Held(p, at.s + 7, SERIAL_LEN), Held(p, at.m + 4, MD5_LEN), Coord(p, at.x + 7, was.x),
           if at.y < len then Coord(p, at.y + 7, was.y) else was.y)
  }

  function Extract(p: string, at: Places, len: nat, was: Fields): Parsed {
    if at.s >= len then Aborted
    else if at.s + 7 + SERIAL_LEN > |p| then OutOfBuffer
    else if at.m >= len then Aborted
    else if at.m + 4 + MD5_LEN > |p| then OutOfBuffer
    else if at.x >= len then Aborted
    else if CoordLength(p, at.x + 7, 0) == PAST then OutOfBuffer
    else if at.y < len && CoordLength(p, at.y + 7, 0) == PAST then OutOfBuffer
    else Complete(Copied(p, at, len, was))
  }

  /** All the copies stay inside the buffer. */
  ghost predicate Copies(p: string, at: Places, len: nat) {
    IdsFit(p, at, len) && CoordsFit(p, at, len)
  }

  ghost predicate IdsFit(p: string, at: Places, len: nat) {
    at.s < len && at.s + 7 + SERIAL_LEN <= |p| && at.m < len && at.m + 4 + MD5_LEN <= |p|
  }

  ghost predicate CoordsFit(p: string, at: Places, len: nat) {
    at.x < len && CoordLength(p, at.x + 7, 0) != PAST && (at.y < len ==> CoordLength(p, at.y + 7, 0) != PAST)
  }

  /** parse, once the terminator stands at p[len]. */
  function Parse(p: string, len: nat, was: Fields): Parsed
    requires len < |p|
  {
    ParseFrom(p, First(p, "navto", 0, len), len, was)
  }

  /** The part of parse after the keyword has been found at i, or not found when i is len.
      Places are counted from the keyword. */
  function ParseFrom(p: string, i: nat, len: nat, was: Fields): Parsed
    requires i <= len < |p|
  {
    if i == len then NoKeyword
    else if i + 6 + IN_DATA_LEN > len then Partial(Kept(p, i, len), len - i)
    else ParseFields(p[i..], len - i, was)
  }

  /** The text from i on moved to the front and terminated; the rest of the buffer stays. */
  function Kept(p: string, i: nat, len: nat): (q: string)
    requires i <= len < |p|
    ensures |q| == |p|
  {
    seq(|p|, k requires 0 <= k < |p| => if k < len - i then p[i + k] else if k == len - i then NUL else p[k])
  }

  /** The part of parse for enough text: p starts with the keyword, len is the terminator's place. */
  function ParseFields(p: string, len: nat, was: Fields): Parsed
    requires 6 <= len < |p|
  {
    Extract(p, Find(p, 6, len), len, was)
  }

  // ---------------------------------------------------------------- a connection

  datatype Conn = Conn(buf: string, offset: nat, fields: Fields, status: nat, notified: nat) {
    /** Room for data behind the carried-over text, and that text starts with the keyword. */
    ghost predicate Valid() {
      && |buf| == MAXBUF + 1 && fields.CStringsOnly()
      && offset <= IN_DATA_LEN + 5
      && (offset > 0 ==> offset >= 5 && MatchAt(buf, 0, "navto"))
    }
  }

  /** What recv wrote and parse terminated. */
  function Filled(c: Conn, chunk: string): (p: string)
    requires |c.buf| == MAXBUF + 1 && c.offset + |chunk| <= MAXBUF
    ensures |p| == MAXBUF + 1 && p[c.offset + |chunk|] == NUL
  {
    var len := c.offset + |chunk|;
    seq(|c.buf|, k requires 0 <= k < |c.buf| =>
      if c.offset <= k < len then chunk[k - c.offset] else if k == len then NUL else c.buf[k])
  }

  datatype Received = Alive(conn: Conn) | Dead

  /** One receive of a non-empty chunk; Dead when the process stops or leaves its buffer. */
  function Receive(c: Conn, chunk: string): Received
    requires |c.buf| == MAXBUF + 1 && c.offset + |chunk| <= MAXBUF
  {
    Settled(c, Filled(c, chunk), c.offset + |chunk|)
  }

  /** The connection once parse has returned. */
  function Settled(c: Conn, p: string, len: nat): Received
    requires len < |p|
  {
    After(c, p, Parse(p, len, c.fields))
  }

  function After(c: Conn, p: string, r: Parsed): Received {
    match r
    case NoKeyword => Alive(c.(buf := p))
    case Partial(q, n) => Alive(c.(buf := q, offset := n))
    case Aborted => Dead
    case OutOfBuffer => Dead
    case Complete(f) => Alive(c.(buf := p, fields := f, status := 1, notified := c.notified + 1))
  }

  /** What parse keeps of an incomplete request. */
  ghost predicate Carried(p: string, r: Parsed) {
    r.Partial? ==>
      && |r.buf| == |p| && 5 <= r.offset <= IN_DATA_LEN + 5 && r.offset < |r.buf|
      && r.buf[r.offset] == NUL && MatchAt(r.buf, 0, "navto")
  }

  lemma ParseCarries(p: string, len: nat, was: Fields)
    requires len < |p| && p[len] == NUL
    ensures Carried(p, Parse(p, len, was))
  {
    var i := First(p, "navto", 0, len);
    FirstIsFirst(p, "navto", 0, len);
    if i < len {
      MatchBeforeTerminator(p, i, "navto", len);
    }
    ParseFromCarries(p, i, len, was);
  }

  lemma ParseFromCarries(p: string, i: nat, len: nat, was: Fields)
    requires i == len < |p| || (i + 5 <= len < |p| && MatchAt(p, i, "navto"))
    ensures Carried(p, ParseFrom(p, i, len, was))
  {
    if i < len < i + 6 + IN_DATA_LEN {
      MatchMoved(p, i, ParseFrom(p, i, len, was).buf, "navto");
    }
  }

  lemma MatchMoved(p: string, i: nat, q: string, kw: string)
    requires MatchAt(p, i, kw) && |kw| <= |q| && forall k | 0 <= k < |kw| :: q[k] == p[i + k]
    ensures MatchAt(q, 0, kw)
  {
  }

  ghost predicate SettledValid(r: Received) {
    r.Alive? ==> r.conn.Valid()
  }

  /** The carried-over text is at most IN_DATA_LEN + 5 long, so the receive window is never empty,
      and a nonzero offset means that it starts with the keyword. */
  lemma ReceiveKeepsValid(c: Conn, chunk: string)
    requires c.Valid() && c.offset + |chunk| <= MAXBUF
    ensures SettledValid(Receive(c, chunk))
    ensures c.offset < MAXBUF
  {
    FilledKeepsKeyword(c, chunk);
    ParseKeepsValid(c, Filled(c, chunk), c.offset + |chunk|);
  }

  lemma FilledKeepsKeyword(c: Conn, chunk: string)
    requires c.Valid() && c.offset + |chunk| <= MAXBUF
    ensures c.offset > 0 ==> MatchAt(Filled(c, chunk), 0, "navto")
  {
    if c.offset > 0 {
      MatchKept(c.buf, Filled(c, chunk), 0, "navto");
    }
  }

  lemma ParseKeepsValid(c: Conn, p: string, len: nat)
    requires c.Valid() && |p| == MAXBUF + 1 && (c.offset > 0 ==> MatchAt(p, 0, "navto"))
    requires len < |p| && p[len] == NUL
    ensures SettledValid(Settled(c, p, len))
  {
    ParseCarries(p, len, c.fields);
    ParseGivesCStrings(p, len, c.fields);
  }

  lemma CopiedGivesCStrings(p: string, at: Places, len: nat, was: Fields)
    requires Copies(p, at, len) && was.CStringsOnly()
    ensures Copied(p, at, len, was).CStringsOnly()
  {
    CStringIsPrefix(Slice(p, at.s + 7, SERIAL_LEN));
    CStringIsPrefix(Slice(p, at.m + 4, MD5_LEN));
    CoordIsCString(p, at.x + 7, was.x);
    if at.y < len {
      CoordIsCString(p, at.y + 7, was.y);
    }
  }

  lemma CoordIsCString(p: string, at: nat, was: string)
    requires CoordLength(p, at, 0) != PAST && Without(was, NUL)
    ensures Without(Coord(p, at, was), NUL)
  {
    var n := CoordLength(p, at, 0);
    if n < GPS_LEN {
      CStringIsPrefix(Slice(p, at, n));
    }
  }

  /** What parse stores is a C string, or stays one. */
  ghost predicate Stores(r: Parsed) {
    r.Complete? ==> r.fields.CStringsOnly()
  }

  lemma ExtractStores(p: string, at: Places, len: nat, was: Fields)
    requires was.CStringsOnly()
    ensures Stores(Extract(p, at, len, was))
  {
    if Copies(p, at, len) {
      CopiedGivesCStrings(p, at, len, was);
    }
  }

  lemma ParseFieldsStores(p: string, len: nat, was: Fields)
    requires 6 <= len < |p| && was.CStringsOnly()
    ensures Stores(ParseFields(p, len, was))
  {
    ExtractStores(p, Find(p, 6, len), len, was);
  }

  lemma ParseFromStores(p: string, i: nat, len: nat, was: Fields)
    requires i <= len < |p| && was.CStringsOnly()
    ensures Stores(ParseFrom(p, i, len, was))
  {
    if i + 6 + IN_DATA_LEN <= len {
      ParseFieldsStores(p[i..], len - i, was);
    }
  }

  lemma ParseGivesCStrings(p: string, len: nat, was: Fields)
    requires len < |p| && was.CStringsOnly()
    ensures Stores(Parse(p, len, was))
  {
    ParseFromStores(p, First(p, "navto", 0, len), len, was);
  }

  lemma MatchKept(p: string, q: string, at: nat, kw: string)
    requires MatchAt(p, at, kw) && at + |kw| <= |q| && p[at..at + |kw|] == q[at..at + |kw|]
    ensures MatchAt(q, at, kw)
  {
    forall k | 0 <= k < |kw|
      ensures Same(q[at + k], kw[k])
    {
      assert q[at + k] == q[at..at + |kw|][k] == p[at..at + |kw|][k];
    }
  }
}
