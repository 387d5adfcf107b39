/** CClient: the connection object whose buffer, offset and values receive and parse update. */
module RequestParser {
  import opened CStrings
  import opened RequestText
  import opened RequestChunks
  import opened RequestPlaces

  /** The four values are what the copies give. */
  ghost predicate IdsRead(p: string, at: Places, len: nat, serial: string, md5: string) {
    IdsFit(p, at, len) && serial == Held(p, at.s + 7, SERIAL_LEN) && md5 == Held(p, at.m + 4, MD5_LEN)
  }

  ghost predicate CoordsRead(p: string, at: Places, len: nat, was: Fields, x: string, y: string) {
    && CoordsFit(p, at, len) && x == Coord(p, at.x + 7, was.x)
    && y == (if at.y < len then Coord(p, at.y + 7, was.y) else was.y)
  }

  lemma AllRead(p: string, at: Places, len: nat, was: Fields, f: Fields)
    requires IdsRead(p, at, len, f.serial, f.md5) && CoordsRead(p, at, len, was, f.x, f.y)
    ensures Copies(p, at, len) && f == Copied(p, at, len, was)
  {
  }

  class Client {
    const iobuf: array<char>
    var offset: nat
    var serial: string
    var md5: string
    var xbaidu: string
    var ybaidu: string
    var xgps: real
    var ygps: real
    var status: nat
    /** How often the workers have been told about this connection. */
    var notified: nat

    function Values(): Fields
      reads this
    {
      Fields(serial, md5, xbaidu, ybaidu)
    }

    ghost function View(): Conn
      reads this, iobuf
    {
      Conn(iobuf[..], offset, Values(), status, notified)
    }

    ghost predicate Valid()
      reads this, iobuf
    {
      View().Valid()
    }

    /** Only the serial is cleared; the other values are left as they are found. */
    constructor ()
      ensures Valid() && fresh(iobuf) && offset == 0 && serial == "" && status == notified == 0
    {
      iobuf := new char[MAXBUF + 1](_ => NUL);
      offset, status, notified := 0, 0, 0;
      var m: string, x: string, y: string := *, *, *;
      CStringIsPrefix(m);
      CStringIsPrefix(x);
      CStringIsPrefix(y);
      serial, md5, xbaidu, ybaidu := "", CString(m), CString(x), CString(y);
      xgps, ygps := *, *;
    }

    /** One keyword comparison: a character is read only after all before it have matched, so the
        terminator at len stops it. `read` is the last place read, never behind the terminator. */
    method KeywordAt(kw: string, at: nat, len: nat) returns (b: bool, ghost read: nat)
      requires at <= len < iobuf.Length && iobuf[len] == NUL
      requires kw != "" && forall k | 0 <= k < |kw| :: ' ' < kw[k]
      ensures b <==> MatchAt(iobuf[..], at, kw)
      ensures at <= read <= len
    {
      var k := 0;
      read := at;
      while k < |kw|
        invariant 0 <= k <= |kw| && at + k <= len && at <= read <= len
        invariant forall j | 0 <= j < k :: Same(iobuf[at + j], kw[j])
      {
        read := at + k;
        if !Same(iobuf[at + k], kw[k]) {
          return false, read;
        }
        k := k + 1;
      }
      return true, read;
    }

    /** A scan for a keyword. */
    method Scan(kw: string, from: nat, len: nat) returns (x: nat)
      requires from <= len < iobuf.Length && iobuf[len] == NUL
      requires kw != "" && forall k | 0 <= k < |kw| :: ' ' < kw[k]
      ensures x == First(iobuf[..], kw, from, len)
    {
      x := from;
      while x < len
        invariant from <= x <= len
        invariant First(iobuf[..], kw, x, len) == First(iobuf[..], kw, from, len)
      {
        var b, _ := KeywordAt(kw, x, len);
        if b {
          return;
        }
        x := x + 1;
      }
    }

    /** The coordinate loop; PAST when it leaves the buffer. */
    method CoordEnd(at: nat) returns (n: nat)
      ensures n == CoordLength(iobuf[..], at, 0)
    {
      n := 0;
      while true
        invariant n <= GPS_LEN && CoordLength(iobuf[..], at, n) == CoordLength(iobuf[..], at, 0)
        decreases GPS_LEN - n
      {
        if at + n >= iobuf.Length {
          return PAST;
        }
        if Ends(iobuf[at + n]) || n == GPS_LEN {
          return;
        }
        n := n + 1;
      }
    }

    method ReadSerial(j: nat, len: nat, ghost p: string) returns (alive: bool)
      requires p == iobuf[..] && j <= len < |p| && p[len] == NUL
      modifies this`serial
      ensures var x := First(p, "serial", j, len);
              && (alive <==> x < len && x + 7 + SERIAL_LEN <= |p|)
              && (alive ==> serial == Held(p, x + 7, SERIAL_LEN))
    {
      var x := Scan("serial", j, len);
      if x >= len || x + 7 + SERIAL_LEN > iobuf.Length {
        return false;
      }
      serial := CString(iobuf[x + 7..x + 7 + SERIAL_LEN]);
      return true;
    }

    method ReadMd5(j: nat, len: nat, ghost p: string) returns (alive: bool)
      requires p == iobuf[..] && j <= len < |p| && p[len] == NUL
      modifies this`md5
      ensures var x := First(p, "md5", j, len);
              && (alive <==> x < len && x + 4 + MD5_LEN <= |p|)
              && (alive ==> md5 == Held(p, x + 4, MD5_LEN))
    {
      var x := Scan("md5", j, len);
      if x >= len || x + 4 + MD5_LEN > iobuf.Length {
        return false;
      }
      md5 := CString(iobuf[x + 4..x + 4 + MD5_LEN]);
      return true;
    }

    /** The value of a coordinate at `at`, or what it was. */
    method ReadCoord(at: nat, was: string, ghost p: string) returns (alive: bool, value: string)
      requires p == iobuf[..]
      ensures alive <==> CoordLength(p, at, 0) != PAST
      ensures alive ==> value == Coord(p, at, was)
    {
      var n := CoordEnd(at);
      if n == PAST {
        return false, was;
      }
      value := if n < GPS_LEN then CString(iobuf[at..at + n]) else was;
      return true, value;
    }

    method ReadX(j: nat, len: nat, ghost p: string) returns (alive: bool)
      requires p == iobuf[..] && j <= len < |p| && p[len] == NUL
      modifies this`xbaidu
      ensures var x := First(p, "xbaidu", j, len);
              && (alive <==> x < len && CoordLength(p, x + 7, 0) != PAST)
              && (alive ==> xbaidu == Coord(p, x + 7, old(xbaidu)))
    {
      var x := Scan("xbaidu", j, len);
      if x >= len {
        return false;
      }
      alive, xbaidu := ReadCoord(x + 7, xbaidu, p);
    }

    /** A missing ybaidu is only reported. */
    method ReadY(j: nat, len: nat, ghost p: string) returns (alive: bool)
      requires p == iobuf[..] && j <= len < |p| && p[len] == NUL
      modifies this`ybaidu
      ensures var x := First(p, "ybaidu", j, len);
              && (alive <==> (x < len ==> CoordLength(p, x + 7, 0) != PAST))
              && (alive ==> ybaidu == (if x < len then Coord(p, x + 7, old(ybaidu)) else old(ybaidu)))
    {
      var x := Scan("ybaidu", j, len);
      if x >= len {
        return true;
      }
      alive, ybaidu := ReadCoord(x + 7, ybaidu, p);
    }

    method ReadIds(j: nat, len: nat, ghost p: string, ghost at: Places) returns (alive: bool)
      requires p == iobuf[..] && j <= len < |p| && p[len] == NUL && at == Find(p, j, len)
      modifies this`serial, this`md5
      ensures alive <==> IdsFit(p, at, len)
      ensures alive ==> IdsRead(p, at, len, serial, md5)
    {
      alive := ReadSerial(j, len, p);
      if alive {
        assert iobuf[..] == p;
        alive := ReadMd5(j, len, p);
      }
    }

    method ReadCoords(j: nat, len: nat, ghost p: string, ghost at: Places) returns (alive: bool)
      requires p == iobuf[..] && j <= len < |p| && p[len] == NUL && at == Find(p, j, len)
      modifies this`xbaidu, this`ybaidu
      ensures alive <==> CoordsFit(p, at, len)
      ensures alive ==> CoordsRead(p, at, len, old(Values()), xbaidu, ybaidu)
    {
      alive := ReadX(j, len, p);
      if alive {
        assert iobuf[..] == p;
        alive := ReadY(j, len, p);
      }
    }

    method ReadFields(j: nat, len: nat, ghost p: string, ghost at: Places) returns (alive: bool)
      requires p == iobuf[..] && j <= len < |p| && p[len] == NUL && at == Find(p, j, len)
      modifies this`serial, this`md5, this`xbaidu, this`ybaidu
      ensures alive <==> Copies(p, at, len)
      ensures alive ==> Values() == Copied(p, at, len, old(Values()))
    {
      alive := ReadIds(j, len, p, at);
      if alive {
        assert iobuf[..] == p;
        alive := ReadCoords(j, len, p, at);
        if alive {
          AllRead(p, at, len, old(Values()), Values());
        }
      }
    }

    /** Carries the text from i on over to the next receive. */
    method Keep(i: nat, len: nat, ghost p: string)
      requires p == iobuf[..] && i <= len < |p|
      modifies iobuf, this`offset
      ensures offset == len - i && iobuf[..] == Kept(p, i, len)
    {
      offset := len - i;
      forall k | 0 <= k < offset {
        iobuf[k] := iobuf[i + k];
      }
      iobuf[offset] := NUL;
    }

    /** Enough text behind the keyword at i: read the values and tell the workers. */
    method Complete(i: nat, len: nat, ghost p: string) returns (alive: bool)
      requires p == iobuf[..] && i + 6 <= len < |p| && p[len] == NUL
      modifies this`serial, this`md5, this`xbaidu, this`ybaidu, this`status, this`notified
      ensures var r := After(old(View()), p, ParseFields(p[i..], len - i, old(Values())));
              (alive <==> r.Alive?) && (alive ==> View() == r.conn)
    {
      ghost var c, at := View(), Find(p, i + 6, len);
      ParseFieldsInPlace(p, i, p[i..], len, Values());
      alive := ReadFields(i + 6, len, p, at);
      if alive {
        status, notified := 1, notified + 1;
        assert iobuf[..] == p;
      }
      ExtractAlive(c, p, p, at, len);
    }

    method ParseAt(i: nat, len: nat, ghost p: string) returns (alive: bool)
      requires p == iobuf[..] && i <= len < |p| && p[len] == NUL
      modifies iobuf, this`offset, this`serial, this`md5, this`xbaidu, this`ybaidu, this`status, this`notified
      ensures var r := After(old(View()), p, ParseFrom(p, i, len, old(Values())));
              (alive <==> r.Alive?) && (alive ==> View() == r.conn)
    {
      alive := true;
      if i < len {
        if i + 6 + IN_DATA_LEN > len {
          Keep(i, len, p);
        } else {
          alive := Complete(i, len, p);
        }
      }
    }

    method Parse(ulen: nat, ghost p: string) returns (alive: bool)
      requires offset + ulen < iobuf.Length && p == iobuf[..][offset + ulen := NUL]
      modifies iobuf, this`offset, this`serial, this`md5, this`xbaidu, this`ybaidu, this`status, this`notified
      ensures var r := Settled(old(View()), p, old(offset) + ulen);
              (alive <==> r.Alive?) && (alive ==> View() == r.conn)
    {
      ghost var c := View();
      var len := ulen + offset;
      iobuf[len] := NUL;
      assert iobuf[..] == p;
      var i := Scan("navto", 0, len);
      alive := ParseAt(i, len, p);
    }

    /** What recv writes behind the carried-over text. */
    method Fill(chunk: string)
      requires iobuf.Length == MAXBUF + 1 && offset + |chunk| <= MAXBUF
      modifies iobuf
      ensures iobuf[..][offset + |chunk| := NUL] == Filled(old(View()), chunk)
    {
      forall k | 0 <= k < |chunk| {
        iobuf[offset + k] := chunk[k];
      }
    }

    /** A receive that brings a chunk; the chunk is at most the window MAXBUF - offset. */
    method Receive(chunk: string) returns (alive: bool)
      requires Valid() && 0 < |chunk| <= MAXBUF - offset
      modifies iobuf, this`offset, this`serial, this`md5, this`xbaidu, this`ybaidu, this`status, this`notified
      ensures var r := RequestText.Receive(old(View()), chunk);
              (alive <==> r.Alive?) && (alive ==> View() == r.conn && Valid())
    {
      ghost var c := View();
      ReceiveKeepsValid(c, chunk);
      ghost var p := Filled(c, chunk);
      Fill(chunk);
      assert View() == c.(buf := iobuf[..]);
      alive := Parse(|chunk|, p);
    }
  }

}
