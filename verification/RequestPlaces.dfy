/** The places of the keywords counted from the buffer's start, as the scans count them,
    and counted from the request's own keyword. */
module RequestPlaces {
  import opened RequestText

  /** r is p from i on. */
  ghost predicate Tail(p: string, i: nat, r: string) {
    |p| == i + |r| && forall j | 0 <= j < |r| :: r[j] == p[i + j]
  }

  lemma MatchShift(p: string, i: nat, r: string, at: nat, kw: string)
    requires i <= |p| && Tail(p, i, r)
    ensures MatchAt(p, i + at, kw) <==> MatchAt(r, at, kw)
  {
    if at + |kw| <= |r| {
      assert forall k | 0 <= k < |kw| :: Same(p[i + at + k], kw[k]) <==> Same(r[at + k], kw[k]);
    }
  }

  lemma {:induction false} FirstShift(p: string, i: nat, r: string, kw: string, from: nat, len: nat)
    requires i + from <= len <= |p| && Tail(p, i, r)
    ensures First(p, kw, i + from, len) == i + First(r, kw, from, len - i)
    decreases len - from
  {
    if i + from < len {
      MatchShift(p, i, r, from, kw);
      if !MatchAt(r, from, kw) {
        FirstShift(p, i, r, kw, from + 1, len);
      }
    }
  }

  lemma {:induction false} CoordShift(p: string, i: nat, r: string, at: nat, k: nat)
    requires i <= |p| && Tail(p, i, r) && k <= GPS_LEN
    ensures CoordLength(p, i + at, k) == CoordLength(r, at, k)
    decreases GPS_LEN - k
  {
    if at + k < |r| && k < GPS_LEN {
      CoordShift(p, i, r, at, k + 1);
    }
  }

  lemma SliceShift(p: string, i: nat, r: string, from: nat, count: nat)
    requires i <= |p| && Tail(p, i, r) && from + count <= |r|
    ensures Slice(p, i + from, count) == Slice(r, from, count)
  {
    forall k | 0 <= k < count
      ensures Slice(p, i + from, count)[k] == Slice(r, from, count)[k]
    {
      assert r[from + k] == p[i + (from + k)];
    }
  }

  function Shift(at: Places, i: nat): Places {
    Places(i + at.s, i + at.m, i + at.x, i + at.y)
  }

  lemma FindShift(p: string, i: nat, r: string, len: nat)
    requires i + 6 <= len < |p| && Tail(p, i, r)
    ensures Find(p, i + 6, len) == Shift(Find(r, 6, len - i), i)
  {
    FirstShift(p, i, r, "serial", 6, len);
    FirstShift(p, i, r, "md5", 6, len);
    FirstShift(p, i, r, "xbaidu", 6, len);
    FirstShift(p, i, r, "ybaidu", 6, len);
  }

  lemma CoordValueShift(p: string, i: nat, r: string, at: nat, was: string)
    requires i <= |p| && Tail(p, i, r) && CoordLength(r, at, 0) != PAST
    ensures CoordLength(p, i + at, 0) != PAST && Coord(p, i + at, was) == Coord(r, at, was)
  {
    CoordShift(p, i, r, at, 0);
    SliceShift(p, i, r, at, if CoordLength(r, at, 0) < GPS_LEN then CoordLength(r, at, 0) else 0);
  }

  lemma SliceValueShift(p: string, i: nat, r: string, at: nat, count: nat)
    requires i <= |p| && Tail(p, i, r) && at + count <= |r|
    ensures Slice(p, i + at, count) == Slice(r, at, count)
  {
    SliceShift(p, i, r, at, count);
  }

  /** The same places in the buffer and in its tail. */
  ghost predicate Shifted(p: string, i: nat, r: string, at: Places, len: nat) {
    i <= len <= |p| && Tail(p, i, r) && Copies(r, at, len - i) && Copies(p, Shift(at, i), len)
  }

  lemma SerialShift(p: string, i: nat, r: string, at: Places, len: nat, was: Fields)
    requires Shifted(p, i, r, at, len)
    ensures Copied(p, Shift(at, i), len, was).serial == Copied(r, at, len - i, was).serial
  {
    SliceValueShift(p, i, r, at.s + 7, SERIAL_LEN);
  }

  lemma Md5Shift(p: string, i: nat, r: string, at: Places, len: nat, was: Fields)
    requires Shifted(p, i, r, at, len)
    ensures Copied(p, Shift(at, i), len, was).md5 == Copied(r, at, len - i, was).md5
  {
    SliceValueShift(p, i, r, at.m + 4, MD5_LEN);
  }

  lemma XShift(p: string, i: nat, r: string, at: Places, len: nat, was: Fields)
    requires Shifted(p, i, r, at, len)
    ensures Copied(p, Shift(at, i), len, was).x == Copied(r, at, len - i, was).x
  {
    CoordValueShift(p, i, r, at.x + 7, was.x);
  }

  lemma YShift(p: string, i: nat, r: string, at: Places, len: nat, was: Fields)
    requires Shifted(p, i, r, at, len)
    ensures Copied(p, Shift(at, i), len, was).y == Copied(r, at, len - i, was).y
  {
    if at.y < len - i {
      CoordValueShift(p, i, r, at.y + 7, was.y);
    }
  }

  lemma CopiedShift(p: string, i: nat, r: string, at: Places, len: nat, was: Fields)
    requires Shifted(p, i, r, at, len)
    ensures Copied(p, Shift(at, i), len, was) == Copied(r, at, len - i, was)
  {
    SerialShift(p, i, r, at, len, was);
    Md5Shift(p, i, r, at, len, was);
    XShift(p, i, r, at, len, was);
    YShift(p, i, r, at, len, was);
  }

  lemma ExtractShift(p: string, i: nat, r: string, at: Places, len: nat, was: Fields)
    requires i <= len <= |p| && Tail(p, i, r)
    ensures Extract(p, Shift(at, i), len, was) == Extract(r, at, len - i, was)
  {
    CoordShift(p, i, r, at.x + 7, 0);
    CoordShift(p, i, r, at.y + 7, 0);
    if Copies(r, at, len - i) {
      CopiedShift(p, i, r, at, len, was);
    }
  }

  /** Scanning the buffer from behind the keyword is parsing the text that the keyword starts. */
  lemma ParseFieldsInPlace(p: string, i: nat, r: string, len: nat, was: Fields)
    requires i + 6 <= len < |p| && Tail(p, i, r)
    ensures ParseFields(r, len - i, was) == Extract(p, Find(p, i + 6, len), len, was)
  {
    FindShift(p, i, r, len);
    ExtractShift(p, i, r, Find(r, 6, len - i), len, was);
  }
}
