/** The two-level correction index on values: what getdb builds from the rows of the offset table
    and what a correction reads from it, against the table taken as a plain relation. */
module OffsetIndex {
  import opened Common
  import opened OffsetKeys
  import opened OffsetSlots

  /** A result row: lat, lng, offsetlng, offsetlat; a column may be NULL. */
  datatype Row = Row(lat: Option<string>, lng: Option<string>, dx: Option<string>, dy: Option<string>)

  type Index = map<Key, Slots>

  datatype Item = Item(lat: Key, e: Entry)

  /** A NULL column ends the page; Crash stands for a write or read outside a buffer. */
  datatype RowRead = NullColumn | Crash | Good(item: Item)

  /** One row as getdb reads it, column by column; atof is the C library's. */
  function ReadRow(row: Row, atof: string -> real): RowRead {
    if row.lat.None? then NullColumn
    else if ToKey(row.lat.value).Overrun? then Crash
    else if row.lng.None? then NullColumn
    else if ToKey(row.lng.value).Overrun? then Crash
    else if row.dx.None? || row.dy.None? then NullColumn
    else Good(Item(ToKey(row.lat.value).key,
                   Entry(ToKey(row.lng.value).key, Offset(atof(row.dx.value), atof(row.dy.value)))))
  }

  /** A new latitude gets an array of its own, a known one is appended to. */
  function InsertItem(idx: Index, it: Item): Option<Index>
    requires SizedIndex(idx)
  {
    var r := Appended(if it.lat in idx then idx[it.lat] else Empty(), it.e);
    if r.None? then None else Some(idx[it.lat := r.value])
  }

  predicate SizedIndex(idx: Index) {
    forall k | k in idx :: |idx[k].a| == ARRAY_COUNT
  }

  lemma InsertSized(idx: Index, it: Item)
    requires SizedIndex(idx)
    ensures InsertItem(idx, it).Some? ==> SizedIndex(InsertItem(idx, it).value)
  {
  }

  /** One page: rows until the end or the first NULL column. */
  function LoadPage(idx: Index, rows: seq<Row>, atof: string -> real): (r: Option<Index>)
    requires SizedIndex(idx)
    ensures r.Some? ==> SizedIndex(r.value)
    decreases |rows|
  {
    if rows == [] || ReadRow(rows[0], atof).NullColumn? then Some(idx)
    else if ReadRow(rows[0], atof).Crash? then None
    else
      InsertSized(idx, ReadRow(rows[0], atof).item);
      match InsertItem(idx, ReadRow(rows[0], atof).item)
      case None => None
      case Some(next) => LoadPage(next, rows[1..], atof)
  }

  /** `limit m, count` of the query. */
  function Page<T>(table: seq<T>, m: nat, count: nat): seq<T> {
    if m >= |table| then []
    else if m + count <= |table| then table[m..m + count]
    else table[m..]
  }

  /** The loop over pages: count rows at a time until max. */
  function LoadPages(idx: Index, table: seq<Row>, m: nat, max: nat, count: nat, atof: string -> real)
    : (r: Option<Index>)
    requires SizedIndex(idx) && count > 0
    ensures r.Some? ==> SizedIndex(r.value)
    decreases max - m
  {
    if m >= max then Some(idx)
    else
      match LoadPage(idx, Page(table, m, count), atof)
      case None => None
      case Some(next) => LoadPages(next, table, m + count, max, count, atof)
  }

  /** Overrun and OutOfRange stand for accesses outside a buffer, NotSet for an uninitialised point. */
  datatype Correction = Crashed | NotSet | Corrected(gps: Point)

  /** correctgps_worker on the two coordinate strings of a client. */
  function Correct(idx: Index, x: string, y: string, atof: string -> real): Correction
    requires SizedIndex(idx)
  {
    var baidu := Point(atof(x), atof(y));
    if ToKey(y).Overrun? then Crashed
    else if ToKey(y).key !in idx then Corrected(baidu)
    else if ToKey(x).Overrun? then Crashed
    else
      CorrectedBy(LookupOf(idx[ToKey(y).key], ToKey(x).key), baidu)
  }

  function CorrectedBy(r: Lookup, baidu: Point): Correction {
    match r
    case OutOfRange => Crashed
    case Unset => NotSet
    case Found(o) => Corrected(Point(baidu.dx - o.dx, baidu.dy - o.dy))
  }

  // ---------------------------------------------------------------- which rows the pages read

  /** A column is NULL and no column before it is too long for its key. */
  predicate EndsPage(row: Row) {
    || row.lat.None?
    || (ToKey(row.lat.value).Ok? && row.lng.None?)
    || (ToKey(row.lat.value).Ok? && ToKey(row.lng.value).Ok? && (row.dx.None? || row.dy.None?))
  }

  /** No column is NULL and both keys have room. */
  predicate Whole(row: Row) {
    && row.lat.Some? && row.lng.Some? && row.dx.Some? && row.dy.Some?
    && ToKey(row.lat.value).Ok? && ToKey(row.lng.value).Ok?
  }

  /** What is read of one page: a NULL column drops its row and the rows behind it. */
  function UpToNull(rows: seq<Row>): seq<Row> {
    if rows == [] || EndsPage(rows[0]) then [] else [rows[0]] + UpToNull(rows[1..])
  }

  /** What is read of the pages from m on. */
  function RowsRead(table: seq<Row>, m: nat, max: nat, count: nat): seq<Row>
    requires count > 0
    decreases max - m
  {
    if m >= max then [] else UpToNull(Page(table, m, count)) + RowsRead(table, m + count, max, count)
  }

  ghost predicate NoNulls(rows: seq<Row>) {
    forall i | 0 <= i < |rows| :: !EndsPage(rows[i])
  }

  lemma {:induction false} LoadUpToNull(idx: Index, rows: seq<Row>, atof: string -> real)
    requires SizedIndex(idx)
    ensures LoadPage(idx, UpToNull(rows), atof) == LoadPage(idx, rows, atof)
    ensures NoNulls(UpToNull(rows))
    decreases |rows|
  {
    if rows != [] && !EndsPage(rows[0]) {
      assert UpToNull(rows)[1..] == UpToNull(rows[1..]);
      LoadUpToNull(idx, rows[1..], atof);
      if ReadRow(rows[0], atof).Good? && InsertItem(idx, ReadRow(rows[0], atof).item).Some? {
        InsertSized(idx, ReadRow(rows[0], atof).item);
        LoadUpToNull(InsertItem(idx, ReadRow(rows[0], atof).item).value, rows[1..], atof);
      }
    }
  }

  lemma {:induction false} LoadConcat(idx: Index, a: seq<Row>, b: seq<Row>, atof: string -> real)
    requires SizedIndex(idx) && NoNulls(a)
    ensures LoadPage(idx, a + b, atof) ==
            match LoadPage(idx, a, atof) case None => None case Some(next) => LoadPage(next, b, atof)
    decreases |a|
  {
    if a == [] {
      assert a + b == b;
    } else {
      assert (a + b)[1..] == a[1..] + b;
      if ReadRow(a[0], atof).Good? && InsertItem(idx, ReadRow(a[0], atof).item).Some? {
        InsertSized(idx, ReadRow(a[0], atof).item);
        LoadConcat(InsertItem(idx, ReadRow(a[0], atof).item).value, a[1..], b, atof);
      }
    }
  }

  /** Every table, loaded in pages of any size, loads as if the rows read were one page. */
  lemma {:induction false} PagesLoadAsOne(idx: Index, table: seq<Row>, m: nat, max: nat, count: nat,
                                          atof: string -> real)
    requires SizedIndex(idx) && count > 0
    ensures LoadPages(idx, table, m, max, count, atof) == LoadPage(idx, RowsRead(table, m, max, count), atof)
    decreases max - m
  {
    if m < max {
      var page := Page(table, m, count);
      LoadUpToNull(idx, page, atof);
      LoadConcat(idx, UpToNull(page), RowsRead(table, m + count, max, count), atof);
      var r := LoadPage(idx, page, atof);
      if r.Some? {
        PagesLoadAsOne(r.value, table, m + count, max, count, atof);
      }
    }
  }

  lemma {:induction false} UpToNullIsAll(rows: seq<Row>)
    ensures UpToNull(rows) == rows <==> NoNulls(rows)
  {
    if rows != [] {
      UpToNullIsAll(rows[1..]);
      if NoNulls(rows) {
        assert NoNulls(rows[1..]);
      }
      if UpToNull(rows) == rows {
        assert UpToNull(rows[1..]) == rows[1..];
        assert forall i | 0 < i < |rows| :: rows[i] == rows[1..][i - 1];
      }
    }
  }

  function Rest<T>(table: seq<T>, m: nat): seq<T> {
    if m >= |table| then [] else table[m..]
  }

  /** The pages from m on, joined. */
  function Joined(table: seq<Row>, m: nat, max: nat, count: nat): seq<Row>
    requires count > 0
    decreases max - m
  {
    if m >= max then [] else Page(table, m, count) + Joined(table, m + count, max, count)
  }

  lemma {:induction false} JoinedIsRest(table: seq<Row>, m: nat, max: nat, count: nat)
    requires count > 0 && |table| <= max
    ensures Joined(table, m, max, count) == Rest(table, m)
    decreases max - m
  {
    if m < max {
      JoinedIsRest(table, m + count, max, count);
    }
  }

  lemma {:induction false} PagesRead(table: seq<Row>, m: nat, max: nat, count: nat)
    requires count > 0 && NoNulls(table)
    ensures RowsRead(table, m, max, count) == Joined(table, m, max, count)
    decreases max - m
  {
    if m < max {
      PagesRead(table, m + count, max, count);
      PageWithoutNulls(table, m, count);
    }
  }

  lemma PageWithoutNulls(table: seq<Row>, m: nat, count: nat)
    requires NoNulls(table)
    ensures UpToNull(Page(table, m, count)) == Page(table, m, count)
  {
    UpToNullIsAll(Page(table, m, count));
  }

  /** Without NULLs, and with a limit not below the number of rows, every row is read. */
  lemma AllRowsRead(table: seq<Row>, max: nat, count: nat)
    requires count > 0 && NoNulls(table) && |table| <= max
    ensures RowsRead(table, 0, max, count) == table
  {
    PagesRead(table, 0, max, count);
    JoinedIsRest(table, 0, max, count);
  }

  // ---------------------------------------------------------------- the table as a relation

  ghost predicate AllWhole(rows: seq<Row>) {
    forall i | 0 <= i < |rows| :: Whole(rows[i])
  }

  function ItemOf(row: Row, atof: string -> real): Item
    requires Whole(row)
  {
    var off := Offset(atof(row.dx.value), atof(row.dy.value));
    Item(ToKey(row.lat.value).key, Entry(ToKey(row.lng.value).key, off))
  }

  function Items(rows: seq<Row>, atof: string -> real): seq<Item>
    requires forall i | 0 <= i < |rows| :: Whole(rows[i])
  {
    seq(|rows|, i requires 0 <= i < |rows| => ItemOf(rows[i], atof))
  }

  /** Among the first n items there is one for this latitude. */
  ghost predicate Seen(items: seq<Item>, n: nat, lat: Key)
    requires n <= |items|
  {
    exists i :: 0 <= i < n && items[i].lat == lat
  }

  /** The plain table from key pairs to offsets, cut off after n items. */
  ghost predicate InTable(items: seq<Item>, n: nat, lat: Key, k: Key, o: Offset)
    requires n <= |items|
  {
    exists i :: 0 <= i < n && items[i] == Item(lat, Entry(k, o))
  }

  ghost function Count(items: seq<Item>, n: nat, lat: Key): nat
    requires n <= |items|
  {
    if n == 0 then 0 else Count(items, n - 1, lat) + if items[n - 1].lat == lat then 1 else 0
  }

  /** The rows the code can load: nonzero longitudes, none twice for a latitude, the first row of a
      latitude the smallest, and no more of them than an array has slots. */
  ghost predicate Loadable(items: seq<Item>) {
    && (forall j | 0 <= j < |items| :: items[j].e.x > 0)
    && (forall i, j | 0 <= i < j < |items| && items[i].lat == items[j].lat :: items[i].e.x != items[j].e.x)
    && (forall i, j | 0 <= i < j < |items| && items[i].lat == items[j].lat && !Seen(items, i, items[i].lat) ::
          items[i].e.x < items[j].e.x)
    && (forall lat: Key :: Count(items, |items|, lat) <= ARRAY_COUNT)
  }

  /** s holds exactly the items of this latitude among the first n, the first of them in front. */
  ghost predicate RowInv(s: Slots, items: seq<Item>, n: nat, lat: Key)
    requires n <= |items|
  {
    && s.Sorted() && s.index == Count(items, n, lat) && s.index > 0
    && (exists f :: FirstOf(items, n, lat, f) && s.a[0] == items[f].e)
    && (forall k: Key, o: Offset :: s.Holds(k, o) <==> InTable(items, n, lat, k, o))
  }

  ghost predicate FirstOf(items: seq<Item>, n: nat, lat: Key, f: int)
    requires n <= |items|
  {
    0 <= f < n && items[f].lat == lat && !Seen(items, f, lat)
  }

  ghost predicate LatitudeInv(idx: Index, items: seq<Item>, n: nat, lat: Key)
    requires n <= |items|
  {
    if lat in idx then RowInv(idx[lat], items, n, lat) else !Seen(items, n, lat)
  }

  ghost predicate IndexInv(idx: Index, items: seq<Item>, n: nat)
    requires n <= |items|
  {
    forall lat: Key :: LatitudeInv(idx, items, n, lat)
  }

  lemma {:induction false} CountGrows(items: seq<Item>, m: nat, n: nat, lat: Key)
    requires m <= n <= |items|
    ensures Count(items, m, lat) <= Count(items, n, lat)
  {
    if m < n {
      CountGrows(items, m, n - 1, lat);
    }
  }

  lemma {:induction false} CountUnseen(items: seq<Item>, n: nat, lat: Key)
    requires n <= |items| && !Seen(items, n, lat)
    ensures Count(items, n, lat) == 0
  {
    if n > 0 {
      CountUnseen(items, n - 1, lat);
    }
  }

  lemma NextItem(items: seq<Item>, n: nat, lat: Key, k: Key, o: Offset)
    requires n < |items|
    ensures InTable(items, n + 1, lat, k, o) <==> InTable(items, n, lat, k, o) || items[n] == Item(lat, Entry(k, o))
  {
  }

  lemma StoredIsInTable(s: Slots, items: seq<Item>, n: nat, lat: Key, k: Key)
    requires n <= |items| && RowInv(s, items, n, lat) && s.Stored(k)
    ensures exists i :: 0 <= i < n && items[i].lat == lat && items[i].e.x == k
  {
    var i :| 0 <= i < s.index && i < ARRAY_COUNT && s.a[i].x == k;
    assert s.a[i] == Entry(k, s.a[i].off);
    assert s.Holds(k, s.a[i].off);
    assert InTable(items, n, lat, k, s.a[i].off);
  }

  /** The latitudes an item is not about keep their meaning. */
  lemma OtherLatitude(s: Slots, items: seq<Item>, n: nat, lat: Key)
    requires n < |items| && RowInv(s, items, n, lat) && lat != items[n].lat
    ensures RowInv(s, items, n + 1, lat)
  {
    var f :| FirstOf(items, n, lat, f) && s.a[0] == items[f].e;
    assert FirstOf(items, n + 1, lat, f);
    forall k: Key, o: Offset
      ensures s.Holds(k, o) <==> InTable(items, n + 1, lat, k, o)
    {
      NextItem(items, n, lat, k, o);
    }
  }

  lemma NewLatitude(items: seq<Item>, n: nat)
    requires n < |items| && !Seen(items, n, items[n].lat) && items[n].e.x > 0
    ensures Appended(Empty(), items[n].e).Some?
    ensures RowInv(Appended(Empty(), items[n].e).value, items, n + 1, items[n].lat)
  {
    var lat := items[n].lat;
    FirstEntry(Empty(), items[n].e);
    CountUnseen(items, n, lat);
    assert FirstOf(items, n + 1, lat, n);
    var s := Appended(Empty(), items[n].e).value;
    forall k: Key, o: Offset
      ensures s.Holds(k, o) <==> InTable(items, n + 1, lat, k, o)
    {
      NextItem(items, n, lat, k, o);
      assert items[n] == Item(lat, items[n].e);
    }
  }

  /** A loadable item is always one that append accepts. */
  lemma ItemAccepted(s: Slots, items: seq<Item>, n: nat)
    requires Loadable(items) && n < |items| && RowInv(s, items, n, items[n].lat)
    ensures s.index < ARRAY_COUNT && s.a[0].x < items[n].e.x && !s.Stored(items[n].e.x)
  {
    var lat := items[n].lat;
    CountGrows(items, n + 1, |items|, lat);
    assert Count(items, |items|, lat) <= ARRAY_COUNT;
    var f :| FirstOf(items, n, lat, f) && s.a[0] == items[f].e;
    if s.Stored(items[n].e.x) {
      StoredIsInTable(s, items, n, lat, items[n].e.x);
    }
  }

  lemma KnownLatitude(s: Slots, items: seq<Item>, n: nat)
    requires Loadable(items) && n < |items| && RowInv(s, items, n, items[n].lat)
    ensures Appended(s, items[n].e).Some?
    ensures RowInv(Appended(s, items[n].e).value, items, n + 1, items[n].lat)
  {
    var lat := items[n].lat;
    ItemAccepted(s, items, n);
    NewKeyAppended(s, items[n].e);
    var s' := Appended(s, items[n].e).value;
    var f :| FirstOf(items, n, lat, f) && s.a[0] == items[f].e;
    assert FirstOf(items, n + 1, lat, f) && s'.a[0] == items[f].e;
    forall k: Key, o: Offset
      ensures s'.Holds(k, o) <==> InTable(items, n + 1, lat, k, o)
    {
      NextItem(items, n, lat, k, o);
      assert items[n] == Item(lat, items[n].e);
    }
  }

  lemma InsertHere(idx: Index, items: seq<Item>, n: nat)
    requires SizedIndex(idx) && Loadable(items) && n < |items| && LatitudeInv(idx, items, n, items[n].lat)
    ensures InsertItem(idx, items[n]).Some?
    ensures LatitudeInv(InsertItem(idx, items[n]).value, items, n + 1, items[n].lat)
  {
    if items[n].lat in idx {
      KnownLatitude(idx[items[n].lat], items, n);
    } else {
      NewLatitude(items, n);
    }
  }

  lemma InsertElsewhere(idx: Index, items: seq<Item>, n: nat, next: Index, lat: Key)
    requires SizedIndex(idx) && n < |items| && InsertItem(idx, items[n]) == Some(next)
    requires lat != items[n].lat && LatitudeInv(idx, items, n, lat)
    ensures LatitudeInv(next, items, n + 1, lat)
  {
    assert lat in next <==> lat in idx;
    if lat in idx {
      assert next[lat] == idx[lat];
      OtherLatitude(idx[lat], items, n, lat);
    }
  }

  /** The rows from n on, without the paging and the columns. */
  function LoadItems(idx: Index, items: seq<Item>, n: nat): Option<Index>
    requires SizedIndex(idx) && n <= |items|
    decreases |items| - n
  {
    if n == |items| then Some(idx)
    else
      InsertSized(idx, items[n]);
      match InsertItem(idx, items[n])
      case None => None
      case Some(next) => LoadItems(next, items, n + 1)
  }

  lemma LatitudeKept(idx: Index, items: seq<Item>, n: nat, next: Index, lat: Key)
    requires SizedIndex(idx) && n < |items| && InsertItem(idx, items[n]) == Some(next)
    requires LatitudeInv(idx, items, n, lat) && LatitudeInv(next, items, n + 1, items[n].lat)
    ensures LatitudeInv(next, items, n + 1, lat)
  {
    if lat != items[n].lat {
      InsertElsewhere(idx, items, n, next, lat);
    }
  }

  lemma LatitudesKept(idx: Index, items: seq<Item>, n: nat, next: Index, m: nat)
    requires SizedIndex(idx) && n < |items| && m == n + 1 && InsertItem(idx, items[n]) == Some(next)
    requires IndexInv(idx, items, n) && LatitudeInv(next, items, m, items[n].lat)
    ensures IndexInv(next, items, m)
  {
    forall lat: Key
      ensures LatitudeInv(next, items, m, lat)
    {
      LatitudeKept(idx, items, n, next, lat);
    }
  }

  lemma InsertKeepsIndex(idx: Index, items: seq<Item>, n: nat) returns (next: Index)
    requires SizedIndex(idx) && Loadable(items) && n < |items| && IndexInv(idx, items, n)
    ensures InsertItem(idx, items[n]) == Some(next) && SizedIndex(next) && IndexInv(next, items, n + 1)
  {
    InsertHere(idx, items, n);
    InsertSized(idx, items[n]);
    next := InsertItem(idx, items[n]).value;
    LatitudesKept(idx, items, n, next, n + 1);
  }

  lemma {:induction false} LoadItemsKeepsIndex(idx: Index, items: seq<Item>, n: nat)
    requires SizedIndex(idx) && n <= |items| && Loadable(items) && IndexInv(idx, items, n)
    ensures LoadItems(idx, items, n).Some? && IndexInv(LoadItems(idx, items, n).value, items, |items|)
    decreases |items| - n
  {
    if n < |items| {
      var next := InsertKeepsIndex(idx, items, n);
      LoadItemsKeepsIndex(next, items, n + 1);
    }
  }

  lemma {:induction false} PageLoadsItems(idx: Index, rows: seq<Row>, n: nat, atof: string -> real)
    requires SizedIndex(idx) && AllWhole(rows) && n <= |rows|
    ensures LoadPage(idx, rows[n..], atof) == LoadItems(idx, Items(rows, atof), n)
    decreases |rows| - n
  {
    if n < |rows| {
      var it := Items(rows, atof)[n];
      assert rows[n..][0] == rows[n] && rows[n..][1..] == rows[n + 1..];
      InsertSized(idx, it);
      if InsertItem(idx, it).Some? {
        PageLoadsItems(InsertItem(idx, it).value, rows, n + 1, atof);
      }
    }
  }

  /** Loading a table whose read rows are loadable, page by page, builds an index that holds exactly
      these rows. */
  lemma LoadedIndexIsTable(table: seq<Row>, max: nat, count: nat, rows: seq<Row>, atof: string -> real)
    requires count > 0 && rows == RowsRead(table, 0, max, count)
    requires AllWhole(rows) && Loadable(Items(rows, atof))
    ensures var r := LoadPages(map[], table, 0, max, count, atof);
            r.Some? && IndexInv(r.value, Items(rows, atof), |rows|)
  {
    PagesLoadAsOne(map[], table, 0, max, count, atof);
    assert rows[0..] == rows;
    PageLoadsItems(map[], rows, 0, atof);
    LoadItemsKeepsIndex(map[], Items(rows, atof), 0);
  }

  // ---------------------------------------------------------------- corrections

  /** The sought longitude lies within an array's length of the latitude's first one. */
  ghost predicate InReach(items: seq<Item>, lat: Key, lng: Key) {
    exists f :: FirstOf(items, |items|, lat, f) && (lng - items[f].e.x) % UINT < ARRAY_COUNT
  }

  /** The offset of a key pair: the table's, and for longitude key 0 no shift at all, as long as the
      latitude has fewer rows than an array has slots. */
  ghost predicate Shift(items: seq<Item>, lat: Key, lng: Key, o: Offset) {
    || InTable(items, |items|, lat, lng, o)
    || (lng == 0 && Count(items, |items|, lat) < ARRAY_COUNT && o == Offset(0.0, 0.0))
  }

  /** What correcting a point at a known latitude should give, read off the plain table: the offset is
      subtracted, the point stays unset when there is none, and a longitude out of reach makes the
      probe read outside the array. */
  ghost predicate ByRow(items: seq<Item>, lat: Key, lng: Key, baidu: Point, c: Correction) {
    if !InReach(items, lat, lng) then c == Crashed
    else match c
      case Crashed => false
      case NotSet => forall o :: !Shift(items, lat, lng, o)
      case Corrected(gps) =>
        exists o :: Shift(items, lat, lng, o) && gps.dx == baidu.dx - o.dx && gps.dy == baidu.dy - o.dy
  }

  /** The whole correction of two coordinate strings: a string without room for its key crashes, an
      absent latitude passes the point through before the longitude is even looked at. */
  ghost predicate ByTable(items: seq<Item>, x: string, y: string, baidu: Point, c: Correction) {
    if ToKey(y).Overrun? then c == Crashed
    else if !Seen(items, |items|, ToKey(y).key) then c == Corrected(baidu)
    else if ToKey(x).Overrun? then c == Crashed
    else ByRow(items, ToKey(y).key, ToKey(x).key, baidu, c)
  }

  lemma ProbeInReach(s: Slots, items: seq<Item>, lat: Key, lng: Key)
    requires RowInv(s, items, |items|, lat)
    ensures Probe(s, lng) < ARRAY_COUNT <==> InReach(items, lat, lng)
  {
    var f :| FirstOf(items, |items|, lat, f) && s.a[0] == items[f].e;
    if InReach(items, lat, lng) {
      var g :| FirstOf(items, |items|, lat, g) && (lng - items[g].e.x) % UINT < ARRAY_COUNT;
      assert f == g;
    }
  }

  lemma GivesIsShift(s: Slots, items: seq<Item>, lat: Key, lng: Key, o: Offset)
    requires RowInv(s, items, |items|, lat)
    ensures Gives(s, lng, o) <==> Shift(items, lat, lng, o)
  {
  }

  /** An array that holds the rows of its latitude looks every longitude up by the rows. */
  lemma LookupFollowsRow(s: Slots, items: seq<Item>, lat: Key, lng: Key, baidu: Point)
    requires RowInv(s, items, |items|, lat)
    ensures ByRow(items, lat, lng, baidu, CorrectedBy(LookupOf(s, lng), baidu))
  {
    ProbeInReach(s, items, lat, lng);
    LookupAnswers(s, lng);
    var r := LookupOf(s, lng);
    if r.Found? {
      GivesIsShift(s, items, lat, lng, r.off);
    } else if r.Unset? {
      forall o: Offset
        ensures !Shift(items, lat, lng, o)
      {
        GivesIsShift(s, items, lat, lng, o);
      }
    }
  }

  /** An index that holds the table corrects every pair of strings by the table. */
  lemma CorrectionFollowsTable(idx: Index, items: seq<Item>, x: string, y: string, atof: string -> real)
    requires SizedIndex(idx) && IndexInv(idx, items, |items|)
    ensures ByTable(items, x, y, Point(atof(x), atof(y)), Correct(idx, x, y, atof))
  {
    if ToKey(y).Ok? {
      var lat := ToKey(y).key;
      assert LatitudeInv(idx, items, |items|, lat);
      if lat in idx {
        if ToKey(x).Ok? {
          LookupFollowsRow(idx[lat], items, lat, ToKey(x).key, Point(atof(x), atof(y)));
        }
      }
    }
  }

  /** The whole way: load the table in pages, then correct. */
  lemma LoadThenCorrect(table: seq<Row>, max: nat, count: nat, rows: seq<Row>, x: string, y: string,
                        atof: string -> real)
    requires count > 0 && rows == RowsRead(table, 0, max, count)
    requires AllWhole(rows) && Loadable(Items(rows, atof))
    ensures var r := LoadPages(map[], table, 0, max, count, atof);
            r.Some? && ByTable(Items(rows, atof), x, y, Point(atof(x), atof(y)), Correct(r.value, x, y, atof))
  {
    LoadedIndexIsTable(table, max, count, rows, atof);
    CorrectionFollowsTable(LoadPages(map[], table, 0, max, count, atof).value, Items(rows, atof), x, y, atof);
  }

  /** The table gives at most one offset for a key pair. */
  lemma ShiftUnique(items: seq<Item>, lat: Key, lng: Key, o: Offset, p: Offset)
    requires Loadable(items) && Shift(items, lat, lng, o) && Shift(items, lat, lng, p)
    ensures o == p
  {
    if lng > 0 {
      var i :| 0 <= i < |items| && items[i] == Item(lat, Entry(lng, o));
      var j :| 0 <= j < |items| && items[j] == Item(lat, Entry(lng, p));
      assert i == j;
    }
  }

  /** So `ByTable` fixes the correction. */
  lemma ByTableUnique(items: seq<Item>, x: string, y: string, baidu: Point, c: Correction, d: Correction)
    requires Loadable(items) && ByTable(items, x, y, baidu, c) && ByTable(items, x, y, baidu, d)
    ensures c == d
  {
    if ToKey(y).Ok? && ToKey(x).Ok? {
      var lat, lng := ToKey(y).key, ToKey(x).key;
      forall o, p | Shift(items, lat, lng, o) && Shift(items, lat, lng, p)
        ensures o == p
      {
        ShiftUnique(items, lat, lng, o, p);
      }
    }
  }
}
