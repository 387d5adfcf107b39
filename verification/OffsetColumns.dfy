/** The loaded table read off its columns: which point a row with these four strings leads to. */
module OffsetColumns {
  import opened Common
  import opened OffsetKeys
  import opened OffsetSlots
  import opened OffsetIndex

  /** The rows of a latitude, by their numbers. */
  ghost function OfLatitude(rows: seq<Row>, lat: Key): set<int>
    requires AllWhole(rows)
  {
    set i | 0 <= i < |rows| && ToKey(rows[i].lat.value).key == lat
  }

  /** f is the first row of this latitude. */
  ghost predicate FirstRow(rows: seq<Row>, lat: Key, f: int)
    requires AllWhole(rows)
  {
    && 0 <= f < |rows| && ToKey(rows[f].lat.value).key == lat
    && forall i | 0 <= i < f :: ToKey(rows[i].lat.value).key != lat
  }

  /** `Loadable` on the columns: nonzero longitudes, none twice for a latitude, the first row of a latitude
      the smallest, and no more of them than an array has slots. */
  ghost predicate LoadableRows(rows: seq<Row>)
    requires AllWhole(rows)
  {
    && (forall i | 0 <= i < |rows| :: ToKey(rows[i].lng.value).key > 0)
    && (forall i, j | 0 <= i < j < |rows| && ToKey(rows[i].lat.value) == ToKey(rows[j].lat.value) ::
          ToKey(rows[i].lng.value).key != ToKey(rows[j].lng.value).key)
    && (forall i, j | 0 <= i < j < |rows| && FirstRow(rows, ToKey(rows[j].lat.value).key, i) ::
          ToKey(rows[i].lng.value).key < ToKey(rows[j].lng.value).key)
    && (forall lat: Key :: |OfLatitude(rows, lat)| <= ARRAY_COUNT)
  }

  lemma ItemColumns(rows: seq<Row>, i: nat, atof: string -> real)
    requires AllWhole(rows) && i < |rows|
    ensures Items(rows, atof)[i].lat == ToKey(rows[i].lat.value).key
    ensures Items(rows, atof)[i].e.x == ToKey(rows[i].lng.value).key
    ensures Items(rows, atof)[i].e.off == Offset(atof(rows[i].dx.value), atof(rows[i].dy.value))
  {
  }

  ghost function ItemsOf(items: seq<Item>, n: nat, lat: Key): set<int>
    requires n <= |items|
  {
    set i | 0 <= i < n && items[i].lat == lat
  }

  lemma {:induction false} CountIsNumber(items: seq<Item>, n: nat, lat: Key)
    requires n <= |items|
    ensures Count(items, n, lat) == |ItemsOf(items, n, lat)|
  {
    if n > 0 {
      CountIsNumber(items, n - 1, lat);
      var before := ItemsOf(items, n - 1, lat);
      if items[n - 1].lat == lat {
        assert ItemsOf(items, n, lat) == before + {n - 1};
      } else {
        assert ItemsOf(items, n, lat) == before;
      }
    }
  }

  lemma CountOfRows(rows: seq<Row>, lat: Key, atof: string -> real)
    requires AllWhole(rows)
    ensures Count(Items(rows, atof), |rows|, lat) == |OfLatitude(rows, lat)|
  {
    var items := Items(rows, atof);
    CountIsNumber(items, |items|, lat);
    forall i: nat | i < |rows|
      ensures i in ItemsOf(items, |items|, lat) <==> i in OfLatitude(rows, lat)
    {
      ItemColumns(rows, i, atof);
    }
    assert ItemsOf(items, |items|, lat) == OfLatitude(rows, lat);
  }

  lemma SeenIsRow(rows: seq<Row>, n: nat, lat: Key, atof: string -> real)
    requires AllWhole(rows) && n <= |rows|
    ensures Seen(Items(rows, atof), n, lat) <==> exists i :: 0 <= i < n && ToKey(rows[i].lat.value).key == lat
  {
    if i :| 0 <= i < n && ToKey(rows[i].lat.value).key == lat {
      assert Items(rows, atof)[i].lat == lat;
    }
  }

  lemma FirstIsFirstRow(rows: seq<Row>, lat: Key, f: int, atof: string -> real)
    requires AllWhole(rows)
    ensures FirstOf(Items(rows, atof), |rows|, lat, f) <==> FirstRow(rows, lat, f)
  {
    if 0 <= f < |rows| {
      SeenIsRow(rows, f, lat, atof);
    }
  }

  lemma LoadableIsLoadable(rows: seq<Row>, atof: string -> real)
    requires AllWhole(rows) && LoadableRows(rows)
    ensures Loadable(Items(rows, atof))
  {
    var items := Items(rows, atof);
    forall i, j | 0 <= i < j < |items| && items[i].lat == items[j].lat && !Seen(items, i, items[i].lat)
      ensures items[i].e.x < items[j].e.x
    {
      FirstIsFirstRow(rows, items[j].lat, i, atof);
    }
    forall lat: Key
      ensures Count(items, |items|, lat) <= ARRAY_COUNT
    {
      CountOfRows(rows, lat, atof);
    }
  }

  /** The rows that the pages read of the table have no NULL and are loadable. */
  ghost predicate LoadableTable(table: seq<Row>, max: nat, count: nat, rows: seq<Row>) {
    count > 0 && rows == RowsRead(table, 0, max, count) && AllWhole(rows) && LoadableRows(rows)
  }

  /** What the table's relation says of a pair of keys that one of its items has. */
  lemma EntryCorrects(items: seq<Item>, i: nat, f: nat, baidu: Point, c: Correction)
    requires Loadable(items) && i < |items| && FirstOf(items, |items|, items[i].lat, f)
    requires ByRow(items, items[i].lat, items[i].e.x, baidu, c)
    ensures c == if items[i].e.x - items[f].e.x < ARRAY_COUNT
                 then Corrected(Point(baidu.dx - items[i].e.off.dx, baidu.dy - items[i].e.off.dy))
                 else Crashed
  {
    var lat, lng, o := items[i].lat, items[i].e.x, items[i].e.off;
    RowReach(items, i, f);
    assert items[i] == Item(lat, Entry(lng, o));
    assert Shift(items, lat, lng, o);
    forall p | Shift(items, lat, lng, p)
      ensures p == o
    {
      ShiftUnique(items, lat, lng, o, p);
    }
  }

  lemma ReachExactly(items: seq<Item>, lat: Key, lng: Key, f: nat)
    requires FirstOf(items, |items|, lat, f)
    ensures InReach(items, lat, lng) <==> (lng - items[f].e.x) % UINT < ARRAY_COUNT
  {
    if InReach(items, lat, lng) {
      var g :| FirstOf(items, |items|, lat, g) && (lng - items[g].e.x) % UINT < ARRAY_COUNT;
      assert f == g;
    }
  }

  lemma RowReach(items: seq<Item>, i: nat, f: nat)
    requires Loadable(items) && i < |items| && FirstOf(items, |items|, items[i].lat, f)
    ensures InReach(items, items[i].lat, items[i].e.x) <==> items[i].e.x - items[f].e.x < ARRAY_COUNT
  {
    assert f <= i;
    ReachExactly(items, items[i].lat, items[i].e.x, f);
  }

  ghost predicate NoItem(items: seq<Item>, lat: Key, lng: Key) {
    forall i | 0 <= i < |items| && items[i].lat == lat :: items[i].e.x != lng
  }

  /** The answer for a longitude that is not among the n rows of its latitude: within the probe's reach the
      point stays unset, except that the zero padding of an array with room answers key 0 with no shift. */
  function Without(first: Key, n: nat, lng: Key, baidu: Point): Correction {
    if (lng - first) % UINT >= ARRAY_COUNT then Crashed
    else if lng == 0 && n < ARRAY_COUNT then Corrected(baidu)
    else NotSet
  }

  /** And of a pair of keys that none has. */
  lemma NoEntryCorrects(items: seq<Item>, lat: Key, lng: Key, f: nat, baidu: Point, c: Correction)
    requires FirstOf(items, |items|, lat, f) && ByRow(items, lat, lng, baidu, c)
    requires NoItem(items, lat, lng)
    ensures c == Without(items[f].e.x, Count(items, |items|, lat), lng, baidu)
  {
    ReachExactly(items, lat, lng, f);
    assert forall o :: !InTable(items, |items|, lat, lng, o);
    if lng == 0 && Count(items, |items|, lat) < ARRAY_COUNT {
      assert Shift(items, lat, lng, Offset(0.0, 0.0));
    }
  }

  lemma TableCorrects(table: seq<Row>, max: nat, count: nat, rows: seq<Row>, x: string, y: string,
                      atof: string -> real) returns (idx: Index)
    requires LoadableTable(table, max, count, rows)
    ensures LoadPages(map[], table, 0, max, count, atof) == Some(idx) && SizedIndex(idx)
    ensures Loadable(Items(rows, atof))
    ensures ByTable(Items(rows, atof), x, y, Point(atof(x), atof(y)), Correct(idx, x, y, atof))
  {
    LoadableIsLoadable(rows, atof);
    LoadThenCorrect(table, max, count, rows, x, y, atof);
    idx := LoadPages(map[], table, 0, max, count, atof).value;
  }

  /** A known latitude leaves the longitude to decide. */
  lemma KnownLatitudeCorrects(items: seq<Item>, x: string, y: string, f: int, baidu: Point, c: Correction)
    requires ToKey(y).Ok? && FirstOf(items, |items|, ToKey(y).key, f) && ByTable(items, x, y, baidu, c)
    ensures if ToKey(x).Overrun? then c == Crashed else ByRow(items, ToKey(y).key, ToKey(x).key, baidu, c)
  {
    assert Seen(items, |items|, ToKey(y).key);
  }

  lemma RowGives(rows: seq<Row>, i: nat, f: nat, x: string, y: string, baidu: Point, c: Correction,
                 atof: string -> real)
    requires AllWhole(rows) && i < |rows| && FirstRow(rows, ToKey(rows[i].lat.value).key, f)
    requires Loadable(Items(rows, atof)) && ByTable(Items(rows, atof), x, y, baidu, c)
    requires ToKey(y) == ToKey(rows[i].lat.value) && ToKey(x) == ToKey(rows[i].lng.value)
    ensures c == if ToKey(rows[i].lng.value).key - ToKey(rows[f].lng.value).key < ARRAY_COUNT
                 then Corrected(Point(baidu.dx - atof(rows[i].dx.value), baidu.dy - atof(rows[i].dy.value)))
                 else Crashed
  {
    var items := Items(rows, atof);
    ItemColumns(rows, i, atof);
    ItemColumns(rows, f, atof);
    FirstIsFirstRow(rows, items[i].lat, f, atof);
    KnownLatitudeCorrects(items, x, y, f, baidu, c);
    EntryCorrects(items, i, f, baidu, c);
  }

  lemma NoItemGives(items: seq<Item>, f: nat, x: string, y: string, baidu: Point, c: Correction)
    requires ToKey(y).Ok? && ToKey(x).Ok? && FirstOf(items, |items|, ToKey(y).key, f)
    requires NoItem(items, ToKey(y).key, ToKey(x).key) && ByTable(items, x, y, baidu, c)
    ensures c == Without(items[f].e.x, Count(items, |items|, ToKey(y).key), ToKey(x).key, baidu)
  {
    KnownLatitudeCorrects(items, x, y, f, baidu, c);
    NoEntryCorrects(items, ToKey(y).key, ToKey(x).key, f, baidu, c);
  }

  /** A point whose two keys are those of a row is shifted back by that row's two offsets, the third column
      from the first coordinate and the fourth from the second, as long as the row's longitude lies within
      an array's length of the first one of its latitude; otherwise the probe leaves the array. */
  lemma RowCorrects(table: seq<Row>, max: nat, count: nat, rows: seq<Row>, i: nat, f: nat, x: string, y: string,
                    atof: string -> real)
    requires LoadableTable(table, max, count, rows) && i < |rows| && FirstRow(rows, ToKey(rows[i].lat.value).key, f)
    requires ToKey(y) == ToKey(rows[i].lat.value) && ToKey(x) == ToKey(rows[i].lng.value)
    ensures var r := LoadPages(map[], table, 0, max, count, atof);
            && r.Some?
            && Correct(r.value, x, y, atof) ==
               if ToKey(rows[i].lng.value).key - ToKey(rows[f].lng.value).key < ARRAY_COUNT
               then Corrected(Point(atof(x) - atof(rows[i].dx.value), atof(y) - atof(rows[i].dy.value)))
               else Crashed
  {
    var idx := TableCorrects(table, max, count, rows, x, y, atof);
    RowGives(rows, i, f, x, y, Point(atof(x), atof(y)), Correct(idx, x, y, atof), atof);
  }

  /** A point whose latitude no row has passes through unchanged, whatever its longitude. */
  lemma AbsentLatitudePasses(table: seq<Row>, max: nat, count: nat, rows: seq<Row>, x: string, y: string,
                             atof: string -> real)
    requires LoadableTable(table, max, count, rows) && ToKey(y).Ok?
    requires forall i | 0 <= i < |rows| :: ToKey(rows[i].lat.value).key != ToKey(y).key
    ensures var r := LoadPages(map[], table, 0, max, count, atof);
            r.Some? && Correct(r.value, x, y, atof) == Corrected(Point(atof(x), atof(y)))
  {
    var idx := TableCorrects(table, max, count, rows, x, y, atof);
    SeenIsRow(rows, |rows|, ToKey(y).key, atof);
  }

  /** A point whose latitude has rows and whose longitude no such row has gets no offset. */
  lemma AbsentLongitude(table: seq<Row>, max: nat, count: nat, rows: seq<Row>, f: nat, x: string, y: string,
                        atof: string -> real)
    requires LoadableTable(table, max, count, rows) && ToKey(y).Ok? && ToKey(x).Ok? && FirstRow(rows, ToKey(y).key, f)
    requires NoRow(rows, ToKey(y).key, ToKey(x).key)
    ensures var r := LoadPages(map[], table, 0, max, count, atof);
            && r.Some?
            && Correct(r.value, x, y, atof) ==
               Without(ToKey(rows[f].lng.value).key, |OfLatitude(rows, ToKey(y).key)|, ToKey(x).key,
                       Point(atof(x), atof(y)))
  {
    var idx := TableCorrects(table, max, count, rows, x, y, atof);
    ItemColumns(rows, f, atof);
    FirstIsFirstRow(rows, ToKey(y).key, f, atof);
    CountOfRows(rows, ToKey(y).key, atof);
    NoRowNoItem(rows, ToKey(y).key, ToKey(x).key, atof);
    NoItemGives(Items(rows, atof), f, x, y, Point(atof(x), atof(y)), Correct(idx, x, y, atof));
  }

  ghost predicate NoRow(rows: seq<Row>, lat: Key, lng: Key)
    requires AllWhole(rows)
  {
    forall i | 0 <= i < |rows| && ToKey(rows[i].lat.value).key == lat :: ToKey(rows[i].lng.value).key != lng
  }

  lemma NoRowNoItem(rows: seq<Row>, lat: Key, lng: Key, atof: string -> real)
    requires AllWhole(rows) && NoRow(rows, lat, lng)
    ensures NoItem(Items(rows, atof), lat, lng)
  {
    forall i: nat | i < |rows|
      ensures Items(rows, atof)[i].lat == lat ==> Items(rows, atof)[i].e.x != lng
    {
      ItemColumns(rows, i, atof);
    }
  }
}
