/** When loading rows one by one keeps the index the first-wins table of the rows so far: exactly as long
    as each row is accepted by the array it meets. */
module OffsetLoads {
  import opened Common
  import opened OffsetKeys
  import opened OffsetSlots
  import opened OffsetIndex

  /** The index after the first n items; None when an insert has left its array. */
  function LoadUpTo(items: seq<Item>, n: nat): (r: Option<Index>)
    requires n <= |items|
    ensures r.Some? ==> SizedIndex(r.value)
  {
    if n == 0 then Some(map[])
    else
      match LoadUpTo(items, n - 1)
      case None => None
      case Some(idx) =>
        InsertSized(idx, items[n - 1]);
        InsertItem(idx, items[n - 1])
  }

  /** It is what the loading loop has after n items. */
  lemma {:induction false} LoadUpToIsLoad(items: seq<Item>, n: nat)
    requires n <= |items|
    ensures LoadItems(map[], items, 0) ==
            match LoadUpTo(items, n) case None => None case Some(idx) => LoadItems(idx, items, n)
  {
    if n > 0 {
      LoadUpToIsLoad(items, n - 1);
    }
  }

  // ---------------------------------------------------------------- the first-wins table

  ghost predicate KeySeen(items: seq<Item>, n: nat, lat: Key, k: Key)
    requires n <= |items|
  {
    exists i :: 0 <= i < n && items[i].lat == lat && items[i].e.x == k
  }

  /** The first of the first n items with this key pair has this offset. */
  ghost predicate FirstItem(items: seq<Item>, n: nat, lat: Key, k: Key, o: Offset)
    requires n <= |items|
  {
    exists i :: 0 <= i < n && items[i] == Item(lat, Entry(k, o)) && !KeySeen(items, i, lat, k)
  }

  lemma FirstOfNext(items: seq<Item>, n: nat, lat: Key, k: Key, o: Offset)
    requires n < |items|
    ensures FirstItem(items, n + 1, lat, k, o) <==>
            FirstItem(items, n, lat, k, o) || (items[n] == Item(lat, Entry(k, o)) && !KeySeen(items, n, lat, k))
  {
  }

  lemma {:induction false} FirstExists(items: seq<Item>, n: nat, lat: Key, k: Key) returns (o: Offset)
    requires n <= |items| && KeySeen(items, n, lat, k)
    ensures FirstItem(items, n, lat, k, o)
  {
    if KeySeen(items, n - 1, lat, k) {
      o := FirstExists(items, n - 1, lat, k);
      FirstOfNext(items, n - 1, lat, k, o);
    } else {
      o := items[n - 1].e.off;
      assert items[n - 1] == Item(lat, Entry(k, o));
    }
  }

  /** s is the first-wins table of this latitude among the first n items. */
  ghost predicate RowFirstWins(s: Slots, items: seq<Item>, n: nat, lat: Key)
    requires n <= |items|
  {
    s.Sorted() && forall k: Key, o: Offset :: s.Holds(k, o) <==> FirstItem(items, n, lat, k, o)
  }

  lemma StoredIsSeen(s: Slots, items: seq<Item>, n: nat, lat: Key, k: Key)
    requires n <= |items| && RowFirstWins(s, items, n, lat)
    ensures s.Stored(k) <==> KeySeen(items, n, lat, k)
  {
    if s.Stored(k) {
      var o := StoredHolds(s, k);
      assert FirstItem(items, n, lat, k, o);
    }
    if KeySeen(items, n, lat, k) {
      var o := FirstExists(items, n, lat, k);
      assert s.Holds(k, o);
    }
  }

  // ---------------------------------------------------------------- one row

  lemma FirstWinsIsTable(s: Slots, items: seq<Item>, n: nat, next: Slots)
    requires n < |items| && RowFirstWins(s, items, n, items[n].lat) && next.Sized()
    ensures FirstWins(s, items[n].e, next) <==>
            forall k: Key, o: Offset :: next.Holds(k, o) <==> FirstItem(items, n + 1, items[n].lat, k, o)
  {
    var lat, e := items[n].lat, items[n].e;
    StoredIsSeen(s, items, n, lat, e.x);
    forall k: Key, o: Offset
      ensures FirstItem(items, n + 1, lat, k, o)
              <==> s.Holds(k, o) || (k == e.x && o == e.off && !s.Stored(e.x))
    {
      FirstOfNext(items, n, lat, k, o);
      assert items[n] == Item(lat, Entry(k, o)) <==> k == e.x && o == e.off;
    }
  }

  /** A row with longitude key 0 cannot be held by a sorted array. */
  lemma ZeroKeyBreaks(s: Slots, items: seq<Item>, n: nat, next: Slots)
    requires n < |items| && RowFirstWins(s, items, n, items[n].lat) && items[n].e.x == 0
    ensures !RowFirstWins(next, items, n + 1, items[n].lat)
  {
    var lat, o := items[n].lat, items[n].e.off;
    StoredIsSeen(s, items, n, lat, 0);
    FirstOfNext(items, n, lat, 0, o);
    assert items[n] == Item(lat, Entry(0, o));
    assert FirstItem(items, n + 1, lat, 0, o);
    if next.Sorted() {
      NoZeroHeld(next, o);
    }
  }

  lemma NoZeroHeld(s: Slots, o: Offset)
    requires s.Sorted()
    ensures !s.Holds(0, o)
  {
  }

  lemma RowExactly(s: Slots, items: seq<Item>, n: nat)
    requires n < |items| && RowFirstWins(s, items, n, items[n].lat)
    ensures Appended(s, items[n].e).Some? && RowFirstWins(Appended(s, items[n].e).value, items, n + 1, items[n].lat)
            <==> items[n].e.x > 0 && Accepts(s, items[n].e.x)
  {
    var r := Appended(s, items[n].e);
    if items[n].e.x > 0 {
      AppendBehavesExactlyWhenAccepted(s, items[n].e);
      if r.Some? && r.value.Sized() {
        FirstWinsIsTable(s, items, n, r.value);
      }
    } else if r.Some? {
      ZeroKeyBreaks(s, items, n, r.value);
    }
  }

  // ---------------------------------------------------------------- the index

  ghost predicate LatitudeFirstWins(idx: Index, items: seq<Item>, n: nat, lat: Key)
    requires n <= |items|
  {
    if lat in idx then RowFirstWins(idx[lat], items, n, lat) else !Seen(items, n, lat)
  }

  ghost predicate IndexFirstWins(idx: Index, items: seq<Item>, n: nat)
    requires n <= |items|
  {
    forall lat: Key :: LatitudeFirstWins(idx, items, n, lat)
  }

  /** The row is accepted by the array it meets; a new latitude meets an empty one. */
  ghost predicate Accepted(idx: Index, it: Item) {
    it.e.x > 0 && (it.lat in idx ==> idx[it.lat].Sorted() && Accepts(idx[it.lat], it.e.x))
  }

  /** The array that an item meets. */
  function Met(idx: Index, lat: Key): Slots {
    if lat in idx then idx[lat] else Empty()
  }

  lemma MetFirstWins(idx: Index, items: seq<Item>, n: nat, lat: Key)
    requires n <= |items| && LatitudeFirstWins(idx, items, n, lat)
    ensures RowFirstWins(Met(idx, lat), items, n, lat)
  {
  }

  lemma OthersFirstWins(idx: Index, items: seq<Item>, n: nat, next: Index, lat: Key)
    requires SizedIndex(idx) && n < |items| && InsertItem(idx, items[n]) == Some(next)
    requires lat != items[n].lat && LatitudeFirstWins(idx, items, n, lat)
    ensures LatitudeFirstWins(next, items, n + 1, lat)
  {
    assert lat in next <==> lat in idx;
    if lat in idx {
      assert next[lat] == idx[lat];
      forall k: Key, o: Offset
        ensures FirstItem(items, n + 1, lat, k, o) <==> FirstItem(items, n, lat, k, o)
      {
        FirstOfNext(items, n, lat, k, o);
      }
    }
  }

  lemma AllFirstWins(idx: Index, items: seq<Item>, n: nat, next: Index, m: nat)
    requires SizedIndex(idx) && n < |items| && m == n + 1 && InsertItem(idx, items[n]) == Some(next)
    requires IndexFirstWins(idx, items, n) && LatitudeFirstWins(next, items, m, items[n].lat)
    ensures IndexFirstWins(next, items, m)
  {
    forall lat: Key
      ensures LatitudeFirstWins(next, items, m, lat)
    {
      assert LatitudeFirstWins(idx, items, n, lat);
      if lat != items[n].lat {
        OthersFirstWins(idx, items, n, next, lat);
      }
    }
  }

  /** One insert keeps the index the first-wins table exactly when the row is accepted. */
  lemma InsertExactly(idx: Index, items: seq<Item>, n: nat)
    requires SizedIndex(idx) && n < |items| && IndexFirstWins(idx, items, n)
    ensures InsertItem(idx, items[n]).Some? && IndexFirstWins(InsertItem(idx, items[n]).value, items, n + 1)
            <==> Accepted(idx, items[n])
  {
    var lat := items[n].lat;
    assert LatitudeFirstWins(idx, items, n, lat);
    MetFirstWins(idx, items, n, lat);
    RowExactly(Met(idx, lat), items, n);
    var r := InsertItem(idx, items[n]);
    if r.Some? {
      assert r.value[lat] == Appended(Met(idx, lat), items[n].e).value;
      assert LatitudeFirstWins(r.value, items, n + 1, lat) <==> RowFirstWins(r.value[lat], items, n + 1, lat);
      if Accepted(idx, items[n]) {
        AllFirstWins(idx, items, n, r.value, n + 1);
      }
    }
  }

  // ---------------------------------------------------------------- the whole load

  ghost predicate GoodUpTo(items: seq<Item>, n: nat)
    requires n <= |items|
  {
    LoadUpTo(items, n).Some? && IndexFirstWins(LoadUpTo(items, n).value, items, n)
  }

  ghost predicate AcceptedAt(items: seq<Item>, n: nat)
    requires n < |items|
  {
    LoadUpTo(items, n).Some? && Accepted(LoadUpTo(items, n).value, items[n])
  }

  lemma LoadNext(items: seq<Item>, n: nat, idx: Index)
    requires n < |items| && LoadUpTo(items, n) == Some(idx)
    ensures LoadUpTo(items, n + 1) == InsertItem(idx, items[n])
  {
  }

  lemma GoodNext(items: seq<Item>, n: nat)
    requires n < |items| && GoodUpTo(items, n)
    ensures GoodUpTo(items, n + 1) <==> AcceptedAt(items, n)
  {
    var idx := LoadUpTo(items, n).value;
    LoadNext(items, n, idx);
    InsertExactly(idx, items, n);
  }

  lemma NothingLoaded(items: seq<Item>)
    ensures GoodUpTo(items, 0)
  {
  }

  lemma {:induction false} AcceptedLoads(items: seq<Item>, n: nat)
    requires n <= |items| && forall m: nat | m < n :: AcceptedAt(items, m)
    ensures GoodUpTo(items, n)
  {
    if n == 0 {
      NothingLoaded(items);
    } else {
      AcceptedLoads(items, n - 1);
      GoodNext(items, n - 1);
    }
  }

  /** Loading keeps the index the first-wins table of the rows so far, after every row, exactly when every
      row is accepted by the array it meets: a nonzero longitude, not below the first of its latitude,
      not a second copy of the largest, and room if it is new. */
  lemma LoadsFirstWinsExactly(items: seq<Item>)
    ensures (forall n: nat | n <= |items| :: GoodUpTo(items, n))
            <==> (forall n: nat | n < |items| :: AcceptedAt(items, n))
  {
    if forall n: nat | n < |items| :: AcceptedAt(items, n) {
      forall n: nat | n <= |items|
        ensures GoodUpTo(items, n)
      {
        AcceptedLoads(items, n);
      }
    }
    if forall n: nat | n <= |items| :: GoodUpTo(items, n) {
      forall n: nat | n < |items|
        ensures AcceptedAt(items, n)
      {
        assert GoodUpTo(items, n) && GoodUpTo(items, n + 1);
        GoodNext(items, n);
      }
    }
  }

  // ---------------------------------------------------------------- tables

  /** A table whose rows are all accepted loads, in pages of any size, as its first-wins table. */
  lemma TableLoadsFirstWins(table: seq<Row>, max: nat, count: nat, rows: seq<Row>, atof: string -> real)
    requires count > 0 && rows == RowsRead(table, 0, max, count) && AllWhole(rows)
    requires forall n: nat | n < |rows| :: AcceptedAt(Items(rows, atof), n)
    ensures var r := LoadPages(map[], table, 0, max, count, atof);
            r.Some? && IndexFirstWins(r.value, Items(rows, atof), |rows|)
  {
    var items := Items(rows, atof);
    PagesLoadAsOne(map[], table, 0, max, count, atof);
    assert rows[0..] == rows;
    PageLoadsItems(map[], rows, 0, atof);
    LoadUpToIsLoad(items, |items|);
    AcceptedLoads(items, |items|);
  }

  lemma {:induction false} LoadableLoads(items: seq<Item>, n: nat) returns (idx: Index)
    requires Loadable(items) && n <= |items|
    ensures LoadUpTo(items, n) == Some(idx) && SizedIndex(idx) && IndexInv(idx, items, n)
  {
    if n == 0 {
      idx := map[];
    } else {
      var before := LoadableLoads(items, n - 1);
      LoadNext(items, n - 1, before);
      idx := InsertKeepsIndex(before, items, n - 1);
    }
  }

  /** Loadable rows are all accepted. */
  lemma LoadableAccepted(items: seq<Item>, n: nat)
    requires Loadable(items) && n < |items|
    ensures AcceptedAt(items, n)
  {
    var idx := LoadableLoads(items, n);
    MetAccepts(idx, items, n);
  }

  lemma MetAccepts(idx: Index, items: seq<Item>, n: nat)
    requires Loadable(items) && n < |items| && IndexInv(idx, items, n)
    ensures Accepted(idx, items[n])
  {
    assert LatitudeInv(idx, items, n, items[n].lat);
    if items[n].lat in idx {
      ItemAccepted(idx[items[n].lat], items, n);
    }
  }
}
