/** Cdbdo::getdb: fills the shared map of arrays from the offset table, page by page.
    A query is the part of the table that `limit m, count` selects. */
module OffsetLoader {
  import opened OffsetKeys
  import opened OffsetSlots
  import opened OffsetArray
  import opened OffsetIndex

  class Cdbdo {
    var mapinfo: map<Key, XArray>

    ghost var Repr: set<object>

    /** Every latitude has an array of its own. */
    ghost predicate Valid()
      reads this, Repr
    {
      && (forall k | k in mapinfo :: mapinfo[k] in Repr && mapinfo[k].arraylng in Repr && mapinfo[k].Valid())
      && (forall j, k | j in mapinfo && k in mapinfo && j != k ::
            mapinfo[j] != mapinfo[k] && mapinfo[j].arraylng != mapinfo[k].arraylng)
    }

    ghost function View(): (idx: Index)
      requires Valid()
      reads this, Repr
      ensures SizedIndex(idx)
    {
      map k | k in mapinfo :: mapinfo[k].View()
    }

    constructor ()
      ensures Valid() && View() == map[] && Repr == {}
    {
      mapinfo, Repr := map[], {};
    }

    method AddNew(lat: Key)
      requires Valid() && lat !in mapinfo
      modifies this
      ensures Valid() && fresh(Repr - old(Repr)) && lat in mapinfo
      ensures fresh(mapinfo[lat]) && fresh(mapinfo[lat].arraylng)
      ensures View() == old(View())[lat := Empty()]
    {
      var info := new XArray();
      mapinfo := mapinfo[lat := info];
      Repr := Repr + {info, info.arraylng};
    }

    method AppendTo(it: Item) returns (overrun: bool)
      requires Valid() && it.lat in mapinfo
      modifies mapinfo[it.lat], mapinfo[it.lat].arraylng
      ensures Valid()
      ensures overrun <==> Appended(old(View())[it.lat], it.e).None?
      ensures !overrun ==> View() == old(View())[it.lat := Appended(old(View())[it.lat], it.e).value]
    {
      overrun := mapinfo[it.lat].Append(it.e.x, it.e.off);
      assert View() == old(View())[it.lat := mapinfo[it.lat].View()];
    }

    /** A latitude seen for the first time gets a new array. */
    method Insert(it: Item) returns (overrun: bool)
      requires Valid()
      modifies this, Repr
      ensures Valid() && fresh(Repr - old(Repr))
      ensures overrun <==> InsertItem(old(View()), it).None?
      ensures !overrun ==> View() == InsertItem(old(View()), it).value
    {
      if it.lat !in mapinfo {
        AddNew(it.lat);
      }
      overrun := AppendTo(it);
    }

    /** The rows of one result, until the end or the first NULL column. */
    method LoadRows(rows: seq<Row>, atof: string -> real) returns (crashed: bool)
      requires Valid()
      modifies this, Repr
      ensures Valid() && fresh(Repr - old(Repr))
      ensures crashed <==> LoadPage(old(View()), rows, atof).None?
      ensures !crashed ==> View() == LoadPage(old(View()), rows, atof).value
    {
      ghost var want := LoadPage(View(), rows, atof);
      for i := 0 to |rows|
        invariant Valid() && fresh(Repr - old(Repr))
        invariant LoadPage(View(), rows[i..], atof) == want
      {
        assert rows[i..][0] == rows[i] && rows[i..][1..] == rows[i + 1..];
        var r := ReadRow(rows[i], atof);
        if r.NullColumn? {
          return false;
        } else if r.Crash? {
          return true;
        }
        crashed := Insert(r.item);
        if crashed {
          return;
        }
      }
      crashed := false;
    }

    /** getdb: max rows at most, count at a time. */
    method Getdb(table: seq<Row>, max: nat, count: nat, atof: string -> real) returns (crashed: bool)
      requires Valid() && count > 0
      modifies this, Repr
      ensures Valid() && fresh(Repr - old(Repr))
      ensures crashed <==> LoadPages(old(View()), table, 0, max, count, atof).None?
      ensures !crashed ==> View() == LoadPages(old(View()), table, 0, max, count, atof).value
    {
      ghost var want := LoadPages(View(), table, 0, max, count, atof);
      var m := 0;
      while m < max
        invariant Valid() && fresh(Repr - old(Repr))
        invariant LoadPages(View(), table, m, max, count, atof) == want
        decreases max - m
      {
        crashed := LoadRows(Page(table, m, count), atof);
        if crashed {
          return;
        }
        m := m + count;
      }
      crashed := false;
    }
  }
}
