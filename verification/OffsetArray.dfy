/** CXArray: the offsets of one latitude in a fixed array sorted by longitude key, filled in place. */
module OffsetArray {
  import opened Common
  import opened OffsetKeys
  import opened OffsetSlots

  class XArray {
    const arraylng: array<Entry>
    var index: nat

    ghost predicate Valid()
      reads this
    {
      arraylng.Length == ARRAY_COUNT
    }

    ghost function View(): Slots
      reads this, arraylng
    {
      Slots(arraylng[..], index)
    }

    constructor ()
      ensures Valid() && View() == Empty() && fresh(arraylng)
    {
      arraylng := new Entry[ARRAY_COUNT](_ => PAD);
      index := 0;
      new;
      assert arraylng[..] == Empty().a;
    }

    /** Moves count elements from slot `from` up by one, as one block. */
    method MoveUp(from: nat, count: nat)
      requires from + count < arraylng.Length
      modifies arraylng
      ensures arraylng[..] == Moved(old(arraylng[..]), from, count)
    {
      ghost var was := arraylng[..];
      forall k | from < k <= from + count {
        arraylng[k] := arraylng[k - 1];
      }
      assert forall k | 0 <= k < arraylng.Length :: arraylng[..][k] == Moved(was, from, count)[k];
    }

    /** The backward walk of append. */
    method FindSlot(x: Key) returns (tindex: nat)
      requires Valid() && 0 < index <= ARRAY_COUNT
      ensures tindex == Walk(arraylng[..], x, index - 1)
    {
      tindex := index - 1;
      while arraylng[tindex].x > x
        invariant tindex < index && Walk(arraylng[..], x, tindex) == Walk(arraylng[..], x, index - 1)
        decreases tindex
      {
        if tindex == 0 {
          break;
        }
        tindex := tindex - 1;
      }
    }

    /** Writes one entry and counts it. */
    method Put(slot: nat, e: Entry)
      requires slot < arraylng.Length
      modifies `index, arraylng
      ensures View() == Slots(old(arraylng[..])[slot := e], old(index) + 1)
    {
      arraylng[slot] := e;
      index := index + 1;
      assert arraylng[..] == old(arraylng[..])[slot := e];
    }

    /** `overrun` is set where the code would touch memory outside the array. */
    method Append(x: Key, off: Offset) returns (overrun: bool)
      requires Valid()
      modifies this, arraylng
      ensures Valid()
      ensures overrun <==> Appended(old(View()), Entry(x, off)).None?
      ensures View() == if overrun then old(View()) else Appended(old(View()), Entry(x, off)).value
    {
      overrun := false;
      var e := Entry(x, off);
      if index == 0 {
        Put(0, e);
      } else if index > ARRAY_COUNT {
        overrun := true;
      } else {
        var tindex := FindSlot(x);
        if tindex == 0 && arraylng[0].x > x {
          MoveUp(0, index - 1);
          Put(0, e);
        } else {
          overrun := Place(tindex, e);
        }
      }
    }

    /** The part of append behind the walk. */
    method Place(tindex: nat, e: Entry) returns (overrun: bool)
      requires Valid() && tindex < index <= ARRAY_COUNT
      modifies this, arraylng
      ensures overrun <==> Placed(old(View()), e, tindex).None?
      ensures View() == if overrun then old(View()) else Placed(old(View()), e, tindex).value
    {
      if tindex != index - 1 {
        if arraylng[tindex].x == e.x {
          return false;
        }
        if index == ARRAY_COUNT {
          return true;
        }
        MoveUp(tindex + 1, index - tindex - 1);
      }
      if tindex < ARRAY_COUNT - 1 {
        Put(tindex + 1, e);
      }
      overrun := false;
    }

    /** The point is left unset when the key is not found, so then nothing is promised about it. */
    method GetGpsxy(baiduxy: Point, key: Key) returns (found: Lookup, gpsxy: Point)
      requires Valid()
      ensures found == LookupOf(View(), key)
      ensures found.Found? ==> gpsxy.dx == baiduxy.dx - found.off.dx && gpsxy.dy == baiduxy.dy - found.off.dy
    {
      gpsxy := *;
      var i := (key - arraylng[0].x) % UINT;
      if i >= ARRAY_COUNT {
        return OutOfRange, gpsxy;
      }
      var f := key == arraylng[i].x;
      if !f {
        i := 0;
        while i < ARRAY_COUNT && key != arraylng[i].x
          invariant 0 <= i <= ARRAY_COUNT
          invariant FirstSlot(arraylng[..], key, 0) == FirstSlot(arraylng[..], key, i)
        {
          i := i + 1;
        }
        f := i < ARRAY_COUNT;
      }
      if f {
        gpsxy := Point(baiduxy.dx - arraylng[i].off.dx, baiduxy.dy - arraylng[i].off.dy);
        return Found(arraylng[i].off), gpsxy;
      }
      return Unset, gpsxy;
    }
  }
}
