/** What CXArray holds and what its append does to it, on values: 6600 slots and a fill count.
    The code is taken as it stands: inserting before the first key moves one element too few, a
    second copy of the largest key is not noticed, and inserting into the middle of a full array
    writes one element past its end. */
module OffsetSlots {
  import opened Common
  import opened OffsetKeys

  const ARRAY_COUNT: nat := 6600

  datatype Entry = Entry(x: Key, off: Offset)

  const PAD := Entry(0, Offset(0.0, 0.0))

  datatype Slots = Slots(a: seq<Entry>, index: nat) {
    ghost predicate Sized() {
      |a| == ARRAY_COUNT
    }

    /** Strictly rising nonzero keys, then padding. */
    ghost predicate Sorted() {
      && Sized() && index <= ARRAY_COUNT
      && (forall i | 0 <= i < index :: a[i].x > 0)
      && (forall i, j | 0 <= i < j < index :: a[i].x < a[j].x)
      && (forall i | index <= i < ARRAY_COUNT :: a[i] == PAD)
    }

    /** The entry with this key, if there is one. */
    ghost predicate Holds(k: Key, o: Offset)
      requires Sized()
    {
      exists i :: 0 <= i < index && i < ARRAY_COUNT && a[i] == Entry(k, o)
    }

    ghost predicate Stored(k: Key)
      requires Sized()
    {
      exists i :: 0 <= i < index && i < ARRAY_COUNT && a[i].x == k
    }

    ghost predicate Full() {
      index == ARRAY_COUNT
    }
  }

  function Empty(): (s: Slots)
    ensures s.Sorted() && s.index == 0
  {
    Slots(seq(ARRAY_COUNT, _ => PAD), 0)
  }

  // ---------------------------------------------------------------- append

  /** The backward walk: stops at the first key not above x, or at slot 0. */
  function Walk(a: seq<Entry>, x: Key, t: nat): (r: nat)
    requires t < |a|
    ensures r <= t
    ensures forall i | r < i <= t :: a[i].x > x
    ensures r == 0 || a[r].x <= x
  {
    if a[t].x > x && t > 0 then Walk(a, x, t - 1) else t
  }

  /** count elements from `slot` on moved up by one slot. */
  function Moved(a: seq<Entry>, slot: nat, count: nat): (r: seq<Entry>)
    requires slot + count < |a|
    ensures |r| == |a|
  {
    a[..slot + 1] + a[slot..slot + count] + a[slot + count + 1..]
  }

  /** The effect of append; None when it touches memory outside the array. */
  function Appended(s: Slots, e: Entry): Option<Slots>
    requires |s.a| == ARRAY_COUNT
  {
    var a, n := s.a, s.index;
    if n == 0 then Some(Slots(a[0 := e], 1))
    else if n > ARRAY_COUNT then None
    else
      var t := Walk(a, e.x, n - 1);
      if t == 0 && a[0].x > e.x then Some(Slots(Moved(a, 0, n - 1)[0 := e], n + 1)) else Placed(s, e, t)
  }

  /** The part of append behind the walk, which stopped at slot t with a key not above the new one. */
  function Placed(s: Slots, e: Entry, t: nat): Option<Slots>
    requires |s.a| == ARRAY_COUNT && t < s.index <= ARRAY_COUNT
  {
    var a, n := s.a, s.index;
    if t != n - 1 then
      if a[t].x == e.x then Some(s)
      else if n == ARRAY_COUNT then None
      else Some(Slots(Moved(a, t + 1, n - t - 1)[t + 1 := e], n + 1))
    else if t < ARRAY_COUNT - 1 then Some(Slots(a[t + 1 := e], n + 1))
    else Some(s)
  }

  /** What a caller can check to know that append will behave: not below the smallest key, not a
      second copy of the largest, and room if the key is new. A full array also ignores a second
      copy of its largest key. */
  ghost predicate Accepts(s: Slots, x: Key)
    requires s.Sorted()
  {
    || s.index == 0
    || (&& s.a[0].x <= x
        && (x == s.a[s.index - 1].x ==> s.Full())
        && (s.Stored(x) || !s.Full()))
  }

  /** s' is s with e added unless its key was there already. */
  ghost predicate FirstWins(s: Slots, e: Entry, s': Slots)
    requires s.Sized() && s'.Sized()
  {
    forall k: Key, o: Offset ::
      s'.Holds(k, o) <==> s.Holds(k, o) || (k == e.x && o == e.off && !s.Stored(e.x))
  }

  ghost predicate Behaves(s: Slots, e: Entry)
    requires s.Sized()
  {
    var r := Appended(s, e);
    r.Some? && r.value.Sorted() && FirstWins(s, e, r.value)
  }

  lemma KeyInOrder(s: Slots, e: Entry, t: nat)
    requires s.Sorted() && 0 < s.index && t == Walk(s.a, e.x, s.index - 1)
    requires s.a[0].x <= e.x
    ensures s.a[t].x <= e.x
    ensures s.Stored(e.x) <==> s.a[t].x == e.x
  {
    assert forall i | 0 <= i < t :: s.a[i].x < s.a[t].x;
  }

  /** s' is s with e put into slot t + 1. */
  ghost predicate Inserted(s: Slots, e: Entry, t: nat, s': Slots) {
    && s.Sized() && s'.Sized() && t < s.index < ARRAY_COUNT && s'.index == s.index + 1
    && forall i: nat {:trigger s'.a[i]} | i < ARRAY_COUNT :: s'.a[i] == SlotAfter(s, e, t, i)
  }

  function SlotAfter(s: Slots, e: Entry, t: nat, i: nat): Entry
    requires i < |s.a|
  {
    if i <= t then s.a[i] else if i == t + 1 then e else if i <= s.index then s.a[i - 1] else s.a[i]
  }

  lemma InsertKeepsOrder(s: Slots, e: Entry, t: nat, s': Slots)
    requires s.Sorted() && Inserted(s, e, t, s') && e.x > 0
    requires s.a[t].x < e.x && (t + 1 < s.index ==> e.x < s.a[t + 1].x)
    ensures s'.Sorted()
  {
    forall i, j | 0 <= i < j < s'.index
      ensures s'.a[i].x < s'.a[j].x
    {
      assert i < t ==> s.a[i].x < s.a[t].x;
      assert t + 2 < j ==> s.a[t + 1].x < s.a[j - 1].x;
    }
  }

  lemma InsertIsFirstWins(s: Slots, e: Entry, t: nat, s': Slots)
    requires Inserted(s, e, t, s') && !s.Stored(e.x)
    ensures FirstWins(s, e, s')
  {
    forall k: Key, o: Offset
      ensures s'.Holds(k, o) <==> s.Holds(k, o) || (k == e.x && o == e.off && !s.Stored(e.x))
    {
      if s'.Holds(k, o) {
        var i :| 0 <= i < s'.index && s'.a[i] == Entry(k, o);
        assert i == t + 1 || s.a[if i <= t then i else i - 1] == Entry(k, o);
      }
      if s.Holds(k, o) {
        var i :| 0 <= i < s.index && s.a[i] == Entry(k, o);
        assert s'.a[if i <= t then i else i + 1] == Entry(k, o);
      }
      assert s'.a[t + 1] == e;
    }
  }

  lemma SameIsFirstWins(s: Slots, e: Entry)
    requires s.Sized()
    ensures FirstWins(s, e, s) <==> s.Stored(e.x)
  {
    if !s.Stored(e.x) {
      assert !s.Holds(e.x, e.off);
    }
  }

  lemma AcceptedBehaves(s: Slots, e: Entry)
    requires s.Sorted() && e.x > 0 && Accepts(s, e.x)
    ensures Behaves(s, e)
  {
    var n := s.index;
    if n == 0 {
      FirstEntry(s, e);
    } else {
      var t := Walk(s.a, e.x, n - 1);
      KeyInOrder(s, e, t);
      SameIsFirstWins(s, e);
      if !s.Stored(e.x) {
        NewKeyInserted(s, e, t);
        InsertKeepsOrder(s, e, t, Appended(s, e).value);
        InsertIsFirstWins(s, e, t, Appended(s, e).value);
      }
    }
  }

  lemma NewKeyInserted(s: Slots, e: Entry, t: nat)
    requires s.Sorted() && 0 < s.index < ARRAY_COUNT && t == Walk(s.a, e.x, s.index - 1) && s.a[t].x < e.x
    ensures Appended(s, e).Some? && Inserted(s, e, t, Appended(s, e).value)
  {
  }

  /** A new key above the smallest always goes in, and nothing else changes place at the front. */
  lemma NewKeyAppended(s: Slots, e: Entry)
    requires s.Sorted() && 0 < s.index < ARRAY_COUNT && s.a[0].x < e.x && !s.Stored(e.x)
    ensures Behaves(s, e)
    ensures Appended(s, e).value.index == s.index + 1 && Appended(s, e).value.a[0] == s.a[0]
  {
    var t := Walk(s.a, e.x, s.index - 1);
    KeyInOrder(s, e, t);
    NewKeyInserted(s, e, t);
    InsertKeepsOrder(s, e, t, Appended(s, e).value);
    InsertIsFirstWins(s, e, t, Appended(s, e).value);
  }

  lemma FirstEntry(s: Slots, e: Entry)
    requires s.Sorted() && e.x > 0 && s.index == 0
    ensures Behaves(s, e)
    ensures Appended(s, e).value.index == 1 && Appended(s, e).value.a[0] == e
  {
    var s' := Appended(s, e).value;
    assert s'.a[0] == e;
    assert s'.Holds(e.x, e.off);
  }

  lemma RejectedMisbehaves(s: Slots, e: Entry)
    requires s.Sorted() && e.x > 0 && !Accepts(s, e.x)
    ensures !Behaves(s, e)
  {
    var n := s.index;
    var t := Walk(s.a, e.x, n - 1);
    if s.a[0].x > e.x {
      HeadInsertBreaks(s, e);
    } else if e.x == s.a[n - 1].x {
      KeyInOrder(s, e, t);
      assert t == n - 1;
      var s' := Appended(s, e).value;
      assert s'.a[n - 1].x == s'.a[n].x;
    } else {
      KeyInOrder(s, e, t);
      SameIsFirstWins(s, e);
    }
  }

  /** Inserting before the first key drops the largest entry and leaves what was behind it in its place;
      the new entry comes first and the other ones follow. */
  lemma HeadInsertBreaks(s: Slots, e: Entry)
    requires s.Sorted() && 0 < s.index && e.x < s.a[0].x
    ensures Appended(s, e).Some? && HeadInserted(s, e, Appended(s, e).value) && !Appended(s, e).value.Sorted()
    ensures !Appended(s, e).value.Stored(s.a[s.index - 1].x)
  {
    HeadInsertMoves(s, e);
    var n, s' := s.index, Appended(s, e).value;
    assert n < ARRAY_COUNT ==> s'.a[n] == PAD;
  }

  ghost predicate HeadInserted(s: Slots, e: Entry, s': Slots) {
    && s.Sized() && s'.Sized() && s'.index == s.index + 1 && s'.a[0] == e
    && (forall i | 0 < i < s.index && i < ARRAY_COUNT :: s'.a[i] == s.a[i - 1])
    && (forall i | s.index <= i < ARRAY_COUNT :: s'.a[i] == s.a[i])
  }

  lemma HeadInsertMoves(s: Slots, e: Entry)
    requires s.Sorted() && 0 < s.index && e.x < s.a[0].x
    ensures Appended(s, e).Some? && HeadInserted(s, e, Appended(s, e).value)
  {
    var t := Walk(s.a, e.x, s.index - 1);
    assert forall i | 0 <= i < s.index :: s.a[i].x > e.x;
  }

  /** append keeps the array sorted and adds exactly the new entry if and only if it is accepted. */
  lemma AppendBehavesExactlyWhenAccepted(s: Slots, e: Entry)
    requires s.Sorted() && e.x > 0
    ensures Behaves(s, e) <==> Accepts(s, e.x)
  {
    if Accepts(s, e.x) {
      AcceptedBehaves(s, e);
    } else {
      RejectedMisbehaves(s, e);
    }
  }

  function AppendAll(s: Slots, es: seq<Entry>): Option<Slots>
    requires |s.a| == ARRAY_COUNT
    decreases |es|
  {
    if es == [] then Some(s)
    else
      match Appended(s, es[0])
      case None => None
      case Some(next) => AppendAll(next, es[1..])
  }

  /** Every entry is accepted by the array it meets. */
  ghost predicate AcceptsAll(s: Slots, es: seq<Entry>)
    requires |s.a| == ARRAY_COUNT
    decreases |es|
  {
    es != [] ==>
      && es[0].x > 0 && s.Sorted() && Accepts(s, es[0].x)
      && (Appended(s, es[0]).Some? ==> AcceptsAll(Appended(s, es[0]).value, es[1..]))
  }

  /** The first entry of the sequence with key k has offset o. */
  ghost predicate FirstIn(es: seq<Entry>, k: Key, o: Offset) {
    es != [] && (es[0] == Entry(k, o) || (es[0].x != k && FirstIn(es[1..], k, o)))
  }

  lemma StoredHolds(s: Slots, k: Key) returns (o: Offset)
    requires s.Sized() && s.Stored(k)
    ensures s.Holds(k, o)
  {
    var i :| 0 <= i < s.index && i < ARRAY_COUNT && s.a[i].x == k;
    o := s.a[i].off;
    assert s.a[i] == Entry(k, o);
  }

  lemma FirstWinsStores(s: Slots, e: Entry, next: Slots, k: Key)
    requires s.Sized() && next.Sized() && FirstWins(s, e, next)
    ensures next.Stored(k) <==> s.Stored(k) || k == e.x
  {
    if next.Stored(k) {
      var o := StoredHolds(next, k);
    }
    if s.Stored(k) {
      var o := StoredHolds(s, k);
      assert next.Holds(k, o);
    } else if k == e.x {
      assert next.Holds(k, e.off);
    }
  }

  /** Any sequence of accepted appends keeps the array sorted and makes it the first-value-wins map. */
  lemma {:induction false} AppendsAreFirstWins(s: Slots, es: seq<Entry>, k: Key, o: Offset)
    requires s.Sorted() && AcceptsAll(s, es)
    ensures AppendAll(s, es).Some? && AppendAll(s, es).value.Sorted()
    ensures AppendAll(s, es).value.Holds(k, o) <==> s.Holds(k, o) || (!s.Stored(k) && FirstIn(es, k, o))
    decreases |es|
  {
    if es != [] {
      AcceptedBehaves(s, es[0]);
      var next := Appended(s, es[0]).value;
      FirstWinsStores(s, es[0], next, k);
      AppendsAreFirstWins(next, es[1..], k, o);
    }
  }

  /** A second copy of the largest key goes in behind the first one. */
  lemma SecondLargestKept(s: Slots, e: Entry)
    requires s.Sorted() && 0 < s.index < ARRAY_COUNT && e.x == s.a[s.index - 1].x
    ensures var r := Appended(s, e);
            && r.Some? && r.value.Sized() && r.value.index == s.index + 1 && r.value.a[s.index] == e
            && forall i | 0 <= i < ARRAY_COUNT && i != s.index :: r.value.a[i] == s.a[i]
  {
    var t := Walk(s.a, e.x, s.index - 1);
    assert t == s.index - 1;
  }

  /** A new key between two keys of a full array makes append write past the end. */
  lemma FullArrayOverruns(s: Slots, e: Entry)
    requires s.Sorted() && s.Full() && s.a[0].x < e.x < s.a[s.index - 1].x
    ensures Appended(s, e).None? <==> !s.Stored(e.x)
    ensures s.Stored(e.x) ==> Appended(s, e) == Some(s)
  {
    var t := Walk(s.a, e.x, s.index - 1);
    KeyInOrder(s, e, t);
    assert t != s.index - 1;
  }

  /** A new largest key offered to a full array changes nothing. */
  lemma FullArrayKeepsOut(s: Slots, e: Entry)
    requires s.Sorted() && s.Full() && s.a[s.index - 1].x < e.x
    ensures Appended(s, e) == Some(s)
  {
    var t := Walk(s.a, e.x, s.index - 1);
    assert t == s.index - 1;
  }

  /** Concretely: after 7200 and 7201, offering 7100 loses 7201. */
  lemma HeadInsertExample()
    ensures var o := Offset(0.0, 0.0);
            var s := Slots([Entry(7200, o), Entry(7201, o)] + seq(ARRAY_COUNT - 2, _ => PAD), 2);
            s.Sorted() && Appended(s, Entry(7100, o)).Some? && !Appended(s, Entry(7100, o)).value.Sorted()
  {
    var o := Offset(0.0, 0.0);
    HeadInsertBreaks(Slots([Entry(7200, o), Entry(7201, o)] + seq(ARRAY_COUNT - 2, _ => PAD), 2), Entry(7100, o));
  }

  // ---------------------------------------------------------------- lookup

  /** OutOfRange: the direct probe reads outside the array. Unset: the point is left uninitialised. */
  datatype Lookup = OutOfRange | Unset | Found(off: Offset)

  /** `key - arraylng[0]._x` in unsigned arithmetic. */
  function Probe(s: Slots, key: Key): nat
    requires |s.a| == ARRAY_COUNT
  {
    (key - s.a[0].x) % UINT
  }

  /** The offset of a key: its entry, and for key 0 the zero offset of the padding, if there is any. */
  ghost predicate Gives(s: Slots, key: Key, o: Offset)
    requires s.Sized()
  {
    s.Holds(key, o) || (key == 0 && !s.Full() && o == PAD.off)
  }

  /** What a lookup should answer, read off the stored entries. */
  ghost predicate Answers(s: Slots, key: Key, r: Lookup)
    requires s.Sized()
  {
    match r
    case OutOfRange => Probe(s, key) >= ARRAY_COUNT
    case Unset => Probe(s, key) < ARRAY_COUNT && forall o: Offset :: !Gives(s, key, o)
    case Found(o) => Probe(s, key) < ARRAY_COUNT && Gives(s, key, o)
  }

  /** The scan: the first slot from i on with this key, or the end. */
  function FirstSlot(a: seq<Entry>, key: Key, i: nat): (r: nat)
    requires i <= |a|
    ensures i <= r <= |a|
    ensures r < |a| ==> a[r].x == key
    ensures forall j | i <= j < r :: a[j].x != key
    decreases |a| - i
  {
    if i == |a| || a[i].x == key then i else FirstSlot(a, key, i + 1)
  }

  /** getGpsxy: direct probe, then scan. */
  function LookupOf(s: Slots, key: Key): Lookup
    requires |s.a| == ARRAY_COUNT
  {
    var i := Probe(s, key);
    if i >= ARRAY_COUNT then OutOfRange
    else if s.a[i].x == key then Found(s.a[i].off)
    else
      var j := FirstSlot(s.a, key, 0);
      if j < ARRAY_COUNT then Found(s.a[j].off) else Unset
  }

  /** On a sorted array every lookup answers exactly by what is stored. */
  lemma LookupAnswers(s: Slots, key: Key)
    requires s.Sorted()
    ensures Answers(s, key, LookupOf(s, key))
  {
    var i := Probe(s, key);
    if i < ARRAY_COUNT {
      if s.a[i].x == key {
        SlotGives(s, key, i);
      } else {
        var j := FirstSlot(s.a, key, 0);
        if j < ARRAY_COUNT {
          SlotGives(s, key, j);
        } else {
          assert !s.Full() ==> s.a[s.index].x != key;
        }
      }
    }
  }

  lemma SlotGives(s: Slots, key: Key, i: nat)
    requires s.Sorted() && i < ARRAY_COUNT && s.a[i].x == key
    ensures Gives(s, key, s.a[i].off)
  {
    if key > 0 {
      SlotIsEntry(s, key, i);
    }
  }

  lemma AnswerUnique(s: Slots, key: Key, q: Lookup, r: Lookup)
    requires s.Sorted() && Answers(s, key, q) && Answers(s, key, r)
    ensures q == r
  {
    if q.Found? && r.Found? && key > 0 {
      var i :| 0 <= i < s.index && s.a[i] == Entry(key, q.off);
      var j :| 0 <= j < s.index && s.a[j] == Entry(key, r.off);
      assert i == j;
    }
  }

  /** Any slot with a nonzero key is the one entry of that key, so the direct probe and the scan
      cannot disagree. */
  lemma SlotIsEntry(s: Slots, key: Key, i: nat)
    requires s.Sorted() && key > 0 && i < ARRAY_COUNT && s.a[i].x == key
    ensures i < s.index && s.Holds(key, s.a[i].off)
    ensures forall j | 0 <= j < ARRAY_COUNT && s.a[j].x == key :: j == i
  {
    assert s.a[i] == Entry(key, s.a[i].off);
    forall j | 0 <= j < ARRAY_COUNT && s.a[j].x == key
      ensures j == i
    {
      assert j < s.index;
    }
  }

  lemma {:induction false} KeysRise(s: Slots, i: nat, j: nat)
    requires s.Sorted() && i <= j < s.index
    ensures s.a[j].x - s.a[i].x >= j - i
    decreases j
  {
    if i < j {
      KeysRise(s, i, j - 1);
    }
  }

  /** The direct probe hits exactly when every key from the first up to the sought one is stored. */
  lemma ProbeHitsExactlyOnRuns(s: Slots, key: Key)
    requires s.Sorted() && 0 < s.index && s.a[0].x <= key && key - s.a[0].x < ARRAY_COUNT
    ensures Probe(s, key) == key - s.a[0].x
    ensures s.a[Probe(s, key)].x == key <==> forall k: Key | s.a[0].x <= k <= key :: s.Stored(k)
  {
    var first, i := s.a[0].x, key - s.a[0].x;
    if s.a[i].x == key {
      forall k: Key | first <= k <= key
        ensures s.Stored(k)
      {
        KeysRise(s, 0, k - first);
        KeysRise(s, k - first, i);
        assert s.a[k - first].x == k;
      }
    }
    if forall k: Key | first <= k <= key :: s.Stored(k) {
      RunFillsSlots(s, i);
    }
  }

  lemma {:induction false} RunFillsSlots(s: Slots, i: nat)
    requires s.Sorted() && 0 < s.index && s.a[0].x + i < UINT
    requires forall k: Key | s.a[0].x <= k <= s.a[0].x + i :: s.Stored(k)
    ensures i < s.index && s.a[i].x == s.a[0].x + i
  {
    if i > 0 {
      RunFillsSlots(s, i - 1);
      var k: Key := s.a[0].x + i;
      assert s.Stored(k);
      assert forall m | 0 <= m < i :: s.a[m].x < k;
      var j :| 0 <= j < s.index && s.a[j].x == k;
      KeysRise(s, i - 1, i);
      KeysRise(s, i, j);
    }
  }
}
