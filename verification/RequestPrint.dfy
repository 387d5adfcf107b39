/** A request printed as the phones print it is read back as the values it was printed from. */
module RequestPrint {
  import opened Common
  import opened RequestText

  datatype Tag = Serial | Md5 | X | Y

  function Key(tag: Tag): string {
    match tag
    case Serial => "serial"
    case Md5 => "md5"
    case X => "xbaidu"
    case Y => "ybaidu"
  }

  /** How a request spells its keyword and its keys. */
  datatype Letters = Letters(nav: string, serial: string, md5: string, x: string, y: string)

  /** In any mixture of capital and small letters. */
  predicate AnyCase(l: Letters) {
    && Lower(l.nav) == "navto" && Lower(l.serial) == "serial" && Lower(l.md5) == "md5"
    && Lower(l.x) == "xbaidu" && Lower(l.y) == "ybaidu"
  }

  type Spelling = l: Letters | AnyCase(l) witness Letters("navto", "serial", "md5", "xbaidu", "ybaidu")

  function Spelled(tag: Tag, sp: Spelling): string {
    match tag
    case Serial => sp.serial
    case Md5 => sp.md5
    case X => sp.x
    case Y => sp.y
  }

  lemma SpelledIsKey(tag: Tag, sp: Spelling)
    ensures |Spelled(tag, sp)| == |Key(tag)|
    ensures forall k | 0 <= k < |Key(tag)| :: LowerChar(Spelled(tag, sp)[k]) == Key(tag)[k]
  {
    assert |Lower(Spelled(tag, sp))| == |Key(tag)|;
    forall k | 0 <= k < |Key(tag)|
      ensures LowerChar(Spelled(tag, sp)[k]) == Key(tag)[k]
    {
      assert Lower(Spelled(tag, sp))[k] == Key(tag)[k];
    }
  }

  lemma SpelledNav(sp: Spelling)
    ensures |sp.nav| == 5 && LowerChar(sp.nav[0]) == 'n' && LowerChar(sp.nav[2]) == 'v'
    ensures forall k | 0 <= k < 5 :: LowerChar(sp.nav[k]) == "navto"[k]
  {
    assert |Lower(sp.nav)| == 5;
    forall k | 0 <= k < 5
      ensures LowerChar(sp.nav[k]) == "navto"[k]
    {
      assert Lower(sp.nav)[k] == "navto"[k];
    }
  }

  function Value(tag: Tag, f: Fields): string {
    match tag
    case Serial => f.serial
    case Md5 => f.md5
    case X => f.x
    case Y => f.y
  }

  /** Characters a value is made of: hexadecimal digits and dots. */
  predicate Plain(c: char) {
    Digit(c) || 'a' <= c <= 'f' || 'A' <= c <= 'F' || c == '.'
  }

  predicate AllPlain(s: string) {
    forall k | 0 <= k < |s| :: Plain(s[k])
  }

  /** Values of the lengths the server reads. */
  ghost predicate Printable(f: Fields) {
    && |f.serial| == SERIAL_LEN && |f.md5| == MD5_LEN && |f.x| < GPS_LEN && |f.y| < GPS_LEN
    && AllPlain(f.serial) && AllPlain(f.md5) && AllPlain(f.x) && AllPlain(f.y)
  }

  function Pair(tag: Tag, sp: Spelling, f: Fields): string {
    Spelled(tag, sp) + "=" + Value(tag, f)
  }

  function Joined(tag: Tag, sp: Spelling, f: Fields): string {
    Pair(tag, sp, f) + "&"
  }

  /** The pairs in this order with ampersands between them, and what follows the last. */
  function Pairs(sp: Spelling, order: seq<Tag>, f: Fields, tail: string): string
  {
    if order == [] then ""
    else if |order| == 1 then Pair(order[0], sp, f) + tail
    else Joined(order[0], sp, f) + Pairs(sp, order[1..], f, tail)
  }

  function Printed(sp: Spelling, order: seq<Tag>, f: Fields, tail: string): string {
    sp.nav + "?" + Pairs(sp, order, f, tail)
  }

  // ---------------------------------------------------------------- finding a key

  /** No other pair contains the first letter of a key. */
  lemma PairIsForeign(other: Tag, sp: Spelling, f: Fields, tag: Tag)
    requires Printable(f) && other != tag
    ensures forall k | 0 <= k < |Pair(other, sp, f)| :: !Same(Pair(other, sp, f)[k], Key(tag)[0])
  {
    var p := Pair(other, sp, f);
    forall k | 0 <= k < |p|
      ensures !Same(p[k], Key(tag)[0])
    {
      if k > |Spelled(other, sp)| {
        assert p[k] == Value(other, f)[k - |Spelled(other, sp)| - 1];
        assert Plain(p[k]);
        PlainIsForeign(p[k], tag);
      } else {
        KeyIsForeign(other, sp, tag, k);
      }
    }
  }

  lemma PlainIsForeign(c: char, tag: Tag)
    requires Plain(c)
    ensures !Same(c, Key(tag)[0])
  {
  }

  lemma KeyIsForeign(other: Tag, sp: Spelling, tag: Tag, k: nat)
    requires other != tag && k <= |Spelled(other, sp)|
    ensures !Same((Spelled(other, sp) + "=")[k], Key(tag)[0])
  {
    SpelledIsKey(other, sp);
    if k < |Key(other)| {
      KeysDiffer(other, tag, k);
      SameIsLower(Spelled(other, sp)[k], Key(tag)[0]);
    }
  }

  lemma KeysDiffer(other: Tag, tag: Tag, k: nat)
    requires other != tag && k < |Key(other)|
    ensures Key(other)[k] != Key(tag)[0]
  {
  }

  lemma {:induction false} FirstSkips(t: string, kw: string, from: nat, n: nat)
    requires from <= n <= |t|
    requires forall at: nat | from <= at < n :: !MatchAt(t, at, kw)
    ensures First(t, kw, from, |t|) == First(t, kw, n, |t|)
    decreases n - from
  {
    if from < n {
      FirstSkips(t, kw, from + 1, n);
    }
  }

  ghost predicate Foreign(part: string, kw: string) {
    kw != "" && forall k | 0 <= k < |part| :: !Same(part[k], kw[0])
  }

  lemma SkipPart(pre: string, part: string, rest: string, kw: string)
    requires Foreign(part, kw)
    ensures First(pre + part + rest, kw, |pre|, |pre + part + rest|)
            == First(pre + part + rest, kw, |pre + part|, |pre + part + rest|)
  {
    var t := pre + part + rest;
    forall at: nat | |pre| <= at < |pre + part|
      ensures !MatchAt(t, at, kw)
    {
      assert t[at + 0] == part[at - |pre|];
    }
    FirstSkips(t, kw, |pre|, |pre + part|);
  }

  lemma JoinedIsForeign(other: Tag, sp: Spelling, f: Fields, tag: Tag)
    requires Printable(f) && other != tag
    ensures Foreign(Joined(other, sp, f), Key(tag))
  {
    PairIsForeign(other, sp, f, tag);
    assert forall k | 0 <= k < |Pair(other, sp, f)| :: Joined(other, sp, f)[k] == Pair(other, sp, f)[k];
  }

  lemma PairsSplit(pre: string, sp: Spelling, order: seq<Tag>, f: Fields, tail: string)
    requires |order| > 1
    ensures pre + Pairs(sp, order, f, tail) == pre + Joined(order[0], sp, f) + Pairs(sp, order[1..], f, tail)
  {
  }

  // ---------------------------------------------------------------- where the pairs stand

  /** The text s stands at `at`. */
  ghost predicate Stands(t: string, at: nat, s: string) {
    at + |s| <= |t| && forall k | 0 <= k < |s| :: t[at + k] == s[k]
  }

  ghost predicate EndsAt(t: string, at: nat) {
    at < |t| && Ends(t[at])
  }

  /** The tail ends the value before it. */
  predicate EndsText(tail: string) {
    tail != "" && Ends(tail[0])
  }

  /** The value of this tag is ended by what follows its pair: another pair, or an ending tail. */
  predicate Closed(order: seq<Tag>, tail: string, tag: Tag)
    requires tag in order
  {
    if order[0] == tag then |order| > 1 || EndsText(tail) else Closed(order[1..], tail, tag)
  }

  /** s stands at `at`, and is ended there, or only the tail follows. */
  ghost predicate Placed(t: string, at: nat, s: string, tail: string, closed: bool) {
    && Stands(t, at, s)
    && if closed then EndsAt(t, at + |s|) else t[at + |s|..] == tail && !EndsText(tail)
  }

  /** Where the key is first found, its own pair stands. */
  ghost predicate Found(t: string, from: nat, tag: Tag, sp: Spelling, f: Fields, tail: string, closed: bool)
    requires from <= |t|
  {
    Placed(t, First(t, Key(tag), from, |t|), Pair(tag, sp, f), tail, closed)
  }

  lemma FoundLater(pre: string, part: string, rest: string, tag: Tag, sp: Spelling, f: Fields, tail: string,
                   closed: bool, t: string)
    requires t == pre + part + rest && Foreign(part, Key(tag)) && Found(t, |pre + part|, tag, sp, f, tail, closed)
    ensures Found(t, |pre|, tag, sp, f, tail, closed)
  {
    SkipPart(pre, part, rest, Key(tag));
  }

  lemma KeyIsLower(tag: Tag, k: nat)
    requires k < |Key(tag)|
    ensures !('A' <= Key(tag)[k] <= 'Z')
  {
  }

  lemma StandsFirst(t: string, at: nat, tag: Tag, sp: Spelling, f: Fields)
    requires Stands(t, at, Pair(tag, sp, f))
    ensures First(t, Key(tag), at, |t|) == at
  {
    var p := Pair(tag, sp, f);
    SpelledIsKey(tag, sp);
    forall k | 0 <= k < |Key(tag)|
      ensures Same(t[at + k], Key(tag)[k])
    {
      assert t[at + k] == p[k] == Spelled(tag, sp)[k];
      KeyIsLower(tag, k);
      SameIsLower(t[at + k], Key(tag)[k]);
    }
  }

  /** A key is first found at its own pair, in any order of the pairs and with any tail. */
  lemma {:induction false} KeyFound(pre: string, sp: Spelling, order: seq<Tag>, f: Fields, tail: string, tag: Tag,
                                    t: string)
    requires Printable(f) && tag in order && t == pre + Pairs(sp, order, f, tail)
    ensures Found(t, |pre|, tag, sp, f, tail, Closed(order, tail, tag))
    decreases |order|
  {
    if order[0] == tag {
      StandsFirst(t, |pre|, tag, sp, f);
    } else {
      var part := Joined(order[0], sp, f);
      PairsSplit(pre, sp, order, f, tail);
      KeyFound(pre + part, sp, order[1..], f, tail, tag, t);
      JoinedIsForeign(order[0], sp, f, tag);
      FoundLater(pre, part, Pairs(sp, order[1..], f, tail), tag, sp, f, tail, Closed(order[1..], tail, tag), t);
    }
  }

  /** The value stands behind its key and the equals sign, ended like its pair. */
  lemma ValuePlaced(t: string, at: nat, tag: Tag, sp: Spelling, f: Fields, tail: string, closed: bool)
    requires Placed(t, at, Pair(tag, sp, f), tail, closed)
    ensures Placed(t, at + |Key(tag)| + 1, Value(tag, f), tail, closed)
  {
    SpelledIsKey(tag, sp);
    var p, n := Pair(tag, sp, f), |Key(tag)| + 1;
    forall k | 0 <= k < |Value(tag, f)|
      ensures t[at + n + k] == Value(tag, f)[k]
    {
      assert t[at + (n + k)] == p[n + k];
    }
  }
}
