/** Conversions of src/tools.cpp between UTF-8 bytes and 16-bit units.
    Masks and shifts are written as remainders and quotients. */
module Utf8Units {
  import opened Common

  type Byte = x: int | 0 <= x < 0x100
  type Unit = x: int | 0 <= x < 0x1_0000

  // ---------------------------------------------------------------- the forms of section 3 of RFC 3629

  /** A unit together with the number of bytes chosen to write it. */
  datatype Form = Form(unit: Unit, size: nat) {
    predicate Valid() {
      || (size == 1 && unit < 0x80)
      || (size == 2 && unit < 0x800)
      || size == 3
    }

    /** Lead byte and continuation bytes, six bits each. */
    function Bytes(): (b: seq<Byte>)
      requires Valid()
      ensures |b| == size
    {
      if size == 1 then [unit]
      else if size == 2 then [0xC0 + unit / 0x40, 0x80 + unit % 0x40]
      else [0xE0 + unit / 0x1000, 0x80 + unit / 0x40 % 0x40, 0x80 + unit % 0x40]
    }
  }

  predicate AllValid(fs: seq<Form>) {
    forall i | 0 <= i < |fs| :: fs[i].Valid()
  }

  function Write(fs: seq<Form>): seq<Byte>
    requires AllValid(fs)
  {
    if fs == [] then [] else fs[0].Bytes() + Write(fs[1..])
  }

  function Units(fs: seq<Form>): seq<Unit> {
    seq(|fs|, i requires 0 <= i < |fs| => fs[i].unit)
  }

  /** The shortest form, the only one RFC 3629 lets an encoder choose. */
  function Shortest(u: Unit): (f: Form)
    ensures f.Valid() && f.unit == u
    ensures forall g: Form | g.unit == u && g.Valid() && 1 <= g.size :: f.size <= g.size
  {
    Form(u, if u < 0x80 then 1 else if u < 0x800 then 2 else 3)
  }

  // ---------------------------------------------------------------- the code

  /** UnicodeToUTF_8: works on the low and high byte of the unit, always three bytes out. */
  function UnicodeToUtf8(lo: Byte, hi: Byte): seq<Byte> {
    [0xE0 + hi / 0x10, 0x80 + hi % 0x10 * 4 + lo / 0x40, 0x80 + lo % 0x40]
  }

  /** UTF_8ToUnicode: the low and high byte read from three bytes. */
  function Utf8ToUnicode(b: seq<Byte>): (Byte, Byte)
    requires |b| >= 3
  {
    (b[1] % 4 * 0x40 + b[2] % 0x40, b[0] % 0x10 * 0x10 + b[1] / 4 % 0x10)
  }

  /** How many bytes the lead byte makes the decoder take. */
  function Taken(lead: Byte): nat {
    if lead <= 0x7f then 1 else if lead <= 0xdf then 2 else 3
  }

  /** One turn of the decoding loop. */
  function UnitAt(b: seq<Byte>): Unit
    requires |b| > 0 && Taken(b[0]) <= |b|
  {
    var x: int := b[0];
    if x <= 0x7f then x
    else if x <= 0xdf then
      var y: int := b[1];
      x % 0x20 * 0x40 + y % 0x40
    else
      var y: int, z: int := b[1], b[2];
      x % 0x10 * 0x1000 + y % 0x40 * 0x40 + z % 0x40
  }

  /** What decoding all of b yields; None when the last character is cut off,
      where the code would read past the buffer. */
  function Decoded(b: seq<Byte>): Option<seq<Unit>> {
    if b == [] then Some([])
    else if Taken(b[0]) > |b| then None
    else
      match Decoded(b[Taken(b[0])..])
      case None => None
      case Some(us) => Some([UnitAt(b)] + us)
  }

  /** myUTF8_to_UNICODE: `out` is the written units with their terminating zero. */
  method Utf8ToUnits(utf8: seq<Byte>) returns (out: seq<Unit>, length: nat, cutOff: bool)
    ensures cutOff <==> Decoded(utf8).None?
    ensures !cutOff ==> out == Decoded(utf8).value + [0] && length == |Decoded(utf8).value|
  {
    out, length, cutOff := [], 0, false;
    var at := 0;
    NothingWritten(utf8);
    while at < |utf8|
      invariant at <= |utf8| && length == |out|
      invariant Decoded(utf8) == Behind(out, Decoded(utf8[at..]))
    {
      var rest := utf8[at..];
      if Taken(utf8[at]) > |rest| {
        cutOff := true;
        return;
      }
      DecodeOne(rest, out);
      var n := Taken(utf8[at]);
      assert rest[n..] == utf8[at + n..];
      out := out + [UnitAt(rest)];
      at := at + n;
      length := length + 1;
    }
    out := out + [0];
  }

  /** What has been written, and behind it what is still to be decoded. */
  ghost function Behind(out: seq<Unit>, rest: Option<seq<Unit>>): Option<seq<Unit>> {
    if rest.None? then None else Some(out + rest.value)
  }

  lemma NothingWritten(b: seq<Byte>)
    ensures Decoded(b) == Behind([], Decoded(b[0..]))
  {
    assert b[0..] == b;
    if Decoded(b).Some? {
      assert [] + Decoded(b).value == Decoded(b).value;
    }
  }

  lemma DecodeOne(b: seq<Byte>, out: seq<Unit>)
    requires b != [] && Taken(b[0]) <= |b|
    ensures Behind(out, Decoded(b)) == Behind(out + [UnitAt(b)], Decoded(b[Taken(b[0])..]))
  {
    var r := Decoded(b[Taken(b[0])..]);
    if r.Some? {
      assert out + ([UnitAt(b)] + r.value) == out + [UnitAt(b)] + r.value;
    }
  }

  // ---------------------------------------------------------------- round trips

  lemma FormInverse(f: Form, rest: seq<Byte>)
    requires f.Valid()
    ensures var b := f.Bytes() + rest;
            Taken(b[0]) == f.size && UnitAt(b) == f.unit && b[f.size..] == rest
  {
    UnitOfForm(f);
  }

  lemma UnitOfForm(f: Form)
    requires f.Valid()
    ensures Taken(f.Bytes()[0]) == f.size && UnitAt(f.Bytes()) == f.unit
  {
    if f.size == 2 {
      TwoPartUnit(f.unit);
    } else if f.size == 3 {
      ThreePartUnit(f.unit);
    }
  }

  lemma TwoPartUnit(u: int)
    requires 0 <= u < 0x800
    ensures (0xC0 + u / 0x40) % 0x20 * 0x40 + (0x80 + u % 0x40) % 0x40 == u
  {
    assert (0xC0 + u / 0x40) % 0x20 == u / 0x40;
  }

  lemma ThreePartUnit(u: int)
    requires 0 <= u < 0x1_0000
    ensures (0xE0 + u / 0x1000) % 0x10 * 0x1000 + (0x80 + u / 0x40 % 0x40) % 0x40 * 0x40 + (0x80 + u % 0x40) % 0x40 == u
  {
    assert (0xE0 + u / 0x1000) % 0x10 == u / 0x1000;
    assert u / 0x40 / 0x40 == u / 0x1000;
    var v := u / 0x40;
    assert v == v / 0x40 * 0x40 + v % 0x40;
  }

  /** Any mixture of one-, two- and three-byte forms decodes to its units, using every byte. */
  lemma {:induction false} DecodeInverse(fs: seq<Form>)
    requires AllValid(fs)
    ensures Decoded(Write(fs)) == Some(Units(fs))
  {
    if fs == [] {
    } else {
      DecodeInverse(fs[1..]);
      FormInverse(fs[0], Write(fs[1..]));
      assert Units(fs) == [fs[0].unit] + Units(fs[1..]);
    }
  }

  function WriteWith3(us: seq<Unit>): seq<Byte> {
    if us == [] then [] else UnicodeToUtf8(us[0] % 0x100, us[0] / 0x100) + WriteWith3(us[1..])
  }

  lemma ThreeByteForm(u: Unit)
    ensures UnicodeToUtf8(u % 0x100, u / 0x100) == Form(u, 3).Bytes()
  {
    var v: int := u;
    assert v / 0x100 / 0x10 == v / 0x1000;
    assert v / 0x40 == v / 0x100 * 4 + v % 0x100 / 0x40;
  }

  /** Encoding any units one by one with UnicodeToUTF_8 and decoding gives them back. */
  lemma {:induction false} EncodeThenDecode(us: seq<Unit>)
    ensures Decoded(WriteWith3(us)) == Some(us)
    ensures |WriteWith3(us)| == 3 * |us|
  {
    if us != [] {
      EncodeThenDecode(us[1..]);
      ThreeByteForm(us[0]);
      FormInverse(Form(us[0], 3), WriteWith3(us[1..]));
      assert us == [us[0]] + us[1..];
    }
  }

  /** The shortest forms of RFC 3629 decode too. */
  lemma ShortestThenDecode(us: seq<Unit>)
    ensures var fs := seq(|us|, i requires 0 <= i < |us| => Shortest(us[i]));
            AllValid(fs) && Decoded(Write(fs)) == Some(us)
  {
    var fs := seq(|us|, i requires 0 <= i < |us| => Shortest(us[i]));
    DecodeInverse(fs);
    assert Units(fs) == us;
  }

  /** The single-character decoder agrees with the three-byte branch of the loop on every lead byte
      that reaches it, and inverts the encoder. */
  lemma SingleDecoderAgrees(b: seq<Byte>)
    requires |b| >= 3 && b[0] > 0xdf
    ensures var (lo, hi) := Utf8ToUnicode(b); UnitAt(b) == lo + 0x100 * hi as int
  {
    var x: int, y: int, z: int := b[0], b[1], b[2];
    var (lo, hi) := Utf8ToUnicode(b);
    assert y % 0x40 == y / 4 % 0x10 * 4 + y % 4;
    assert hi as int == x % 0x10 * 0x10 + y / 4 % 0x10;
  }

  lemma SingleRoundTrip(lo: Byte, hi: Byte)
    ensures Utf8ToUnicode(UnicodeToUtf8(lo, hi)) == (lo, hi)
  {
    var l: int, h: int := lo, hi;
    var y: int := 0x80 + h % 0x10 * 4 + l / 0x40;
    assert UnicodeToUtf8(lo, hi)[1] == y;
    assert y % 4 == l / 0x40;
    assert y / 4 % 0x10 == h % 0x10;
  }
}
