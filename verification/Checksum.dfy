/** The Internet checksum of src/tools.cpp: a running sum in a 32-bit accumulator over
    little-endian 16-bit words, folded to 16 bits and complemented.
    The reference is the one's-complement sum of section 1 of RFC 1071. */
module Checksum {
  type Byte = x: int | 0 <= x < 0x100
  type Word = x: int | 0 <= x < 0x1_0000

  const ULONG := 0x1_0000_0000

  /** An `unsigned short` in little-endian memory. */
  function Short(lo: Byte, hi: Byte): Word {
    lo as int + 0x100 * hi as int
  }

  /** The buffer read as `unsigned short`s; an odd last byte becomes a word of its own. */
  function Words(b: seq<Byte>): seq<Word> {
    if |b| == 0 then []
    else if |b| == 1 then [b[0]]
    else [Short(b[0], b[1])] + Words(b[2..])
  }

  function Sum(ws: seq<Word>): nat {
    if ws == [] then 0 else ws[0] + Sum(ws[1..])
  }

  /** One's-complement addition: the carry out of bit 15 comes back in at bit 0. */
  function OnesAdd(a: Word, b: Word): Word {
    if a + b < 0x1_0000 then a + b else a + b - 0xffff
  }

  function OnesSum(ws: seq<Word>): Word {
    if ws == [] then 0 else OnesAdd(ws[0], OnesSum(ws[1..]))
  }

  /** What section 1 of RFC 1071 asks for: the complement of the one's-complement sum. */
  function Rfc1071(ws: seq<Word>): Word {
    0xffff - OnesSum(ws)
  }

  /** The representative of n modulo 0xffff that is zero only for n == 0. */
  function Norm(n: nat): Word {
    if n == 0 then 0 else (n - 1) % 0xffff + 1
  }

  /** What the accumulator of the code holds after the loop, wrapped to 32 bits. */
  function Accumulated(ws: seq<Word>): nat {
    Sum(ws) % ULONG
  }

  /** The value of the code: the complement of the accumulator folded to 16 bits. */
  function Code(ws: seq<Word>): Word {
    0xffff - Norm(Accumulated(ws))
  }

  // ---------------------------------------------------------------- the code

  method Compute(buffer: seq<Byte>) returns (r: Word)
    ensures r == Code(Words(buffer))
    ensures Accumulated(Words(buffer)) == Sum(Words(buffer)) ==> r == Rfc1071(Words(buffer))
  {
    var cksum := AddWords(buffer);
    cksum := FoldTo16(cksum);
    r := 0xffff - cksum;
    NormOfSum(Words(buffer));
  }

  /** The summing loop. */
  method AddWords(buffer: seq<Byte>) returns (cksum: nat)
    ensures cksum == Accumulated(Words(buffer))
  {
    cksum := 0;
    ghost var total := 0;
    var at, size := 0, |buffer|;
    while size > 1
      invariant at >= 0 && size >= 0 && at + size == |buffer|
      invariant total >= 0 && cksum == total % ULONG && total + SumOf(buffer, at) == SumOf(buffer, 0)
    {
      var w: nat := Short(buffer[at], buffer[at + 1]);
      SumFrom(buffer, at);
      WrapStep(total, 0, w);
      cksum, total := (cksum + w) % ULONG, total + w;
      at, size := at + 2, size - 2;
    }
    SumFrom(buffer, at);
    if size != 0 {
      WrapStep(total, 0, buffer[at]);
      cksum := (cksum + buffer[at]) % ULONG;
    }
    assert buffer[0..] == buffer;
  }

  ghost function SumOf(b: seq<Byte>, at: nat): nat
    requires at <= |b|
  {
    Sum(Words(b[at..]))
  }

  lemma SumFrom(b: seq<Byte>, at: nat)
    requires at <= |b|
    ensures at + 2 <= |b| ==> SumOf(b, at) == Short(b[at], b[at + 1]) + SumOf(b, at + 2)
    ensures at + 1 == |b| ==> SumOf(b, at) == b[at]
    ensures at == |b| ==> SumOf(b, at) == 0
  {
    if at + 2 <= |b| {
      assert b[at..][2..] == b[at + 2..];
    } else if at + 1 == |b| {
      assert Words(b[at..]) == [b[at]];
      assert Sum(Words(b[at..])[1..]) == 0;
    }
  }

  lemma WrapStep(c: nat, w: nat, rest: nat)
    ensures ((c + w) % ULONG + rest) % ULONG == (c + (w + rest)) % ULONG
  {
  }

  /** The folding loop terminates, and keeps the residue and being nonzero. */
  method FoldTo16(start: nat) returns (c: Word)
    ensures c == Norm(start)
  {
    var cksum := start;
    while cksum / 0x1_0000 != 0
      invariant cksum >= 0 && Norm(cksum) == Norm(start)
      decreases cksum
    {
      FoldStep(cksum);
      cksum := cksum / 0x1_0000 + cksum % 0x1_0000;
    }
    c := cksum;
  }

  // ---------------------------------------------------------------- arithmetic of residues

  lemma FoldStep(c: nat)
    ensures Norm(c / 0x1_0000 + c % 0x1_0000) == Norm(c)
  {
    var q := c / 0x1_0000;
    assert c == q * 0xffff + (q + c % 0x1_0000);
    if c != 0 {
      NormUnique(c, q + c % 0x1_0000, q);
    }
  }

  lemma NormUnique(a: nat, b: nat, q: int)
    requires a == b + q * 0xffff
    requires a == 0 <==> b == 0
    ensures Norm(a) == Norm(b)
  {
    if a != 0 {
      assert (a - 1) - (b - 1) == q * 0xffff;
    }
  }

  lemma NormAdd(a: nat, b: nat)
    ensures Norm(a + b) == OnesAdd(Norm(a), Norm(b))
  {
    if a != 0 && b != 0 {
      var p, q := (a - 1) / 0xffff, (b - 1) / 0xffff;
      var s := Norm(a) + Norm(b);
      if s < 0x1_0000 {
        NormUnique(a + b, s, p + q);
      } else {
        NormUnique(a + b, s - 0xffff, p + q + 1);
      }
    }
  }

  lemma {:induction false} NormOfSum(ws: seq<Word>)
    ensures OnesSum(ws) == Norm(Sum(ws))
  {
    if ws != [] {
      NormOfSum(ws[1..]);
      NormAdd(ws[0], Sum(ws[1..]));
    }
  }

  // ---------------------------------------------------------------- overflow

  /** For every size a C `int` can give, the code meets RFC 1071 exactly when
      the words add up to less than 2^32. */
  lemma CorrectExactlyWithoutOverflow(buffer: seq<Byte>)
    requires |buffer| < 0x8000_0000
    ensures Code(Words(buffer)) == Rfc1071(Words(buffer))
            <==> Sum(Words(buffer)) < ULONG
  {
    NormOfSum(Words(buffer));
    SumBound(Words(buffer));
    WordCount(buffer);
    WrapChangesResidue(Sum(Words(buffer)));
  }

  /** Dropping k * 2^32 from the accumulator moves the residue by k, since 2^32 is 1 modulo 0xffff. */
  lemma WrapChangesResidue(s: nat)
    requires s < 0xffff * ULONG
    ensures Norm(s % ULONG) == Norm(s) <==> s < ULONG
  {
    var k, t := s / ULONG, s % ULONG;
    if k > 0 && t != 0 {
      var p, q := (s - 1) / 0xffff, (t - 1) / 0xffff;
      assert s - t == k * (65537 * 0xffff) + k;
      assert k == 0xffff * (p - q - 65537 * k) + Norm(s) - Norm(t);
    }
  }

  lemma {:induction false} SumBound(ws: seq<Word>)
    ensures Sum(ws) <= |ws| * 0xffff
  {
    if ws != [] {
      SumBound(ws[1..]);
    }
  }

  /** An odd buffer has the words, and so the checksum, of the buffer with a zero byte behind it. */
  lemma {:induction false} OddIsPadded(b: seq<Byte>)
    requires |b| % 2 == 1
    ensures Words(b) == Words(b + [0]) && Code(Words(b)) == Code(Words(b + [0]))
  {
    if |b| == 1 {
      assert (b + [0])[2..] == [];
    } else {
      OddIsPadded(b[2..]);
      assert (b + [0])[2..] == b[2..] + [0];
    }
  }

  lemma {:induction false} WordCount(b: seq<Byte>)
    ensures |Words(b)| == (|b| + 1) / 2
  {
    if |b| > 1 {
      WordCount(b[2..]);
    }
  }

  /** Up to 65537 words cannot overflow the accumulator. */
  lemma NoOverflow(buffer: seq<Byte>)
    requires |buffer| <= 2 * 65537
    ensures Accumulated(Words(buffer)) == Sum(Words(buffer))
  {
    WordCount(buffer);
    FewWordsFit(Words(buffer));
  }

  lemma FewWordsFit(ws: seq<Word>)
    requires |ws| <= 65537
    ensures Accumulated(ws) == Sum(ws)
  {
    SumBound(ws);
    assert 0 <= Sum(ws) < ULONG;
  }

  /** 65538 words of 0xffff already give a wrong checksum: 1 in place of 0. */
  lemma OverflowExample()
    ensures var ws: seq<Word> := seq(65538, _ => 0xffff);
            Code(ws) == 1 && Rfc1071(ws) == 0
  {
    var ws: seq<Word> := seq(65538, _ => 0xffff);
    SumOfOnes(ws);
    NormOfSum(ws);
  }

  lemma {:induction false} SumOfOnes(ws: seq<Word>)
    requires forall i | 0 <= i < |ws| :: ws[i] == 0xffff
    ensures Sum(ws) == |ws| * 0xffff
  {
    if ws != [] {
      SumOfOnes(ws[1..]);
    }
  }

  // ---------------------------------------------------------------- section 2 of RFC 1071

  lemma {:induction false} SumAppend(a: seq<Word>, b: seq<Word>)
    ensures Sum(a + b) == Sum(a) + Sum(b)
  {
    if a == [] {
      assert a + b == b;
    } else {
      SumAppend(a[1..], b);
      assert (a + b)[1..] == a[1..] + b;
    }
  }

  lemma {:induction false} WordsAppend(a: seq<Byte>, b: seq<Byte>)
    requires |a| % 2 == 0
    ensures Words(a + b) == Words(a) + Words(b)
  {
    if a == [] {
      assert a + b == b;
    } else {
      WordsAppend(a[2..], b);
      assert (a + b)[2..] == a[2..] + b;
    }
  }

  /** Adding the checksum to the accumulator can never wrap it. */
  lemma RoomForChecksum(a: nat)
    requires a < ULONG
    ensures a + (0xffff - Norm(a)) < ULONG
  {
    if a != 0 {
      var q := (a - 1) / 0xffff;
      assert a == q * 0xffff + Norm(a);
      assert q <= 65536;
    }
  }

  lemma WordsCheck(ws: seq<Word>)
    ensures Code(ws + [Code(ws)]) == 0
  {
    var a, c := Accumulated(ws), Code(ws);
    assert Sum([c]) == c + Sum([]);
    SumAppend(ws, [c]);
    RoomForChecksum(a);
    WrapStep(Sum(ws), 0, c);
    assert Accumulated(ws + [c]) == a + c;
    Complement(a);
  }

  lemma WordOfBytes(c: Word)
    ensures Words([c % 0x100, c / 0x100]) == [c]
  {
    var tail: seq<Byte> := [c % 0x100, c / 0x100];
    assert tail[2..] == [];
  }

  /** An even-length buffer followed by the checksum the code gives it checks to zero, whether or
      not the accumulator has wrapped. */
  lemma SelfCheck(buffer: seq<Byte>)
    requires |buffer| % 2 == 0
    ensures var c := Code(Words(buffer));
            Code(Words(buffer + [c % 0x100, c / 0x100])) == 0
  {
    var c := Code(Words(buffer));
    WordsAppend(buffer, [c % 0x100, c / 0x100]);
    WordOfBytes(c);
    WordsCheck(Words(buffer));
  }

  lemma Complement(s: nat)
    ensures Norm(s + (0xffff - Norm(s))) == 0xffff
  {
    if s != 0 {
      NormUnique(s + (0xffff - Norm(s)), 0xffff, (s - 1) / 0xffff);
    }
  }

  /** The order of the words does not matter. */
  lemma OrderIndependent(a: seq<Word>, b: seq<Word>)
    requires multiset(a) == multiset(b)
    ensures Sum(a) == Sum(b) && Code(a) == Code(b) && Rfc1071(a) == Rfc1071(b)
  {
    SumPermutation(a, b);
    NormOfSum(a);
    NormOfSum(b);
  }

  lemma {:induction false} SumPermutation(a: seq<Word>, b: seq<Word>)
    requires multiset(a) == multiset(b)
    ensures Sum(a) == Sum(b)
    decreases |a|
  {
    if a == [] {
      assert |b| == |multiset(b)| == |multiset(a)| == 0;
    } else {
      assert a[0] in multiset(b);
      var i :| 0 <= i < |b| && b[i] == a[0];
      assert a == [a[0]] + a[1..];
      assert b == b[..i] + [b[i]] + b[i + 1..];
      assert multiset(b[..i] + b[i + 1..]) == multiset(b) - multiset{b[i]};
      assert multiset(a[1..]) == multiset(a) - multiset{a[0]};
      SumPermutation(a[1..], b[..i] + b[i + 1..]);
      SumRemove(b, i);
    }
  }

  lemma SumRemove(b: seq<Word>, i: nat)
    requires i < |b|
    ensures Sum(b) == b[i] + Sum(b[..i] + b[i + 1..])
  {
    SumAppend(b[..i], b[i + 1..]);
    SumAppend(b[..i], b[i..]);
    assert b[..i] + b[i..] == b;
    assert b[i..][1..] == b[i + 1..];
  }

  function Swap(w: Word): Word {
    w % 0x100 * 0x100 + w / 0x100
  }

  function SwapPairs(b: seq<Byte>): seq<Byte>
    requires |b| % 2 == 0
  {
    if b == [] then [] else [b[1], b[0]] + SwapPairs(b[2..])
  }

  /** Swapping the bytes of every word swaps the bytes of the checksum of RFC 1071, and of the code's
      as long as neither sum wraps. */
  lemma ByteOrderIndependent(buffer: seq<Byte>)
    requires |buffer| % 2 == 0
    ensures Rfc1071(Words(SwapPairs(buffer))) == Swap(Rfc1071(Words(buffer)))
    ensures Sum(Words(buffer)) < ULONG && Sum(Words(SwapPairs(buffer))) < ULONG ==>
              Code(Words(SwapPairs(buffer))) == Swap(Code(Words(buffer)))
  {
    var ws, xs := Words(buffer), Words(SwapPairs(buffer));
    var q := SwappedSum(buffer);
    SwapRfc(ws, xs, q);
    CodeIsRfc(ws);
    CodeIsRfc(xs);
  }

  lemma CodeIsRfc(ws: seq<Word>)
    ensures Sum(ws) < ULONG ==> Code(ws) == Rfc1071(ws)
  {
    NormOfSum(ws);
  }

  lemma SwapRfc(ws: seq<Word>, xs: seq<Word>, q: nat)
    requires Sum(xs) + q * 0xffff == 0x100 * Sum(ws)
    requires Sum(ws) == 0 <==> Sum(xs) == 0
    ensures Rfc1071(xs) == Swap(Rfc1071(ws))
  {
    NormOfSum(ws);
    NormOfSum(xs);
    SwapNorm(Sum(ws), Sum(xs), q);
  }

  /** Swapping a word multiplies it by 0x100 modulo 0xffff. */
  lemma SwapNorm(s: nat, x: nat, q: nat)
    requires x + q * 0xffff == 0x100 * s
    requires s == 0 <==> x == 0
    ensures Norm(x) == Swap(Norm(s))
    ensures 0xffff - Norm(x) == Swap(0xffff - Norm(s))
  {
    var n: int := Norm(s);
    if s != 0 {
      var p := (s - 1) / 0xffff;
      var h := n / 0x100;
      assert 0x100 * n == Swap(n) + h * 0xffff;
      NormUnique(x, Swap(n), 0x100 * p + h - q);
    }
    assert (0xffff - n) / 0x100 == 0xff - n / 0x100;
  }

  lemma {:induction false} SwappedSum(b: seq<Byte>) returns (q: nat)
    requires |b| % 2 == 0
    ensures Sum(Words(SwapPairs(b))) + q * 0xffff == 0x100 * Sum(Words(b))
    ensures Sum(Words(SwapPairs(b))) == 0 <==> Sum(Words(b)) == 0
  {
    if b == [] {
      q := 0;
    } else {
      var r := SwappedSum(b[2..]);
      var s := SwapPairs(b);
      assert s[2..] == SwapPairs(b[2..]);
      assert Words(s) == [Short(b[1], b[0])] + Words(s[2..]);
      assert Words(b) == [Short(b[0], b[1])] + Words(b[2..]);
      q := r + b[1];
    }
  }
}
