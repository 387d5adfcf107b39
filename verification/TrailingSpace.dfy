/** The word-at-a-time trailing-space skip of the connector's m_string.h.
    A buffer is its bytes together with the address of the first one, because the
    fast path depends on alignment; every read is proved to fall inside the buffer. */
module TrailingSpace {
  type Byte = x: int | 0 <= x < 0x100

  const SPACE: Byte := 0x20
  const SIZEOF_INT := 4
  const SPACE_INT := 0x2020_2020

  /** Where the plain backward byte loop stops. */
  function PlainEnd(s: seq<Byte>): (n: nat)
    ensures n <= |s|
  {
    if s == [] || s[|s| - 1] != SPACE then |s| else PlainEnd(s[..|s| - 1])
  }

  /** The four bytes at offset i as an `unsigned`. */
  function IntAt(s: seq<Byte>, i: nat): nat
    requires i + SIZEOF_INT <= |s|
  {
    var a: int, b: int, c: int, d: int := s[i], s[i + 1], s[i + 2], s[i + 3];
    a + 0x100 * b + 0x1_0000 * c + 0x100_0000 * d
  }

  ghost predicate AllSpaces(s: seq<Byte>, from: nat, to: nat)
    requires to <= |s|
  {
    forall k | from <= k < to :: s[k] == SPACE
  }

  function AlignDown(a: nat): (r: nat)
    ensures r % SIZEOF_INT == 0 && r <= a < r + SIZEOF_INT
  {
    a / SIZEOF_INT * SIZEOF_INT
  }

  /** The two forms agree for every buffer, length and alignment. */
  method SkipTrailingSpace(ptr: nat, s: seq<Byte>) returns (end: nat)
    requires ptr >= SIZEOF_INT
    ensures end == ptr + PlainEnd(s)
    ensures AllSpaces(s, end - ptr, |s|)
    ensures end > ptr ==> s[end - ptr - 1] != SPACE
  {
    end := ptr + |s|;
    if |s| > 20 {
      var endWords := AlignDown(end);
      var startWords := AlignDown(ptr + SIZEOF_INT - 1);
      if endWords > ptr {
        while end > endWords && s[end - ptr - 1] == SPACE
          invariant endWords <= end <= ptr + |s|
          invariant AllSpaces(s, end - ptr, |s|)
        {
          end := end - 1;
        }
        if s[end - ptr - 1] == SPACE && startWords < endWords {
          end := SkipWords(ptr, s, startWords, end);
        }
      }
    }
    while end > ptr && s[end - ptr - 1] == SPACE
      invariant ptr <= end <= ptr + |s|
      invariant AllSpaces(s, end - ptr, |s|)
    {
      end := end - 1;
    }
    PlainEndUnique(s, end - ptr);
  }

  /** The middle loop: aligned words between `startWords` and the current end. */
  method SkipWords(ptr: nat, s: seq<Byte>, startWords: nat, from: nat) returns (end: nat)
    requires ptr <= startWords <= from <= ptr + |s|
    requires from % SIZEOF_INT == startWords % SIZEOF_INT == 0
    requires AllSpaces(s, from - ptr, |s|)
    ensures startWords <= end <= from
    ensures AllSpaces(s, end - ptr, |s|)
  {
    end := from;
    while end > startWords && IntAt(s, end - ptr - SIZEOF_INT) == SPACE_INT
      invariant startWords <= end <= from && end % SIZEOF_INT == 0
      invariant AllSpaces(s, end - ptr, |s|)
    {
      SpaceWord(s, end - ptr - SIZEOF_INT);
      end := end - SIZEOF_INT;
    }
  }

  lemma SpaceWord(s: seq<Byte>, i: nat)
    requires i + SIZEOF_INT <= |s|
    ensures IntAt(s, i) == SPACE_INT <==> AllSpaces(s, i, i + SIZEOF_INT)
  {
    var a: int, b: int, c: int, d: int := s[i], s[i + 1], s[i + 2], s[i + 3];
    if IntAt(s, i) == SPACE_INT {
      assert IntAt(s, i) % 0x100 == a;
      assert IntAt(s, i) / 0x100 == b + 0x100 * c + 0x1_0000 * d;
      assert (b + 0x100 * c + 0x1_0000 * d) / 0x100 == c + 0x100 * d;
    }
  }

  /** The plain loop's answer is the only place with spaces after it and no space before it. */
  lemma {:induction false} PlainEndUnique(s: seq<Byte>, n: nat)
    requires n <= |s|
    ensures n == PlainEnd(s) <==> AllSpaces(s, n, |s|) && (n > 0 ==> s[n - 1] != SPACE)
  {
    if s != [] && s[|s| - 1] == SPACE && n < |s| {
      PlainEndUnique(s[..|s| - 1], n);
      assert AllSpaces(s, n, |s|) <==> AllSpaces(s[..|s| - 1], n, |s| - 1);
    } else if s != [] && s[|s| - 1] != SPACE && n < |s| {
      assert !AllSpaces(s, n, |s|);
    }
  }
}
