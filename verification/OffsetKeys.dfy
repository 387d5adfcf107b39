/** chang2uint of src/tools.cpp: a coordinate string becomes a table key by dropping the dot and
    all but two decimals. A C string is the characters before its terminator. */
module OffsetKeys {
  import opened Common
  import opened CStrings

  const UINT := 0x1_0000_0000

  type Key = x: int | 0 <= x < UINT

  const BUFFER := 10

  /** Overrun: the local buffer has no room for all characters and the terminator. */
  datatype KeyResult = Overrun | Ok(key: Key)

  predicate AllDigits(s: string) {
    forall i | 0 <= i < |s| :: Digit(s[i])
  }

  /** The number written by a digit string. */
  function Number(s: string): nat
    requires AllDigits(s)
  {
    if s == "" then 0 else 10 * Number(s[..|s| - 1]) + (s[|s| - 1] as int - '0' as int)
  }

  function Pow10(n: nat): (p: nat)
    ensures p > 0
  {
    if n == 0 then 1 else 10 * Pow10(n - 1)
  }

  // ---------------------------------------------------------------- atoi

  function SkipBlanks(s: string): string {
    if s != "" && Blank(s[0]) then SkipBlanks(s[1..]) else s
  }

  function LeadingDigits(s: string): (d: string)
    ensures AllDigits(d)
  {
    if s != "" && Digit(s[0]) then [s[0]] + LeadingDigits(s[1..]) else ""
  }

  function Atoi(s: string): int {
    var t := SkipBlanks(s);
    if t != "" && t[0] == '-' then -(Number(LeadingDigits(t[1..])) as int)
    else if t != "" && t[0] == '+' then Number(LeadingDigits(t[1..]))
    else Number(LeadingDigits(t))
  }

  // ---------------------------------------------------------------- the code

  /** The characters copied from s when j of the two decimals plus one are already counted. */
  function Copied(s: string, dot: bool, j: nat): string {
    if s == "" || s[0] == NUL || j >= 3 then ""
    else if s[0] == '.' then Copied(s[1..], true, 1)
    else [s[0]] + Copied(s[1..], dot, if dot then j + 1 else j)
  }

  function KeyOf(ui: string): KeyResult {
    if |ui| < BUFFER then Ok(Atoi(ui) % UINT) else Overrun
  }

  function ToKey(s: string): KeyResult {
    KeyOf(Copied(s, false, 0))
  }

  method Chang2Uint(str: string) returns (r: KeyResult)
    ensures r == ToKey(str)
  {
    var ui := new char[BUFFER](_ => '\0');
    var i, j, dot, at := 0, 0, false, 0;
    ghost var all := Copied(str, false, 0);
    while at < |str| && str[at] != NUL && j < 3
      invariant 0 <= at <= |str| && 0 <= i <= BUFFER && j >= 0
      invariant all == ui[..i] + Copied(str[at..], dot, j)
      decreases |str| - at
    {
      CopiedStep(str, at, dot, j);
      if str[at] != '.' {
        if i == BUFFER {
          return Overrun;
        }
        ui[i] := str[at];
        assert ui[..i + 1] == ui[..i] + [str[at]];
        i := i + 1;
        j := if dot then j + 1 else j;
      } else {
        j, dot := 1, true;
      }
      at := at + 1;
    }
    assert all == ui[..i];
    if i == BUFFER {
      return Overrun;
    }
    return KeyOf(ui[..i]);
  }

  lemma CopiedStep(s: string, at: nat, dot: bool, j: nat)
    requires at < |s| && s[at] != NUL && j < 3
    ensures Copied(s[at..], dot, j) ==
            if s[at] == '.' then Copied(s[at + 1..], true, 1)
            else [s[at]] + Copied(s[at + 1..], dot, if dot then j + 1 else j)
  {
    assert s[at..][1..] == s[at + 1..];
  }

  // ---------------------------------------------------------------- decimals

  /** A plain decimal: whole digits, and a dot with decimals unless there are none to write. */
  datatype Decimal = Decimal(whole: string, dotted: bool, decimals: string) {
    predicate Valid() {
      AllDigits(whole) && AllDigits(decimals) && (!dotted ==> decimals == "")
    }
    function Text(): string {
      if dotted then whole + "." + decimals else whole
    }
    /** The value is Scaled() / 10^|decimals|. */
    function Scaled(): nat
      requires Valid()
    {
      assert AllDigits(whole + decimals);
      Number(whole + decimals)
    }
    /** key is 100 times the value with everything after the dot cut off. */
    ghost predicate InCell(key: int)
      requires Valid()
    {
      key * Pow10(|decimals|) <= 100 * Scaled() < (key + 1) * Pow10(|decimals|)
    }
    function Kept(): string {
      whole + if |decimals| <= 2 then decimals else decimals[..2]
    }
  }

  lemma {:induction false} CopiedBeforeDot(a: string, rest: string)
    requires AllDigits(a)
    ensures Copied(a + rest, false, 0) == a + Copied(rest, false, 0)
  {
    if a == "" {
      assert a + rest == rest;
    } else {
      CopiedBeforeDot(a[1..], rest);
      assert (a + rest)[1..] == a[1..] + rest;
    }
  }

  lemma CopiedAfterDot(b: string)
    requires AllDigits(b)
    ensures Copied(b, true, 1) == if |b| <= 2 then b else b[..2]
  {
    if |b| >= 2 {
      assert b[1..][0] == b[1];
      assert Copied(b[1..][1..], true, 3) == "";
    }
  }

  lemma CopiedDecimal(d: Decimal)
    requires d.Valid()
    ensures Copied(d.Text(), false, 0) == d.Kept()
  {
    if d.dotted {
      CopiedBeforeDot(d.whole, "." + d.decimals);
      assert d.whole + ("." + d.decimals) == d.Text();
      assert ("." + d.decimals)[1..] == d.decimals;
      CopiedAfterDot(d.decimals);
    } else {
      CopiedBeforeDot(d.whole, "");
      assert d.whole + "" == d.whole;
    }
  }

  /** A second dot within the two decimals starts the count of decimals again. */
  lemma SecondDotRestarts(whole: string, one: string, more: string)
    requires AllDigits(whole) && AllDigits(one) && |one| <= 1 && AllDigits(more)
    ensures Copied(whole + ("." + (one + ("." + more))), false, 0)
            == whole + (one + if |more| <= 2 then more else more[..2])
  {
    CopiedBeforeDot(whole, "." + (one + ("." + more)));
    CopiedDot(one + ("." + more), false, 0);
    CopiedOne(one, "." + more);
    CopiedDot(more, true, 1 + |one|);
    CopiedAfterDot(more);
  }

  lemma CopiedDot(s: string, dot: bool, j: nat)
    requires j < 3
    ensures Copied("." + s, dot, j) == Copied(s, true, 1)
  {
    assert ("." + s)[1..] == s;
  }

  lemma CopiedOne(one: string, rest: string)
    requires AllDigits(one) && |one| <= 1
    ensures Copied(one + rest, true, 1) == one + Copied(rest, true, 1 + |one|)
  {
    if one == "" {
      assert one + rest == rest;
    } else {
      assert (one + rest)[1..] == rest;
    }
  }

  lemma {:induction false} LeadingOfDigits(s: string)
    requires AllDigits(s)
    ensures LeadingDigits(s) == s
  {
    if s != "" {
      LeadingOfDigits(s[1..]);
    }
  }

  lemma AtoiOfDigits(s: string)
    requires AllDigits(s)
    ensures Atoi(s) == Number(s)
  {
    LeadingOfDigits(s);
  }

  lemma {:induction false} LeadingBefore(s: string, rest: string)
    requires AllDigits(s) && (rest == "" || !Digit(rest[0]))
    ensures LeadingDigits(s + rest) == s
  {
    if s == "" {
      assert s + rest == rest;
    } else {
      LeadingBefore(s[1..], rest);
      assert (s + rest)[1..] == s[1..] + rest;
    }
  }

  lemma {:induction false} BlanksSkipped(blanks: string, rest: string)
    requires (forall k | 0 <= k < |blanks| :: Blank(blanks[k])) && (rest == "" || !Blank(rest[0]))
    ensures SkipBlanks(blanks + rest) == rest
  {
    if blanks == "" {
      assert blanks + rest == rest;
    } else {
      BlanksSkipped(blanks[1..], rest);
      assert (blanks + rest)[1..] == blanks[1..] + rest;
    }
  }

  /** atoi: blanks are skipped, a sign is taken, a minus negates the digits behind it, and what follows the
      digits is ignored. */
  lemma AtoiReads(blanks: string, sign: string, digits: string, rest: string)
    requires (forall k | 0 <= k < |blanks| :: Blank(blanks[k])) && (sign == "" || sign == "+" || sign == "-")
    requires digits != "" && AllDigits(digits) && (rest == "" || !Digit(rest[0]))
    ensures Atoi(blanks + (sign + (digits + rest))) ==
            if sign == "-" then -(Number(digits) as int) else Number(digits)
  {
    var t := sign + (digits + rest);
    LeadingBefore(digits, rest);
    if sign == "" {
      assert t == digits + rest && t[0] == digits[0];
    } else {
      assert t[0] == sign[0] && t[1..] == digits + rest;
    }
    BlanksSkipped(blanks, t);
  }

  lemma {:induction false} NumberBelow(s: string)
    requires AllDigits(s)
    ensures Number(s) < Pow10(|s|)
  {
    if s != "" {
      NumberBelow(s[..|s| - 1]);
    }
  }

  lemma {:induction false} PowGrows(m: nat, n: nat)
    requires m <= n
    ensures Pow10(m) <= Pow10(n)
    decreases n
  {
    if m < n {
      PowGrows(m, n - 1);
    }
  }

  /** Any decimal of at most nine kept digits fits the buffer and gets its kept digits as key. */
  lemma KeyOfDecimal(d: Decimal)
    requires d.Valid()
    ensures AllDigits(d.Kept())
    ensures |d.Kept()| < BUFFER ==> ToKey(d.Text()).Ok? && ToKey(d.Text()).key == Number(d.Kept())
    ensures |d.Kept()| >= BUFFER ==> ToKey(d.Text()) == Overrun
  {
    CopiedDecimal(d);
    AtoiOfDigits(d.Kept());
    if |d.Kept()| < BUFFER {
      NumberBelow(d.Kept());
      PowGrows(|d.Kept()|, 9);
      Pow10At9();
    }
  }

  lemma CopiedMinus(s: string)
    ensures Copied("-" + s, false, 0) == "-" + Copied(s, false, 0)
  {
    assert ("-" + s)[1..] == s;
  }

  /** A minus takes one place of the buffer and makes the key the negative number, wrapped. */
  lemma KeyOfNegative(d: Decimal)
    requires d.Valid() && d.Kept() != ""
    ensures AllDigits(d.Kept())
    ensures ToKey("-" + d.Text()) == if |d.Kept()| + 1 < BUFFER then Ok(-(Number(d.Kept()) as int) % UINT) else Overrun
  {
    CopiedDecimal(d);
    CopiedMinus(d.Text());
    AtoiReads("", "-", d.Kept(), "");
    assert "" + ("-" + (d.Kept() + "")) == "-" + d.Kept();
  }

  lemma Pow10At9()
    ensures Pow10(9) == 1_000_000_000
  {
    assert Pow10(3) == 1000;
    assert Pow10(6) == 1000 * Pow10(3);
  }

  lemma {:induction false} NumberAppend(a: string, b: string)
    requires AllDigits(a) && AllDigits(b)
    ensures AllDigits(a + b) && Number(a + b) == Number(a) * Pow10(|b|) + Number(b)
  {
    if b == "" {
      assert a + b == a;
    } else {
      var c := b[..|b| - 1];
      NumberAppend(a, c);
      assert (a + b)[..|a + b| - 1] == a + c;
      assert Number(a) * Pow10(|b|) == 10 * (Number(a) * Pow10(|c|));
    }
  }

  /** With two decimals or more the key is 100 times the value, truncated; with fewer it is not,
      unless the value is zero. */
  lemma KeyIsTruncation(d: Decimal)
    requires d.Valid() && |d.Kept()| < BUFFER
    ensures ToKey(d.Text()).Ok?
    ensures d.InCell(ToKey(d.Text()).key) <==> |d.decimals| >= 2 || d.Scaled() == 0
  {
    KeyOfDecimal(d);
    if |d.decimals| >= 2 {
      TwoDecimals(d);
    } else {
      FewDecimals(d);
    }
  }

  lemma FewDecimals(d: Decimal)
    requires d.Valid() && |d.decimals| < 2
    ensures AllDigits(d.Kept()) && (d.InCell(Number(d.Kept())) <==> d.Scaled() == 0)
  {
    assert d.Kept() == d.whole + d.decimals;
    assert Pow10(1) == 10 && Pow10(0) == 1;
    assert Number(d.Kept()) == d.Scaled();
  }

  /** With one decimal, 12.5 gets the key of 1.25. */
  lemma OneDecimalExample()
    ensures ToKey("12.5") == Ok(125) && !Decimal("12", true, "5").InCell(125)
  {
    var d := Decimal("12", true, "5");
    assert d.Text() == "12.5" && d.Kept() == "125";
    KeyOfDecimal(d);
    NumberAppend("12", "5");
    assert Number("1") == 1 && Number("5") == 5 && Number("12") == 12;
    KeyIsTruncation(d);
  }

  lemma TwoDecimals(d: Decimal)
    requires d.Valid() && |d.decimals| >= 2
    ensures AllDigits(d.Kept()) && d.InCell(Number(d.Kept()))
  {
    var rest := d.decimals[2..];
    assert d.whole + d.decimals == d.Kept() + rest;
    NumberAppend(d.Kept(), rest);
    NumberBelow(rest);
    assert Pow10(|d.decimals|) == 100 * Pow10(|rest|);
    CellOfPrefix(Number(d.Kept()), Pow10(|rest|), Number(rest));
  }

  lemma CellOfPrefix(k: nat, p: nat, r: nat)
    requires r < p
    ensures k * (100 * p) <= 100 * (k * p + r) < (k + 1) * (100 * p)
  {
    assert k * (100 * p) == 100 * (k * p);
    assert (k + 1) * (100 * p) == k * (100 * p) + 100 * p;
  }

  /** What parse accepts, at most ten characters, with a dot: it fits with room for the terminator. */
  lemma ParsedCoordinateFits(d: Decimal)
    requires d.Valid() && |d.Text()| <= 10
    ensures ToKey(d.Text()).Overrun? <==> !d.dotted && |d.whole| == 10
  {
    KeyOfDecimal(d);
  }

  /** Keys are monotone in the value, so a request's key is the key of its table cell. */
  lemma KeyMonotone(d: Decimal, e: Decimal)
    requires d.Valid() && e.Valid() && |d.decimals| >= 2 && |e.decimals| >= 2
    requires |d.Kept()| < BUFFER && |e.Kept()| < BUFFER
    requires d.Scaled() * Pow10(|e.decimals|) <= e.Scaled() * Pow10(|d.decimals|)
    ensures ToKey(d.Text()).Ok? && ToKey(e.Text()).Ok?
    ensures ToKey(d.Text()).key <= ToKey(e.Text()).key
  {
    KeyIsTruncation(d);
    KeyIsTruncation(e);
    CellsOrdered(ToKey(d.Text()).key, d.Scaled(), Pow10(|d.decimals|),
                 ToKey(e.Text()).key, e.Scaled(), Pow10(|e.decimals|));
  }

  lemma CellsOrdered(k: nat, n: nat, p: nat, l: nat, m: nat, q: nat)
    requires p > 0 && q > 0 && n * q <= m * p
    requires k * p <= 100 * n && 100 * m < (l + 1) * q
    ensures k <= l
  {
    MulLe(k * p, 100 * n, q);
    assert (100 * n) * q == 100 * (n * q);
    assert (100 * m) * p == 100 * (m * p);
    MulLt(100 * m, (l + 1) * q, p);
    assert (k * p) * q == k * (p * q);
    assert ((l + 1) * q) * p == (l + 1) * (p * q);
    MulCancel(k, l + 1, p * q);
  }

  lemma MulLe(a: nat, b: nat, c: nat)
    requires a <= b
    ensures a * c <= b * c
  {
    assert (b - a) * c >= 0;
  }

  lemma MulLt(a: nat, b: nat, c: nat)
    requires a < b && c > 0
    ensures a * c < b * c
  {
    MulLe(a + 1, b, c);
  }

  lemma MulCancel(a: nat, b: nat, c: nat)
    requires a * c < b * c
    ensures a < b
  {
    if b <= a {
      MulLe(b, a, c);
    }
  }

  /** A cell determines its key: two decimals have the same key exactly when they share a cell. */
  lemma SameKeyExactlyInSameCell(d: Decimal, cell: nat)
    requires d.Valid() && |d.decimals| >= 2 && |d.Kept()| < BUFFER
    ensures ToKey(d.Text()).Ok? && (ToKey(d.Text()).key == cell <==> d.InCell(cell))
  {
    KeyIsTruncation(d);
    if d.InCell(cell) {
      CellUnique(ToKey(d.Text()).key, cell, Pow10(|d.decimals|), 100 * d.Scaled());
    }
  }

  lemma CellUnique(k: nat, l: nat, p: nat, n: nat)
    requires k * p <= n < (k + 1) * p && l * p <= n < (l + 1) * p
    ensures k == l
  {
    MulCancel(k, l + 1, p);
    MulCancel(l, k + 1, p);
  }
}
