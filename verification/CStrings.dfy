/** Strings as the C library takes them: the characters before the first terminator of a buffer. */
module CStrings {
  const NUL := '\0'

  ghost predicate Without(s: string, c: char) {
    forall k | 0 <= k < |s| :: s[k] != c
  }

  /** The C string at the start of a buffer. */
  function CString(s: string): string {
    if s == "" || s[0] == NUL then "" else [s[0]] + CString(s[1..])
  }

  lemma {:induction false} CStringIsPrefix(s: string)
    ensures |CString(s)| <= |s| && CString(s) == s[..|CString(s)|] && Without(CString(s), NUL)
  {
    if s != "" && s[0] != NUL {
      CStringIsPrefix(s[1..]);
      assert CString(s) == s[..|CString(s)|];
    }
  }

  lemma {:induction false} CStringOfPlain(s: string)
    requires Without(s, NUL)
    ensures CString(s) == s
  {
    if s != "" {
      CStringOfPlain(s[1..]);
    }
  }

  lemma {:induction false} CStringStops(t: string)
    ensures |CString(t)| <= |t| && (|CString(t)| < |t| ==> t[|CString(t)|] == NUL)
  {
    if t != "" && t[0] != NUL {
      CStringStops(t[1..]);
    }
  }

  /** Text without a terminator stays in front. */
  lemma {:induction false} CStringBehind(a: string, b: string)
    requires Without(a, NUL)
    ensures CString(a + b) == a + CString(b)
  {
    if a == "" {
      assert a + b == b;
    } else {
      CStringBehind(a[1..], b);
      assert (a + b)[1..] == a[1..] + b;
    }
  }

  /** A longer buffer holds v exactly when v is cut off by a terminator. */
  lemma CStringCut(s: string, v: string)
    requires |v| < |s| && s[..|v|] == v && Without(v, NUL)
    ensures CString(s) == v <==> s[|v|] == NUL
  {
    assert s == v + s[|v|..];
    CStringBehind(v, s[|v|..]);
  }

  /** A buffer of the same length holds v only when it is v. */
  lemma CStringFull(s: string, v: string)
    requires |s| == |v| && Without(v, NUL)
    ensures CString(s) == v <==> s == v
  {
    CStringIsPrefix(s);
    CStringOfPlain(v);
  }
}
