/** Strings in character buffers, ended by a terminator. */
module CStrings {

  const NUL: char := '\0'

  /** The string at position `p` of a buffer, up to the terminator. */
  function CString(s: string, p: nat): string
    requires p <= |s|
    decreases |s| - p
  {
    if p == |s| || s[p] == NUL then [] else [s[p]] + CString(s, p + 1)
  }

  lemma {:induction false} CStringLength(s: string, p: nat)
    requires p <= |s|
    ensures p + |CString(s, p)| <= |s|
    ensures p + |CString(s, p)| < |s| ==> s[p + |CString(s, p)|] == NUL
    ensures forall i | 0 <= i < |CString(s, p)| :: CString(s, p)[i] == s[p + i] != NUL
    decreases |s| - p
  {
    if p < |s| && s[p] != NUL {
      CStringLength(s, p + 1);
      var t, u := CString(s, p), CString(s, p + 1);
      forall i | 0 <= i < |t|
        ensures t[i] == s[p + i] != NUL
      {
        assert i > 0 ==> t[i] == u[i - 1] == s[p + 1 + (i - 1)];
      }
    }
  }

  lemma CStringEmpty(s: string, p: nat)
    requires p < |s|
    ensures CString(s, p) == [] <==> s[p] == NUL
  {
  }

  /** A later position in the same string points at the rest of it. */
  lemma {:induction false} CStringFrom(s: string, p: nat, n: nat)
    requires p <= |s| && n <= |CString(s, p)|
    ensures p + n <= |s| && CString(s, p + n) == CString(s, p)[n..]
    decreases n
  {
    if n > 0 {
      CStringFrom(s, p + 1, n - 1);
    }
  }

  /** Characters before any terminator are the first of the string. */
  lemma CStringFirst(s: string, p: nat, n: nat)
    requires p + n < |s| && forall i | p <= i < p + n :: s[i] != NUL
    ensures var t := CString(s, p);
            && n <= |t| && t[..n] == s[p..p + n] && CString(s, p + n) == t[n..]
            && (n == |t| <==> s[p + n] == NUL) && (n < |t| ==> t[n] == s[p + n])
  {
    hide CString;
    CStringLength(s, p);
    var t := CString(s, p);
    if n < |t| {
      assert t[n] == s[p + n];
    }
    CStringFrom(s, p, n);
  }

  /** A terminator put at the end of the first `n` characters cuts the string. */
  lemma {:induction false} CStringCut(s: string, p: nat, n: nat)
    requires p <= |s| && n < |CString(s, p)| && p + n < |s|
    ensures CString(s[p + n := NUL], p) == CString(s, p)[..n]
    decreases n
  {
    if n > 0 {
      CStringCut(s, p + 1, n - 1);
    }
  }

  lemma {:induction false} CStringSame(s: string, t: string, p: nat)
    requires |s| == |t| && p <= |s| && forall i | p <= i < |s| :: s[i] == t[i]
    ensures CString(s, p) == CString(t, p)
    decreases |s| - p
  {
    if p < |s| && s[p] != NUL {
      CStringSame(s, t, p + 1);
    }
  }

  /** A text and then terminators. */
  lemma {:induction false} CStringPadded(text: string, n: nat, p: nat)
    requires n > 0 && p <= |text| && forall i | 0 <= i < |text| :: text[i] != NUL
    ensures CString(text + seq(n, _ => NUL), p) == text[p..]
    decreases |text| - p
  {
    if p < |text| {
      CStringPadded(text, n, p + 1);
    }
  }

  /** A string depends only on its characters and its terminator. */
  lemma {:induction false} CStringLocal(s: string, t: string, p: nat)
    requires |s| == |t| && p <= |s| && p + |CString(s, p)| < |s|
    requires forall i | p <= i <= p + |CString(s, p)| :: t[i] == s[i]
    ensures CString(t, p) == CString(s, p)
    decreases |s| - p
  {
    CStringLength(s, p);
    if p < |s| && s[p] != NUL {
      CStringLocal(s, t, p + 1);
    }
  }
}
