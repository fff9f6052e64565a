/**
 * The few C library string operations the launcher relies on, stated over
 * Dafny strings. A C string never contains NUL, so a Dafny string here is the
 * characters before the terminator.
 */
module CStrings {

  datatype Option<T> = None | Some(value: T)

  /** tolower() in the C locale: only 'A'..'Z' change. */
  function ToLower(c: char): char
  {
    if 'A' <= c <= 'Z' then (c as int + 32) as char else c
  }

  /** The string with every character passed through ToLower. */
  function LowerAscii(s: string): (r: string)
    ensures |r| == |s|
    ensures forall i :: 0 <= i < |s| ==> r[i] == ToLower(s[i])
  {
    seq(|s|, i requires 0 <= i < |s| => ToLower(s[i]))
  }

  /** strcasecmp(a, b) == 0: equal after folding ASCII letters to lower case. */
  predicate CaseEqual(a: string, b: string)
  {
    LowerAscii(a) == LowerAscii(b)
  }

  /** strrchr(s, c): the index of the last occurrence of c in s, if any. */
  function LastIndexOf(s: string, c: char): (r: Option<nat>)
    ensures r.Some? ==> r.value < |s| && s[r.value] == c
    ensures r.Some? ==> forall j :: r.value < j < |s| ==> s[j] != c
    ensures r.None? <==> forall j :: 0 <= j < |s| ==> s[j] != c
  {
    if |s| == 0 then None
    else if s[|s| - 1] == c then Some(|s| - 1)
    else LastIndexOf(s[..|s| - 1], c)
  }

  /** The last occurrence is the only index holding c with no c after it. */
  lemma LastIndexAt(s: string, c: char, k: nat)
    requires k < |s| && s[k] == c
    requires forall j :: k < j < |s| ==> s[j] != c
    ensures LastIndexOf(s, c) == Some(k)
  {
  }

  /**
   * What a bounded copy (strncpy, snprintf) keeps of s: a prefix of at most
   * n characters, and the whole of s whenever the copy stops short of n.
   */
  function Prefix(s: string, n: nat): (r: string)
    ensures |r| <= n && r <= s
    ensures |r| < n ==> r == s
  {
    if |s| <= n then s else s[..n]
  }
}
