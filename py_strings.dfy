/**
 * The few string operations of Python that the checker relies on:
 * `str.lower()` (on ASCII letters), `str.find`, `in` on strings and
 * `str.endswith`.
 */
module PyStrings {

  /** ASCII lower-casing of one character; every other character is kept. */
  function LowerChar(c: char): char {
    if 'A' <= c <= 'Z' then (c as int - 'A' as int + 'a' as int) as char else c
  }

  /** `s.lower()`, restricted to ASCII letters. */
  function Lower(s: string): string {
    seq(|s|, i requires 0 <= i < |s| => LowerChar(s[i]))
  }

  /** `p` occurs in `s` starting at index `i`. */
  predicate MatchAt(s: string, p: string, i: int) {
    0 <= i && i + |p| <= |s| && s[i..i + |p|] == p
  }

  /** `p` is a substring of `s`. */
  ghost predicate Occurs(s: string, p: string) {
    exists i :: MatchAt(s, p, i)
  }

  /** The first occurrence of `p` in `s` starts at index `i`. */
  ghost predicate FirstAt(s: string, p: string, i: int) {
    MatchAt(s, p, i) && forall j :: 0 <= j < i ==> !MatchAt(s, p, j)
  }

  /** `s.find(p, from)`: the first index at or after `from` where `p` occurs, or -1. */
  function FindFrom(s: string, p: string, from: nat): (r: int)
    requires from <= |s|
    ensures r == -1 || (from <= r && MatchAt(s, p, r))
    ensures r == -1 <==> forall j :: from <= j ==> !MatchAt(s, p, j)
    ensures forall j :: from <= j < r ==> !MatchAt(s, p, j)
    decreases |s| - from
  {
    if from + |p| > |s| then -1
    else if s[from..from + |p|] == p then from
    else FindFrom(s, p, from + 1)
  }

  /** `s.find(p)`: the index of the first occurrence of `p` in `s`, or -1. */
  function Find(s: string, p: string): (r: int)
    ensures r == -1 <==> !Occurs(s, p)
    ensures r != -1 ==> MatchAt(s, p, r) && forall j :: 0 <= j < r ==> !MatchAt(s, p, j)
  {
    FindFrom(s, p, 0)
  }

  /** `Find` gives the first occurrence, which is unique. */
  lemma FirstAtFind(s: string, p: string)
    ensures forall i :: FirstAt(s, p, i) <==> i == Find(s, p) && i != -1
  {
  }

  /** `p in s` for strings. */
  function Contains(s: string, p: string): (b: bool)
    ensures b <==> Occurs(s, p)
  {
    Find(s, p) != -1
  }

  /** `s.endswith(suffix)`. */
  predicate EndsWith(s: string, suffix: string) {
    |suffix| <= |s| && s[|s| - |suffix|..] == suffix
  }
}
