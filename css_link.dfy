/**
 * `CSS_LINK_PATTERN`, the case-insensitive search for
 * `<link[^>]+href="[^"]+\.css"`, written out as a matcher over the
 * lower-cased text.
 */
module CssLink {
  import opened PyStrings

  const LinkOpen: string := "<link"
  const HrefOpen: string := "href=\""
  const CssClose: string := ".css\""

  /** No character of `s[from..to]` is `c`. */
  ghost predicate NoneIs(s: string, from: int, to: int, c: char) {
    forall m :: from <= m < to && 0 <= m < |s| ==> s[m] != c
  }

  /**
   * The pattern matches `s` with `<link` at `i`, `href="` at `j` and `.css"`
   * at `k`: `[^>]+` covers `s[i+5..j]` and `[^"]+` covers `s[j+6..k]`.
   */
  ghost predicate MatchesAt(s: string, i: int, j: int, k: int) {
    MatchAt(s, LinkOpen, i) &&
    i + |LinkOpen| < j && NoneIs(s, i + |LinkOpen|, j, '>') && MatchAt(s, HrefOpen, j) &&
    j + |HrefOpen| < k && NoneIs(s, j + |HrefOpen|, k, '"') && MatchAt(s, CssClose, k)
  }

  /** A quoted attribute value starts at `b`, is not empty and ends in `.css`. */
  ghost predicate CssValueAt(s: string, b: int) {
    exists k :: b < k && NoneIs(s, b, k, '"') && MatchAt(s, CssClose, k)
  }

  /** The regular expression finds a match somewhere in `content`. */
  ghost predicate PatternMatches(content: string) {
    exists i, j, k :: MatchesAt(Lower(content), i, j, k)
  }

  /** Searches `.css"` at `k` or later, with no `"` between `b` and it. */
  function CssValueFrom(s: string, b: nat, k: nat): (r: bool)
    requires b < k
    requires NoneIs(s, b, k - 1, '"')
    ensures r <==> exists k' :: k <= k' && NoneIs(s, b, k', '"') && MatchAt(s, CssClose, k')
    decreases |s| - k
  {
    if k + |CssClose| > |s| then false
    else if s[k - 1] == '"' then false
    else MatchAt(s, CssClose, k) || CssValueFrom(s, b, k + 1)
  }

  /** Searches `href="` at `j` or later, with no `>` between `a` and it, followed by a CSS value. */
  function HrefFrom(s: string, a: nat, j: nat): (r: bool)
    requires a < j
    requires NoneIs(s, a, j - 1, '>')
    ensures r <==> exists j' :: j <= j' && NoneIs(s, a, j', '>') && MatchAt(s, HrefOpen, j') &&
                                CssValueAt(s, j' + |HrefOpen|)
    decreases |s| - j
  {
    if j + |HrefOpen| > |s| then false
    else if s[j - 1] == '>' then false
    else (MatchAt(s, HrefOpen, j) && CssValueFrom(s, j + |HrefOpen|, j + |HrefOpen| + 1)) ||
         HrefFrom(s, a, j + 1)
  }

  /** A match starts at `i` iff `<link` is there and `HrefFrom` finds the rest. */
  lemma MatchStartsAt(s: string, i: nat)
    requires i + |LinkOpen| <= |s|
    ensures (MatchAt(s, LinkOpen, i) && HrefFrom(s, i + |LinkOpen|, i + |LinkOpen| + 1)) <==>
            exists j, k :: MatchesAt(s, i, j, k)
  {
    if exists j, k :: MatchesAt(s, i, j, k) {
      var j, k :| MatchesAt(s, i, j, k);
      assert CssValueAt(s, j + |HrefOpen|);
    }
    if MatchAt(s, LinkOpen, i) && HrefFrom(s, i + |LinkOpen|, i + |LinkOpen| + 1) {
      var j :| i + |LinkOpen| + 1 <= j && NoneIs(s, i + |LinkOpen|, j, '>') &&
               MatchAt(s, HrefOpen, j) && CssValueAt(s, j + |HrefOpen|);
      var k :| j + |HrefOpen| < k && NoneIs(s, j + |HrefOpen|, k, '"') && MatchAt(s, CssClose, k);
      assert MatchesAt(s, i, j, k);
    }
  }

  /** Searches a match starting at `i` or later. */
  function LinkFrom(s: string, i: nat): (r: bool)
    ensures r <==> exists i', j, k :: i <= i' && MatchesAt(s, i', j, k)
    decreases |s| - i
  {
    if i + |LinkOpen| > |s| then false
    else
      MatchStartsAt(s, i);
      (MatchAt(s, LinkOpen, i) && HrefFrom(s, i + |LinkOpen|, i + |LinkOpen| + 1)) ||
      LinkFrom(s, i + 1)
  }

  /** `_has_css_link`: whether the content links a stylesheet the way the pattern requires. */
  function HasCssLink(content: string): (r: bool)
    ensures r <==> PatternMatches(content)
  {
    LinkFrom(Lower(content), 0)
  }
}
