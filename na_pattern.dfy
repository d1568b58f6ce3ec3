/**
 * The one regular expression of the row transform, `/(NA-[0-9]+)/`, as a
 * direct scan: the leftmost position where `NA-` is immediately followed by a
 * decimal digit, and from there the longest run of digits (the `+` is greedy).
 */
module NaPattern {
  import opened Wrappers

  predicate IsDigit(c: char) { '0' <= c <= '9' }

  /** `NA-` followed by a digit begins at index `i` of `s`. */
  predicate StartsAt(s: string, i: nat) {
    && i + 4 <= |s|
    && s[i] == 'N' && s[i + 1] == 'A' && s[i + 2] == '-'
    && IsDigit(s[i + 3])
  }

  /** `s[a..e]` is the match the regular expression reports: it starts at the
      leftmost place the pattern can start, and its digit run cannot be
      extended. */
  ghost predicate IsLeftmostMatch(s: string, a: nat, e: nat) {
    && StartsAt(s, a)
    && (forall j :: 0 <= j < a ==> !StartsAt(s, j))
    && a + 4 <= e <= |s|
    && (forall k :: a + 3 <= k < e ==> IsDigit(s[k]))
    && (e == |s| || !IsDigit(s[e]))
  }

  /** The end of the run of digits that begins at `j`. */
  function DigitRunEnd(s: string, j: nat): (e: nat)
    requires j <= |s|
    ensures j <= e <= |s|
    ensures forall k :: j <= k < e ==> IsDigit(s[k])
    ensures e == |s| || !IsDigit(s[e])
    decreases |s| - j
  {
    if j < |s| && IsDigit(s[j]) then DigitRunEnd(s, j + 1) else j
  }

  /** The first match starting at or after `i`, as its start and end. */
  function MatchFrom(s: string, i: nat): (m: Option<(nat, nat)>)
    requires i <= |s|
    ensures m.None? ==> forall j :: i <= j < |s| ==> !StartsAt(s, j)
    ensures m.Some? ==>
      && i <= m.value.0
      && StartsAt(s, m.value.0)
      && (forall j :: i <= j < m.value.0 ==> !StartsAt(s, j))
      && m.value.0 + 4 <= m.value.1 <= |s|
      && (forall k :: m.value.0 + 3 <= k < m.value.1 ==> IsDigit(s[k]))
      && (m.value.1 == |s| || !IsDigit(s[m.value.1]))
    decreases |s| - i
  {
    if |s| < i + 4 then None
    else if StartsAt(s, i) then Some((i, DigitRunEnd(s, i + 3)))
    else MatchFrom(s, i + 1)
  }

  /** Ruby's `s[/(NA-[0-9]+)/, 1]`: the text of the first capture group of the
      leftmost match, or nil when the pattern does not occur. */
  function Match(s: string): (r: Option<string>)
    ensures r.None? <==> forall j :: 0 <= j < |s| ==> !StartsAt(s, j)
    ensures r.Some? ==> exists a: nat, e: nat :: IsLeftmostMatch(s, a, e) && r.value == s[a..e]
  {
    match MatchFrom(s, 0)
    case None => None
    case Some((a, e)) =>
      assert IsLeftmostMatch(s, a, e);
      Some(s[a..e])
  }

  /** At most one position pair is the leftmost match, so `Match` is determined. */
  lemma LeftmostMatchUnique(s: string, a: nat, e: nat, a': nat, e': nat)
    requires IsLeftmostMatch(s, a, e) && IsLeftmostMatch(s, a', e')
    ensures a == a' && e == e'
  {
  }

  /** What a found token looks like: `NA-`, then one or more digits. */
  lemma MatchShape(s: string)
    requires Match(s).Some?
    ensures var t := Match(s).value;
      && |t| >= 4
      && t[..3] == "NA-"
      && (forall k :: 3 <= k < |t| ==> IsDigit(t[k]))
  {
  }
}
