/**
 * The string operations the client relies on: `String.prototype.trim` and
 * `String.prototype.endsWith`. Strings are sequences of characters.
 */
module Text {

  /** The whitespace characters that trimming removes (see README, "Left out"). */
  predicate IsSpace(c: char)
  {
    c == ' ' || c == '\t' || c == '\n' || c == '\r' || c == '\U{0B}' || c == '\U{0C}'
    || c == '\U{A0}' || c == '\U{FEFF}'
  }

  /** True when every character of `s` is whitespace (the empty string included). */
  ghost predicate IsBlank(s: string)
  {
    forall i :: 0 <= i < |s| ==> IsSpace(s[i])
  }

  /** Drops leading whitespace: the result is the longest suffix of `s` that does not start with whitespace. */
  function TrimStart(s: string): (r: string)
    ensures |r| <= |s| && r == s[|s| - |r|..]
    ensures forall i :: 0 <= i < |s| - |r| ==> IsSpace(s[i])
    ensures r == [] || !IsSpace(r[0])
  {
    if |s| > 0 && IsSpace(s[0]) then
      var r := TrimStart(s[1..]);
      assert s[1..][|s| - 1 - |r|..] == s[|s| - |r|..];
      assert forall i :: 1 <= i < |s| - |r| ==> s[i] == s[1..][i - 1];
      r
    else s
  }

  /** Drops trailing whitespace: the result is the longest prefix of `s` that does not end with whitespace. */
  function TrimEnd(s: string): (r: string)
    ensures |r| <= |s| && r == s[..|r|]
    ensures forall i :: |r| <= i < |s| ==> IsSpace(s[i])
    ensures r == [] || !IsSpace(r[|r| - 1])
  {
    if |s| > 0 && IsSpace(s[|s| - 1]) then
      var r := TrimEnd(s[..|s| - 1]);
      assert s[..|s| - 1][..|r|] == s[..|r|];
      assert forall i :: |r| <= i < |s| - 1 ==> s[i] == s[..|s| - 1][i];
      r
    else s
  }

  /**
   * `s.trim()`: a contiguous piece of `s` that neither starts nor ends with
   * whitespace, and is empty exactly when `s` is blank. In JavaScript a string
   * is truthy when it is non-empty, so `if (s.trim())` tests `!IsBlank(s)`.
   */
  function Trim(s: string): (r: string)
    ensures |r| <= |s|
    ensures r == [] <==> IsBlank(s)
    ensures r != [] ==> !IsSpace(r[0]) && !IsSpace(r[|r| - 1])
    ensures exists k :: OuterSpaceRemoved(s, k, r)
  {
    var t := TrimStart(s);
    var r := TrimEnd(t);
    TrimPieces(s);
    OuterSpaceOfPieces(s, t, r);
    r
  }

  /** Trimming leaves something exactly when some character of `s` is not whitespace. */
  lemma TrimPieces(s: string)
    ensures TrimEnd(TrimStart(s)) == [] <==> IsBlank(s)
  {
    var t := TrimStart(s);
    var r := TrimEnd(t);
    if t == [] {
      assert forall i :: 0 <= i < |s| ==> IsSpace(s[i]);
    } else {
      var k := |s| - |t|;
      assert t[0] == s[k];
      assert !IsSpace(s[k]);
    }
  }

  /** `r` is `s` with the blank prefix of length `k` and a blank suffix taken off. */
  ghost predicate OuterSpaceRemoved(s: string, k: int, r: string)
  {
    && 0 <= k <= |s| - |r|
    && r == s[k..k + |r|]
    && (forall i :: 0 <= i < k ==> IsSpace(s[i]))
    && (forall i :: k + |r| <= i < |s| ==> IsSpace(s[i]))
  }

  /**
   * A whitespace-only prefix dropped from `s` leaves `t`; a whitespace-only
   * suffix dropped from `t` leaves `r`: then `r` is `s` with both removed.
   */
  lemma OuterSpaceOfPieces(s: string, t: string, r: string)
    requires |t| <= |s| && t == s[|s| - |t|..]
    requires forall i :: 0 <= i < |s| - |t| ==> IsSpace(s[i])
    requires |r| <= |t| && r == t[..|r|]
    requires forall i :: |r| <= i < |t| ==> IsSpace(t[i])
    ensures OuterSpaceRemoved(s, |s| - |t|, r)
  {
    var k := |s| - |t|;
    PrefixOfSuffix(s, k, t, r);
    SpaceAfterPiece(s, k, t, r);
  }

  /** A prefix of the suffix from `k` is the slice starting at `k`. */
  lemma PrefixOfSuffix(s: string, k: nat, t: string, r: string)
    requires k <= |s| && t == s[k..] && |r| <= |t| && r == t[..|r|]
    ensures r == s[k..k + |r|]
  {
  }

  /** Whitespace after `r` in the suffix from `k` is whitespace after `k + |r|` in `s`. */
  lemma SpaceAfterPiece(s: string, k: nat, t: string, r: string)
    requires k <= |s| && t == s[k..] && |r| <= |t|
    requires forall i :: |r| <= i < |t| ==> IsSpace(t[i])
    ensures forall i :: k + |r| <= i < |s| ==> IsSpace(s[i])
  {
    forall i | k + |r| <= i < |s|
      ensures IsSpace(s[i])
    {
      assert s[i] == t[i - k];
    }
  }

  /** `s.endsWith(suffix)`. */
  predicate EndsWith(s: string, suffix: string)
    ensures EndsWith(s, suffix) <==>
      |suffix| <= |s| && forall i :: 0 <= i < |suffix| ==> s[|s| - |suffix| + i] == suffix[i]
  {
    |suffix| <= |s| && s[|s| - |suffix|..] == suffix
  }
}
