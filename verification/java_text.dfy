/** The three `java.lang.String` operations the lending core relies on:
    `trim`, `toLowerCase` and `contains`. */
module JavaText {

  /** Java's `trim` treats every character at or below the space as blank. */
  predicate IsTrimmable(c: char) {
    c <= ' '
  }

  /** Strips the leading trimmable characters. */
  function TrimStart(s: string): (r: string)
    ensures |r| <= |s| && r == s[|s| - |r|..]
    ensures r == [] || !IsTrimmable(r[0])
    ensures forall i :: 0 <= i < |s| - |r| ==> IsTrimmable(s[i])
    decreases |s|
  {
    if |s| > 0 && IsTrimmable(s[0]) then TrimStart(s[1..]) else s
  }

  /** Strips the trailing trimmable characters. */
  function TrimEnd(s: string): (r: string)
    ensures |r| <= |s| && r == s[..|r|]
    ensures r == [] || !IsTrimmable(r[|r| - 1])
    ensures forall i :: |r| <= i < |s| ==> IsTrimmable(s[i])
    decreases |s|
  {
    if |s| > 0 && IsTrimmable(s[|s| - 1]) then TrimEnd(s[..|s| - 1]) else s
  }

  /** `r` is `s[i..j]`, and everything of `s` outside that infix is trimmable. */
  predicate TrimmedAt(s: string, r: string, i: int, j: int)
    requires 0 <= i <= j <= |s|
  {
    && r == s[i..j]
    && (forall k :: 0 <= k < i ==> IsTrimmable(s[k]))
    && (forall k :: j <= k < |s| ==> IsTrimmable(s[k]))
  }

  /** `String.trim()`: the longest infix that neither starts nor ends with a
      trimmable character. */
  function Trim(s: string): (r: string)
    ensures exists i, j :: 0 <= i <= j <= |s| && TrimmedAt(s, r, i, j)
    ensures r == [] || (!IsTrimmable(r[0]) && !IsTrimmable(r[|r| - 1]))
  {
    var t := TrimStart(s);
    var r := TrimEnd(t);
    TrimEndOfTrimStart(s, t, r);
    r
  }

  /** Cutting trimmable characters off the front of `s` (giving `t`) and
      then off the back of `t` (giving `r`) leaves the infix `s[i..i + |r|]`
      with `i == |s| - |t|`. */
  lemma TrimEndOfTrimStart(s: string, t: string, r: string)
    requires |t| <= |s| && t == s[|s| - |t|..]
    requires forall k :: 0 <= k < |s| - |t| ==> IsTrimmable(s[k])
    requires |r| <= |t| && r == t[..|r|]
    requires forall k :: |r| <= k < |t| ==> IsTrimmable(t[k])
    ensures 0 <= |s| - |t| <= |s| - |t| + |r| <= |s|
    ensures TrimmedAt(s, r, |s| - |t|, |s| - |t| + |r|)
  {
    var i := |s| - |t|;
    assert r == s[i..i + |r|] by {
      forall k | 0 <= k < |r| ensures r[k] == s[i + k] {
        assert r[k] == t[k];
      }
    }
    forall k | i + |r| <= k < |s| ensures IsTrimmable(s[k]) {
      assert s[k] == t[k - i];
    }
  }

  /** `s.trim().isEmpty()`. */
  predicate IsBlank(s: string) {
    |Trim(s)| == 0
  }

  /** A string is blank exactly when every character in it is trimmable;
      in particular the empty string is blank. */
  lemma BlankIffAllTrimmable(s: string)
    ensures IsBlank(s) <==> forall i :: 0 <= i < |s| ==> IsTrimmable(s[i])
  {
  }

  /** Java's `toLowerCase`, restricted to the ASCII letters. */
  function LowerChar(c: char): (r: char) {
    if 'A' <= c <= 'Z' then (c as int + 32) as char else c
  }

  function Lower(s: string): (r: string)
    ensures |r| == |s|
    ensures forall i :: 0 <= i < |s| ==> r[i] == LowerChar(s[i])
  {
    seq(|s|, i requires 0 <= i < |s| => LowerChar(s[i]))
  }

  /** Lower-casing twice is lower-casing once, and leaves no capital letter. */
  lemma LowerIdempotent(s: string)
    ensures Lower(Lower(s)) == Lower(s)
    ensures forall i :: 0 <= i < |s| ==> !('A' <= Lower(s)[i] <= 'Z')
  {
  }

  /** Lower-casing works character by character: it distributes over
      concatenation. */
  lemma LowerDistributes(a: string, b: string)
    ensures Lower(a + b) == Lower(a) + Lower(b)
  {
  }

  /** `pat` occurs in `text` starting at index `i`. */
  predicate OccursAt(text: string, pat: string, i: nat) {
    i + |pat| <= |text| && text[i..i + |pat|] == pat
  }

  /** `text.indexOf(pat, from)` for a start index within the text: the first
      occurrence at or after `from`, or -1. */
  function IndexOf(text: string, pat: string, from: nat): (r: int)
    requires from <= |text|
    ensures r == -1 || (from <= r && OccursAt(text, pat, r))
    ensures r == -1 ==> forall j :: from <= j ==> !OccursAt(text, pat, j)
    ensures r != -1 ==> forall j :: from <= j < r ==> !OccursAt(text, pat, j)
    decreases |text| - from
  {
    if from + |pat| > |text| then -1
    else if text[from..from + |pat|] == pat then from
    else IndexOf(text, pat, from + 1)
  }

  /** `text.contains(pat)`, which Java defines as `indexOf(pat) >= 0`. */
  predicate Contains(text: string, pat: string) {
    IndexOf(text, pat, 0) >= 0
  }

  /** `contains` is exactly the infix relation on strings. */
  lemma ContainsIffInfix(text: string, pat: string)
    ensures Contains(text, pat) <==> exists i, j :: 0 <= i <= j <= |text| && text[i..j] == pat
  {
    if exists i, j :: 0 <= i <= j <= |text| && text[i..j] == pat {
      var i, j :| 0 <= i <= j <= |text| && text[i..j] == pat;
      assert OccursAt(text, pat, i);
    }
  }

  /** Every string contains the empty string. */
  lemma ContainsEmpty(text: string)
    ensures Contains(text, "")
  {
    assert OccursAt(text, "", 0);
  }
}
