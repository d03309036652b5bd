/**
 * Java's `String.trim`: strips every leading and trailing character whose
 * code is at most that of the space character (' ', 32).
 */
module Text {

  /** Characters that `String.trim` strips. */
  predicate IsTrimmable(c: char) {
    c <= ' '
  }

  /** Every character of `s` would be stripped by `trim`. */
  predicate AllTrimmable(s: string) {
    forall i :: 0 <= i < |s| ==> IsTrimmable(s[i])
  }

  /**
   * The first index at or after `st` that holds a character `trim` keeps,
   * or `|s|` when there is none (the scan from the front).
   */
  function SkipLeading(s: string, st: nat): (r: nat)
    requires st <= |s|
    ensures st <= r <= |s|
    ensures forall i :: st <= i < r ==> IsTrimmable(s[i])
    ensures r < |s| ==> !IsTrimmable(s[r])
    decreases |s| - st
  {
    if st < |s| && IsTrimmable(s[st]) then SkipLeading(s, st + 1) else st
  }

  /**
   * The end of `s[st..len]` once its trailing trimmable characters are
   * dropped (the scan from the back, which never goes below `st`).
   */
  function SkipTrailing(s: string, st: nat, len: nat): (r: nat)
    requires st <= len <= |s|
    ensures st <= r <= len
    ensures forall i :: r <= i < len ==> IsTrimmable(s[i])
    ensures st < r ==> !IsTrimmable(s[r - 1])
    decreases len
  {
    if st < len && IsTrimmable(s[len - 1]) then SkipTrailing(s, st, len - 1) else len
  }

  /**
   * `String.trim`: the result is a contiguous slice of `s`, everything cut
   * off on either side is trimmable, and the result neither starts nor ends
   * with a trimmable character.
   */
  function Trim(s: string): (r: string)
    ensures |r| <= |s|
    ensures exists a :: 0 <= a <= |s| - |r| && r == s[a..a + |r|]
                        && AllTrimmable(s[..a]) && AllTrimmable(s[a + |r|..])
    ensures r != [] ==> !IsTrimmable(r[0]) && !IsTrimmable(r[|r| - 1])
  {
    var st := SkipLeading(s, 0);
    var len := SkipTrailing(s, st, |s|);
    assert AllTrimmable(s[..st]);
    assert AllTrimmable(s[len..]);
    s[st..len]
  }

  /** `trim().isEmpty()` holds exactly for blank strings. */
  lemma TrimEmptyIffBlank(s: string)
    ensures Trim(s) == [] <==> AllTrimmable(s)
  {
    var st := SkipLeading(s, 0);
    var len := SkipTrailing(s, st, |s|);
    assert Trim(s) == s[st..len];
  }

  /** Trimming a trimmed string changes nothing. */
  lemma TrimIdempotent(s: string)
    ensures Trim(Trim(s)) == Trim(s)
  {
    var r := Trim(s);
    assert SkipLeading(r, 0) == 0;
    assert SkipTrailing(r, 0, |r|) == |r|;
  }
}
