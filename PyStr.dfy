/** The few Python `str` built-ins the scripts rely on: `strip()`, `endswith()`
    and `replace(pat, "")`, on strings as sequences of code points. */
module PyStr {

  /** Python's `str.isspace()` for one code point: the characters `str.strip()` removes. */
  predicate IsSpace(c: char) {
    var n := c as int;
    (9 <= n <= 13) || (28 <= n <= 32) || n == 0x85 || n == 0xA0 || n == 0x1680
    || (0x2000 <= n <= 0x200A) || n == 0x2028 || n == 0x2029 || n == 0x202F
    || n == 0x205F || n == 0x3000
  }

  /** Leading whitespace removed: what is dropped is all whitespace and what is kept
      is a suffix of `s` that does not start with whitespace. */
  function LStrip(s: string): (r: string)
    ensures |r| <= |s| && r == s[|s| - |r|..]
    ensures r != [] ==> !IsSpace(r[0])
    ensures forall i :: 0 <= i < |s| - |r| ==> IsSpace(s[i])
    decreases |s|
  {
    if s != [] && IsSpace(s[0]) then LStrip(s[1..]) else s
  }

  /** Trailing whitespace removed: the mirror image of `LStrip`. */
  function RStrip(s: string): (r: string)
    ensures |r| <= |s| && r == s[..|r|]
    ensures r != [] ==> !IsSpace(r[|r| - 1])
    ensures forall i :: |r| <= i < |s| ==> IsSpace(s[i])
    decreases |s|
  {
    if s != [] && IsSpace(s[|s| - 1]) then RStrip(s[..|s| - 1]) else s
  }

  /** Python's `s.strip()`. */
  function Strip(s: string): (r: string)
    ensures r != [] ==> !IsSpace(r[0]) && !IsSpace(r[|r| - 1])
  {
    RStrip(LStrip(s))
  }

  /** `s.strip()` is empty exactly when every character of `s` is whitespace
      (in particular when `s` is empty). */
  lemma StripEmptyIffBlank(s: string)
    ensures Strip(s) == [] <==> forall i :: 0 <= i < |s| ==> IsSpace(s[i])
  {
  }

  /** Stripping a string that neither starts nor ends with whitespace changes nothing,
      so `strip()` is idempotent. */
  lemma StripKeepsTrimmed(s: string)
    requires s != [] ==> !IsSpace(s[0]) && !IsSpace(s[|s| - 1])
    ensures Strip(s) == s
  {
  }

  lemma StripIdempotent(s: string)
    ensures Strip(Strip(s)) == Strip(s)
  {
    StripKeepsTrimmed(Strip(s));
  }

  /** Python's `s.endswith(suffix)`. */
  predicate EndsWith(s: string, suffix: string) {
    |suffix| <= |s| && s[|s| - |suffix|..] == suffix
  }

  /** `pat` occurs in `s` starting at index `i`. */
  predicate OccursAt(s: string, pat: string, i: int) {
    0 <= i && i + |pat| <= |s| && s[i..i + |pat|] == pat
  }

  /** Python's `pat in s`. */
  predicate Contains(s: string, pat: string) {
    exists i :: 0 <= i <= |s| - |pat| && OccursAt(s, pat, i)
  }

  /** Python's `s.replace(pat, "")` for a non-empty `pat`: scanning from the left, each
      occurrence is dropped and the scan resumes after it (occurrences never overlap). */
  function Remove(s: string, pat: string): (r: string)
    requires pat != []
    ensures |r| <= |s|
    decreases |s|
  {
    if |s| < |pat| then s
    else if s[..|pat|] == pat then Remove(s[|pat|..], pat)
    else [s[0]] + Remove(s[1..], pat)
  }

  /** No proper suffix of `pat` is also a prefix of it, so an occurrence of `pat` cannot
      begin inside a string and end inside a copy of `pat` appended to it. */
  predicate Unbordered(pat: string) {
    forall k :: 0 < k < |pat| ==> pat[k..] != pat[..|pat| - k]
  }

  /** Removing an unbordered pattern from `s + pat`, when `s` does not contain it,
      gives back exactly `s`. */
  lemma {:induction false} RemoveAppended(s: string, pat: string)
    requires pat != [] && Unbordered(pat)
    requires !Contains(s, pat)
    ensures Remove(s + pat, pat) == s
    decreases |s|
  {
    var t := s + pat;
    if s == [] {
      assert t == pat;
      assert t[|pat|..] == [];
    } else {
      assert t[..|pat|] != pat by {
        if |s| >= |pat| {
          assert t[..|pat|] == s[0..0 + |pat|];
          assert !OccursAt(s, pat, 0);
        } else {
          var k := |s|;
          assert t[k..|pat|] == pat[..|pat| - k];
          assert pat[k..] != pat[..|pat| - k];
        }
      }
      assert !Contains(s[1..], pat) by {
        if Contains(s[1..], pat) {
          var i :| 0 <= i <= |s[1..]| - |pat| && OccursAt(s[1..], pat, i);
          assert s[1..][i..i + |pat|] == s[i + 1..i + 1 + |pat|];
          assert OccursAt(s, pat, i + 1);
        }
      }
      RemoveAppended(s[1..], pat);
      assert t[1..] == s[1..] + pat;
      assert s == [s[0]] + s[1..];
    }
  }

  lemma NpyUnbordered()
    ensures Unbordered(".npy")
  {
    var p := ".npy";
    forall k | 0 < k < |p| ensures p[k..] != p[..|p| - k] {
      assert p[k..][0] != p[..|p| - k][0];
    }
  }
}
