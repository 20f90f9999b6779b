/**
 * The parts of Python's `str` type that the reply cleanup relies on:
 * `str.isspace` on one character, `str.strip()` with no argument, and
 * `str.replace(old, new)` with no count (replace every occurrence, scanning
 * left to right, never overlapping). Both are written as scans over
 * indices, with the same results as CPython's.
 */
module PyStr {

  /** Python's `str.isspace` for a single character: the characters of
      bidirectional class WS, B or S, or of general category Zs. */
  predicate IsSpace(c: char) {
    var n := c as int;
    (0x09 <= n <= 0x0D) || (0x1C <= n <= 0x20) || n == 0x85 || n == 0xA0 || n == 0x1680
    || (0x2000 <= n <= 0x200A) || n == 0x2028 || n == 0x2029 || n == 0x202F
    || n == 0x205F || n == 0x3000
  }

  /** Every character of `s` in `[lo, hi)` is whitespace. */
  predicate SpaceBetween(s: string, lo: int, hi: int)
    requires 0 <= lo && hi <= |s|
  {
    forall m :: lo <= m < hi ==> IsSpace(s[m])
  }

  /** Neither the first nor the last character is whitespace. */
  predicate IsStripped(t: string) {
    t == [] || (!IsSpace(t[0]) && !IsSpace(t[|t| - 1]))
  }

  /** The left scan of `strip`: the first index at or after `i` that does
      not hold whitespace, or `|s|`. */
  function SkipSpace(s: string, i: nat): (k: nat)
    requires i <= |s|
    ensures i <= k <= |s| && SpaceBetween(s, i, k)
    ensures k == |s| || !IsSpace(s[k])
    decreases |s| - i
  {
    if i < |s| && IsSpace(s[i]) then SkipSpace(s, i + 1) else i
  }

  /** The right scan of `strip`: going down from `j`, never below `lo`, the
      end of the last character that is not whitespace, or `lo`. */
  function BackSpace(s: string, lo: nat, j: nat): (k: nat)
    requires lo <= j <= |s|
    ensures lo <= k <= j && SpaceBetween(s, k, j)
    ensures k == lo || !IsSpace(s[k - 1])
    decreases j
  {
    if lo < j && IsSpace(s[j - 1]) then BackSpace(s, lo, j - 1) else j
  }

  /** `s.strip()`: the slice `s[i..j]` between the two scans. It is stripped,
      no longer than `s`, and everything cut off is whitespace. */
  function Strip(s: string): (r: string)
    ensures IsStripped(r) && |r| <= |s|
    ensures exists i, j :: 0 <= i <= j <= |s| && r == s[i..j]
                           && SpaceBetween(s, 0, i) && SpaceBetween(s, j, |s|)
  {
    var i := SkipSpace(s, 0);
    var j := BackSpace(s, i, |s|);
    assert j > i ==> s[i..j][0] == s[i] && s[i..j][j - i - 1] == s[j - 1];
    s[i..j]
  }

  /** The slice Strip keeps is the only one of its kind: any way of cutting
      only whitespace from the ends of `s` that leaves a stripped string
      gives exactly `Strip(s)`. */
  lemma StripUnique(s: string, i: int, j: int)
    requires 0 <= i <= j <= |s|
    requires SpaceBetween(s, 0, i) && SpaceBetween(s, j, |s|) && IsStripped(s[i..j])
    ensures Strip(s) == s[i..j]
  {
    var i' := SkipSpace(s, 0);
    var j' := BackSpace(s, i', |s|);
    if i < j {
      assert s[i..j][0] == s[i] && s[i..j][j - i - 1] == s[j - 1];
      assert i' == i;
      assert j' == j;
    } else {
      assert SpaceBetween(s, 0, |s|) by {
        forall m | 0 <= m < |s| ensures IsSpace(s[m]) {
          if m >= i {
            assert j <= m;
          }
        }
      }
      assert i' == |s| && j' == |s|;
    }
  }

  /** Stripping a string that is already stripped changes nothing. */
  lemma StripFixesStripped(s: string)
    requires IsStripped(s)
    ensures Strip(s) == s
  {
    assert s[0..|s|] == s;
    StripUnique(s, 0, |s|);
  }

  /** `strip` is idempotent. */
  lemma StripIdempotent(s: string)
    ensures Strip(Strip(s)) == Strip(s)
  {
    StripFixesStripped(Strip(s));
  }

  /** `p` occurs in `s` starting at index `i`. */
  predicate OccursAt(s: string, p: string, i: int) {
    0 <= i && i + |p| <= |s| && s[i..i + |p|] == p
  }

  /** Python's `p in s`. */
  predicate Contains(s: string, p: string) {
    exists i | 0 <= i <= |s| - |p| :: OccursAt(s, p, i)
  }

  /** The scan of `s.replace(pat, rep)` from index `i`: where `pat` occurs
      it emits `rep` and resumes after the match, otherwise it keeps one
      character; once too few characters are left for a match it keeps the
      rest. An empty `pat` matches before every character and at the end,
      as in Python. */
  function ReplaceFrom(s: string, pat: string, rep: string, i: nat): string
    requires i <= |s|
    decreases |s| - i
  {
    if pat == [] then
      if i == |s| then rep else rep + [s[i]] + ReplaceFrom(s, pat, rep, i + 1)
    else if i + |pat| > |s| then s[i..]
    else if OccursAt(s, pat, i) then rep + ReplaceFrom(s, pat, rep, i + |pat|)
    else [s[i]] + ReplaceFrom(s, pat, rep, i + 1)
  }

  /** `s.replace(pat, rep)`. */
  function ReplaceAll(s: string, pat: string, rep: string): string {
    ReplaceFrom(s, pat, rep, 0)
  }

  /** The indices of the matches the scan from `i` consumes, in order. */
  function MatchesFrom(s: string, pat: string, i: nat): seq<int>
    requires i <= |s|
    decreases |s| - i
  {
    if pat == [] then
      if i == |s| then [i] else [i] + MatchesFrom(s, pat, i + 1)
    else if i + |pat| > |s| then []
    else if OccursAt(s, pat, i) then [i] + MatchesFrom(s, pat, i + |pat|)
    else MatchesFrom(s, pat, i + 1)
  }

  /** The indices of the matches `s.replace(pat, _)` consumes. */
  function Matches(s: string, pat: string): seq<int> {
    MatchesFrom(s, pat, 0)
  }

  /** The matches from `i` are occurrences of `pat` at or after `i`, in
      increasing order, not overlapping; an empty `pat` gives `|s| - i + 1`
      of them (`EmptyMatchesFrom` says which). */
  lemma {:induction false} MatchesFromWellFormed(s: string, pat: string, i: nat)
    requires i <= |s|
    ensures forall k :: 0 <= k < |MatchesFrom(s, pat, i)| ==>
              i <= MatchesFrom(s, pat, i)[k] && OccursAt(s, pat, MatchesFrom(s, pat, i)[k])
    ensures forall k :: 0 <= k < |MatchesFrom(s, pat, i)| - 1 ==>
              MatchesFrom(s, pat, i)[k] + |pat| <= MatchesFrom(s, pat, i)[k + 1]
    ensures pat == [] ==> |MatchesFrom(s, pat, i)| == |s| - i + 1
    decreases |s| - i
  {
    if pat == [] {
      assert s[i..i] == [];
      if i < |s| {
        MatchesFromWellFormed(s, pat, i + 1);
      }
    } else if i + |pat| > |s| {
    } else if OccursAt(s, pat, i) {
      MatchesFromWellFormed(s, pat, i + |pat|);
    } else {
      MatchesFromWellFormed(s, pat, i + 1);
    }
  }

  /** An empty pattern matches at each index from `i` to `|s|` in turn. */
  lemma {:induction false} EmptyMatchesFrom(s: string, i: nat)
    requires i <= |s|
    ensures |MatchesFrom(s, [], i)| == |s| - i + 1
    ensures forall k :: 0 <= k < |MatchesFrom(s, [], i)| ==> MatchesFrom(s, [], i)[k] == i + k
    decreases |s| - i
  {
    if i < |s| {
      EmptyMatchesFrom(s, i + 1);
    }
  }

  /** Every consumed match is an occurrence of `pat`, and the matches are
      in increasing order and do not overlap; an empty pattern matches at
      every index `0..|s|`, in order. */
  lemma MatchesWellFormed(s: string, pat: string)
    ensures forall k :: 0 <= k < |Matches(s, pat)| ==> OccursAt(s, pat, Matches(s, pat)[k])
    ensures forall k :: 0 <= k < |Matches(s, pat)| - 1 ==>
              Matches(s, pat)[k] + |pat| <= Matches(s, pat)[k + 1]
    ensures pat == [] ==> |Matches(s, pat)| == |s| + 1
    ensures pat == [] ==> forall k :: 0 <= k < |Matches(s, pat)| ==> Matches(s, pat)[k] == k
  {
    MatchesFromWellFormed(s, pat, 0);
    if pat == [] {
      EmptyMatchesFrom(s, 0);
    }
  }

  /** The scan from `i` misses nothing: an occurrence of a non-empty `pat`
      at or after `i` starts inside one of the matches it consumes. */
  lemma {:induction false} MatchesFromCover(s: string, pat: string, i: nat, o: int)
    requires i <= |s| && pat != [] && i <= o && OccursAt(s, pat, o)
    ensures exists k :: 0 <= k < |MatchesFrom(s, pat, i)| &&
              MatchesFrom(s, pat, i)[k] <= o < MatchesFrom(s, pat, i)[k] + |pat|
    decreases |s| - i
  {
    var m := MatchesFrom(s, pat, i);
    if OccursAt(s, pat, i) {
      if o < i + |pat| {
        assert m[0] == i;
      } else {
        MatchesFromCover(s, pat, i + |pat|, o);
        var m' := MatchesFrom(s, pat, i + |pat|);
        var k :| 0 <= k < |m'| && m'[k] <= o < m'[k] + |pat|;
        assert m[k + 1] == m'[k];
      }
    } else {
      assert o != i;
      MatchesFromCover(s, pat, i + 1, o);
    }
  }

  /** The scan misses nothing: every occurrence of a non-empty `pat` in `s`
      starts inside one of the matches it consumed. (An occurrence that
      starts inside a consumed match is not itself a match.) */
  lemma MatchesCoverOccurrences(s: string, pat: string, o: int)
    requires pat != [] && OccursAt(s, pat, o)
    ensures exists k :: 0 <= k < |Matches(s, pat)| &&
              Matches(s, pat)[k] <= o < Matches(s, pat)[k] + |pat|
  {
    MatchesFromCover(s, pat, 0, o);
    var m := MatchesFrom(s, pat, 0);
    var k :| 0 <= k < |m| && m[k] <= o < m[k] + |pat|;
    assert Matches(s, pat)[k] == m[k];
  }

  /** Nothing is consumed exactly when `pat` does not occur in `s`. */
  lemma NoMatchesIffAbsent(s: string, pat: string)
    ensures Matches(s, pat) == [] <==> !Contains(s, pat)
  {
    MatchesWellFormed(s, pat);
    var m := Matches(s, pat);
    if m != [] {
      assert OccursAt(s, pat, m[0]);
    }
    if Contains(s, pat) {
      var o :| 0 <= o <= |s| - |pat| && OccursAt(s, pat, o);
      if pat != [] {
        MatchesCoverOccurrences(s, pat, o);
      }
    }
  }

  /** `c * n` as `c` repeated additions, which keeps the scan proofs free
      of multiplication. */
  function Scaled(c: nat, n: int): int {
    if c == 0 then 0 else n + Scaled(c - 1, n)
  }

  lemma {:induction false} ScaledIsProduct(c: nat, n: int)
    ensures Scaled(c, n) == c * n
  {
    if c > 0 {
      ScaledIsProduct(c - 1, n);
    }
  }

  lemma {:induction false} InsertFromLength(s: string, rep: string, i: nat)
    requires i <= |s|
    ensures |ReplaceFrom(s, [], rep, i)| == |s| - i + Scaled(|MatchesFrom(s, [], i)|, |rep|)
    decreases |s| - i
  {
    if i < |s| {
      InsertFromLength(s, rep, i + 1);
    }
  }

  /** The length the scan from `i` produces, counted per consumed match. */
  predicate LengthFrom(s: string, pat: string, rep: string, i: nat)
    requires i <= |s|
  {
    |ReplaceFrom(s, pat, rep, i)| == |s| - i + Scaled(|MatchesFrom(s, pat, i)|, |rep| - |pat|)
  }

  lemma SubstituteMatchStep(s: string, pat: string, rep: string, i: nat)
    requires pat != [] && OccursAt(s, pat, i) && LengthFrom(s, pat, rep, i + |pat|)
    ensures LengthFrom(s, pat, rep, i)
  {
  }

  lemma SubstituteCopyStep(s: string, pat: string, rep: string, i: nat)
    requires pat != [] && i + |pat| <= |s| && !OccursAt(s, pat, i) && LengthFrom(s, pat, rep, i + 1)
    ensures LengthFrom(s, pat, rep, i)
  {
  }

  lemma {:induction false} SubstituteFromLength(s: string, pat: string, rep: string, i: nat)
    requires pat != [] && i <= |s|
    ensures LengthFrom(s, pat, rep, i)
    decreases |s| - i
  {
    if i + |pat| > |s| {
    } else if OccursAt(s, pat, i) {
      SubstituteFromLength(s, pat, rep, i + |pat|);
      SubstituteMatchStep(s, pat, rep, i);
    } else {
      SubstituteFromLength(s, pat, rep, i + 1);
      SubstituteCopyStep(s, pat, rep, i);
    }
  }

  /** Each consumed match turns `|pat|` characters into `|rep|`. */
  lemma ReplaceAllLength(s: string, pat: string, rep: string)
    ensures |ReplaceAll(s, pat, rep)| == |s| + |Matches(s, pat)| * (|rep| - |pat|)
  {
    if pat == [] {
      InsertFromLength(s, rep, 0);
    } else {
      SubstituteFromLength(s, pat, rep, 0);
    }
    ScaledIsProduct(|Matches(s, pat)|, |rep| - |pat|);
  }

  lemma {:induction false} RemoveFromShrinks(s: string, pat: string, i: nat)
    requires pat != [] && i <= |s|
    ensures |ReplaceFrom(s, pat, "", i)| <= |s| - i
    decreases |s| - i
  {
    if i + |pat| > |s| {
    } else if OccursAt(s, pat, i) {
      RemoveFromShrinks(s, pat, i + |pat|);
    } else {
      RemoveFromShrinks(s, pat, i + 1);
    }
  }

  /** Removing a non-empty literal (`s.replace(pat, '')`) never lengthens
      the string. */
  lemma RemoveAllShrinks(s: string, pat: string)
    requires pat != []
    ensures |ReplaceAll(s, pat, "")| <= |s|
  {
    RemoveFromShrinks(s, pat, 0);
  }

  /** A stretch `[i, n)` of the scan on which no match starts is copied
      unchanged. */
  lemma {:induction false} ScanSkips(s: string, pat: string, rep: string, i: nat, n: nat)
    requires pat != [] && i <= n && n + |pat| <= |s| + 1
    requires forall k :: i <= k < n ==> !OccursAt(s, pat, k)
    ensures ReplaceFrom(s, pat, rep, i) == s[i..n] + ReplaceFrom(s, pat, rep, n)
    decreases n - i
  {
    if i < n {
      ScanSkips(s, pat, rep, i + 1, n);
      ScanSkipsStep(s, pat, rep, i, n);
    } else {
      assert s[i..n] == [];
    }
  }

  lemma ScanSkipsStep(s: string, pat: string, rep: string, i: nat, n: nat)
    requires pat != [] && i < n && i + |pat| <= |s| && n <= |s| && !OccursAt(s, pat, i)
    requires ReplaceFrom(s, pat, rep, i + 1) == s[i + 1..n] + ReplaceFrom(s, pat, rep, n)
    ensures ReplaceFrom(s, pat, rep, i) == s[i..n] + ReplaceFrom(s, pat, rep, n)
  {
    var rest := ReplaceFrom(s, pat, rep, n);
    assert ReplaceFrom(s, pat, rep, i) == [s[i]] + (s[i + 1..n] + rest);
    assert s[i..n] == [s[i]] + s[i + 1..n];
  }

  /** The same stretch consumes no match. */
  lemma {:induction false} ScanSkipsMatches(s: string, pat: string, i: nat, n: nat)
    requires pat != [] && i <= n && n + |pat| <= |s| + 1
    requires forall k :: i <= k < n ==> !OccursAt(s, pat, k)
    ensures MatchesFrom(s, pat, i) == MatchesFrom(s, pat, n)
    decreases n - i
  {
    if i < n {
      ScanSkipsMatches(s, pat, i + 1, n);
    }
  }

  /** One step of the scan where a match starts at `i`. */
  lemma ConsumeStep(s: string, pat: string, rep: string, i: nat)
    requires pat != [] && OccursAt(s, pat, i)
    ensures ReplaceFrom(s, pat, rep, i) == rep + ReplaceFrom(s, pat, rep, i + |pat|)
    ensures MatchesFrom(s, pat, i) == [i] + MatchesFrom(s, pat, i + |pat|)
  {
  }

  /** One step of the scan where no match starts at `i`. */
  lemma CopyStep(s: string, pat: string, rep: string, i: nat)
    requires pat != [] && i + |pat| <= |s| && !OccursAt(s, pat, i)
    ensures ReplaceFrom(s, pat, rep, i) == [s[i]] + ReplaceFrom(s, pat, rep, i + 1)
    ensures MatchesFrom(s, pat, i) == MatchesFrom(s, pat, i + 1)
  {
  }

  lemma SliceCons(s: string, i: nat, m: nat)
    requires i < m <= |s|
    ensures s[i..m] == [s[i]] + s[i + 1..m]
  {
  }

  lemma ConsAssociates(c: char, a: string, b: string, t: string)
    ensures [c] + (a + b + t) == [c] + a + b + t
  {
  }

  /** Where the scan from `i` consumes no match, `replace` copies the rest
      of `s` unchanged. */
  lemma {:induction false} ReplaceFromWithoutMatch(s: string, pat: string, rep: string, i: nat)
    requires pat != [] && i <= |s| && MatchesFrom(s, pat, i) == []
    ensures ReplaceFrom(s, pat, rep, i) == s[i..]
    decreases |s| - i
  {
    if i + |pat| <= |s| {
      if OccursAt(s, pat, i) {
        ConsumeStep(s, pat, rep, i);
        assert false;
      }
      CopyStep(s, pat, rep, i);
      ReplaceFromWithoutMatch(s, pat, rep, i + 1);
      SliceCons(s, i, |s|);
      assert s[i..] == s[i..|s|] && s[i + 1..] == s[i + 1..|s|];
    }
  }

  /** `m` is the next match the scan from `i` consumes, an occurrence of
      `pat` at or after `i`; `replace` copies `s[i..m]`, emits `rep` in
      place of the match, and goes on from the end of the match, where the
      remaining matches are the ones consumed. */
  predicate NextMatch(s: string, pat: string, rep: string, i: nat, m: int)
    requires i <= |s|
  {
    i <= m && OccursAt(s, pat, m)
    && MatchesFrom(s, pat, i) != [] && MatchesFrom(s, pat, i)[0] == m
    && ReplaceFrom(s, pat, rep, i) == s[i..m] + rep + ReplaceFrom(s, pat, rep, m + |pat|)
    && MatchesFrom(s, pat, i)[1..] == MatchesFrom(s, pat, m + |pat|)
  }

  /** Whenever the scan of a non-empty pattern from `i` consumes a match at
      all, the first one, `m`, is as `NextMatch` describes. */
  lemma {:induction false} ReplaceFromNextMatch(s: string, pat: string, rep: string, i: nat, m: int)
    requires pat != [] && i <= |s| && MatchesFrom(s, pat, i) != [] && MatchesFrom(s, pat, i)[0] == m
    ensures NextMatch(s, pat, rep, i, m)
    decreases |s| - i
  {
    if OccursAt(s, pat, i) {
      NextMatchHere(s, pat, rep, i);
    } else {
      assert i + |pat| <= |s|;
      CopyStep(s, pat, rep, i);
      ReplaceFromNextMatch(s, pat, rep, i + 1, m);
      NextMatchLater(s, pat, rep, i, m);
    }
  }

  lemma NextMatchHere(s: string, pat: string, rep: string, i: nat)
    requires pat != [] && OccursAt(s, pat, i)
    ensures MatchesFrom(s, pat, i)[0] == i && NextMatch(s, pat, rep, i, i)
  {
    ConsumeStep(s, pat, rep, i);
    assert s[i..i] + rep == rep;
  }

  lemma NextMatchLater(s: string, pat: string, rep: string, i: nat, m: int)
    requires pat != [] && i < |s| && !OccursAt(s, pat, i) && NextMatch(s, pat, rep, i + 1, m)
    ensures NextMatch(s, pat, rep, i, m)
  {
    CopyStep(s, pat, rep, i);
    ConsAssociates(s[i], s[i + 1..m], rep, ReplaceFrom(s, pat, rep, m + |pat|));
    SliceCons(s, i, m);
  }

  /** When `pat` does not occur, `replace` returns `s` unchanged. */
  lemma ReplaceAllAbsent(s: string, pat: string, rep: string)
    requires !Contains(s, pat)
    ensures ReplaceAll(s, pat, rep) == s
  {
    if pat == [] {
      assert OccursAt(s, pat, 0);
    } else if |pat| <= |s| {
      var n := |s| - |pat| + 1;
      ScanSkips(s, pat, rep, 0, n);
      assert ReplaceFrom(s, pat, rep, n) == s[n..];
      assert s[0..n] + s[n..] == s;
    }
  }

  /** In `role - urole - userser` the first occurrence of `role - user`
      starts at index 8. */
  lemma FirstUserTokenAt8(s: string, p: string)
    requires s == "role - urole - userser" && p == "role - user"
    ensures forall k :: 0 <= k < 8 ==> !OccursAt(s, p, k)
    ensures OccursAt(s, p, 8)
  {
    forall k | 0 <= k < 8 ensures !OccursAt(s, p, k) {
      if k == 0 {
        assert s[k..k + |p|][8] == s[8] != p[8];
      } else {
        assert s[k..k + |p|][0] == s[k];
        assert s[k] != 'r' by {
          assert k == 1 || k == 2 || k == 3 || k == 4 || k == 5 || k == 6 || k == 7;
        }
      }
    }
    assert s[8..19] == p;
  }

  /** One left-to-right pass can create the very token it removes: the
      two halves around a removed occurrence join into a new one, which the
      pass has already gone past. */
  lemma RemoveAllCanRecreate(s: string, p: string)
    requires s == "role - urole - userser" && p == "role - user"
    ensures Matches(s, p) == [8]
    ensures ReplaceAll(s, p, "") == p
    ensures Contains(ReplaceAll(s, p, ""), p)
  {
    FirstUserTokenAt8(s, p);
    ScanSkips(s, p, "", 0, 8);
    ScanSkipsMatches(s, p, 0, 8);
    assert ReplaceFrom(s, p, "", 8) == ReplaceFrom(s, p, "", 19) == s[19..];
    assert MatchesFrom(s, p, 8) == [8] + MatchesFrom(s, p, 19) == [8];
    HalvesJoin(s, p);
    assert OccursAt(p, p, 0) by {
      assert p[0..|p|] == p;
    }
  }

  /** What is left around the occurrence at index 8 spells the token. */
  lemma HalvesJoin(s: string, p: string)
    requires s == "role - urole - userser" && p == "role - user"
    ensures s[0..8] + s[19..] == p
  {
  }
}
