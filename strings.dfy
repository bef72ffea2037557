/** String searching as JavaScript's `includes`, `startsWith`, `indexOf`
    and `lastIndexOf` do it, and the subsequence relation used to state what
    the sanitizers keep. */
module Strings {
  import opened Common

  /** `s.startsWith(p)` */
  predicate StartsWith(s: string, p: string) {
    |p| <= |s| && s[..|p|] == p
  }

  /** `pat` occurs in `s` at position `k`. */
  predicate OccursAt(s: string, pat: string, k: int) {
    0 <= k && k + |pat| <= |s| && s[k..k + |pat|] == pat
  }

  /** `s.includes(pat)` */
  predicate Contains(s: string, pat: string) {
    exists k :: 0 <= k <= |s| - |pat| && OccursAt(s, pat, k)
  }

  /** `s.indexOf(pat)` for a non-empty pattern, scanning from `from`. */
  function FirstIndexFrom(s: string, pat: string, from: nat): Option<nat>
    requires from <= |s|
    decreases |s| - from
  {
    if from + |pat| > |s| then None
    else if s[from..from + |pat|] == pat then Some(from)
    else FirstIndexFrom(s, pat, from + 1)
  }

  /** The scan finds the first occurrence at or after `from`, if any. */
  lemma {:induction false} FirstIndexFromSound(s: string, pat: string, from: nat)
    requires from <= |s|
    ensures var r := FirstIndexFrom(s, pat, from);
      (r.Some? ==> from <= r.value && OccursAt(s, pat, r.value)) &&
      (r.Some? ==> forall k :: from <= k < r.value ==> !OccursAt(s, pat, k)) &&
      (r.None? ==> forall k :: from <= k ==> !OccursAt(s, pat, k))
    decreases |s| - from
  {
    if from + |pat| <= |s| && s[from..from + |pat|] != pat {
      FirstIndexFromSound(s, pat, from + 1);
    }
  }

  /** `s.indexOf(pat)`: the first occurrence. */
  function FirstIndexOf(s: string, pat: string): (r: Option<nat>)
    requires pat != []
    ensures r.Some? ==> OccursAt(s, pat, r.value)
    ensures r.Some? ==> forall k :: 0 <= k < r.value ==> !OccursAt(s, pat, k)
    ensures r.None? ==> forall k :: !OccursAt(s, pat, k)
  {
    FirstIndexFromSound(s, pat, 0);
    FirstIndexFrom(s, pat, 0)
  }

  /** `s.lastIndexOf(pat)` restricted to positions below `bound`. */
  function LastIndexBelow(s: string, pat: string, bound: nat): Option<nat>
    decreases bound
  {
    if bound == 0 then None
    else if OccursAt(s, pat, bound - 1) then Some(bound - 1)
    else LastIndexBelow(s, pat, bound - 1)
  }

  /** The scan finds the last occurrence below `bound`, if any. */
  lemma {:induction false} LastIndexBelowSound(s: string, pat: string, bound: nat)
    ensures var r := LastIndexBelow(s, pat, bound);
      (r.Some? ==> r.value < bound && OccursAt(s, pat, r.value)) &&
      (r.Some? ==> forall k :: r.value < k < bound ==> !OccursAt(s, pat, k)) &&
      (r.None? ==> forall k :: 0 <= k < bound ==> !OccursAt(s, pat, k))
    decreases bound
  {
    if bound > 0 && !OccursAt(s, pat, bound - 1) {
      LastIndexBelowSound(s, pat, bound - 1);
    }
  }

  /** `s.lastIndexOf(pat)`: the last occurrence. */
  function LastIndexOf(s: string, pat: string): (r: Option<nat>)
    requires pat != []
    ensures r.Some? ==> OccursAt(s, pat, r.value)
    ensures r.Some? ==> forall k :: r.value < k ==> !OccursAt(s, pat, k)
    ensures r.None? ==> forall k :: !OccursAt(s, pat, k)
  {
    LastIndexBelowSound(s, pat, |s| + 1);
    LastIndexBelow(s, pat, |s| + 1)
  }

  /** `a` can be obtained from `b` by deleting characters (greedy matching). */
  predicate IsSubsequence(a: string, b: string)
    decreases |b|
  {
    if a == [] then true
    else if b == [] then false
    else if a[0] == b[0] then IsSubsequence(a[1..], b[1..])
    else IsSubsequence(a, b[1..])
  }

  /** Dropping the first character of a subsequence keeps it a subsequence. */
  lemma {:induction false} SubsequenceTail(a: string, b: string)
    requires a != [] && IsSubsequence(a, b)
    ensures IsSubsequence(a[1..], b)
    decreases |b|, 1
  {
    if a[0] != b[0] {
      SubsequenceTail(a, b[1..]);
      SubsequenceCons(a[1..], b[1..], b[0]);
      assert [b[0]] + b[1..] == b;
    } else if a[1..] != [] {
      SubsequenceCons(a[1..], b[1..], b[0]);
      assert [b[0]] + b[1..] == b;
    }
  }

  /** A subsequence of `t` is a subsequence of `[x] + t`. */
  lemma {:induction false} SubsequenceCons(a: string, t: string, x: char)
    requires IsSubsequence(a, t)
    ensures IsSubsequence(a, [x] + t)
    decreases |t|, 2
  {
    var b := [x] + t;
    assert b[1..] == t;
    if a != [] && a[0] == x {
      SubsequenceTail(a, t);
    }
  }

  /** A subsequence of a suffix is a subsequence of the whole. */
  lemma {:induction false} SubsequenceOfSuffix(a: string, b: string, k: nat)
    requires k <= |b| && IsSubsequence(a, b[k..])
    ensures IsSubsequence(a, b)
    decreases k
  {
    if k > 0 {
      assert [b[k - 1]] + b[k..] == b[k - 1..];
      SubsequenceCons(a, b[k..], b[k - 1]);
      SubsequenceOfSuffix(a, b, k - 1);
    }
  }

  /** Keeping the first character on both sides keeps the relation. */
  lemma SubsequenceBothCons(a: string, b: string, x: char)
    requires IsSubsequence(a, b)
    ensures IsSubsequence([x] + a, [x] + b)
  {
    assert ([x] + a)[1..] == a;
    assert ([x] + b)[1..] == b;
  }

  /** The subsequence relation is transitive. */
  lemma {:induction false} SubsequenceTransitive(a: string, b: string, c: string)
    requires IsSubsequence(a, b) && IsSubsequence(b, c)
    ensures IsSubsequence(a, c)
    decreases |c|
  {
    if a == [] {
    } else if b == [] {
    } else if c == [] {
    } else if b[0] == c[0] {
      if a[0] == b[0] {
        SubsequenceTransitive(a[1..], b[1..], c[1..]);
      } else {
        SubsequenceTransitive(a, b[1..], c[1..]);
      }
    } else {
      SubsequenceTransitive(a, b, c[1..]);
      assert [c[0]] + c[1..] == c;
      SubsequenceCons(a, c[1..], c[0]);
    }
  }

  /** Every character of a subsequence is a character of the whole. */
  lemma {:induction false} SubsequenceElements(a: string, b: string)
    requires IsSubsequence(a, b)
    ensures forall i :: 0 <= i < |a| ==> a[i] in b
    decreases |b|
  {
    if a == [] {
    } else if a[0] == b[0] {
      SubsequenceElements(a[1..], b[1..]);
      forall i | 0 <= i < |a| ensures a[i] in b {
        if i > 0 { assert a[i] == a[1..][i - 1]; assert a[i] in b[1..]; }
      }
    } else {
      SubsequenceElements(a, b[1..]);
    }
  }

  /** A non-empty string is its head followed by its tail, whatever comes
      after it. */
  lemma HeadThenTail(t: string, u: string)
    requires t != []
    ensures [t[0]] + (t[1..] + u) == t + u
  {
    assert t == [t[0]] + t[1..];
  }

  /** Cutting `n` characters at `k + 1` from `s` is cutting them at `k`
      from its tail, behind the head. */
  lemma SpliceAfterHead(s: string, k: nat, n: nat)
    requires k + 1 + n <= |s|
    ensures s[..k + 1] + s[k + 1 + n..] == [s[0]] + (s[1..][..k] + s[1..][k + n..])
  {
    assert s[..k + 1] == [s[0]] + s[1..][..k];
    assert s[k + 1 + n..] == s[1..][k + n..];
  }

  /** No occurrence begins at a character other than the pattern's first. */
  lemma NotOccursAtHead(s: string, pat: string, k: int)
    requires pat != []
    requires 0 <= k < |s| ==> s[k] != pat[0]
    ensures !OccursAt(s, pat, k)
  {
    if 0 <= k && k + |pat| <= |s| {
      assert s[k..k + |pat|][0] == s[k];
    }
  }

  /** An occurrence behind a prefix is an occurrence in what follows it. */
  lemma OccursAfterPrefix(a: string, b: string, pat: string, k: int)
    requires |a| <= k && OccursAt(a + b, pat, k)
    ensures OccursAt(b, pat, k - |a|)
  {
    assert (a + b)[k..k + |pat|] == b[k - |a|..k - |a| + |pat|];
  }

  /** An occurrence stays one when a prefix is put in front. */
  lemma OccursBehindPrefix(a: string, b: string, pat: string, k: int)
    requires OccursAt(b, pat, k)
    ensures OccursAt(a + b, pat, k + |a|)
  {
    assert (a + b)[k + |a|..k + |a| + |pat|] == b[k..k + |pat|];
  }

  /** What a string does not contain, its tail does not contain either. */
  lemma AbsentFromTail(s: string, pat: string)
    requires s != [] && !Contains(s, pat)
    ensures !Contains(s[1..], pat)
  {
    forall k | 0 <= k <= |s[1..]| - |pat| ensures !OccursAt(s[1..], pat, k) {
      if OccursAt(s[1..], pat, k) {
        assert s == [s[0]] + s[1..];
        OccursBehindPrefix([s[0]], s[1..], pat, k);
      }
    }
  }

  /** The middle part of a concatenation occurs right after the first. */
  lemma OccursInMiddle(a: string, b: string, c: string)
    ensures OccursAt(a + b + c, b, |a|)
  {
    assert (a + b + c)[|a|..|a| + |b|] == b;
  }}
