/** Plain text operations the C# code takes from System.String: occurrence search,
    prefix tests and the ordinal, left-to-right, non-overlapping String.Replace. */
module Strings {
  import opened Wrappers

  /** `p` occurs in `s` starting at index `i`. */
  predicate OccursAt(s: string, i: nat, p: string) {
    i + |p| <= |s| && s[i..i + |p|] == p
  }

  predicate StartsWith(s: string, p: string) {
    OccursAt(s, 0, p)
  }

  predicate EndsWith(s: string, p: string) {
    |p| <= |s| && s[|s| - |p|..] == p
  }

  /** The leftmost occurrence of `p` in `s` at or after `from`. */
  function IndexFrom(s: string, p: string, from: nat): (r: Option<nat>)
    ensures r.Some? ==> from <= r.value && OccursAt(s, r.value, p)
    ensures r.Some? ==> forall k: nat :: from <= k < r.value ==> !OccursAt(s, k, p)
    ensures r.None? ==> forall k: nat :: from <= k ==> !OccursAt(s, k, p)
    decreases |s| + 1 - from
  {
    if from + |p| > |s| then None
    else if s[from..from + |p|] == p then Some(from)
    else IndexFrom(s, p, from + 1)
  }

  function IndexOf(s: string, p: string): Option<nat> {
    IndexFrom(s, p, 0)
  }

  /** The rightmost occurrence of `p` in `s` starting below `n`. */
  function LastIndexBelow(s: string, p: string, n: nat): (r: Option<nat>)
    ensures r.Some? ==> r.value < n && OccursAt(s, r.value, p)
    ensures r.Some? ==> forall k: nat :: r.value < k < n ==> !OccursAt(s, k, p)
    ensures r.None? ==> forall k: nat :: k < n ==> !OccursAt(s, k, p)
    decreases n
  {
    if n == 0 then None
    else if OccursAt(s, n - 1, p) then Some(n - 1)
    else LastIndexBelow(s, p, n - 1)
  }

  /** The rightmost occurrence of `p` anywhere in `s`. */
  function LastIndexOf(s: string, p: string): (r: Option<nat>)
    ensures r.Some? ==> OccursAt(s, r.value, p) && forall k: nat :: r.value < k ==> !OccursAt(s, k, p)
    ensures r.None? ==> forall k: nat :: !OccursAt(s, k, p)
  {
    LastIndexBelow(s, p, |s| + 1)
  }

  /** Substring containment; a regular expression without metacharacters matches exactly this. */
  predicate Contains(s: string, p: string) {
    IndexOf(s, p).Some?
  }

  lemma ContainsIff(s: string, p: string)
    ensures Contains(s, p) <==> exists k :: OccursAt(s, k, p)
  {
  }

  /** C# `s.Replace(pat, rep)`: every non-overlapping occurrence of `pat`, scanning left to
      right, is replaced. The caller rules out an empty `pat` (C# throws ArgumentException). */
  function ReplaceAll(s: string, pat: string, rep: string): string
    requires |pat| > 0
    decreases |s|
  {
    if |s| < |pat| then s
    else if s[..|pat|] == pat then rep + ReplaceAll(s[|pat|..], pat, rep)
    else [s[0]] + ReplaceAll(s[1..], pat, rep)
  }

  /** Replacing a pattern that does not occur changes nothing. */
  lemma {:induction false} ReplaceAllAbsent(s: string, pat: string, rep: string)
    requires |pat| > 0
    requires forall k: nat :: !OccursAt(s, k, pat)
    ensures ReplaceAll(s, pat, rep) == s
    decreases |s|
  {
    if |s| < |pat| {
    } else {
      assert !OccursAt(s, 0, pat);
      forall k: nat ensures !OccursAt(s[1..], k, pat) {
        OccursInSuffix(s, 1, k, pat);
      }
      ReplaceAllAbsent(s[1..], pat, rep);
      assert [s[0]] + s[1..] == s;
    }
  }

  /** A prefix free of occurrences is copied verbatim. */
  lemma {:induction false} ReplaceAllSkip(s: string, pat: string, rep: string, i: nat)
    requires |pat| > 0 && i <= |s|
    requires forall k: nat :: k < i ==> !OccursAt(s, k, pat)
    ensures ReplaceAll(s, pat, rep) == s[..i] + ReplaceAll(s[i..], pat, rep)
    decreases i
  {
    if i == 0 {
      assert s[..0] + s[0..] == s;
    } else if |s| < |pat| {
      assert ReplaceAll(s[i..], pat, rep) == s[i..];
      assert s[..i] + s[i..] == s;
    } else {
      var t := s[1..];
      assert ReplaceAll(s, pat, rep) == [s[0]] + ReplaceAll(t, pat, rep) by {
        assert !OccursAt(s, 0, pat);
      }
      assert forall k: nat :: k < i - 1 ==> !OccursAt(t, k, pat) by {
        forall k: nat | k < i - 1 ensures !OccursAt(t, k, pat) {
          OccursInSuffix(s, 1, k, pat);
        }
      }
      ReplaceAllSkip(t, pat, rep, i - 1);
      assert t[i - 1..] == s[i..];
      assert [s[0]] + t[..i - 1] == s[..i];
      ConcatAssoc([s[0]], t[..i - 1], ReplaceAll(s[i..], pat, rep));
    }
  }

  /** When `pat` occurs exactly once, at `i`, replacing it is a splice at `i`. */
  lemma ReplaceAllUnique(s: string, pat: string, rep: string, i: nat)
    requires |pat| > 0
    requires OccursAt(s, i, pat)
    requires forall k: nat :: k != i ==> !OccursAt(s, k, pat)
    ensures ReplaceAll(s, pat, rep) == s[..i] + rep + s[i + |pat|..]
  {
    ReplaceAllSkip(s, pat, rep, i);
    var t := s[i..];
    assert t[..|pat|] == pat;
    var u := t[|pat|..];
    assert u == s[i + |pat|..];
    forall k: nat ensures !OccursAt(u, k, pat) {
      OccursInSuffix(s, i + |pat|, k, pat);
    }
    ReplaceAllAbsent(u, pat, rep);
  }

  /** C# `s.Replace(ext, "")` on `stem + ext` when `ext` starts with a character the stem lacks. */
  lemma {:induction false} ReplaceAllStripsSuffix(stem: string, ext: string)
    requires |ext| > 0 && ext[0] !in stem
    ensures ReplaceAll(stem + ext, ext, "") == stem
    decreases |stem|
  {
    var s := stem + ext;
    if |stem| == 0 {
      assert s == ext;
      assert s[|ext|..] == [];
    } else {
      assert s[0] == stem[0] != ext[0];
      assert s[..|ext|] != ext by {
        assert s[..|ext|][0] == s[0];
      }
      ReplaceAllStripsSuffix(stem[1..], ext);
      assert s[1..] == stem[1..] + ext;
      assert [stem[0]] + stem[1..] == stem;
    }
  }

  /** Text before the first occurrence of character `c`, and the remainder starting at `c`. */
  function SplitBefore(s: string, c: char): (r: Option<(string, string)>)
    ensures r.Some? ==> r.value.0 + r.value.1 == s && c !in r.value.0
    ensures r.Some? ==> |r.value.1| > 0 && r.value.1[0] == c
    ensures r.None? <==> c !in s
    decreases |s|
  {
    if |s| == 0 then None
    else if s[0] == c then Some(([], s))
    else match SplitBefore(s[1..], c)
      case None => None
      case Some(p) => Some(([s[0]] + p.0, p.1))
  }

  /** The rest of `s` after the literal `lit`, if `s` starts with it. */
  function Expect(s: string, lit: string): (r: Option<string>)
    ensures r.Some? <==> StartsWith(s, lit)
    ensures r.Some? ==> lit + r.value == s
  {
    if StartsWith(s, lit) then Some(s[|lit|..]) else None
  }

  lemma ExpectConcat(lit: string, rest: string)
    ensures Expect(lit + rest, lit) == Some(rest)
  {
    assert (lit + rest)[..|lit|] == lit;
    assert (lit + rest)[|lit|..] == rest;
  }

  lemma {:induction false} SplitBeforeConcat(a: string, c: char, rest: string)
    requires c !in a
    ensures SplitBefore(a + [c] + rest, c) == Some((a, [c] + rest))
    decreases |a|
  {
    var s := a + [c] + rest;
    if |a| == 0 {
      assert s == [c] + rest;
    } else {
      assert s[0] == a[0] != c;
      assert s[1..] == a[1..] + [c] + rest;
      SplitBeforeConcat(a[1..], c, rest);
      var p := SplitBefore(s[1..], c);
      assert p.Some? && p.value == (a[1..], [c] + rest);
      assert [a[0]] + a[1..] == a;
      assert SplitBefore(s, c).Some? && SplitBefore(s, c).value == (a, [c] + rest);
    }
  }

  lemma ConcatAssoc(a: string, b: string, c: string)
    ensures (a + b) + c == a + (b + c)
  {
  }

  /** Splitting `a + rest` before `c` stops at the start of `rest` when `c` opens `rest` and
      does not occur in `a`. */
  lemma SplitBeforeAt(a: string, rest: string, c: char)
    requires c !in a && |rest| > 0 && rest[0] == c
    ensures SplitBefore(a + rest, c) == Some((a, rest))
  {
    SplitBeforeConcat(a, c, rest[1..]);
    assert [c] + rest[1..] == rest;
    assert a + [c] + rest[1..] == a + rest;
  }

  /** Characterises occurrence inside a suffix `s[lo..]` by occurrence in `s`. */
  lemma OccursInSuffix(s: string, lo: nat, k: nat, p: string)
    requires lo <= |s|
    ensures OccursAt(s[lo..], k, p) <==> OccursAt(s, lo + k, p)
  {
    if lo + k + |p| <= |s| {
      assert s[lo..][k..k + |p|] == s[lo + k..lo + k + |p|];
    }
  }

  /** The last character of `p` occurs nowhere else in `p`. Marker tags have this shape
      (they end in their only `>`), so two occurrences of one never overlap. */
  predicate LastCharUnique(p: string) {
    |p| > 0 && p[|p| - 1] !in p[..|p| - 1]
  }

  /** Two overlapping occurrences of `p` force its last character to appear earlier in `p`. */
  lemma OverlapRepeatsLastChar(s: string, p: string, i: nat, j: nat)
    requires |p| > 0 && OccursAt(s, i, p) && OccursAt(s, j, p) && i < j < i + |p|
    ensures p[|p| - 1] in p[..|p| - 1]
  {
    var q := i + |p| - 1 - j;
    assert s[i..i + |p|][|p| - 1] == s[i + |p| - 1] == s[j..j + |p|][q];
    assert p[..|p| - 1][q] == p[q];
  }

  /** Of two overlapping positions, only one can hold a pattern whose last character is unique. */
  lemma NoOverlapBefore(s: string, p: string, i: nat, j: nat)
    requires LastCharUnique(p) && OccursAt(s, j, p) && i < j < i + |p|
    ensures !OccursAt(s, i, p)
  {
    if OccursAt(s, i, p) {
      OverlapRepeatsLastChar(s, p, i, j);
      assert false;
    }
  }

  lemma NoOverlapAfter(s: string, p: string, i: nat, j: nat)
    requires LastCharUnique(p) && OccursAt(s, i, p) && i < j < i + |p|
    ensures !OccursAt(s, j, p)
  {
    if OccursAt(s, j, p) {
      OverlapRepeatsLastChar(s, p, i, j);
      assert false;
    }
  }

  /** Texts that agree on their first `n` characters agree on occurrences lying there. */
  lemma OccursInCommonPrefix(s1: string, s2: string, n: nat, k: nat, p: string)
    requires n <= |s1| && n <= |s2| && s1[..n] == s2[..n] && k + |p| <= n
    ensures OccursAt(s1, k, p) <==> OccursAt(s2, k, p)
  {
    assert s1[k..k + |p|] == s1[..n][k..k + |p|];
    assert s2[k..k + |p|] == s2[..n][k..k + |p|];
  }

  /** Texts that agree from `n1` and `n2` on agree on occurrences lying there. */
  lemma OccursInCommonSuffix(s1: string, n1: nat, s2: string, n2: nat, k: nat, p: string)
    requires n1 <= |s1| && n2 <= |s2| && s1[n1..] == s2[n2..] && n1 <= k
    ensures OccursAt(s1, k, p) <==> OccursAt(s2, k - n1 + n2, p)
  {
    OccursInSuffix(s1, n1, k - n1, p);
    OccursInSuffix(s2, n2, k - n1, p);
  }

  /** An occurrence of `m` carries an occurrence of each of its prefixes and suffixes. */
  lemma OccursPrefixOf(s: string, q: nat, m: string, p: string)
    requires OccursAt(s, q, m) && StartsWith(m, p)
    ensures OccursAt(s, q, p)
  {
    assert s[q..q + |p|] == s[q..q + |m|][..|p|];
  }

  lemma OccursSuffixOf(s: string, q: nat, m: string, p: string)
    requires OccursAt(s, q, m) && |p| <= |m| && m[|m| - |p|..] == p
    ensures OccursAt(s, q + |m| - |p|, p)
  {
    assert s[q + |m| - |p|..q + |m|] == s[q..q + |m|][|m| - |p|..];
  }
}
