/**
 * Text helpers the matchers rely on. Strings are sequences of characters;
 * Rust compares `str` values byte by byte in UTF-8, which orders them exactly
 * as comparing their characters' code points does, so `Less` below is the
 * order the suffix table keeps its literals in.
 */
module Strings {
  import opened Options

  /** Lexicographic "strictly less than" on strings (Rust's `Ord for str`). */
  predicate Less(a: string, b: string)
    decreases |a|
  {
    if |a| == 0 then |b| > 0
    else if |b| == 0 then false
    else if a[0] != b[0] then a[0] < b[0]
    else Less(a[1..], b[1..])
  }

  lemma {:induction false} LessIrreflexive(a: string)
    ensures !Less(a, a)
    decreases |a|
  {
    if |a| > 0 {
      LessIrreflexive(a[1..]);
    }
  }

  lemma {:induction false} LessTransitive(a: string, b: string, c: string)
    requires Less(a, b) && Less(b, c)
    ensures Less(a, c)
    decreases |a|
  {
    if |a| > 0 && |b| > 0 && |c| > 0 && a[0] == b[0] && b[0] == c[0] {
      LessTransitive(a[1..], b[1..], c[1..]);
    }
  }

  /** Any two strings are equal or ordered one way or the other. */
  lemma {:induction false} LessTotal(a: string, b: string)
    ensures a == b || Less(a, b) || Less(b, a)
    decreases |a|
  {
    if |a| > 0 && |b| > 0 && a[0] == b[0] {
      LessTotal(a[1..], b[1..]);
      if a[1..] == b[1..] {
        assert a == [a[0]] + a[1..] && b == [b[0]] + b[1..];
      }
    }
  }

  lemma {:induction false} LessAsymmetric(a: string, b: string)
    requires Less(a, b)
    ensures !Less(b, a)
  {
    if Less(b, a) {
      LessTransitive(a, b, a);
      LessIrreflexive(a);
    }
  }

  /**
   * The length of the longest common prefix of `a` and `b`
   * (actiondb's `CommonPrefix::common_prefix_len`).
   */
  function CommonPrefixLen(a: string, b: string): (n: nat)
    ensures n <= |a| && n <= |b|
    ensures a[..n] == b[..n]
    ensures n < |a| && n < |b| ==> a[n] != b[n]
    decreases |a|
  {
    if |a| == 0 || |b| == 0 || a[0] != b[0] then 0
    else 1 + CommonPrefixLen(a[1..], b[1..])
  }

  /** `s` begins with `prefix` (Rust's `str::starts_with`). */
  predicate StartsWith(s: string, prefix: string) {
    |prefix| <= |s| && s[..|prefix|] == prefix
  }

  /** A string that begins with `lit` shares all of `lit` as common prefix. */
  lemma CommonPrefixOfStartsWith(lit: string, s: string)
    requires StartsWith(s, lit)
    ensures CommonPrefixLen(lit, s) == |lit|
  {
  }

  /** `marker` occurs in `s` starting at index `j`. */
  predicate OccursAt(s: string, marker: string, j: nat) {
    j + |marker| <= |s| && s[j..j + |marker|] == marker
  }

  /** The first index at or after `from` where `marker` occurs in `s`. */
  function FindFrom(s: string, marker: string, from: nat): (r: Option<nat>)
    requires from <= |s|
    ensures r.Some? ==> from <= r.value && OccursAt(s, marker, r.value)
    ensures r.Some? ==> forall j :: from <= j < r.value ==> !OccursAt(s, marker, j)
    ensures r.None? ==> forall j :: from <= j <= |s| ==> !OccursAt(s, marker, j)
    decreases |s| - from
  {
    if OccursAt(s, marker, from) then Some(from)
    else if from == |s| then None
    else FindFrom(s, marker, from + 1)
  }

  /** The first occurrence of `marker` in `s`, if any (leftmost match of a literal). */
  function IndexOf(s: string, marker: string): (r: Option<nat>)
    ensures r.Some? <==> exists j :: 0 <= j <= |s| && OccursAt(s, marker, j)
    ensures r.Some? ==> OccursAt(s, marker, r.value)
    ensures r.Some? ==> forall j :: 0 <= j < r.value ==> !OccursAt(s, marker, j)
  {
    var r := FindFrom(s, marker, 0);
    assert r.Some? ==> 0 <= r.value <= |s| && OccursAt(s, marker, r.value);
    r
  }
}
