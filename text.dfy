/** String helpers the modelled code takes from the .NET base library:
    ordinal search, String.Replace with an empty replacement, String.Join and
    ToLower (modelled as ASCII lower-casing). */
module Text {
  import opened Wrappers

  /** ASCII lower case of one character. */
  function Lower(c: char): char {
    if 'A' <= c <= 'Z' then (c as int + 32) as char else c
  }

  function LowerString(s: string): (r: string)
    ensures |r| == |s|
    ensures forall i :: 0 <= i < |s| ==> r[i] == Lower(s[i])
  {
    seq(|s|, i requires 0 <= i < |s| => Lower(s[i]))
  }

  /** Equality of two strings up to ASCII case. */
  predicate EqualsIgnoreCase(a: string, b: string) {
    |a| == |b| && forall i :: 0 <= i < |a| ==> Lower(a[i]) == Lower(b[i])
  }

  lemma LowerStringAppend(a: string, b: string)
    ensures LowerString(a + b) == LowerString(a) + LowerString(b)
  {
    var l, r := LowerString(a + b), LowerString(a) + LowerString(b);
    assert |l| == |r|;
    forall i | 0 <= i < |l| ensures l[i] == r[i] {
      if i < |a| { assert (a + b)[i] == a[i]; } else { assert (a + b)[i] == b[i - |a|]; }
    }
  }

  /** Two strings have the same lower-case form exactly when they are equal up to case. */
  lemma {:induction false} LowerStringEqualIffIgnoreCase(a: string, b: string)
    ensures LowerString(a) == LowerString(b) <==> EqualsIgnoreCase(a, b)
  {
    if LowerString(a) == LowerString(b) {
      forall i | 0 <= i < |a| ensures Lower(a[i]) == Lower(b[i]) {
        assert LowerString(a)[i] == LowerString(b)[i];
      }
    }
    if EqualsIgnoreCase(a, b) {
      assert LowerString(a) == LowerString(b);
    }
  }

  /** The elements of `xs` with `sep` between consecutive ones (String.Join). */
  function Join(xs: seq<string>, sep: string): string
    decreases |xs|
  {
    if |xs| == 0 then "" else if |xs| == 1 then xs[0] else xs[0] + sep + Join(xs[1..], sep)
  }

  /** Appending one element to a joined list. */
  lemma {:induction false} JoinSnoc(xs: seq<string>, x: string, sep: string)
    ensures Join(xs + [x], sep) == if |xs| == 0 then x else Join(xs, sep) + sep + x
    decreases |xs|
  {
    if |xs| > 1 {
      assert (xs + [x])[1..] == xs[1..] + [x];
      JoinSnoc(xs[1..], x, sep);
    }
  }

  /** The non-empty strings of `xs`, in order: what a loop with
      `if (string.IsNullOrEmpty(value)) continue;` keeps. */
  function NonEmpty(xs: seq<string>): (r: seq<string>)
    ensures |r| <= |xs|
    decreases |xs|
  {
    if |xs| == 0 then []
    else NonEmpty(xs[..|xs| - 1]) + (if xs[|xs| - 1] == "" then [] else [xs[|xs| - 1]])
  }

  /** No empty string is kept. */
  lemma {:induction false} NonEmptyHasNoEmpty(xs: seq<string>)
    ensures forall i :: 0 <= i < |NonEmpty(xs)| ==> NonEmpty(xs)[i] != ""
    decreases |xs|
  {
    if |xs| > 0 {
      NonEmptyHasNoEmpty(xs[..|xs| - 1]);
    }
  }

  lemma NonEmptySnoc(xs: seq<string>, x: string)
    ensures NonEmpty(xs + [x]) == NonEmpty(xs) + (if x == "" then [] else [x])
  {
    assert (xs + [x])[..|xs|] == xs;
  }

  /** A non-empty first string is kept. */
  lemma {:induction false} NonEmptyKeepsFirst(xs: seq<string>)
    requires |xs| > 0 && xs[0] != ""
    ensures NonEmpty(xs) != []
    decreases |xs|
  {
    if |xs| > 1 {
      var n := |xs| - 1;
      assert xs[..n][0] == xs[0];
      NonEmptyKeepsFirst(xs[..n]);
    }
  }

  /** Without empty strings nothing is dropped. */
  lemma {:induction false} NonEmptyAll(xs: seq<string>)
    requires forall i :: 0 <= i < |xs| ==> xs[i] != ""
    ensures NonEmpty(xs) == xs
    decreases |xs|
  {
    if |xs| > 0 {
      NonEmptyAll(xs[..|xs| - 1]);
      assert xs[..|xs| - 1] + [xs[|xs| - 1]] == xs;
    }
  }

  /** `p` occurs in `s` starting at index `i`. */
  predicate OccursAt(p: string, s: string, i: nat) {
    i + |p| <= |s| && s[i..i + |p|] == p
  }

  /** `p` occurs in `s` somewhere. */
  predicate Contains(s: string, p: string) {
    exists i: nat :: i <= |s| && OccursAt(p, s, i)
  }

  /** The first index at or after `k` where `p` occurs in `s` (ordinal String.IndexOf). */
  function IndexOfFrom(s: string, p: string, k: nat): (r: Option<nat>)
    decreases |s| - k
    ensures r.Some? ==> k <= r.value && OccursAt(p, s, r.value)
    ensures r.Some? ==> forall j: nat :: k <= j < r.value ==> !OccursAt(p, s, j)
    ensures r.None? ==> forall j: nat :: k <= j ==> !OccursAt(p, s, j)
  {
    if k + |p| > |s| then None
    else if s[k..k + |p|] == p then Some(k)
    else IndexOfFrom(s, p, k + 1)
  }

  /** The first index at or after `k` holding the character `c`. */
  function IndexOfCharFrom(s: string, c: char, k: nat): (r: Option<nat>)
    decreases |s| - k
    ensures r.Some? ==> k <= r.value < |s| && s[r.value] == c
    ensures r.Some? ==> forall j :: k <= j < r.value ==> s[j] != c
    ensures r.None? ==> forall j :: k <= j < |s| ==> s[j] != c
  {
    if k >= |s| then None
    else if s[k] == c then Some(k)
    else IndexOfCharFrom(s, c, k + 1)
  }

  /** `s` with every occurrence of `t` removed, scanning left to right without
      overlap: String.Replace(t, ""). */
  function RemoveAll(s: string, t: string): string
    requires |t| > 0
    decreases |s|
  {
    match IndexOfFrom(s, t, 0)
    case None => s
    case Some(i) => s[..i] + RemoveAll(s[i + |t|..], t)
  }

  /** Removing a string that does not occur leaves the text unchanged. */
  lemma RemoveAllAbsent(s: string, t: string)
    requires |t| > 0
    requires forall j: nat :: !OccursAt(t, s, j)
    ensures RemoveAll(s, t) == s
  {
  }

  /** Removing a leading occurrence of `t` from `t + rest`, when `t` does not
      occur in `rest`, yields `rest`. */
  lemma RemoveAllLeading(t: string, rest: string)
    requires |t| > 0
    requires forall j: nat :: !OccursAt(t, rest, j)
    ensures RemoveAll(t + rest, t) == rest
  {
    assert OccursAt(t, t + rest, 0) by { assert (t + rest)[0..|t|] == t; }
    assert (t + rest)[|t|..] == rest;
  }
}
