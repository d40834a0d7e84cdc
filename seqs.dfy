/**
 * Order-preserving selections over sequences: the JavaScript pattern
 * `xs.forEach(x => { if (among.includes(x) === inside) out.push(x) })`,
 * de-duplication in first-occurrence order, and removal of one value.
 */
module Seqs {

  /** No value occurs twice. */
  predicate NoDups<T(==)>(s: seq<T>) {
    forall i, j :: 0 <= i < j < |s| ==> s[i] != s[j]
  }

  /** A prefix one element longer is the shorter prefix followed by that element. */
  lemma PrefixSnoc<T>(s: seq<T>, i: nat)
    requires i < |s|
    ensures s[..i + 1] == s[..i] + [s[i]]
  {
  }

  /** Where the pieces of a three-part concatenation sit. */
  lemma ConcatThreeSlices<T>(a: seq<T>, b: seq<T>, c: seq<T>)
    ensures (a + b + c)[..|a|] == a
    ensures (a + b + c)[|a|..|a| + |b|] == b
    ensures (a + b + c)[|a| + |b|..|a| + |b| + |c|] == c
  {
    assert (a + b + c)[..|a|] == a;
    assert (a + b + c)[|a|..|a| + |b|] == b;
    assert (a + b + c)[|a| + |b|..|a| + |b| + |c|] == c;
  }

  /** Two sequences without repetitions, sharing no value, concatenate to one without repetitions. */
  lemma NoDupsConcat<T>(a: seq<T>, b: seq<T>)
    requires NoDups(a) && NoDups(b)
    requires forall x :: x in a ==> x !in b
    ensures NoDups(a + b)
  {
    forall i, j | 0 <= i < j < |a + b| ensures (a + b)[i] != (a + b)[j] {
      if i < |a| && j >= |a| {
        assert (a + b)[i] in a && (a + b)[j] == b[j - |a|];
      }
    }
  }

  /** `a` is `b` with some elements left out, the rest in their original order. */
  predicate IsSubsequence<T(==)>(a: seq<T>, b: seq<T>)
    decreases |b|
  {
    if |a| == 0 then true
    else if |b| == 0 then false
    else
      || (a[|a| - 1] == b[|b| - 1] && IsSubsequence(a[..|a| - 1], b[..|b| - 1]))
      || IsSubsequence(a, b[..|b| - 1])
  }

  /**
   * The elements `x` of `s`, in order, for which `x in among` equals `inside`:
   * `inside` keeps the members of `among`, `!inside` keeps the others.
   */
  function FilterByMembership<T(==,!new)>(s: seq<T>, among: seq<T>, inside: bool): (r: seq<T>)
    ensures |r| <= |s|
    ensures forall x :: x in r <==> x in s && (x in among) == inside
  {
    if |s| == 0 then []
    else
      var init := FilterByMembership(s[..|s| - 1], among, inside);
      var x := s[|s| - 1];
      assert forall y :: y in s <==> y in s[..|s| - 1] || y == x;
      if (x in among) == inside then init + [x] else init
  }

  /** The selection keeps every occurrence of a qualifying value and no occurrence of any other. */
  lemma {:induction false} FilterByMembershipCounts<T(!new)>(s: seq<T>, among: seq<T>, inside: bool)
    ensures forall x :: Occurrences(FilterByMembership(s, among, inside), x)
                     == if (x in among) == inside then Occurrences(s, x) else 0
  {
    if |s| > 0 {
      var init, y := s[..|s| - 1], s[|s| - 1];
      FilterByMembershipCounts(init, among, inside);
      var f := FilterByMembership(init, among, inside);
      if (y in among) == inside {
        assert FilterByMembership(s, among, inside) == f + [y];
        assert (f + [y])[..|f|] == f;
      }
    }
  }

  /** The selection keeps the input's order, and repeats nothing the input does not repeat. */
  lemma {:induction false} FilterByMembershipOrder<T(!new)>(s: seq<T>, among: seq<T>, inside: bool)
    ensures IsSubsequence(FilterByMembership(s, among, inside), s)
    ensures NoDups(s) ==> NoDups(FilterByMembership(s, among, inside))
  {
    if |s| > 0 {
      var init := s[..|s| - 1];
      var x := s[|s| - 1];
      FilterByMembershipOrder(init, among, inside);
      var f := FilterByMembership(init, among, inside);
      var r := FilterByMembership(s, among, inside);
      if (x in among) == inside {
        assert r == f + [x];
        assert r[..|r| - 1] == f;
        assert NoDups(s) ==> x !in init;
      }
    }
  }

  /** Extending the input by its next element extends the selection by that element when it qualifies. */
  lemma FilterByMembershipSnoc<T(!new)>(s: seq<T>, i: nat, among: seq<T>, inside: bool)
    requires i < |s|
    ensures FilterByMembership(s[..i + 1], among, inside)
         == FilterByMembership(s[..i], among, inside) + (if (s[i] in among) == inside then [s[i]] else [])
  {
    assert s[..i + 1][..i] == s[..i];
  }

  /** `s` without any occurrence of `x` (JavaScript `Set.prototype.delete` on an insertion-ordered set). */
  function Without<T(==,!new)>(s: seq<T>, x: T): (r: seq<T>)
    ensures r == FilterByMembership(s, [x], false)
    ensures x !in r
    ensures NoDups(s) ==> NoDups(r)
  {
    FilterByMembershipOrder(s, [x], false);
    FilterByMembership(s, [x], false)
  }

  /** What remains after removing `x` is everything else. */
  lemma WithoutMembers<T(!new)>(s: seq<T>, x: T)
    ensures forall y :: y in Without(s, x) <==> y in s && y != x
  {
  }

  /** Removing a value that occurs exactly once shortens the sequence by one. */
  lemma {:induction false} WithoutLength<T(!new)>(s: seq<T>, x: T)
    requires NoDups(s) && x in s
    ensures |Without(s, x)| == |s| - 1
  {
    var init := s[..|s| - 1];
    if s[|s| - 1] == x {
      assert x !in init;
      WithoutAbsent(init, x);
    } else {
      assert x in init;
      WithoutLength(init, x);
    }
  }

  /** Removing a value that occurs shortens the sequence. */
  lemma {:induction false} WithoutShorter<T(!new)>(s: seq<T>, x: T)
    requires x in s
    ensures |Without(s, x)| < |s|
  {
    var init := s[..|s| - 1];
    if s[|s| - 1] != x {
      assert x in init;
      WithoutShorter(init, x);
    }
  }

  /** Removing a value that does not occur changes nothing. */
  lemma {:induction false} WithoutAbsent<T(!new)>(s: seq<T>, x: T)
    requires x !in s
    ensures Without(s, x) == s
  {
    if |s| > 0 {
      WithoutAbsent(s[..|s| - 1], x);
      assert s[..|s| - 1] + [s[|s| - 1]] == s;
    }
  }

  /** The values of `xs`, each once, in the order they first occur. */
  function Distinct<T(==,!new)>(xs: seq<T>): (r: seq<T>)
    ensures NoDups(r)
    ensures forall x :: x in r <==> x in xs
  {
    if |xs| == 0 then []
    else
      var init := Distinct(xs[..|xs| - 1]);
      var x := xs[|xs| - 1];
      assert forall y :: y in xs <==> y in xs[..|xs| - 1] || y == x;
      if x in init then init else init + [x]
  }

  /** How many times `x` occurs in `xs`. */
  function Occurrences<T(==)>(xs: seq<T>, x: T): nat {
    if |xs| == 0 then 0
    else Occurrences(xs[..|xs| - 1], x) + (if xs[|xs| - 1] == x then 1 else 0)
  }

  /** Occurrences add up over a concatenation. */
  lemma {:induction false} OccurrencesConcat<T>(a: seq<T>, b: seq<T>, x: T)
    ensures Occurrences(a + b, x) == Occurrences(a, x) + Occurrences(b, x)
    decreases |b|
  {
    if |b| > 0 {
      OccurrencesConcat(a, b[..|b| - 1], x);
      assert (a + b)[..|a + b| - 1] == a + b[..|b| - 1];
    } else {
      assert a + b == a;
    }
  }
}
