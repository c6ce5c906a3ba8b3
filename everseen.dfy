/** Order-preserving deduplication in pronto.utils: `unique_everseen` yields
    the elements of its input that it has not seen before, remembering every
    element it has yielded in a set. The input is a finite sequence and the
    yielded elements are collected into a sequence. */
module Everseen {

  /** No element occurs twice. */
  ghost predicate Distinct<T>(s: seq<T>) {
    forall i, j :: 0 <= i < j < |s| ==> s[i] != s[j]
  }

  /** Every element of `ys` occurs in `xs`, and the first occurrences in
      `xs` of the elements of `ys` strictly increase along `ys`. */
  ghost predicate OrderedByFirstOccurrence<T>(xs: seq<T>, ys: seq<T>) {
    forall i, j :: 0 <= i < j < |ys| ==>
      ys[i] in xs && ys[j] in xs && FirstIndex(xs, ys[i]) < FirstIndex(xs, ys[j])
  }

  /** The elements of `xs` at their first occurrences, in input order: the
      element at position `k` is kept exactly when it does not occur in
      `xs[..k]`. */
  function FirstOccurrences<T(==)>(xs: seq<T>): seq<T>
  {
    if xs == [] then []
    else
      var init, x := xs[..|xs| - 1], xs[|xs| - 1];
      FirstOccurrences(init) + if x in init then [] else [x]
  }

  /** The index of the first occurrence of `x` in `xs`. */
  function FirstIndex<T(==)>(xs: seq<T>, x: T): (i: nat)
    requires x in xs
    ensures i < |xs| && xs[i] == x && x !in xs[..i]
  {
    if xs[0] == x then 0
    else
      var i := 1 + FirstIndex(xs[1..], x);
      assert xs[..i] == [xs[0]] + xs[1..][..i - 1];
      i
  }

  /** `unique_everseen(iterable)`: the loop over the input with the growing
      `seen` set, collecting what the generator yields. */
  method UniqueEverseen<T(==)>(xs: seq<T>) returns (ys: seq<T>)
    ensures ys == FirstOccurrences(xs)
  {
    var seen: set<T> := {};
    ys := [];
    for i := 0 to |xs|
      invariant forall x :: x in seen <==> x in xs[..i]
      invariant ys == FirstOccurrences(xs[..i])
    {
      var x := xs[i];
      assert xs[..i + 1][..i] == xs[..i];
      if x !in seen {
        seen := seen + {x};
        ys := ys + [x];
      }
    }
    assert xs[..|xs|] == xs;
  }

  /** An index at which `x` occurs and before which it does not is the
      first index. */
  lemma FirstIndexUnique<T>(xs: seq<T>, x: T, i: nat)
    requires i < |xs| && xs[i] == x && x !in xs[..i]
    ensures FirstIndex(xs, x) == i
  {
  }

  /** Appending an element does not move the first occurrence of an
      element already present. */
  lemma FirstIndexSnoc<T>(xs: seq<T>, x: T, y: T)
    requires y in xs
    ensures y in xs + [x] && FirstIndex(xs + [x], y) == FirstIndex(xs, y)
  {
    var f := FirstIndex(xs, y);
    assert (xs + [x])[..f] == xs[..f];
    FirstIndexUnique(xs + [x], y, f);
  }

  /** The output holds exactly the elements of the input. */
  lemma {:induction false} FirstOccurrencesMembers<T>(xs: seq<T>)
    ensures forall y :: y in FirstOccurrences(xs) ==> y in xs
    ensures forall y :: y in xs ==> y in FirstOccurrences(xs)
  {
    if xs != [] {
      var init := xs[..|xs| - 1];
      FirstOccurrencesMembers(init);
      assert xs == init + [xs[|xs| - 1]];
    }
  }

  /** The output has no duplicates. */
  lemma {:induction false} FirstOccurrencesDistinct<T>(xs: seq<T>)
    ensures Distinct(FirstOccurrences(xs))
  {
    if xs != [] {
      var init := xs[..|xs| - 1];
      FirstOccurrencesDistinct(init);
      FirstOccurrencesMembers(init);
    }
  }

  /** The output is a subsequence of the input in first-occurrence order:
      each output element occurs in the input, and the first occurrences of
      the output elements are strictly increasing. */
  lemma {:induction false} FirstOccurrencesInOrder<T>(xs: seq<T>)
    ensures OrderedByFirstOccurrence(xs, FirstOccurrences(xs))
  {
    if xs != [] {
      var init, x := xs[..|xs| - 1], xs[|xs| - 1];
      assert xs == init + [x];
      FirstOccurrencesInOrder(init);
      FirstOccurrencesMembers(init);
      FirstIndexDropLast(xs);
      var r' := FirstOccurrences(init);
      if x !in init {
        FirstIndexUnique(xs, x, |init|);
        var r := r' + [x];
        forall i, j | 0 <= i < j < |r|
          ensures r[i] in xs && r[j] in xs && FirstIndex(xs, r[i]) < FirstIndex(xs, r[j])
        {
          var a, b := r'[i], r[j];
          assert a in r';
          assert FirstIndex(xs, a) == FirstIndex(init, a) < |init|;
          if j < |r'| {
            assert b == r'[j] && b in r';
            assert FirstIndex(xs, b) == FirstIndex(init, b);
            assert FirstIndex(init, a) < FirstIndex(init, b);
          } else {
            assert b == x;
          }
        }
      }
    }
  }

  /** A sequence of distinct elements is its own deduplication. */
  lemma {:induction false} FirstOccurrencesOfDistinct<T>(s: seq<T>)
    requires Distinct(s)
    ensures FirstOccurrences(s) == s
  {
    if s != [] {
      var init := s[..|s| - 1];
      FirstOccurrencesOfDistinct(init);
      assert s == init + [s[|s| - 1]];
    }
  }

  /** Deduplicating twice is deduplicating once. */
  lemma FirstOccurrencesIdempotent<T>(xs: seq<T>)
    ensures FirstOccurrences(FirstOccurrences(xs)) == FirstOccurrences(xs)
  {
    FirstOccurrencesDistinct(xs);
    FirstOccurrencesOfDistinct(FirstOccurrences(xs));
  }

  /** What has been yielded after reading a prefix of the input is a prefix
      of the whole output: the generator never takes back an element. */
  lemma {:induction false} FirstOccurrencesPrefix<T>(xs: seq<T>, n: nat)
    requires n <= |xs|
    ensures FirstOccurrences(xs[..n]) <= FirstOccurrences(xs)
    decreases |xs|
  {
    if n < |xs| {
      var init := xs[..|xs| - 1];
      assert xs[..n] == init[..n];
      FirstOccurrencesPrefix(init, n);
    } else {
      assert xs[..n] == xs;
    }
  }

  /** A non-empty sequence has its first element as a member. */
  lemma HeadIsMember<T>(s: seq<T>)
    ensures s == [] || s[0] in s
  {
  }

  /** Dropping the last element of the input keeps the first occurrences
      of the elements before it, all of which lie before that last index. */
  lemma FirstIndexDropLast<T>(xs: seq<T>)
    requires xs != []
    ensures forall y :: y in xs[..|xs| - 1] ==>
              y in xs && FirstIndex(xs, y) == FirstIndex(xs[..|xs| - 1], y) < |xs| - 1
  {
    var init := xs[..|xs| - 1];
    assert xs == init + [xs[|xs| - 1]];
    forall y | y in init
      ensures y in xs && FirstIndex(xs, y) == FirstIndex(init, y) < |init|
    {
      FirstIndexSnoc(init, xs[|xs| - 1], y);
    }
  }

  /** The three properties above determine the output: any sequence without
      duplicates, with the same elements as the input and ordered by first
      occurrence in the input is the deduplication of the input. */
  lemma {:induction false} FirstOccurrencesUnique<T>(xs: seq<T>, ys: seq<T>)
    requires Distinct(ys)
    requires forall y :: y in ys ==> y in xs
    requires forall y :: y in xs ==> y in ys
    requires OrderedByFirstOccurrence(xs, ys)
    ensures ys == FirstOccurrences(xs)
    decreases |xs|
  {
    if xs == [] {
      HeadIsMember(ys);
    } else {
      var init, x := xs[..|xs| - 1], xs[|xs| - 1];
      assert xs == init + [x];
      FirstIndexDropLast(xs);
      if x in init {
        forall i, j | 0 <= i < j < |ys|
          ensures ys[i] in init && ys[j] in init && FirstIndex(init, ys[i]) < FirstIndex(init, ys[j])
        {
          assert ys[i] in ys && ys[j] in ys;
        }
        FirstOccurrencesUnique(init, ys);
      } else {
        var ys' := FirstOccurrencesUniqueLast(xs, ys);
        FirstOccurrencesUnique(init, ys');
      }
    }
  }

  /** The step of FirstOccurrencesUnique for an input whose last element is
      new: that element is the last one of `ys`, and the rest of `ys`
      satisfies the three properties for the rest of the input. */
  lemma FirstOccurrencesUniqueLast<T>(xs: seq<T>, ys: seq<T>) returns (ys': seq<T>)
    requires xs != [] && xs[|xs| - 1] !in xs[..|xs| - 1]
    requires Distinct(ys)
    requires forall y :: y in ys ==> y in xs
    requires forall y :: y in xs ==> y in ys
    requires OrderedByFirstOccurrence(xs, ys)
    ensures ys == ys' + [xs[|xs| - 1]]
    ensures Distinct(ys')
    ensures forall y :: y in ys' ==> y in xs[..|xs| - 1]
    ensures forall y :: y in xs[..|xs| - 1] ==> y in ys'
    ensures OrderedByFirstOccurrence(xs[..|xs| - 1], ys')
  {
    LastOfOrderedIsNew(xs, ys);
    var init, x := xs[..|xs| - 1], xs[|xs| - 1];
    ys' := ys[..|ys| - 1];
    assert xs == init + [x];
    assert ys == ys' + [x];
    DropLastMembers(init, ys', x);
    OrderedDropLast(init, ys', x, x);
  }

  /** When the last element of the input is new, an ordered sequence with the
      same elements as the input ends with it. */
  lemma LastOfOrderedIsNew<T>(xs: seq<T>, ys: seq<T>)
    requires xs != [] && xs[|xs| - 1] !in xs[..|xs| - 1]
    requires Distinct(ys)
    requires forall y :: y in xs ==> y in ys
    requires OrderedByFirstOccurrence(xs, ys)
    ensures ys != [] && ys[|ys| - 1] == xs[|xs| - 1]
  {
    var init, x := xs[..|xs| - 1], xs[|xs| - 1];
    assert x in ys by { assert x in xs; }
    var n := |ys|;
    var k :| 0 <= k < n && ys[k] == x;
    FirstIndexUnique(xs, x, |init|);
    var z := ys[n - 1];
    assert FirstIndex(xs, z) <= FirstIndex(xs, x);
  }

  /** When the input and `ys` both end with `x`, which occurs nowhere else
      in the input, and they hold the same elements, so do their fronts. */
  lemma DropLastMembers<T>(init: seq<T>, ys': seq<T>, x: T)
    requires x !in init
    requires Distinct(ys' + [x])
    requires forall y :: y in ys' + [x] ==> y in init + [x]
    requires forall y :: y in init + [x] ==> y in ys' + [x]
    ensures forall y :: y in ys' ==> y in init
    ensures forall y :: y in init ==> y in ys'
  {
    var ys := ys' + [x];
    assert ys[|ys'|] == x;
    forall y | y in ys'
      ensures y in init
    {
      var m :| 0 <= m < |ys'| && ys'[m] == y;
      assert ys[m] == y && y in ys && y != x;
    }
    forall y | y in init
      ensures y in ys'
    {
      assert y in init + [x] && y != x;
      var m :| 0 <= m < |ys| && ys[m] == y;
      assert ys'[m] == y;
    }
  }

  /** Dropping the last elements of the input and of a sequence ordered by
      first occurrence in it, when the rest of the sequence lies in the rest
      of the input, leaves the sequence ordered by first occurrence in the
      rest of the input. */
  lemma OrderedDropLast<T>(init: seq<T>, ys': seq<T>, x: T, z: T)
    requires forall y :: y in ys' ==> y in init
    requires OrderedByFirstOccurrence(init + [x], ys' + [z])
    ensures OrderedByFirstOccurrence(init, ys')
  {
    var xs, ys := init + [x], ys' + [z];
    assert init == xs[..|xs| - 1];
    FirstIndexDropLast(xs);
    forall i, j | 0 <= i < j < |ys'|
      ensures ys'[i] in init && ys'[j] in init && FirstIndex(init, ys'[i]) < FirstIndex(init, ys'[j])
    {
      assert ys'[i] in ys' && ys'[j] in ys';
      assert ys[i] == ys'[i] && ys[j] == ys'[j];
    }
  }

  /** Appending elements already seen yields nothing more. */
  lemma {:induction false} FirstOccurrencesAppendSeen<T>(xs: seq<T>, zs: seq<T>)
    requires forall z :: z in zs ==> z in xs
    ensures FirstOccurrences(xs + zs) == FirstOccurrences(xs)
    decreases |zs|
  {
    if zs != [] {
      var init, z := zs[..|zs| - 1], zs[|zs| - 1];
      assert zs == init + [z];
      assert (xs + zs)[..|xs + zs| - 1] == xs + init;
      FirstOccurrencesAppendSeen(xs, init);
    } else {
      assert xs + zs == xs;
    }
  }

  /** Appending an element not seen yet yields it. */
  lemma FirstOccurrencesAppendNew<T>(xs: seq<T>, z: T)
    requires z !in xs
    ensures FirstOccurrences(xs + [z]) == FirstOccurrences(xs) + [z]
  {
    assert (xs + [z])[..|xs|] == xs;
  }

  /** The first run of the example and the next element: `AAAAB` gives
      `A B`. */
  lemma FirstOccurrencesOfFirstRun<T>(a: T, b: T)
    requires a != b
    ensures FirstOccurrences([a, a, a, a, b]) == [a, b]
  {
    FirstOccurrencesAppendNew([], a);
    assert [] + [a] == [a];
    FirstOccurrencesAppendSeen([a], [a, a, a]);
    assert [a] + [a, a, a] == [a, a, a, a];
    FirstOccurrencesAppendNew([a, a, a, a], b);
    assert [a, a, a, a] + [b] == [a, a, a, a, b];
  }

  /** The first runs of the example: `AAAABBBC` gives `A B C`. */
  lemma FirstOccurrencesOfFirstRuns<T>(a: T, b: T, c: T)
    requires a != b && a != c && b != c
    ensures FirstOccurrences([a, a, a, a, b, b, b, c]) == [a, b, c]
  {
    var s1 := [a, a, a, a, b];
    FirstOccurrencesOfFirstRun(a, b);
    assert b in s1;
    FirstOccurrencesAppendSeen(s1, [b, b]);
    var s2 := s1 + [b, b];
    assert c !in s2;
    FirstOccurrencesAppendNew(s2, c);
    assert s2 + [c] == [a, a, a, a, b, b, b, c];
  }

  /** The example in the comment of the source, for any four distinct
      elements: `AAAABBBCCDAABBB` gives `A B C D`. */
  lemma FirstOccurrencesOfRuns<T>(a: T, b: T, c: T, d: T)
    requires a != b && a != c && a != d && b != c && b != d && c != d
    ensures FirstOccurrences([a, a, a, a, b, b, b, c, c, d, a, a, b, b, b]) == [a, b, c, d]
  {
    var s2 := [a, a, a, a, b, b, b, c];
    FirstOccurrencesOfFirstRuns(a, b, c);
    var s3 := s2 + [c, d];
    assert FirstOccurrences(s3) == [a, b, c, d] by {
      assert c in s2 && s3 == (s2 + [c]) + [d];
      FirstOccurrencesAppendSeen(s2, [c]);
      assert d !in s2 + [c];
      FirstOccurrencesAppendNew(s2 + [c], d);
      assert [a, b, c] + [d] == [a, b, c, d];
    }
    assert a in s3 && b in s3;
    FirstOccurrencesAppendSeen(s3, [a, a, b, b, b]);
    assert s3 + [a, a, b, b, b] == [a, a, a, a, b, b, b, c, c, d, a, a, b, b, b];
  }

  /** The example itself, on characters. */
  lemma UniqueEverseenLetters()
    ensures FirstOccurrences("AAAABBBCCDAABBB") == "ABCD"
  {
    FirstOccurrencesOfRuns('A', 'B', 'C', 'D');
  }
}
