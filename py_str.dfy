/** The operations of Python's built-in `str` that pronto.utils relies on,
    over strings modelled as sequences of characters. */
module PyStr {
  import opened Wrappers

  /** `s.startswith(p)` */
  predicate StartsWith(s: string, p: string) {
    |p| <= |s| && s[..|p|] == p
  }

  /** `s.startswith(c)` for a one-character string tests the first
      character, and fails on the empty string. */
  lemma StartsWithChar(s: string, c: char)
    ensures StartsWith(s, [c]) <==> s != [] && s[0] == c
  {
  }

  /** `p` occurs in `s` starting at index `i`. */
  predicate OccursAt(s: string, p: string, i: nat) {
    i + |p| <= |s| && s[i..i + |p|] == p
  }

  /** `p in s` for two strings. */
  ghost predicate Contains(s: string, p: string) {
    exists i: nat :: OccursAt(s, p, i)
  }

  /** `s.find(c)` for one character, with `None` standing for Python's -1:
      the index of the first occurrence of `c`. */
  function Find(s: string, c: char): (r: Option<nat>)
    ensures r.None? <==> c !in s
    ensures r.Some? ==> r.value < |s| && s[r.value] == c && c !in s[..r.value]
  {
    if s == [] then None
    else if s[0] == c then Some(0)
    else match Find(s[1..], c)
      case None => None
      case Some(i) =>
        assert s[..i + 1] == [s[0]] + s[1..][..i];
        Some(i + 1)
  }

  /** `s.split(sep, 1)` for a one-character separator: a single piece when
      `sep` does not occur, otherwise the text before its first occurrence
      and everything after it. */
  function SplitOnce(s: string, sep: char): (parts: seq<string>)
    ensures sep !in s ==> parts == [s]
    ensures sep in s ==> |parts| == 2 && s == parts[0] + [sep] + parts[1] && sep !in parts[0]
  {
    match Find(s, sep)
    case None => [s]
    case Some(i) =>
      assert s == s[..i] + [sep] + s[i + 1..];
      [s[..i], s[i + 1..]]
  }

  /** Any string of the form `p + [sep] + t` with `sep` not in `p` is split
      back into `p` and `t`: `t` may itself contain `sep`. */
  lemma SplitOnceOf(p: string, sep: char, t: string)
    requires sep !in p
    ensures SplitOnce(p + [sep] + t, sep) == [p, t]
  {
    var s := p + [sep] + t;
    assert s[|p|] == sep;
    assert s[..|p|] == p;
    var i := Find(s, sep).value;
    assert i == |p|;
    assert s[..i] == p;
    assert s[i + 1..] == t;
  }

  /** `s.replace(pat, rep)`: every occurrence of `pat` met while scanning
      from the left is replaced by `rep`, occurrences never overlapping; an
      empty `pat` matches before every character and at the end. */
  function Replace(s: string, pat: string, rep: string): (r: string)
    ensures pat != [] && |rep| <= |pat| ==> |r| <= |s|
    ensures pat != [] && |rep| == |pat| ==> |r| == |s|
    decreases |s|
  {
    if pat == [] then Interleave(s, rep)
    else if s == [] then []
    else if StartsWith(s, pat) then rep + Replace(s[|pat|..], pat, rep)
    else [s[0]] + Replace(s[1..], pat, rep)
  }

  /** `rep` before every character of `s` and once more at the end. */
  function Interleave(s: string, rep: string): string {
    if s == [] then rep else rep + [s[0]] + Interleave(s[1..], rep)
  }

  /** `s.split(sep)` for a non-empty separator (Python raises ValueError on
      an empty one): the pieces between the occurrences of `sep` met while
      scanning from the left. */
  function Split(s: string, sep: string): (pieces: seq<string>)
    requires sep != []
    ensures |pieces| >= 1
    decreases |s|
  {
    if s == [] then [[]]
    else if StartsWith(s, sep) then [[]] + Split(s[|sep|..], sep)
    else
      var rest := Split(s[1..], sep);
      [[s[0]] + rest[0]] + rest[1..]
  }

  /** `sep.join(pieces)` */
  function Join(pieces: seq<string>, sep: string): string {
    if |pieces| == 0 then []
    else if |pieces| == 1 then pieces[0]
    else pieces[0] + sep + Join(pieces[1..], sep)
  }

  /** Replacing the empty string by the empty string changes nothing. */
  lemma {:induction false} ReplaceEmptyByEmpty(s: string)
    ensures Replace(s, [], []) == s
  {
    if s != [] {
      ReplaceEmptyByEmpty(s[1..]);
      assert Interleave(s, []) == [s[0]] + Interleave(s[1..], []);
    }
  }

  /** Replacing one character by another maps the string position by
      position: the length is kept and only occurrences of `a` change. */
  lemma {:induction false} ReplaceCharPointwise(s: string, a: char, b: char)
    ensures |Replace(s, [a], [b])| == |s|
    ensures forall i :: 0 <= i < |s| ==> Replace(s, [a], [b])[i] == if s[i] == a then b else s[i]
    decreases |s|
  {
    if s != [] {
      ReplaceCharPointwise(s[1..], a, b);
      var head := if s[0] == a then b else s[0];
      assert StartsWith(s, [a]) <==> s[0] == a by {
        assert s[..1] == [s[0]];
      }
      assert Replace(s, [a], [b]) == [head] + Replace(s[1..], [a], [b]);
    }
  }

  /** A pattern that does not occur in `s` is never found: the string comes
      back unchanged. */
  lemma {:induction false} ReplaceNotContained(s: string, pat: string, rep: string)
    requires pat != [] && !Contains(s, pat)
    ensures Replace(s, pat, rep) == s
    decreases |s|
  {
    if s != [] {
      assert !StartsWith(s, pat) by {
        assert !OccursAt(s, pat, 0);
      }
      assert !Contains(s[1..], pat) by {
        forall i: nat | OccursAt(s[1..], pat, i)
          ensures OccursAt(s, pat, i + 1)
        {
          assert s[1..][i..i + |pat|] == s[i + 1..i + 1 + |pat|];
        }
      }
      ReplaceNotContained(s[1..], pat, rep);
    }
  }

  /** A pattern whose first character does not occur in `s` does not occur
      in `s` either, so the string comes back unchanged. */
  lemma ReplaceAbsent(s: string, pat: string, rep: string)
    requires pat != [] && pat[0] !in s
    ensures Replace(s, pat, rep) == s
  {
    forall i: nat | i + |pat| <= |s|
      ensures s[i..i + |pat|][0] == s[i]
    {
    }
    ReplaceNotContained(s, pat, rep);
  }

  /** A pattern at the very start is replaced, and the scan resumes after it. */
  lemma ReplaceAtStart(pat: string, t: string, rep: string)
    requires pat != []
    ensures Replace(pat + t, pat, rep) == rep + Replace(t, pat, rep)
  {
    var s := pat + t;
    assert s[..|pat|] == pat;
    assert s[|pat|..] == t;
  }

  /** Gluing a character to the first piece glues it to the joined string. */
  lemma JoinConsChar(c: char, pieces: seq<string>, sep: string)
    requires |pieces| >= 1
    ensures Join([[c] + pieces[0]] + pieces[1..], sep) == [c] + Join(pieces, sep)
  {
    var q := [[c] + pieces[0]] + pieces[1..];
    assert q[1..] == pieces[1..];
  }

  /** `sep.join(s.split(sep)) == s`: splitting loses nothing. */
  lemma {:induction false} SplitJoin(s: string, sep: string)
    requires sep != []
    ensures Join(Split(s, sep), sep) == s
    decreases |s|
  {
    if s == [] {
    } else if StartsWith(s, sep) {
      var tail := s[|sep|..];
      SplitJoin(tail, sep);
      var rest := Split(tail, sep);
      assert Split(s, sep) == [[]] + rest;
      assert ([[]] + rest)[1..] == rest;
      assert Join([[]] + rest, sep) == [] + sep + Join(rest, sep);
      assert s == sep + tail;
    } else {
      SplitJoin(s[1..], sep);
      var rest := Split(s[1..], sep);
      assert Split(s, sep) == [[s[0]] + rest[0]] + rest[1..];
      JoinConsChar(s[0], rest, sep);
      assert s == [s[0]] + s[1..];
    }
  }

  /** `s.replace(sep, rep) == rep.join(s.split(sep))`: replacing cuts the
      string at exactly the occurrences that `split` cuts it at. */
  lemma {:induction false} ReplaceIsJoinOfSplit(s: string, sep: string, rep: string)
    requires sep != []
    ensures Replace(s, sep, rep) == Join(Split(s, sep), rep)
    decreases |s|
  {
    if s == [] {
    } else if StartsWith(s, sep) {
      ReplaceIsJoinOfSplit(s[|sep|..], sep, rep);
      var rest := Split(s[|sep|..], sep);
      assert ([[]] + rest)[1..] == rest;
    } else {
      ReplaceIsJoinOfSplit(s[1..], sep, rep);
      JoinConsChar(s[0], Split(s[1..], sep), rep);
    }
  }

  /** The first piece of `s.split(sep)` is a prefix of `s`. */
  lemma {:induction false} SplitFirstIsPrefix(s: string, sep: string)
    requires sep != []
    ensures Split(s, sep)[0] <= s
    decreases |s|
  {
    if s != [] && !StartsWith(s, sep) {
      SplitFirstIsPrefix(s[1..], sep);
    }
  }

  /** No piece of `s.split(sep)` contains `sep`. */
  lemma {:induction false} SplitPiecesAvoidSeparator(s: string, sep: string)
    requires sep != []
    ensures forall k :: 0 <= k < |Split(s, sep)| ==> !Contains(Split(s, sep)[k], sep)
    decreases |s|
  {
    assert !Contains([], sep) by {
      forall i: nat ensures !OccursAt([], sep, i) {}
    }
    if s == [] {
    } else if StartsWith(s, sep) {
      SplitPiecesAvoidSeparator(s[|sep|..], sep);
      var rest := Split(s[|sep|..], sep);
      assert Split(s, sep) == [[]] + rest;
    } else {
      SplitPiecesAvoidSeparator(s[1..], sep);
      SplitFirstIsPrefix(s[1..], sep);
      var rest := Split(s[1..], sep);
      var first := [s[0]] + rest[0];
      assert first <= s;
      forall i: nat ensures !OccursAt(first, sep, i) {
        if i == 0 && |sep| <= |first| {
          assert s[..|sep|] == first[..|sep|];
        }
        if i > 0 && OccursAt(first, sep, i) {
          assert rest[0][i - 1..i - 1 + |sep|] == first[i..i + |sep|];
          assert OccursAt(rest[0], sep, i - 1);
        }
      }
      assert Split(s, sep) == [first] + rest[1..];
    }
  }
}
