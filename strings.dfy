/** The few string operations of Python's `str` that the engine relies on:
    `split` on one separator, joining with one separator, `replace` of one
    character by another, deletion of every occurrence of a substring, and
    `endswith`. */
module Strings {

  /** `s.split(sep)`: the pieces between separators, in order. Like Python,
      the empty string splits into one empty piece, and two adjacent
      separators give an empty piece between them. */
  function Split(s: string, sep: char): (r: seq<string>)
    ensures |r| >= 1
    ensures forall i :: 0 <= i < |r| ==> sep !in r[i]
    decreases |s|
  {
    if s == [] then [""]
    else
      var rest := Split(s[1..], sep);
      if s[0] == sep then [""] + rest
      else [[s[0]] + rest[0]] + rest[1..]
  }

  /** `sep.join(parts)`. */
  function Join(parts: seq<string>, sep: char): string
    decreases |parts|
  {
    if parts == [] then ""
    else if |parts| == 1 then parts[0]
    else parts[0] + [sep] + Join(parts[1..], sep)
  }

  /** `s.replace(a, b)` for single characters `a` and `b`. */
  function ReplaceChar(s: string, a: char, b: char): (r: string)
    ensures |r| == |s|
    ensures forall i :: 0 <= i < |s| ==> r[i] == (if s[i] == a then b else s[i])
    decreases |s|
  {
    if s == [] then []
    else [if s[0] == a then b else s[0]] + ReplaceChar(s[1..], a, b)
  }

  /** `pat` occurs in `s` starting at index `i`. */
  predicate OccursAt(s: string, pat: string, i: nat)
  {
    i + |pat| <= |s| && s[i..i + |pat|] == pat
  }

  /** `pat in s`: `pat` occurs somewhere in `s`. */
  ghost predicate Contains(s: string, pat: string)
  {
    exists i: nat :: OccursAt(s, pat, i)
  }

  /** `s.replace(pat, "")`: Python scans left to right and removes each
      non-overlapping occurrence of `pat`. */
  function DeleteAll(s: string, pat: string): (r: string)
    requires pat != []
    ensures |r| <= |s|
    decreases |s|
  {
    if |s| < |pat| then s
    else if s[..|pat|] == pat then DeleteAll(s[|pat|..], pat)
    else [s[0]] + DeleteAll(s[1..], pat)
  }

  /** `s.endswith(suffix)`. */
  predicate EndsWith(s: string, suffix: string)
  {
    |suffix| <= |s| && s[|s| - |suffix|..] == suffix
  }

  /** Joining the pieces of a split with the same separator gives back the
      original string. */
  lemma {:induction false} JoinSplit(s: string, sep: char)
    ensures Join(Split(s, sep), sep) == s
    decreases |s|
  {
    if s != [] {
      var rest := Split(s[1..], sep);
      JoinSplit(s[1..], sep);
      if s[0] == sep {
        assert Split(s, sep) == [""] + rest;
        assert Join([""] + rest, sep) == "" + [sep] + Join(rest, sep);
      } else if |rest| == 1 {
        assert Split(s, sep) == [[s[0]] + rest[0]];
      } else {
        var parts := [[s[0]] + rest[0]] + rest[1..];
        assert Split(s, sep) == parts;
        assert parts[1..] == rest[1..];
        assert Join(rest, sep) == rest[0] + [sep] + Join(rest[1..], sep);
      }
    }
  }

  /** Splitting a string with no separator in it gives that string alone. */
  lemma {:induction false} SplitNoSeparator(a: string, sep: char)
    requires sep !in a
    ensures Split(a, sep) == [a]
    decreases |a|
  {
    if a != [] {
      SplitNoSeparator(a[1..], sep);
      assert [a[0]] + a[1..] == a;
    }
  }

  /** Splitting `a + sep + b`, with no separator in `a`, gives `a` followed by
      the pieces of `b`. */
  lemma {:induction false} SplitAfterPiece(a: string, b: string, sep: char)
    requires sep !in a
    ensures Split(a + [sep] + b, sep) == [a] + Split(b, sep)
    decreases |a|
  {
    if a == [] {
      assert a + [sep] + b == [sep] + b;
      assert ([sep] + b)[1..] == b;
    } else {
      var s := a + [sep] + b;
      assert s[1..] == a[1..] + [sep] + b;
      SplitAfterPiece(a[1..], b, sep);
      assert [a[0]] + a[1..] == a;
    }
  }

  /** Splitting joined pieces that hold no separator gives back the pieces:
      `Split` and `Join` are inverse on such pieces. */
  lemma {:induction false} SplitJoin(parts: seq<string>, sep: char)
    requires |parts| >= 1
    requires forall i :: 0 <= i < |parts| ==> sep !in parts[i]
    ensures Split(Join(parts, sep), sep) == parts
    decreases |parts|
  {
    if |parts| == 1 {
      SplitNoSeparator(parts[0], sep);
    } else {
      SplitJoin(parts[1..], sep);
      SplitAfterPiece(parts[0], Join(parts[1..], sep), sep);
      assert [parts[0]] + parts[1..] == parts;
    }
  }

  /** Replacing `a` by a character `b` that does not occur in `s` and then
      splitting on `b` is the same as splitting on `a`. */
  lemma {:induction false} SplitReplaced(s: string, a: char, b: char)
    requires b !in s
    ensures Split(ReplaceChar(s, a, b), b) == Split(s, a)
    decreases |s|
  {
    if s != [] {
      var t := ReplaceChar(s, a, b);
      assert t[1..] == ReplaceChar(s[1..], a, b);
      SplitReplaced(s[1..], a, b);
    }
  }

  /** Replacing `a` by a fresh character `b` is undone by replacing `b` by `a`. */
  lemma ReplaceBack(s: string, a: char, b: char)
    requires b !in s
    ensures ReplaceChar(ReplaceChar(s, a, b), b, a) == s
  {
    var t := ReplaceChar(ReplaceChar(s, a, b), b, a);
    assert forall i :: 0 <= i < |s| ==> t[i] == s[i];
  }

  /** Deleting a substring that does not occur leaves the string unchanged. */
  lemma {:induction false} DeleteAllAbsent(s: string, pat: string)
    requires pat != []
    requires !Contains(s, pat)
    ensures DeleteAll(s, pat) == s
    decreases |s|
  {
    if |s| >= |pat| {
      assert !OccursAt(s, pat, 0);
      assert s[0..0 + |pat|] == s[..|pat|];
      forall i: nat | OccursAt(s[1..], pat, i)
        ensures OccursAt(s, pat, i + 1)
      {
        assert s[1..][i..i + |pat|] == s[i + 1..i + 1 + |pat|];
      }
      DeleteAllAbsent(s[1..], pat);
      assert [s[0]] + s[1..] == s;
    }
  }

  /** One-character replacement works piece by piece on a concatenation. */
  lemma {:induction false} ReplaceCharAppend(x: string, y: string, a: char, b: char)
    ensures ReplaceChar(x + y, a, b) == ReplaceChar(x, a, b) + ReplaceChar(y, a, b)
    decreases |x|
  {
    if x == [] {
      assert x + y == y;
    } else {
      assert (x + y)[1..] == x[1..] + y;
      ReplaceCharAppend(x[1..], y, a, b);
    }
  }

  /** Replacing the separator of a join whose pieces do not contain it gives
      the join with the new separator. */
  lemma {:induction false} ReplaceJoin(parts: seq<string>, a: char, b: char)
    requires forall i :: 0 <= i < |parts| ==> a !in parts[i]
    ensures ReplaceChar(Join(parts, a), a, b) == Join(parts, b)
    decreases |parts|
  {
    if parts != [] {
      var p := parts[0];
      assert ReplaceChar(p, a, b) == p;
      if |parts| > 1 {
        ReplaceJoin(parts[1..], a, b);
        ReplaceCharAppend(p + [a], Join(parts[1..], a), a, b);
        ReplaceCharAppend(p, [a], a, b);
      }
    }
  }

  /** Extending the last piece of a join extends the join. */
  lemma {:induction false} JoinExtendLast(parts: seq<string>, x: string, y: string, sep: char)
    ensures Join(parts + [x + y], sep) == Join(parts + [x], sep) + y
    decreases |parts|
  {
    if parts != [] {
      assert (parts + [x + y])[1..] == parts[1..] + [x + y];
      assert (parts + [x])[1..] == parts[1..] + [x];
      JoinExtendLast(parts[1..], x, y, sep);
    }
  }

  /** A join starts with its first piece, followed by the separator if
      anything follows. */
  lemma JoinHead(parts: seq<string>, sep: char)
    requires |parts| >= 1
    ensures parts[0] <= Join(parts, sep)
    ensures |Join(parts, sep)| > |parts[0]| ==> Join(parts, sep)[|parts[0]|] == sep
  {
  }

  /** Deletion passes over a prefix in which no occurrence starts. */
  lemma {:induction false} DeleteAllKeep(a: string, b: string, pat: string)
    requires pat != []
    requires forall i :: 0 <= i < |a| ==> !OccursAt(a + b, pat, i)
    ensures DeleteAll(a + b, pat) == a + DeleteAll(b, pat)
    decreases |a|
  {
    if a == [] {
      assert a + b == b;
    } else {
      var s := a + b;
      if |s| >= |pat| {
        assert !OccursAt(s, pat, 0);
        assert s[0..0 + |pat|] == s[..|pat|];
        assert s[1..] == a[1..] + b;
        forall i | 0 <= i < |a[1..]|
          ensures !OccursAt(a[1..] + b, pat, i)
        {
          assert !OccursAt(s, pat, i + 1);
          if i + |pat| <= |a[1..] + b| {
            assert (a[1..] + b)[i..i + |pat|] == s[i + 1..i + 1 + |pat|];
          }
        }
        DeleteAllKeep(a[1..], b, pat);
        assert a == [a[0]] + a[1..];
      } else {
        assert |b| < |pat|;
      }
    }
  }
}
