/**
 * The PHP string built-ins the block adapter relies on, on `seq<char>`:
 * `empty()` and truthiness of a string, prefix and suffix tests,
 * `strtolower`, `str_replace`, `explode` and `implode`.
 */
module PhpStrings {

  /** `empty($s)` and `!$s` for a string: only "" and "0" are falsy. */
  predicate Falsy(s: string) {
    s == "" || s == "0"
  }

  predicate StartsWith(s: string, prefix: string) {
    |prefix| <= |s| && s[..|prefix|] == prefix
  }

  predicate EndsWith(s: string, suffix: string) {
    |suffix| <= |s| && s[|s| - |suffix|..] == suffix
  }

  /** `strtolower` since PHP 8.2: ASCII letters only, independent of the locale. */
  function LowerChar(c: char): char {
    if 'A' <= c <= 'Z' then (c as int + 32) as char else c
  }

  function ToLower(s: string): string {
    seq(|s|, i requires 0 <= i < |s| => LowerChar(s[i]))
  }

  /**
   * `str_replace($pat, $rep, $s)`: scans left to right and replaces every
   * non-overlapping occurrence of `pat`; the replacement text is not
   * scanned again. An empty pattern leaves the subject unchanged.
   */
  function ReplaceAll(s: string, pat: string, rep: string): string
    decreases |s|
  {
    if |pat| == 0 || |s| < |pat| then s
    else if s[..|pat|] == pat then rep + ReplaceAll(s[|pat|..], pat, rep)
    else [s[0]] + ReplaceAll(s[1..], pat, rep)
  }

  /** `explode($sep, $s)` for a one-character separator, keeping empty pieces. */
  function Split(s: string, sep: char): (parts: seq<string>)
    ensures |parts| >= 1
    ensures forall i :: 0 <= i < |parts| ==> sep !in parts[i]
    decreases |s|
  {
    if |s| == 0 then [""]
    else if s[0] == sep then [""] + Split(s[1..], sep)
    else
      var rest := Split(s[1..], sep);
      [[s[0]] + rest[0]] + rest[1..]
  }

  /** `implode($sep, $parts)` for a one-character separator. */
  function Join(parts: seq<string>, sep: char): string {
    if |parts| == 0 then ""
    else if |parts| == 1 then parts[0]
    else parts[0] + [sep] + Join(parts[1..], sep)
  }

  /** A string ends with whatever was appended to it last. */
  lemma EndsWithAppended(front: string, p: string)
    ensures EndsWith(front + p, p)
  {
    assert (front + p)[|front|..] == p;
  }

  /** Joining two pieces puts one separator between them. */
  lemma JoinPair(a: string, p: string, sep: char)
    ensures Join([a, p], sep) == a + [sep] + p
  {
    assert [a, p][1..] == [p];
  }

  /** Joining one more piece appends the separator and the piece. */
  lemma {:induction false} JoinSnoc(parts: seq<string>, p: string, sep: char)
    ensures Join(parts + [p], sep) == if |parts| == 0 then p else Join(parts, sep) + [sep] + p
    ensures EndsWith(Join(parts + [p], sep), p)
    decreases |parts|
  {
    if |parts| == 0 {
      assert parts + [p] == [p];
      EndsWithAppended("", p);
      assert "" + p == p;
    } else if |parts| == 1 {
      assert parts + [p] == [parts[0], p];
      JoinPair(parts[0], p, sep);
      EndsWithAppended(parts[0] + [sep], p);
    } else {
      assert (parts + [p])[1..] == parts[1..] + [p];
      JoinSnoc(parts[1..], p, sep);
      var rest := Join(parts[1..], sep);
      var head := parts[0] + [sep];
      assert Join(parts + [p], sep) == head + (rest + [sep] + p);
      assert Join(parts, sep) == head + rest;
      assert head + (rest + [sep] + p) == head + rest + [sep] + p;
      EndsWithAppended(head + rest + [sep], p);
    }
  }

  /** Joining the pieces of `explode` gives back the exploded string. */
  lemma {:induction false} JoinSplit(s: string, sep: char)
    ensures Join(Split(s, sep), sep) == s
    decreases |s|
  {
    if |s| == 0 {
    } else if s[0] == sep {
      JoinSplit(s[1..], sep);
      assert s == [sep] + s[1..];
    } else {
      var rest := Split(s[1..], sep);
      JoinSplit(s[1..], sep);
      if |rest| == 1 {
        assert s == [s[0]] + rest[0];
      } else {
        assert Join(rest, sep) == rest[0] + [sep] + Join(rest[1..], sep);
        assert s == [s[0]] + s[1..];
      }
    }
  }

  /** Pieces free of the separator come back out of `explode` after `implode`. */
  lemma {:induction false} SplitJoin(parts: seq<string>, sep: char)
    requires |parts| >= 1
    requires forall i :: 0 <= i < |parts| ==> sep !in parts[i]
    ensures Split(Join(parts, sep), sep) == parts
    decreases |parts|, |parts[0]|
  {
    if |parts[0]| == 0 {
      if |parts| == 1 {
      } else {
        var tail := Join(parts[1..], sep);
        assert Join(parts, sep) == [sep] + tail;
        assert ([sep] + tail)[1..] == tail;
        SplitJoin(parts[1..], sep);
        assert parts == [""] + parts[1..];
      }
    } else {
      var c := parts[0][0];
      var shorter := [parts[0][1..]] + parts[1..];
      assert shorter[1..] == parts[1..];
      assert c != sep by { assert c in parts[0]; }
      assert forall i :: 0 <= i < |shorter| ==> sep !in shorter[i] by {
        forall i | 0 <= i < |shorter| ensures sep !in shorter[i] {
          if i == 0 {
            assert forall x :: x in parts[0][1..] ==> x in parts[0];
          } else {
            assert shorter[i] == parts[i];
          }
        }
      }
      SplitJoin(shorter, sep);
      var j := Join(parts, sep);
      assert parts[0] == [c] + shorter[0];
      assert j == [c] + Join(shorter, sep);
      assert j[0] == c && j[1..] == Join(shorter, sep);
      var rest := Split(j[1..], sep);
      assert rest == shorter;
      assert Split(j, sep) == [[c] + rest[0]] + rest[1..];
      assert parts == [parts[0]] + parts[1..];
    }
  }

  /** `pat` occurs in `s` starting at index `i`. */
  predicate OccursAt(pat: string, s: string, i: int) {
    0 <= i && i + |pat| <= |s| && s[i..i + |pat|] == pat
  }

  /** `pat` occurs somewhere in `s`. */
  ghost predicate Occurs(pat: string, s: string) {
    exists i :: 0 <= i <= |s| && OccursAt(pat, s, i)
  }

  /** A subject in which the pattern does not occur is returned unchanged. */
  lemma {:induction false} ReplaceAllAbsent(s: string, pat: string, rep: string)
    requires |pat| > 0 && !Occurs(pat, s)
    ensures ReplaceAll(s, pat, rep) == s
    decreases |s|
  {
    if |s| >= |pat| {
      assert !OccursAt(pat, s, 0);
      assert s[..|pat|] == s[0..|pat|];
      var tail := s[1..];
      assert !Occurs(pat, tail) by {
        if Occurs(pat, tail) {
          var i :| 0 <= i <= |tail| && OccursAt(pat, tail, i);
          assert s[i + 1..i + 1 + |pat|] == tail[i..i + |pat|];
          assert OccursAt(pat, s, i + 1);
        }
      }
      ReplaceAllAbsent(s[1..], pat, rep);
      assert s == [s[0]] + s[1..];
    }
  }

  /** Removing a one-character pattern leaves no occurrence of that character. */
  lemma {:induction false} ReplaceAllRemovesChar(s: string, c: char)
    ensures c !in ReplaceAll(s, [c], "")
    decreases |s|
  {
    if |s| >= 1 {
      ReplaceAllRemovesChar(s[1..], c);
      if s[..1] != [c] {
        assert s[0] != c by { assert s[..1] == [s[0]]; }
      }
    }
  }

  /** A character absent from the subject and the replacement is absent from the result. */
  lemma {:induction false} ReplaceAllKeepsAbsentChar(s: string, pat: string, rep: string, c: char)
    requires c !in s && c !in rep
    ensures c !in ReplaceAll(s, pat, rep)
    decreases |s|
  {
    if |pat| > 0 && |s| >= |pat| {
      if s[..|pat|] == pat {
        assert forall x :: x in s[|pat|..] ==> x in s;
        ReplaceAllKeepsAbsentChar(s[|pat|..], pat, rep, c);
      } else {
        assert forall x :: x in s[1..] ==> x in s;
        ReplaceAllKeepsAbsentChar(s[1..], pat, rep, c);
      }
    }
  }

  /** A subject lacking one of the pattern's characters is returned unchanged. */
  lemma {:induction false} ReplaceAllWithoutPatternChar(s: string, pat: string, rep: string, c: char)
    ensures c in pat && c !in s ==> ReplaceAll(s, pat, rep) == s
    decreases |s|
  {
    if c in pat && c !in s && |s| >= |pat| {
      var k :| 0 <= k < |pat| && pat[k] == c;
      assert s[k] in s;
      assert s[..|pat|][k] != pat[k];
      assert forall x :: x in s[1..] ==> x in s;
      ReplaceAllWithoutPatternChar(s[1..], pat, rep, c);
      assert s == [s[0]] + s[1..];
    }
  }

  /** A leading occurrence of the pattern is always replaced. */
  lemma ReplaceAllLeading(pat: string, s: string, rep: string)
    requires |pat| > 0
    ensures ReplaceAll(pat + s, pat, rep) == rep + ReplaceAll(s, pat, rep)
  {
    assert (pat + s)[..|pat|] == pat;
    assert (pat + s)[|pat|..] == s;
  }

  /** A character that cannot start the pattern is copied through. */
  lemma ReplaceAllSkip(s: string, pat: string, rep: string)
    requires |pat| > 0 && |s| > 0 && s[0] != pat[0]
    ensures ReplaceAll(s, pat, rep) == [s[0]] + ReplaceAll(s[1..], pat, rep)
  {
    if |s| >= |pat| {
      assert s[..|pat|][0] != pat[0];
    } else {
      assert s == [s[0]] + s[1..];
    }
  }

  /** A prefix none of whose characters can start the pattern is copied through. */
  lemma {:induction false} ReplaceAllCopiesPrefix(x: string, rest: string, pat: string, rep: string)
    requires |pat| > 0 && pat[0] !in x
    ensures ReplaceAll(x + rest, pat, rep) == x + ReplaceAll(rest, pat, rep)
    decreases |x|
  {
    if |x| == 0 {
      assert x + rest == rest;
    } else {
      ReplaceAllSkip(x + rest, pat, rep);
      assert (x + rest)[1..] == x[1..] + rest;
      assert pat[0] !in x[1..] by {
        assert forall ch :: ch in x[1..] ==> ch in x;
      }
      ReplaceAllCopiesPrefix(x[1..], rest, pat, rep);
      assert x == [x[0]] + x[1..];
    }
  }

  /** A position where the pattern does not start is copied through. */
  lemma ReplaceAllUnmatchedStep(s: string, pat: string, rep: string)
    requires |pat| > 0 && |s| > 0 && !OccursAt(pat, s, 0)
    ensures ReplaceAll(s, pat, rep) == [s[0]] + ReplaceAll(s[1..], pat, rep)
  {
    if |s| >= |pat| {
      assert s[..|pat|] == s[0..|pat|];
    } else {
      assert s == [s[0]] + s[1..];
    }
  }

  /** An occurrence in the tail of `s` is an occurrence in `s` one position later. */
  lemma OccursAtTail(s: string, pat: string, i: int)
    requires |s| > 0 && 0 <= i
    ensures OccursAt(pat, s[1..], i) <==> OccursAt(pat, s, i + 1)
  {
    if i + |pat| <= |s[1..]| {
      assert s[1..][i..i + |pat|] == s[i + 1..i + 1 + |pat|];
    }
  }

  /** A prefix at none of whose positions the pattern starts is copied through. */
  lemma {:induction false} ReplaceAllCopiesUnmatched(x: string, rest: string, pat: string, rep: string)
    requires |pat| > 0
    requires forall i :: 0 <= i < |x| ==> !OccursAt(pat, x + rest, i)
    ensures ReplaceAll(x + rest, pat, rep) == x + ReplaceAll(rest, pat, rep)
    decreases |x|
  {
    if |x| == 0 {
      assert x + rest == rest;
    } else {
      var s := x + rest;
      assert !OccursAt(pat, s, 0);
      ReplaceAllUnmatchedStep(s, pat, rep);
      assert s[1..] == x[1..] + rest;
      forall i | 0 <= i < |x[1..]| ensures !OccursAt(pat, x[1..] + rest, i) {
        OccursAtTail(s, pat, i);
      }
      ReplaceAllCopiesUnmatched(x[1..], rest, pat, rep);
      var r := ReplaceAll(rest, pat, rep);
      assert ReplaceAll(s, pat, rep) == [x[0]] + (x[1..] + r);
      assert [x[0]] + (x[1..] + r) == x + r;
    }
  }

  /** `strtolower` introduces no character outside `a`..`z` that was not already there. */
  lemma ToLowerKeepsAbsentChar(s: string, c: char)
    requires c !in s && !('a' <= c <= 'z')
    ensures c !in ToLower(s)
  {
    forall i | 0 <= i < |s| ensures ToLower(s)[i] != c {
      assert s[i] in s;
    }
  }
}
