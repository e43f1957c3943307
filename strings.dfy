/**
 * The two JavaScript string operations the page-name logic relies on:
 * `String.prototype.split` with a one-character separator and
 * `Array.prototype.pop` on its (never empty) result.
 */
module Strings {

  /** Glues the parts back together with `sep` between neighbours (`Array.prototype.join`). */
  function Join(parts: seq<string>, sep: char): string
    decreases |parts|
  {
    if |parts| == 0 then ""
    else if |parts| == 1 then parts[0]
    else parts[0] + [sep] + Join(parts[1..], sep)
  }

  /**
   * `s.split(sep)`: at least one part, no part contains the separator,
   * and joining the parts with the separator gives back `s`.
   */
  function Split(s: string, sep: char): (parts: seq<string>)
    ensures |parts| >= 1
    ensures forall i :: 0 <= i < |parts| ==> sep !in parts[i]
    ensures Join(parts, sep) == s
    decreases |s|
  {
    if |s| == 0 then [""]
    else if s[0] == sep then [""] + Split(s[1..], sep)
    else
      var rest := Split(s[1..], sep);
      [[s[0]] + rest[0]] + rest[1..]
  }

  /** `parts.pop()`: the last element. */
  function Last(parts: seq<string>): string
    requires |parts| >= 1
  {
    parts[|parts| - 1]
  }

  /**
   * `seg` is the final `sep`-separated segment of `s`: a suffix of `s`
   * without `sep`, that is either all of `s` or preceded by `sep`.
   */
  ghost predicate IsFinalSegment(s: string, seg: string, sep: char) {
    |seg| <= |s| && s[|s| - |seg|..] == seg && sep !in seg &&
    (|seg| == |s| || s[|s| - |seg| - 1] == sep)
  }

  /**
   * `p` is `s` cut at the first `sep`: a prefix of `s` without `sep`,
   * that is either all of `s` or followed by `sep`.
   */
  ghost predicate IsCutAtFirst(s: string, p: string, sep: char) {
    |p| <= |s| && s[..|p|] == p && sep !in p &&
    (|p| == |s| || s[|p|] == sep)
  }

  /** The popped part of `s.split(sep)` is the final segment of `s`. */
  lemma {:induction false} LastPartIsFinalSegment(s: string, sep: char)
    ensures IsFinalSegment(s, Last(Split(s, sep)), sep)
    decreases |s|
  {
    if |s| > 0 {
      var rest := Split(s[1..], sep);
      LastPartIsFinalSegment(s[1..], sep);
      assert s[1..][|s| - 1 - |Last(rest)|..] == s[|s| - |Last(rest)|..];
      if s[0] != sep && |rest| == 1 {
        assert Last(Split(s, sep)) == [s[0]] + rest[0];
        assert rest[0] == s[1..];
        assert [s[0]] + s[1..] == s;
      }
    }
  }

  /** A string has exactly one final segment. */
  lemma FinalSegmentUnique(s: string, a: string, b: string, sep: char)
    requires IsFinalSegment(s, a, sep) && IsFinalSegment(s, b, sep)
    ensures a == b
  {
  }

  /** The first part of `s.split(sep)` is `s` cut at the first `sep`. */
  lemma {:induction false} FirstPartIsCut(s: string, sep: char)
    ensures IsCutAtFirst(s, Split(s, sep)[0], sep)
    decreases |s|
  {
    if |s| > 0 && s[0] != sep {
      FirstPartIsCut(s[1..], sep);
      assert s == [s[0]] + s[1..];
    }
  }

  /** A string has exactly one cut at the first separator. */
  lemma CutUnique(s: string, a: string, b: string, sep: char)
    requires IsCutAtFirst(s, a, sep) && IsCutAtFirst(s, b, sep)
    ensures a == b
  {
  }

  /** Every character of a prefix occurs in the whole string. */
  lemma PrefixChars(s: string, p: string, c: char)
    requires |p| <= |s| && s[..|p|] == p
    ensures c in p ==> c in s
  {
    if c in p {
      var i :| 0 <= i < |p| && p[i] == c;
      assert s[i] == c;
    }
  }
}
