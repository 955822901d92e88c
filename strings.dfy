/** The string operations the loader relies on: growing a text line by line,
    Python's `str.replace` and POSIX `os.path.basename`. */
module Strings {

  /** The text obtained by appending `lines` one after the other, the way the
      loader grows a string with `text = text + line`. */
  function Concat(lines: seq<string>): string
  {
    if lines == [] then "" else Concat(lines[..|lines| - 1]) + lines[|lines| - 1]
  }

  lemma {:induction false} ConcatAppend(a: seq<string>, b: seq<string>)
    ensures Concat(a + b) == Concat(a) + Concat(b)
    decreases |b|
  {
    if b == [] {
      assert a + b == a;
    } else {
      var b' := b[..|b| - 1];
      assert (a + b)[..|a + b| - 1] == a + b';
      ConcatAppend(a, b');
    }
  }

  /** `pat` occurs in `s` starting at index `i`. */
  predicate OccursAt(s: string, pat: string, i: int)
  {
    0 <= i && i + |pat| <= |s| && s[i..i + |pat|] == pat
  }

  predicate Occurs(s: string, pat: string)
  {
    exists i | 0 <= i <= |s| :: OccursAt(s, pat, i)
  }

  /** No proper suffix of `pat` is also a prefix of it: two occurrences of
      `pat` can never overlap. */
  predicate BorderFree(pat: string)
  {
    forall k :: 0 < k < |pat| ==> pat[k..] != pat[..|pat| - k]
  }

  /** Python's `s.replace(pat, rep)` for a non-empty `pat`: scanning from the
      left, every occurrence of `pat` that does not overlap an earlier
      replaced one is replaced by `rep`. */
  function ReplaceAll(s: string, pat: string, rep: string): string
    requires pat != []
    decreases |s|
  {
    if |s| < |pat| then s
    else if s[..|pat|] == pat then rep + ReplaceAll(s[|pat|..], pat, rep)
    else [s[0]] + ReplaceAll(s[1..], pat, rep)
  }

  /** A text without the pattern is left as it is. */
  lemma {:induction false} ReplaceAllAbsent(s: string, pat: string, rep: string)
    requires pat != [] && !Occurs(s, pat)
    ensures ReplaceAll(s, pat, rep) == s
    decreases |s|
  {
    if |s| >= |pat| {
      assert !OccursAt(s, pat, 0);
      AbsentFromTail(s, pat);
      ReplaceAllAbsent(s[1..], pat, rep);
      assert [s[0]] + s[1..] == s;
    }
  }

  lemma AbsentFromTail(s: string, pat: string)
    requires s != [] && !Occurs(s, pat)
    ensures !Occurs(s[1..], pat)
  {
    forall i | 0 <= i <= |s[1..]| ensures !OccursAt(s[1..], pat, i) {
      if i + |pat| <= |s[1..]| {
        assert s[1..][i..i + |pat|] == s[i + 1..i + 1 + |pat|];
        assert !OccursAt(s, pat, i + 1);
      }
    }
  }

  /** With a border-free pattern absent from a non-empty `x`, the text
      `x + pat + y` does not start with `pat`. */
  lemma NoEarlyMatch(x: string, pat: string, y: string)
    requires pat != [] && BorderFree(pat) && !Occurs(x, pat) && x != []
    ensures (x + pat + y)[..|pat|] != pat
  {
    var s := x + pat + y;
    var w := s[..|pat|];
    if |x| >= |pat| {
      assert w == x[0..0 + |pat|];
      assert !OccursAt(x, pat, 0);
    } else {
      var k := |x|;
      assert w[k..] == pat[..|pat| - k];
      assert pat[k..] != pat[..|pat| - k];
    }
  }

  /** With a border-free pattern, the first occurrence is replaced and the
      text before it is kept, whatever follows. */
  lemma {:induction false} ReplaceAllAround(x: string, pat: string, y: string, rep: string)
    requires pat != [] && BorderFree(pat) && !Occurs(x, pat)
    ensures ReplaceAll(x + pat + y, pat, rep) == x + rep + ReplaceAll(y, pat, rep)
    decreases |x|
  {
    var s := x + pat + y;
    if x == [] {
      assert s == pat + y;
      assert s[..|pat|] == pat && s[|pat|..] == y;
    } else {
      NoEarlyMatch(x, pat, y);
      AbsentFromTail(x, pat);
      assert s[1..] == x[1..] + pat + y;
      ReplaceAllAround(x[1..], pat, y, rep);
      assert ReplaceAll(s, pat, rep) == [s[0]] + ReplaceAll(s[1..], pat, rep);
      assert [x[0]] + x[1..] == x;
    }
  }

  /** A pattern that starts with a character the text lacks does not occur in it. */
  lemma NoOccurrenceWithout(s: string, pat: string)
    requires pat != [] && pat[0] !in s
    ensures !Occurs(s, pat)
  {
    forall i ensures !OccursAt(s, pat, i) {
      if 0 <= i && i + |pat| <= |s| {
        assert s[i..i + |pat|][0] == s[i];
      }
    }
  }

  /** POSIX `os.path.basename`: the text after the last `/`. */
  function Basename(path: string): (base: string)
    ensures |base| <= |path|
    ensures '/' !in base
    ensures forall i | 0 <= i < |base| :: base[i] == path[|path| - |base| + i]
    ensures |base| < |path| ==> path[|path| - |base| - 1] == '/'
    ensures '/' !in path ==> base == path
    ensures |path| > 0 && path[|path| - 1] == '/' ==> base == ""
  {
    if path == [] || path[|path| - 1] == '/' then ""
    else Basename(path[..|path| - 1]) + [path[|path| - 1]]
  }
}
