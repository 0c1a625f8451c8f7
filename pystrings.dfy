/** The Python string methods the upload validator relies on:
    `str.endswith`, `str.split` with a one-character separator and
    `str.join`. */
module PyStrings {

  /** `s.endswith(suffix)`: case-sensitive, character by character. */
  predicate EndsWith(s: string, suffix: string) {
    |suffix| <= |s| && s[|s| - |suffix|..] == suffix
  }

  /** `s.endswith(suffix)` holds exactly when `s` is some text followed by
      `suffix`. */
  lemma EndsWithIff(s: string, suffix: string)
    ensures EndsWith(s, suffix) <==> exists p :: s == p + suffix
  {
    if EndsWith(s, suffix) {
      var p := s[..|s| - |suffix|];
      assert s == p + suffix;
    }
    if exists p :: s == p + suffix {
      var p :| s == p + suffix;
      assert s[|s| - |suffix|..] == suffix;
    }
  }

  /** `s.split(sep)`: the pieces of `s` between occurrences of `sep`. There is
      always at least one piece (`"".split(".") == [""]`) and no piece contains
      the separator. */
  function Split(s: string, sep: char): (r: seq<string>)
    ensures |r| >= 1
    ensures forall i :: 0 <= i < |r| ==> sep !in r[i]
    decreases |s|
  {
    if s == [] then [""]
    else
      var rest := Split(s[1..], sep);
      if s[0] == sep then [""] + rest
      else [[s[0]] + rest[0]] + rest[1..]
  }

  /** `sep.join(parts)`. */
  function Join(parts: seq<string>, sep: string): string {
    if |parts| == 0 then ""
    else if |parts| == 1 then parts[0]
    else parts[0] + sep + Join(parts[1..], sep)
  }

  /** Joining the pieces of a split with the separator gives back the text. */
  lemma {:induction false} JoinSplit(s: string, sep: char)
    ensures Join(Split(s, sep), [sep]) == s
    decreases |s|
  {
    if s != [] {
      JoinSplit(s[1..], sep);
      var rest := Split(s[1..], sep);
      if s[0] == sep {
        assert Split(s, sep)[1..] == rest;
      } else if |rest| > 1 {
        var parts := Split(s, sep);
        assert parts[1..] == rest[1..];
        assert [s[0]] + rest[0] + [sep] + Join(rest[1..], [sep]) == s;
      }
    }
  }

  /** A split has a single piece exactly when the text has no separator. */
  lemma {:induction false} SplitSingleIff(s: string, sep: char)
    ensures |Split(s, sep)| == 1 <==> sep !in s
    decreases |s|
  {
    if s != [] {
      SplitSingleIff(s[1..], sep);
      assert s == [s[0]] + s[1..];
    }
  }

  /** A join of two or more pieces is the join of all but the last, the
      separator, and the last piece. */
  lemma {:induction false} JoinLast(parts: seq<string>, sep: string)
    requires |parts| >= 2
    ensures Join(parts, sep) == Join(parts[..|parts| - 1], sep) + sep + parts[|parts| - 1]
    decreases |parts|
  {
    if |parts| > 2 {
      JoinLast(parts[1..], sep);
      assert parts[1..][..|parts| - 2] == parts[..|parts| - 1][1..];
    }
  }

  /** `s.split(sep)[-1]`, the text after the last separator: it contains no
      separator, `s` ends with it, it is the whole of `s` exactly when `s` has
      no separator, and otherwise it is preceded by the separator. */
  function LastPiece(s: string, sep: char): (last: string)
    ensures sep !in last
    ensures EndsWith(s, last)
    ensures |last| == |s| <==> sep !in s
    ensures |last| < |s| ==> s[|s| - |last| - 1] == sep
  {
    var parts := Split(s, sep);
    var last := parts[|parts| - 1];
    JoinSplit(s, sep);
    SplitSingleIff(s, sep);
    if |parts| >= 2 then
      JoinLast(parts, [sep]);
      var front := Join(parts[..|parts| - 1], [sep]);
      assert s == front + [sep] + last;
      assert s[|s| - |last|..] == last;
      assert s[|s| - |last| - 1] == sep;
      last
    else
      last
  }

  /** A text without the separator splits into itself alone. */
  lemma {:induction false} SplitNoSeparator(x: string, sep: char)
    requires sep !in x
    ensures Split(x, sep) == [x]
    decreases |x|
  {
    if x != [] {
      SplitNoSeparator(x[1..], sep);
      assert x == [x[0]] + x[1..];
    }
  }

  /** Splitting a separator-free piece, a separator and more text yields the
      piece followed by the pieces of the rest. */
  lemma {:induction false} SplitAfterPiece(x: string, y: string, sep: char)
    requires sep !in x
    ensures Split(x + [sep] + y, sep) == [x] + Split(y, sep)
    decreases |x|
  {
    var s := x + [sep] + y;
    if x == [] {
      assert s[1..] == y;
    } else {
      SplitAfterPiece(x[1..], y, sep);
      assert s[1..] == x[1..] + [sep] + y;
      assert [x[0]] + x[1..] == x;
    }
  }

  /** Splitting the join of separator-free pieces gives back the pieces: with
      `JoinSplit`, the pieces of `split(sep)` are the only separator-free
      pieces whose join is the text. */
  lemma {:induction false} SplitJoin(parts: seq<string>, sep: char)
    requires |parts| >= 1
    requires forall i :: 0 <= i < |parts| ==> sep !in parts[i]
    ensures Split(Join(parts, [sep]), sep) == parts
    decreases |parts|
  {
    if |parts| == 1 {
      SplitNoSeparator(parts[0], sep);
    } else {
      SplitJoin(parts[1..], sep);
      SplitAfterPiece(parts[0], Join(parts[1..], [sep]), sep);
      assert [parts[0]] + parts[1..] == parts;
    }
  }

  /** `x` is the piece of `s` that starts at position `k`. */
  ghost predicate PieceAt(x: string, s: string, k: int) {
    0 <= k && k + |x| <= |s| && s[k..k + |x|] == x
  }

  /** `x` occurs in `s` as a contiguous piece. */
  ghost predicate Occurs(x: string, s: string) {
    exists k :: PieceAt(x, s, k)
  }

  /** Text occurring in `s` also occurs in `a + s + b`. */
  lemma OccursInContext(x: string, a: string, s: string, b: string)
    requires Occurs(x, s)
    ensures Occurs(x, a + s + b)
  {
    var k :| PieceAt(x, s, k);
    var t := a + s + b;
    assert t[|a| + k..|a| + k + |x|] == x;
    assert PieceAt(x, t, |a| + k);
  }

  /** Every piece occurs in the joined text. */
  lemma {:induction false} JoinContainsParts(parts: seq<string>, sep: string)
    ensures forall i :: 0 <= i < |parts| ==> Occurs(parts[i], Join(parts, sep))
    decreases |parts|
  {
    if |parts| == 1 {
      assert PieceAt(parts[0], Join(parts, sep), 0);
    } else if |parts| > 1 {
      JoinContainsParts(parts[1..], sep);
      var j := Join(parts, sep);
      assert j[0..|parts[0]|] == parts[0];
      assert PieceAt(parts[0], j, 0);
      forall i | 1 <= i < |parts| ensures Occurs(parts[i], j) {
        assert parts[i] == parts[1..][i - 1];
        OccursInContext(parts[i], parts[0] + sep, Join(parts[1..], sep), "");
        assert parts[0] + sep + Join(parts[1..], sep) + "" == j;
      }
    }
  }
}
