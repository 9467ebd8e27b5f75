/**
  Character classes and the few Python `str` operations the comment tool
  relies on: `strip`, `startswith`, `split('\n')` and `' '.join`, together
  with the scanners the regular expressions are built from (greedy `\s*`,
  `\w*`, "up to the next newline").
  Whitespace is the ASCII part of Python's `str.isspace` (which is also what
  the regular-expression class `\s` matches); word characters are `[A-Za-z0-9_]`.
  The scanners work on indices into one string; each comes with a lemma
  saying that its result is the only index with its defining property.
 */
module Text {

  /** Python whitespace restricted to ASCII: space, \t \n \v \f \r and the
      four separators U+001C..U+001F. */
  predicate IsSpace(c: char) {
    c == ' ' || c == '\t' || c == '\n' || c == '\U{0B}' || c == '\U{0C}' || c == '\r'
    || c == '\U{1C}' || c == '\U{1D}' || c == '\U{1E}' || c == '\U{1F}'
  }

  /** The regular-expression class `\w` restricted to ASCII. */
  predicate IsWordChar(c: char) {
    ('a' <= c <= 'z') || ('A' <= c <= 'Z') || ('0' <= c <= '9') || c == '_'
  }

  predicate AllSpace(s: string) {
    forall i :: 0 <= i < |s| ==> IsSpace(s[i])
  }

  /** A non-empty run of word characters, i.e. a string matched by `\w+`. */
  predicate IsWord(s: string) {
    |s| > 0 && forall i :: 0 <= i < |s| ==> IsWordChar(s[i])
  }

  predicate NoNewline(s: string) {
    forall i :: 0 <= i < |s| ==> s[i] != '\n'
  }

  predicate StartsWith(s: string, prefix: string) {
    |prefix| <= |s| && s[..|prefix|] == prefix
  }

  // ---------------------------------------------------------------------
  // Scanners
  // ---------------------------------------------------------------------

  /** Greedy `\s*` from index `i`: the first index at or after `i` that does
      not hold whitespace, or `|s|`. */
  function SkipSpace(s: string, i: nat): (j: nat)
    requires i <= |s|
    ensures i <= j <= |s|
    ensures j < |s| ==> !IsSpace(s[j])
    decreases |s| - i
  {
    if i < |s| && IsSpace(s[i]) then SkipSpace(s, i + 1) else i
  }

  /** Everything the greedy `\s*` from `i` runs over is whitespace. */
  lemma {:induction false} SkipSpaceRun(s: string, i: nat)
    requires i <= |s|
    ensures forall k :: i <= k < SkipSpace(s, i) ==> IsSpace(s[k])
    decreases |s| - i
  {
    if i < |s| && IsSpace(s[i]) {
      SkipSpaceRun(s, i + 1);
    }
  }

  lemma {:induction false} SkipSpaceIs(s: string, i: nat, j: nat)
    requires i <= j <= |s|
    requires forall k :: i <= k < j ==> IsSpace(s[k])
    requires j < |s| ==> !IsSpace(s[j])
    ensures SkipSpace(s, i) == j
    decreases j - i
  {
    if i < j {
      SkipSpaceIs(s, i + 1, j);
    }
  }

  /** Greedy `\w*` from index `i`. */
  function SkipWord(s: string, i: nat): (j: nat)
    requires i <= |s|
    ensures i <= j <= |s|
    ensures j < |s| ==> !IsWordChar(s[j])
    decreases |s| - i
  {
    if i < |s| && IsWordChar(s[i]) then SkipWord(s, i + 1) else i
  }

  /** Everything the greedy `\w*` from `i` runs over is a word character. */
  lemma {:induction false} SkipWordRun(s: string, i: nat)
    requires i <= |s|
    ensures forall k :: i <= k < SkipWord(s, i) ==> IsWordChar(s[k])
    decreases |s| - i
  {
    if i < |s| && IsWordChar(s[i]) {
      SkipWordRun(s, i + 1);
    }
  }

  lemma {:induction false} SkipWordIs(s: string, i: nat, j: nat)
    requires i <= j <= |s|
    requires forall k :: i <= k < j ==> IsWordChar(s[k])
    requires j < |s| ==> !IsWordChar(s[j])
    ensures SkipWord(s, i) == j
    decreases j - i
  {
    if i < j {
      SkipWordIs(s, i + 1, j);
    }
  }

  /** The first index at or after `i` that holds `c`, or `|s|`. */
  function Find(s: string, i: nat, c: char): (j: nat)
    requires i <= |s|
    ensures i <= j <= |s|
    ensures j < |s| ==> s[j] == c
    decreases |s| - i
  {
    if i < |s| && s[i] != c then Find(s, i + 1, c) else i
  }

  /** The search for `c` passes over no `c`. */
  lemma {:induction false} FindRun(s: string, i: nat, c: char)
    requires i <= |s|
    ensures forall k :: i <= k < Find(s, i, c) ==> s[k] != c
    decreases |s| - i
  {
    if i < |s| && s[i] != c {
      FindRun(s, i + 1, c);
    }
  }

  lemma {:induction false} FindIs(s: string, i: nat, j: nat, c: char)
    requires i <= j <= |s|
    requires forall k :: i <= k < j ==> s[k] != c
    requires j < |s| ==> s[j] == c
    ensures Find(s, i, c) == j
    decreases j - i
  {
    if i < j {
      FindIs(s, i + 1, j, c);
    }
  }

  /** Where the line holding position `i` starts: just after the last
      newline before `i`, or 0. */
  function LineStart(s: string, i: nat): (j: nat)
    requires i <= |s|
    ensures j <= i
    ensures j > 0 ==> s[j - 1] == '\n'
    decreases i
  {
    if i == 0 || s[i - 1] == '\n' then i else LineStart(s, i - 1)
  }

  /** No newline lies between the start of the line and `i`. */
  lemma {:induction false} LineStartRun(s: string, i: nat)
    requires i <= |s|
    ensures forall k :: LineStart(s, i) <= k < i ==> s[k] != '\n'
    decreases i
  {
    if !(i == 0 || s[i - 1] == '\n') {
      LineStartRun(s, i - 1);
    }
  }

  lemma {:induction false} LineStartIs(s: string, i: nat, j: nat)
    requires j <= i <= |s|
    requires forall k :: j <= k < i ==> s[k] != '\n'
    requires j > 0 ==> s[j - 1] == '\n'
    ensures LineStart(s, i) == j
    decreases i
  {
    if j < i {
      LineStartIs(s, i - 1, j);
    }
  }

  /** Backwards `\s*` from `hi`, not below `lo`: the least `j >= lo` such that
      `s[j..hi]` is all whitespace. */
  function TrimEnd(s: string, lo: nat, hi: nat): (j: nat)
    requires lo <= hi <= |s|
    ensures lo <= j <= hi
    ensures j > lo ==> !IsSpace(s[j - 1])
    decreases hi
  {
    if lo < hi && IsSpace(s[hi - 1]) then TrimEnd(s, lo, hi - 1) else hi
  }

  /** Everything the backwards `\s*` runs over is whitespace. */
  lemma {:induction false} TrimEndRun(s: string, lo: nat, hi: nat)
    requires lo <= hi <= |s|
    ensures forall k :: TrimEnd(s, lo, hi) <= k < hi ==> IsSpace(s[k])
    decreases hi
  {
    if lo < hi && IsSpace(s[hi - 1]) {
      TrimEndRun(s, lo, hi - 1);
    }
  }

  /** Backwards over newlines from `hi`, not below `lo`: the least `j >= lo`
      such that `s[j..hi]` holds only newlines. */
  function TrimNewlines(s: string, lo: nat, hi: nat): (j: nat)
    requires lo <= hi <= |s|
    ensures lo <= j <= hi
    ensures j > lo ==> s[j - 1] != '\n'
    decreases hi
  {
    if lo < hi && s[hi - 1] == '\n' then TrimNewlines(s, lo, hi - 1) else hi
  }

  /** Everything trimmed off is a newline. */
  lemma {:induction false} TrimNewlinesRun(s: string, lo: nat, hi: nat)
    requires lo <= hi <= |s|
    ensures forall k :: TrimNewlines(s, lo, hi) <= k < hi ==> s[k] == '\n'
    decreases hi
  {
    if lo < hi && s[hi - 1] == '\n' {
      TrimNewlinesRun(s, lo, hi - 1);
    }
  }

  // ---------------------------------------------------------------------
  // Python string operations
  // ---------------------------------------------------------------------

  /** `s.strip()` */
  function Strip(s: string): (r: string)
    ensures |r| <= |s|
    ensures r != [] ==> !IsSpace(r[0]) && !IsSpace(r[|r| - 1])
  {
    var a := SkipSpace(s, 0);
    s[a..TrimEnd(s, a, |s|)]
  }

  /** Stripping removes exactly the whitespace around the text: a string
      made of whitespace, then `r` (with no whitespace at either end), then
      whitespace again, strips to `r`. */
  lemma {:induction false} StripIs(s: string, w1: string, r: string, w2: string)
    requires s == w1 + r + w2 && AllSpace(w1) && AllSpace(w2)
    requires r != [] ==> !IsSpace(r[0]) && !IsSpace(r[|r| - 1])
    ensures Strip(s) == r
  {
    if r == [] {
      assert forall k :: 0 <= k < |s| ==> IsSpace(s[k]) by {
        forall k | 0 <= k < |s| ensures IsSpace(s[k]) {
          if k < |w1| { assert s[k] == w1[k]; } else { assert s[k] == w2[k - |w1|]; }
        }
      }
      SkipSpaceIs(s, 0, |s|);
    } else {
      assert s[|w1|] == r[0];
      SkipSpaceIs(s, 0, |w1|);
      var e := |w1| + |r|;
      assert s[e - 1] == r[|r| - 1];
      assert forall k :: e <= k < |s| ==> IsSpace(s[k]) by {
        forall k | e <= k < |s| ensures IsSpace(s[k]) { assert s[k] == w2[k - e]; }
      }
      assert TrimEnd(s, |w1|, |s|) == e by { TrimEndIs(s, |w1|, |s|, e); }
      assert s[|w1|..e] == r;
    }
  }

  lemma {:induction false} TrimEndIs(s: string, lo: nat, hi: nat, j: nat)
    requires lo <= j <= hi <= |s|
    requires forall k :: j <= k < hi ==> IsSpace(s[k])
    requires j > lo ==> !IsSpace(s[j - 1])
    ensures TrimEnd(s, lo, hi) == j
    decreases hi
  {
    if j < hi {
      TrimEndIs(s, lo, hi - 1, j);
    }
  }

  /** A line whose first non-blank character is `#` strips to a string that
      starts with `#`, whatever follows on the line. */
  lemma {:induction false} StripHash(w: string, z: string)
    requires AllSpace(w)
    ensures StartsWith(Strip(w + "#" + z), "#")
  {
    var s := w + "#" + z;
    assert s[|w|] == '#';
    SkipSpaceIs(s, 0, |w|);
    var e := TrimEnd(s, |w|, |s|);
    TrimEndRun(s, |w|, |s|);
    assert e > |w|;
  }

  /** The text after the last newline of `s`: the last element of
      `s.split('\n')`. */
  function LastLine(s: string): (r: string)
    ensures |r| <= |s| && r == s[|s| - |r|..]
    ensures NoNewline(r)
    ensures |r| < |s| ==> s[|s| - |r| - 1] == '\n'
  {
    LineStartRun(s, |s|);
    s[LineStart(s, |s|)..]
  }

  /** A string strips to something starting with `#` exactly when its first
      character that is not whitespace is `#`. */
  lemma {:induction false} StripStartsHash(x: string)
    ensures StartsWith(Strip(x), "#") <==> SkipSpace(x, 0) < |x| && x[SkipSpace(x, 0)] == '#'
  {
    var a := SkipSpace(x, 0);
    if a < |x| {
      TrimEndRun(x, a, |x|);
      var r := Strip(x);
      assert r == x[a..TrimEnd(x, a, |x|)];
      assert |r| > 0 && r[0] == x[a];
      assert |r| > 0 ==> r[..1] == [r[0]];
    }
  }

  /** Greedy `\s*` on a slice `s[lo..hi]` from its start stops where it
      stops on `s` from `lo`, or at the end of the slice. */
  lemma {:induction false} SkipSpaceSlice(s: string, lo: nat, hi: nat)
    requires lo <= hi <= |s|
    ensures SkipSpace(s[lo..hi], 0) == if SkipSpace(s, lo) < hi then SkipSpace(s, lo) - lo else hi - lo
  {
    var w := SkipSpace(s, lo);
    var x := s[lo..hi];
    SkipSpaceRun(s, lo);
    var j := if w < hi then w - lo else hi - lo;
    forall k | 0 <= k < j ensures IsSpace(x[k]) {
      assert x[k] == s[lo + k];
    }
    assert j < |x| ==> x[j] == s[w];
    SkipSpaceIs(x, 0, j);
  }

  /** The text up to `p` holds a newline exactly when the line holding `p`
      is not the first. */
  lemma {:induction false} NewlineUpTo(s: string, p: nat)
    requires p <= |s|
    ensures NoNewline(s[..p]) <==> LineStart(s, p) == 0
  {
    var ls := LineStart(s, p);
    LineStartRun(s, p);
    if ls > 0 {
      assert s[..p][ls - 1] == '\n';
    } else {
      forall i | 0 <= i < p ensures s[..p][i] != '\n' {
        assert s[..p][i] == s[i];
      }
    }
  }

  /** The last line of the text up to `p`, stripped, starts with `#` exactly
      when the first character that is not whitespace on the line holding
      `p` comes before `p` and is `#`. */
  lemma {:induction false} HashLineUpTo(s: string, p: nat)
    requires p <= |s|
    ensures StartsWith(Strip(LastLine(s[..p])), "#")
      <==> SkipSpace(s, LineStart(s, p)) < p && s[SkipSpace(s, LineStart(s, p))] == '#'
  {
    var ls := LineStart(s, p);
    LastLineUpTo(s, p);
    HashSlice(s, ls, p);
  }

  /** The same on any slice of the text. */
  lemma {:induction false} HashSlice(s: string, lo: nat, hi: nat)
    requires lo <= hi <= |s|
    ensures StartsWith(Strip(s[lo..hi]), "#") <==> SkipSpace(s, lo) < hi && s[SkipSpace(s, lo)] == '#'
  {
    var x := s[lo..hi];
    StripStartsHash(x);
    SkipSpaceSlice(s, lo, hi);
    var w := SkipSpace(s, lo);
    assert w < hi ==> x[w - lo] == s[w];
  }

  /** The last line of the text up to `p` starts where the line holding `p` does. */
  lemma {:induction false} LastLineUpTo(s: string, p: nat)
    requires p <= |s|
    ensures LastLine(s[..p]) == s[LineStart(s, p)..p]
  {
    LineStartRun(s, p);
    LineStartIs(s[..p], p, LineStart(s, p));
  }

  /** The last line of `x + y` is that of `y` when `y` holds a newline, and
      the last line of `x` followed by `y` otherwise. */
  lemma {:induction false} LastLineAppend(x: string, y: string)
    ensures !NoNewline(y) ==> LastLine(x + y) == LastLine(y)
    ensures NoNewline(y) ==> LastLine(x + y) == LastLine(x) + y
  {
    var s := x + y;
    if NoNewline(y) {
      var j := LineStart(x, |x|);
      LineStartRun(x, |x|);
      LineStartIs(s, |s|, j);
      assert s[j..] == x[j..] + y;
    } else {
      var j := LineStart(y, |y|);
      LineStartRun(y, |y|);
      assert j > 0;
      assert s[|x| + j - 1] == y[j - 1];
      LineStartIs(s, |s|, |x| + j);
      assert s[|x| + j..] == y[j..];
    }
  }

  /** `s.split('\n')` from index `i`: the pieces between newlines. */
  function SplitFrom(s: string, i: nat): (parts: seq<string>)
    requires i <= |s|
    ensures |parts| >= 1
    decreases |s| - i
  {
    var e := Find(s, i, '\n');
    if e == |s| then [s[i..]] else [s[i..e]] + SplitFrom(s, e + 1)
  }

  /** `s.split('\n')`. Always at least one piece; the empty string gives
      `[""]`. */
  function Split(s: string): (parts: seq<string>)
    ensures |parts| >= 1
  {
    SplitFrom(s, 0)
  }

  /** `'\n'.join(parts)`, the inverse of `Split`. */
  function JoinLines(parts: seq<string>): (s: string)
    requires |parts| >= 1
  {
    if |parts| == 1 then parts[0] else parts[0] + "\n" + JoinLines(parts[1..])
  }

  /** `' '.join(parts)` */
  function JoinSpace(parts: seq<string>): (s: string)
  {
    if |parts| == 0 then [] else if |parts| == 1 then parts[0]
    else parts[0] + " " + JoinSpace(parts[1..])
  }

  /** Splitting at newlines and joining again gives back the text, and no
      piece contains a newline. */
  lemma {:induction false} SplitJoin(s: string)
    ensures JoinLines(Split(s)) == s
    ensures forall k :: 0 <= k < |Split(s)| ==> NoNewline(Split(s)[k])
  {
    SplitFromJoin(s, 0);
  }

  lemma {:induction false} SplitFromJoin(s: string, i: nat)
    requires i <= |s|
    ensures JoinLines(SplitFrom(s, i)) == s[i..]
    ensures forall k :: 0 <= k < |SplitFrom(s, i)| ==> NoNewline(SplitFrom(s, i)[k])
    decreases |s| - i
  {
    var e := Find(s, i, '\n');
    FindRun(s, i, '\n');
    var parts := SplitFrom(s, i);
    assert NoNewline(s[i..e]);
    if e < |s| {
      var rest := SplitFrom(s, e + 1);
      SplitFromJoin(s, e + 1);
      assert parts == [s[i..e]] + rest;
      assert parts[1..] == rest;
      assert JoinLines(parts) == s[i..e] + "\n" + JoinLines(rest);
      assert s[i..] == s[i..e] + "\n" + s[e + 1..];
      forall k | 0 <= k < |parts| ensures NoNewline(parts[k]) {
        if k > 0 { assert parts[k] == rest[k - 1]; }
      }
    }
  }

  /** The last piece of `s.split('\n')` from `i` on is `LastLine(s)`. */
  lemma {:induction false} SplitFromLast(s: string, i: nat)
    requires i <= |s| && (i > 0 ==> s[i - 1] == '\n')
    ensures SplitFrom(s, i)[|SplitFrom(s, i)| - 1] == LastLine(s)
    decreases |s| - i
  {
    var e := Find(s, i, '\n');
    FindRun(s, i, '\n');
    if e == |s| {
      LineStartIs(s, |s|, i);
    } else {
      SplitFromLast(s, e + 1);
    }
  }

  /** `Split(s)` has at least two pieces exactly when `s` holds a newline. */
  lemma {:induction false} SplitMany(s: string)
    ensures |Split(s)| >= 2 <==> !NoNewline(s)
  {
    var e := Find(s, 0, '\n');
    FindRun(s, 0, '\n');
    if e == |s| {
      assert NoNewline(s);
    } else {
      assert s[e] == '\n';
    }
  }

  /** Joining lines that hold no newline and splitting the result again
      gives back the lines: with `SplitJoin`, `Split` and `JoinLines` are
      inverse both ways. */
  lemma {:induction false} JoinSplit(parts: seq<string>)
    requires |parts| >= 1 && forall k :: 0 <= k < |parts| ==> NoNewline(parts[k])
    ensures Split(JoinLines(parts)) == parts
  {
    JoinSplitAt(JoinLines(parts), 0, parts);
  }

  lemma {:induction false} JoinSplitAt(s: string, i: nat, parts: seq<string>)
    requires |parts| >= 1 && forall k :: 0 <= k < |parts| ==> NoNewline(parts[k])
    requires i <= |s| && s[i..] == JoinLines(parts)
    ensures SplitFrom(s, i) == parts
    decreases |parts|
  {
    var x := parts[0];
    assert NoNewline(x);
    if |parts| == 1 {
      SplitAtLast(s, i, x);
    } else {
      var rest := parts[1..];
      var y := JoinLines(rest);
      var i' := i + |x| + 1;
      assert i' <= |s| && s[i'..] == y && SplitFrom(s, i) == [x] + SplitFrom(s, i') by {
        assert s[i..] == x + "\n" + y;
        SplitAtLine(s, i, x, y);
      }
      assert SplitFrom(s, i') == rest by {
        NoNewlineTail(parts);
        JoinSplitAt(s, i', rest);
      }
      assert parts == [x] + rest;
    }
  }

  lemma {:induction false} NoNewlineTail(parts: seq<string>)
    requires |parts| >= 1 && forall k :: 0 <= k < |parts| ==> NoNewline(parts[k])
    ensures forall k :: 0 <= k < |parts[1..]| ==> NoNewline(parts[1..][k])
  {
    assert forall k :: 0 <= k < |parts[1..]| ==> parts[1..][k] == parts[k + 1];
  }

  /** From `i` on, a last line `x` without a newline is one piece. */
  lemma {:induction false} SplitAtLast(s: string, i: nat, x: string)
    requires i <= |s| && s[i..] == x && NoNewline(x)
    ensures SplitFrom(s, i) == [x]
  {
    assert forall k :: i <= k < |s| ==> s[k] == x[k - i];
    FindIs(s, i, |s|, '\n');
  }

  /** From `i` on, a line `x` without a newline followed by a newline and
      `y` is one piece, and the pieces of `y` follow it. */
  lemma {:induction false} SplitAtLine(s: string, i: nat, x: string, y: string)
    requires i <= |s| && s[i..] == x + "\n" + y && NoNewline(x)
    ensures i + |x| + 1 <= |s| && s[i + |x| + 1..] == y
    ensures SplitFrom(s, i) == [x] + SplitFrom(s, i + |x| + 1)
  {
    assert forall k :: i <= k < i + |x| ==> s[k] == s[i..][k - i] == x[k - i];
    assert s[i + |x|] == s[i..][|x|] == '\n';
    FindIs(s, i, i + |x|, '\n');
    assert s[i..i + |x|] == s[i..][..|x|] == x;
    assert s[i + |x| + 1..] == s[i..][|x| + 1..];
  }

  /** Greedy `\s*` from `i` stops at `j` when `s[i..j]` is whitespace and
      `s[j]` is not. */
  lemma {:induction false} SkipSpaceOver(s: string, i: nat, j: nat)
    requires i <= j <= |s| && AllSpace(s[i..j])
    requires j < |s| ==> !IsSpace(s[j])
    ensures SkipSpace(s, i) == j
  {
    assert forall k :: i <= k < j ==> s[k] == s[i..j][k - i];
    SkipSpaceIs(s, i, j);
  }

  /** Greedy `\w*` from `i` stops at `j` when `s[i..j]` is a word and `s[j]`
      is not a word character. */
  lemma {:induction false} SkipWordOver(s: string, i: nat, j: nat)
    requires i <= j <= |s| && IsWord(s[i..j])
    requires j < |s| ==> !IsWordChar(s[j])
    ensures SkipWord(s, i) == j
  {
    assert forall k :: i <= k < j ==> s[k] == s[i..j][k - i];
    SkipWordIs(s, i, j);
  }

  /** The search for `c` from `i` stops at `j` when `s[i..j]` does not hold
      `c` and `s[j]` is `c`. */
  lemma {:induction false} FindOver(s: string, i: nat, j: nat, c: char)
    requires i <= j <= |s| && c !in s[i..j]
    requires j < |s| ==> s[j] == c
    ensures Find(s, i, c) == j
  {
    assert forall k :: i <= k < j ==> s[k] == s[i..j][k - i];
    FindIs(s, i, j, c);
  }

  /** Greedy `\s*` from `i` runs at least over any whitespace slice `s[i..j]`. */
  lemma {:induction false} SkipSpaceMax(s: string, i: nat, j: nat)
    requires i <= j <= |s| && AllSpace(s[i..j])
    ensures j <= SkipSpace(s, i)
    decreases j - i
  {
    if i < j {
      assert s[i] == s[i..j][0];
      assert s[i + 1..j] == s[i..j][1..];
      SkipSpaceMax(s, i + 1, j);
    }
  }

  /** The search for `c` from `i` runs at least over any slice `s[i..j]`
      without `c`. */
  lemma {:induction false} FindMax(s: string, i: nat, j: nat, c: char)
    requires i <= j <= |s| && c !in s[i..j]
    ensures j <= Find(s, i, c)
    decreases j - i
  {
    if i < j {
      assert s[i] == s[i..j][0];
      assert s[i + 1..j] == s[i..j][1..];
      FindMax(s, i + 1, j, c);
    }
  }
}
