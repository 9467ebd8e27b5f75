/**
  Two texts that agree from some point on, one of them `n` characters further
  along: `u[j] == t[j - n]` for every `j` from `a + n` to the end of `u`.
  Putting a comment line in front of a match leaves the text after it shifted
  like this, and every scanner gives shifted answers there.
 */
module TextShift {
  import opened Text

  /** The character at `j`. The quantifiers below are instantiated on this
      term only, so that they are used where a proof names it. */
  function At(s: string, j: int): (ch: char)
    requires 0 <= j < |s|
  {
    s[j]
  }

  predicate Shifted(t: string, u: string, a: nat, n: nat) {
    a <= |t| && |u| == |t| + n
    && forall j {:trigger At(u, j)} :: a + n <= j < |u| ==> At(u, j) == t[j - n]
  }

  /** `u` is `t` with `x` put in at position `a`. */
  predicate Inserted(t: string, u: string, a: nat, x: string) {
    a <= |t| && |u| == |t| + |x|
    && (forall j {:trigger At(u, j)} :: 0 <= j < a ==> At(u, j) == t[j])
    && (forall j {:trigger At(u, j)} :: a <= j < a + |x| ==> At(u, j) == x[j - a])
    && Shifted(t, u, a, |x|)
  }

  /** The text built by putting `x` in at `a` is such an insertion. */
  lemma {:induction false} InsertedBuilt(t: string, a: nat, x: string)
    requires a <= |t|
    ensures Inserted(t, t[..a] + x + t[a..], a, x)
  {
  }

  lemma {:induction false} SkipSpaceShift(t: string, u: string, a: nat, n: nat, i: nat)
    requires Shifted(t, u, a, n) && a <= i <= |t|
    ensures SkipSpace(u, i + n) == SkipSpace(t, i) + n
  {
    var j := SkipSpace(t, i);
    SkipSpaceRun(t, i);
    assert forall k :: i + n <= k < j + n ==> IsSpace(u[k]) by {
      forall k | i + n <= k < j + n ensures IsSpace(u[k]) {
        assert At(u, k) == t[k - n];
      }
    }
    if j < |t| {
      assert At(u, j + n) == t[j];
    }
    SkipSpaceIs(u, i + n, j + n);
  }

  lemma {:induction false} FindShift(t: string, u: string, a: nat, n: nat, i: nat, c: char)
    requires Shifted(t, u, a, n) && a <= i <= |t|
    ensures Find(u, i + n, c) == Find(t, i, c) + n
  {
    var j := Find(t, i, c);
    FindRun(t, i, c);
    assert forall k :: i + n <= k < j + n ==> u[k] != c by {
      forall k | i + n <= k < j + n ensures u[k] != c {
        assert At(u, k) == t[k - n];
      }
    }
    if j < |t| {
      assert At(u, j + n) == t[j];
    }
    FindIs(u, i + n, j + n, c);
  }

  /** Trimming the trailing newlines of the text gives a shifted answer. */
  lemma {:induction false} TrimNewlinesShift(t: string, u: string, a: nat, n: nat, lo: nat, hi: nat)
    requires Shifted(t, u, a, n) && a <= lo <= hi <= |t|
    ensures TrimNewlines(u, lo + n, hi + n) == TrimNewlines(t, lo, hi) + n
    decreases hi - lo
  {
    if lo < hi {
      assert At(u, hi + n - 1) == t[hi - 1];
      TrimNewlinesShift(t, u, a, n, lo, hi - 1);
    }
  }

  /** A whitespace run that begins inside another ends where it does. */
  lemma {:induction false} SkipSpaceFrom(s: string, i: nat, j: nat)
    requires i <= |s| && i <= j <= SkipSpace(s, i)
    ensures SkipSpace(s, j) == SkipSpace(s, i)
  {
    SkipSpaceRun(s, i);
    SkipSpaceIs(s, j, SkipSpace(s, i));
  }

  /** Where the line holding position `p` starts, in the shifted text. */
  lemma {:induction false} LineStartShift(t: string, u: string, a: nat, n: nat, p: nat)
    requires Shifted(t, u, a, n) && a < p <= |t| && t[a] == '\n'
    ensures LineStart(t, p) > a
    ensures LineStart(u, p + n) == LineStart(t, p) + n
  {
    var j := LineStart(t, p);
    LineStartRun(t, p);
    assert forall k :: j + n <= k < p + n ==> u[k] != '\n' by {
      forall k | j + n <= k < p + n ensures u[k] != '\n' {
        assert At(u, k) == t[k - n];
      }
    }
    assert At(u, j + n - 1) == t[j - 1];
    LineStartIs(u, p + n, j + n);
  }

  /** `s` and `u` hold the same characters at every index of `[lo, hi)`. */
  predicate Agree(s: string, u: string, lo: nat, hi: nat) {
    lo <= hi <= |s| && hi <= |u| && forall j {:trigger At(u, j)} :: lo <= j < hi ==> At(u, j) == s[j]
  }

  /** A greedy `\s*` that stops inside a stretch where two texts agree stops
      at the same place in both. */
  lemma {:induction false} SkipSpaceAgree(s: string, u: string, i: nat, hi: nat)
    requires i <= hi && Agree(s, u, i, hi) && SkipSpace(s, i) < hi
    ensures SkipSpace(u, i) == SkipSpace(s, i)
  {
    var j := SkipSpace(s, i);
    SkipSpaceRun(s, i);
    assert forall k :: i <= k < j ==> IsSpace(u[k]) by {
      forall k | i <= k < j ensures IsSpace(u[k]) {
        assert At(u, k) == s[k];
      }
    }
    assert At(u, j) == s[j];
    SkipSpaceIs(u, i, j);
  }

  /** The same for the search for a character. */
  lemma {:induction false} FindAgree(s: string, u: string, i: nat, hi: nat, c: char)
    requires i <= hi && Agree(s, u, i, hi) && Find(s, i, c) < hi
    ensures Find(u, i, c) == Find(s, i, c)
  {
    var j := Find(s, i, c);
    FindRun(s, i, c);
    assert forall k :: i <= k < j ==> u[k] != c by {
      forall k | i <= k < j ensures u[k] != c {
        assert At(u, k) == s[k];
      }
    }
    assert At(u, j) == s[j];
    FindIs(u, i, j, c);
  }

  /** Greedy `\s*` runs over whitespace: started anywhere in a stretch of
      whitespace, it ends where it ends when started at the stretch's end. */
  lemma {:induction false} SkipSpaceAcross(s: string, i: nat, j: nat)
    requires i <= j <= |s|
    requires forall k :: i <= k < j ==> IsSpace(s[k])
    ensures SkipSpace(s, i) == SkipSpace(s, j)
    decreases j - i
  {
    if i < j {
      SkipSpaceAcross(s, i + 1, j);
    }
  }

  /** Greedy `\s*` stops no later than the first character that is not
      whitespace. */
  lemma {:induction false} SkipSpaceStops(s: string, i: nat, j: nat)
    requires i <= j < |s| && !IsSpace(s[j])
    ensures SkipSpace(s, i) <= j
    decreases j - i
  {
    if i < j && IsSpace(s[i]) {
      SkipSpaceStops(s, i + 1, j);
    }
  }

  /** Past `a`, a slice of the shifted text is the slice `n` before it. */
  lemma {:induction false} SliceShift(t: string, u: string, a: nat, n: nat, lo: nat, hi: nat)
    requires Shifted(t, u, a, n) && a <= lo <= hi <= |t|
    ensures u[lo + n..hi + n] == t[lo..hi]
  {
    forall i | 0 <= i < hi - lo ensures u[lo + n..hi + n][i] == t[lo..hi][i] {
      assert At(u, lo + n + i) == t[lo + n + i - n];
    }
  }
}
