/**
  One pass of the annotator: `re.sub` of the field pattern for one key, with
  the callback `replace_with_comment`, over the whole KCL text.

  `re.sub` visits positions from left to right. Where the pattern matches it
  emits the callback's replacement and resumes after the match; elsewhere it
  copies one character and moves on. The callback leaves a match alone when
  the line before it is already a `#` comment, and otherwise puts the
  indentation, `# ` and the comment in front of it. The guard always looks at
  the text as it was when the pass began.
 */
module Annotator {
  import opened Text
  import opened OrderedMaps
  import opened KclPattern

  /** The guard of `replace_with_comment`, on `before`, the text up to the
      start of the match: `before.split('\n')` has at least two pieces and the
      last one, stripped, starts with `#`. */
  predicate AlreadyCommented(before: string) {
    var lines := Split(before);
    |lines| >= 2 && StartsWith(Strip(lines[|lines| - 1]), "#")
  }

  /** The guard in plain words: the text before the match holds a newline and
      its last line is a `#` comment. */
  lemma {:induction false} GuardIsLastLine(before: string)
    ensures AlreadyCommented(before) <==> !NoNewline(before) && StartsWith(Strip(LastLine(before)), "#")
  {
    SplitMany(before);
    SplitFromLast(before, 0);
  }

  /** The guard read on the text itself rather than on `before`: the line
      holding `p` is not the first one, and its first character that is not
      whitespace comes before `p` and is `#`. */
  predicate Guarded(t: string, p: nat)
    requires p <= |t|
  {
    var ls := LineStart(t, p);
    ls > 0 && SkipSpace(t, ls) < p && t[SkipSpace(t, ls)] == '#'
  }

  /** The guard of `replace_with_comment` on the text before `p` is `Guarded(t, p)`. */
  lemma {:induction false} GuardedIs(t: string, p: nat)
    requires p <= |t|
    ensures AlreadyCommented(t[..p]) == Guarded(t, p)
  {
    GuardIsLastLine(t[..p]);
    NewlineUpTo(t, p);
    HashLineUpTo(t, p);
  }

  /** Group 1 of a match at `p`: the newline and the indentation before the key. */
  function Indent(t: string, p: nat): (r: string)
    requires p < |t|
    ensures 0 < |r| && r[0] == t[p] && AllSpace(r[1..])
  {
    SkipSpaceRun(t, p + 1);
    t[p..SkipSpace(t, p + 1)]
  }

  /** What an unguarded match at `p` gets in front of it: its indentation,
      `# ` and the comment. */
  function Piece(t: string, p: nat, c: string): (r: string)
    requires p < |t|
  {
    Indent(t, p) + "# " + c
  }

  /** `replace_with_comment` for comment `c`, called on the match `m` found at
      position `p` of the pass's input `t`. */
  function ReplaceWithComment(t: string, k: string, c: string, p: nat, m: Span): (r: string)
    requires p <= |t| && MatchAt(t, k, p) == Some(m)
    ensures AlreadyCommented(t[..p]) ==> r == t[p..m.end]
    ensures !AlreadyCommented(t[..p]) ==> r == Piece(t, p, c) + t[p..m.end]
  {
    MatchFacts(t, k, p);
    var indent := t[p..m.keyAt];
    var fieldDef := t[m.keyAt..m.end];
    assert t[p..m.end] == indent + fieldDef;
    if AlreadyCommented(t[..p]) then t[p..m.end]
    else (indent + "# " + c) + (indent + fieldDef)
  }

  /** `re.sub` from position `pos` on: the output for `t[pos..]`. */
  function SubFrom(t: string, k: string, c: string, pos: nat): (r: string)
    requires pos <= |t|
    ensures |r| >= |t| - pos
    decreases |t| - pos
  {
    if pos == |t| then []
    else
      match MatchAt(t, k, pos)
      case None => [t[pos]] + SubFrom(t, k, c, pos + 1)
      case Some(m) => ReplaceWithComment(t, k, c, pos, m) + SubFrom(t, k, c, m.end)
  }

  /** One pass: `re.sub(pattern, replace_with_comment, t)` for key `k` and comment `c`. */
  function Sub(t: string, k: string, c: string): (r: string) {
    SubFrom(t, k, c, 0)
  }

  /** `ps` is strictly increasing and lies in `[lo, hi)`. */
  predicate Positions(ps: seq<nat>, lo: nat, hi: nat) {
    ps == [] || (lo <= ps[0] < hi && Positions(ps[1..], ps[0] + 1, hi))
  }

  lemma {:induction false} PositionsWeaken(ps: seq<nat>, lo: nat, lo': nat, hi: nat)
    requires lo' <= lo && Positions(ps, lo, hi)
    ensures Positions(ps, lo', hi)
  {
  }

  /** The positions, from `pos` on, of the matches the pass rewrites: those it
      visits and whose guard does not hold. */
  function Rewritten(t: string, k: string, pos: nat): (ps: seq<nat>)
    requires pos <= |t|
    ensures Positions(ps, pos, |t|)
    decreases |t| - pos
  {
    if pos == |t| then []
    else
      match MatchAt(t, k, pos)
      case None =>
        PositionsWeaken(Rewritten(t, k, pos + 1), pos + 1, pos, |t|);
        Rewritten(t, k, pos + 1)
      case Some(m) =>
        var rest := Rewritten(t, k, m.end);
        PositionsWeaken(rest, m.end, pos + 1, |t|);
        PositionsWeaken(rest, m.end, pos, |t|);
        if Guarded(t, pos) then rest else [pos] + rest
  }

  /** `t[pos..]` with `Piece(t, p, c)` put in front of every position `p` of `ps`. */
  function InsertFrom(t: string, pos: nat, ps: seq<nat>, c: string): (r: string)
    requires pos <= |t| && Positions(ps, pos, |t|)
    decreases |ps|
  {
    if ps == [] then t[pos..]
    else
      PositionsWeaken(ps[1..], ps[0] + 1, ps[0], |t|);
      t[pos..ps[0]] + (Piece(t, ps[0], c) + InsertFrom(t, ps[0], ps[1..], c))
  }

  /** The insertion from `pos` is the text up to the first position, that
      position's piece, and the insertion from there. */
  lemma {:induction false} InsertUnfold(t: string, pos: nat, ps: seq<nat>, c: string)
    requires pos <= |t| && Positions(ps, pos, |t|) && ps != []
    ensures Positions(ps[1..], ps[0], |t|)
    ensures InsertFrom(t, pos, ps, c) == t[pos..ps[0]] + (Piece(t, ps[0], c) + InsertFrom(t, ps[0], ps[1..], c))
  {
    PositionsWeaken(ps[1..], ps[0] + 1, ps[0], |t|);
  }

  /** Starting the insertion earlier only adds the text in between. */
  lemma {:induction false} InsertSkip(t: string, pos: nat, j: nat, ps: seq<nat>, c: string)
    requires pos <= j <= |t| && Positions(ps, j, |t|)
    ensures InsertFrom(t, pos, ps, c) == t[pos..j] + InsertFrom(t, j, ps, c)
  {
    if ps == [] {
      assert t[pos..] == t[pos..j] + t[j..];
    } else {
      var a, b := t[pos..j], t[j..ps[0]];
      var rest := Piece(t, ps[0], c) + InsertFrom(t, ps[0], ps[1..], c);
      assert t[pos..ps[0]] == a + b;
      assert (a + b) + rest == a + (b + rest);
    }
  }

  /** From the start of the text, the first piece goes in after the text
      before it. */
  lemma {:induction false} InsertFirst(t: string, ps: seq<nat>, c: string)
    requires Positions(ps, 0, |t|) && ps != []
    ensures Positions(ps[1..], ps[0], |t|)
    ensures InsertFrom(t, 0, ps, c) == (t[..ps[0]] + Piece(t, ps[0], c)) + InsertFrom(t, ps[0], ps[1..], c)
  {
    PositionsWeaken(ps[1..], ps[0] + 1, ps[0], |t|);
    var a, p, x := t[0..ps[0]], Piece(t, ps[0], c), InsertFrom(t, ps[0], ps[1..], c);
    assert t[..ps[0]] == a;
    assert (a + p) + x == a + (p + x);
  }

  /** A pass copies the text and puts the comment piece in front of each
      rewritten match, and does nothing else. */
  lemma {:induction false} SubIsInsert(t: string, k: string, c: string, pos: nat)
    requires pos <= |t|
    ensures SubFrom(t, k, c, pos) == InsertFrom(t, pos, Rewritten(t, k, pos), c)
    decreases |t| - pos
  {
    if pos < |t| {
      match MatchAt(t, k, pos)
      case None =>
        SubIsInsert(t, k, c, pos + 1);
        SubInsertNone(t, k, c, pos);
      case Some(m) =>
        SubIsInsert(t, k, c, m.end);
        if Guarded(t, pos) {
          SubInsertGuarded(t, k, c, pos);
        } else {
          SubInsertHere(t, k, c, pos);
        }
    }
  }

  /** The step of `SubIsInsert` where no match starts at `pos`, ... */
  lemma {:induction false} SubInsertNone(t: string, k: string, c: string, pos: nat)
    requires pos < |t| && MatchAt(t, k, pos).None?
    requires SubFrom(t, k, c, pos + 1) == InsertFrom(t, pos + 1, Rewritten(t, k, pos + 1), c)
    ensures SubFrom(t, k, c, pos) == InsertFrom(t, pos, Rewritten(t, k, pos), c)
  {
    RewrittenNone(t, k, pos);
    InsertCopy(t, pos, Rewritten(t, k, pos + 1), c);
  }

  /** Starting the insertion one character earlier copies that character. */
  lemma {:induction false} InsertCopy(t: string, pos: nat, ps: seq<nat>, c: string)
    requires pos < |t| && Positions(ps, pos + 1, |t|)
    ensures Positions(ps, pos, |t|)
    ensures InsertFrom(t, pos, ps, c) == [t[pos]] + InsertFrom(t, pos + 1, ps, c)
  {
    PositionsWeaken(ps, pos + 1, pos, |t|);
    InsertSkip(t, pos, pos + 1, ps, c);
    assert t[pos..pos + 1] == [t[pos]];
  }

  /** ... where a guarded match starts there, ... */
  lemma {:induction false} SubInsertGuarded(t: string, k: string, c: string, pos: nat)
    requires pos < |t| && MatchAt(t, k, pos).Some? && Guarded(t, pos)
    requires var e := MatchAt(t, k, pos).value.end;
      SubFrom(t, k, c, e) == InsertFrom(t, e, Rewritten(t, k, e), c)
    ensures SubFrom(t, k, c, pos) == InsertFrom(t, pos, Rewritten(t, k, pos), c)
  {
    var e := MatchAt(t, k, pos).value.end;
    GuardedIs(t, pos);
    RewrittenGuarded(t, k, pos);
    InsertSkip(t, pos, e, Rewritten(t, k, e), c);
  }

  /** ... and where the match there is rewritten. */
  lemma {:induction false} SubInsertHere(t: string, k: string, c: string, pos: nat)
    requires pos < |t| && MatchAt(t, k, pos).Some? && !Guarded(t, pos)
    requires var e := MatchAt(t, k, pos).value.end;
      SubFrom(t, k, c, e) == InsertFrom(t, e, Rewritten(t, k, e), c)
    ensures SubFrom(t, k, c, pos) == InsertFrom(t, pos, Rewritten(t, k, pos), c)
  {
    var e := MatchAt(t, k, pos).value.end;
    var rest := Rewritten(t, k, e);
    GuardedIs(t, pos);
    RewrittenHere(t, k, pos);
    InsertSkip(t, pos, e, rest, c);
    var piece, a, b := Piece(t, pos, c), t[pos..e], InsertFrom(t, e, rest, c);
    assert InsertFrom(t, pos, [pos] + rest, c) == t[pos..pos] + (piece + (a + b));
    assert (piece + a) + b == t[pos..pos] + (piece + (a + b));
  }

  /** Every rewritten position holds a match whose guard does not hold. */
  lemma {:induction false} RewrittenAreMatches(t: string, k: string, pos: nat, p: nat)
    requires pos <= |t| && p in Rewritten(t, k, pos)
    ensures p < |t| && MatchAt(t, k, p).Some? && !Guarded(t, p)
    decreases |t| - pos
  {
    match MatchAt(t, k, pos)
    case None => RewrittenAreMatches(t, k, pos + 1, p);
    case Some(m) =>
      if Guarded(t, pos) || p != pos {
        RewrittenAreMatches(t, k, m.end, p);
      }
  }

  /** One step of the scan: no match at `p`, ... */
  lemma {:induction false} RewrittenNone(t: string, k: string, p: nat)
    requires p < |t| && MatchAt(t, k, p).None?
    ensures Rewritten(t, k, p) == Rewritten(t, k, p + 1)
  {
  }

  /** ... a guarded match at `p`, ... */
  lemma {:induction false} RewrittenGuarded(t: string, k: string, p: nat)
    requires p < |t| && MatchAt(t, k, p).Some? && Guarded(t, p)
    ensures Rewritten(t, k, p) == Rewritten(t, k, MatchAt(t, k, p).value.end)
  {
  }

  /** The same, with the end of the match given. */
  lemma {:induction false} GuardedSkip(t: string, k: string, p: nat, e: nat)
    requires p < |t| && MatchAt(t, k, p).Some? && MatchAt(t, k, p).value.end == e && Guarded(t, p)
    ensures Rewritten(t, k, p) == Rewritten(t, k, e)
  {
  }

  /** ... or a match at `p` that is rewritten. */
  lemma {:induction false} RewrittenHere(t: string, k: string, p: nat)
    requires p < |t| && MatchAt(t, k, p).Some? && !Guarded(t, p)
    ensures Rewritten(t, k, p) == [p] + Rewritten(t, k, MatchAt(t, k, p).value.end)
  {
  }

  /** A match from which the scan rewrites nothing is guarded. */
  lemma {:induction false} UnrewrittenGuarded(t: string, k: string, p: nat)
    requires p < |t| && MatchAt(t, k, p).Some? && Rewritten(t, k, p) == []
    ensures Guarded(t, p)
  {
  }

  /** Where no match starts between `lo` and `hi`, the scan from `lo` reaches
      `hi` without rewriting anything. */
  lemma {:induction false} RewrittenSkip(t: string, k: string, lo: nat, hi: nat)
    requires lo <= hi <= |t|
    requires forall p :: lo <= p < hi ==> MatchAt(t, k, p).None?
    ensures Rewritten(t, k, lo) == Rewritten(t, k, hi)
    decreases hi - lo
  {
    if lo < hi {
      RewrittenNone(t, k, lo);
      RewrittenSkip(t, k, lo + 1, hi);
    }
  }

  /** The first match at or after `pos` is visited, and rewritten unless its
      guard holds. */
  lemma {:induction false} FirstMatchVisited(t: string, k: string, pos: nat, p: nat)
    requires pos <= p < |t| && MatchAt(t, k, p).Some?
    requires forall p' :: pos <= p' < p ==> MatchAt(t, k, p').None?
    ensures var rest := Rewritten(t, k, MatchAt(t, k, p).value.end);
      Rewritten(t, k, pos) == if Guarded(t, p) then rest else [p] + rest
  {
    RewrittenSkip(t, k, pos, p);
  }

  /** A pass rewrites nothing when the pattern for `k` matches nowhere. */
  lemma {:induction false} NoOccurrence(t: string, k: string, c: string)
    requires forall p :: 0 <= p <= |t| ==> MatchAt(t, k, p).None?
    ensures Sub(t, k, c) == t
  {
    RewrittenSkip(t, k, 0, |t|);
    SubIsInsert(t, k, c, 0);
  }

  /** A text is fixed for `k` when a pass for `k` rewrites nothing in it. */
  predicate Fixed(t: string, k: string) {
    Rewritten(t, k, 0) == []
  }

  /** A pass leaves a text that is fixed for its key unchanged, whatever the comment. */
  lemma {:induction false} FixedUnchanged(t: string, k: string, c: string)
    requires Fixed(t, k)
    ensures Sub(t, k, c) == t
  {
    SubIsInsert(t, k, c, 0);
  }

  /** The guard needs a newline before the match, so a match at the first
      newline of the text is annotated even under a `#` line: `before` is
      then the first line alone, and splits into one piece. */
  lemma {:induction false} FirstLineException(c: string)
    ensures Sub("# x\nk?: int", "k", c) == "# x" + ("\n# " + c) + "\nk?: int"
  {
    var t := "# x\nk?: int";
    FirstLineRewritten(t);
    SubIsInsert(t, "k", c, 0);
    assert InsertFrom(t, 0, [3], c) == t[..3] + (Piece(t, 3, c) + t[3..]);
    FirstLinePiece(t, c);
    assert t[..3] == "# x" && t[3..] == "\nk?: int";
  }

  lemma {:induction false} FirstLinePiece(t: string, c: string)
    requires |t| > 4 && t[3] == '\n' && t[4] == 'k'
    ensures Piece(t, 3, c) == "\n# " + c
  {
    SkipSpaceIs(t, 4, 4);
    assert Indent(t, 3) == [t[3]];
  }

  lemma {:induction false} FirstLineRewritten(t: string)
    requires t == "# x\nk?: int"
    ensures Rewritten(t, "k", 0) == [3]
  {
    assert forall p :: 0 <= p < 3 ==> MatchAt(t, "k", p).None?;
    RewrittenSkip(t, "k", 0, 3);
    FieldMatch(t, 3);
    assert LineStart(t, 3) == 0;
    RewrittenHere(t, "k", 3);
  }

  /** In both examples, `\nk?: int` ends the text and is a match. */
  lemma {:induction false} FieldMatch(t: string, p: nat)
    requires p + 8 == |t| && t[p..] == "\nk?: int"
    ensures MatchAt(t, "k", p) == Some(Span(p + 1, |t|))
    ensures Rewritten(t, "k", |t|) == []
  {
    assert t[p] == t[p..][0];
    assert t[p + 1] == t[p..][1];
    SkipSpaceIs(t, p + 1, p + 1);
    assert t[p + 1..p + 4] == t[p..][1..4];
    assert t[p + 4] == t[p..][4] && t[p + 5] == t[p..][5];
    SkipSpaceIs(t, p + 4, p + 5);
    forall j | p + 5 <= j < |t| ensures t[j] != '\n' {
      assert t[j] == t[p..][j - p];
    }
    FindIs(t, p + 5, |t|, '\n');
  }

  /** The documented insertion: a field `bar?: string` indented by two spaces
      gets the comment line (for `The bar value used for X` as for any other
      comment) in front of it, with the same indentation. */
  lemma {:induction false} InsertionExample(c: string)
    ensures Sub("\n  bar?: string", "bar", c) == "\n  # " + c + "\n  bar?: string"
  {
    var t := "\n  bar?: string";
    ExampleRewritten(t);
    SubIsInsert(t, "bar", c, 0);
    assert InsertFrom(t, 0, [0], c) == t[0..0] + (Piece(t, 0, c) + t[0..]);
    ExamplePiece(t, c);
    assert t[0..0] == [] && t[0..] == t;
  }

  /** With the comment of the documented example. */
  lemma {:induction false} InsertionDocumented(c: string)
    requires c == "The bar value used for X"
    ensures Sub("\n  bar?: string", "bar", c) == "\n  # The bar value used for X\n  bar?: string"
  {
    InsertionExample(c);
    DocumentedText(c);
  }

  lemma {:induction false} DocumentedText(c: string)
    requires c == "The bar value used for X"
    ensures "\n  # " + c + "\n  bar?: string" == "\n  # The bar value used for X\n  bar?: string"
  {
  }

  lemma {:induction false} ExamplePiece(t: string, c: string)
    requires t == "\n  bar?: string"
    ensures Piece(t, 0, c) == "\n  # " + c
  {
    SkipSpaceIs(t, 1, 3);
    assert Indent(t, 0) == t[0..3] == "\n  ";
  }

  lemma {:induction false} ExampleRewritten(t: string)
    requires t == "\n  bar?: string"
    ensures Rewritten(t, "bar", 0) == [0]
  {
    SkipSpaceIs(t, 1, 3);
    assert t[3..8] == "bar?:";
    SkipSpaceIs(t, 8, 9);
    FindIs(t, 9, |t|, '\n');
    assert MatchAt(t, "bar", 0) == Some(Span(3, |t|));
    assert LineStart(t, 0) == 0;
    RewrittenHere(t, "bar", 0);
  }

  /** The same lines one line further down are left alone: the `#` line is
      now the last line of a `before` that holds a newline. */
  lemma {:induction false} SecondLineGuarded(c: string)
    ensures Sub("\n# x\nk?: int", "k", c) == "\n# x\nk?: int"
  {
    var t := "\n# x\nk?: int";
    SecondLineFixed(t);
    FixedUnchanged(t, "k", c);
  }

  lemma {:induction false} SecondLineFixed(t: string)
    requires t == "\n# x\nk?: int"
    ensures Rewritten(t, "k", 0) == []
  {
    assert SkipSpace(t, 1) == 1;
    assert MatchAt(t, "k", 0).None?;
    assert forall p :: 1 <= p < 4 ==> MatchAt(t, "k", p).None?;
    RewrittenSkip(t, "k", 1, 4);
    FieldMatch(t, 4);
    assert LineStart(t, 4) == 1;
    assert Guarded(t, 4);
    RewrittenGuarded(t, "k", 4);
  }
}
