/**
  A pass reaches a fixed point at once: after `re.sub` has put a comment in
  front of every unguarded match of a key, a second pass for the same key
  finds every match it visits guarded, so it changes nothing, whatever its
  comment.

  The proof takes the rewritten matches one at a time. Putting the first
  piece in leaves the scan before it as it was (the piece starts with the
  newline the match started with, and the whitespace after that newline now
  runs into a `#`), finds no match inside the piece, finds the match itself
  guarded by the piece, and sees the rest of the text shifted by the
  piece's length. So the pass over the new text rewrites the same matches
  but the first, and puts in the same pieces.
 */
module AnnotatorFixpoint {
  import opened Text
  import opened OrderedMaps
  import opened TextShift
  import opened KclPattern
  import opened Annotator

  // ---------------------------------------------------------------------
  // One piece put in
  // ---------------------------------------------------------------------

  /** `u` is `t` with the comment piece for `c` put in front of position `ip`. */
  predicate PutPiece(t: string, u: string, ip: nat, c: string) {
    ip < |t| && Inserted(t, u, ip, Piece(t, ip, c))
  }

  /** The piece begins with the character it is put in front of, and after
      it the indentation runs into the `#` of the comment. */
  lemma {:induction false} PieceHash(t: string, u: string, ip: nat, c: string)
    requires PutPiece(t, u, ip, c)
    ensures Inserted(t, u, ip, Piece(t, ip, c)) && Agree(t, u, 0, ip + 1)
    ensures var h := ip + |Indent(t, ip)|;
      h < |u| && u[h] == '#' && SkipSpace(u, ip + 1) == h
  {
    var x := Piece(t, ip, c);
    var ind := Indent(t, ip);
    var h := ip + |ind|;
    assert At(u, ip) == x[0] == ind[0] == t[ip];
    assert At(u, h) == x[|ind|] == '#';
    forall j | ip + 1 <= j < h ensures IsSpace(u[j]) {
      assert At(u, j) == x[j - ip] == ind[j - ip] == ind[1..][j - ip - 1];
    }
    SkipSpaceIs(u, ip + 1, h);
  }

  /** After its indentation the piece holds no newline. */
  lemma {:induction false} PieceOneLine(t: string, u: string, ip: nat, c: string)
    requires PutPiece(t, u, ip, c) && NoNewline(c)
    ensures forall y :: ip + |Indent(t, ip)| <= y < ip + |Piece(t, ip, c)| ==> u[y] != '\n'
  {
    var x := Piece(t, ip, c);
    var ind := Indent(t, ip);
    forall y | ip + |ind| <= y < ip + |x| ensures u[y] != '\n' {
      assert At(u, y) == x[y - ip];
      if y - ip >= |ind| + 2 {
        assert x[y - ip] == c[y - ip - |ind| - 2];
      }
    }
  }

  /** No match of a word key starts inside the piece. */
  lemma {:induction false} NoMatchInPiece(t: string, u: string, ip: nat, c: string, k: string, y: nat)
    requires PutPiece(t, u, ip, c) && NoNewline(c) && IsWord(k)
    requires ip <= y < ip + |Piece(t, ip, c)|
    ensures MatchAt(u, k, y).None?
  {
    PieceHash(t, u, ip, c);
    PieceOneLine(t, u, ip, c);
    NoMatchInCommentLine(u, ip, ip + |Indent(t, ip)|, ip + |Piece(t, ip, c)|, k, y);
  }

  /** Text ending in a line of blanks, followed by `# ` and a comment
      without newlines, ends in a comment line. */
  lemma {:induction false} CommentLineGuards(y: string, c: string)
    requires !NoNewline(y) && AllSpace(LastLine(y)) && NoNewline(c)
    ensures AlreadyCommented(y + ("# " + c))
  {
    var tail := "# " + c;
    assert NoNewline(tail) by {
      forall i | 0 <= i < |tail| ensures tail[i] != '\n' {
        if i >= 2 { assert tail[i] == c[i - 2]; }
      }
    }
    LastLineAppend(y, tail);
    var w := LastLine(y);
    assert w + tail == w + "#" + (" " + c);
    StripHash(w, " " + c);
    var j :| 0 <= j < |y| && y[j] == '\n';
    assert (y + tail)[j] == '\n';
    GuardIsLastLine(y + tail);
  }

  /** The text before the comment, with the piece's indentation, ends in a
      line of blanks and holds a newline. */
  lemma {:induction false} IndentLine(t: string, ip: nat)
    requires ip < |t| && t[ip] == '\n'
    ensures var y := t[..ip] + Indent(t, ip); !NoNewline(y) && AllSpace(LastLine(y))
  {
    var ind := Indent(t, ip);
    var y := t[..ip] + ind;
    assert y[ip] == '\n';
    LastLineAppend(t[..ip], ind);
    var w := LastLine(ind);
    forall i | 0 <= i < |w| ensures IsSpace(w[i]) {
      assert w[i] == ind[|ind| - |w| + i] == ind[1..][|ind| - |w| + i - 1];
    }
  }

  /** The match the piece is put in front of is guarded by it: the line
      before the match is now the comment line. */
  lemma {:induction false} PieceGuards(t: string, u: string, ip: nat, c: string)
    requires PutPiece(t, u, ip, c) && t[ip] == '\n' && NoNewline(c)
    ensures Guarded(u, ip + |Piece(t, ip, c)|)
  {
    GuardedIs(u, ip + |Piece(t, ip, c)|);
    PutPieceSplit(t, u, ip, c);
    var y := t[..ip] + Indent(t, ip);
    IndentLine(t, ip);
    CommentLineGuards(y, c);
    assert u[..ip + |Piece(t, ip, c)|] == y + ("# " + c);
  }

  // ---------------------------------------------------------------------
  // The text after the piece: the same scan, shifted
  // ---------------------------------------------------------------------

  /** Every position of `ps`, `n` further along. */
  function Shift(ps: seq<nat>, n: nat): (r: seq<nat>)
    ensures |r| == |ps|
  {
    if ps == [] then [] else [ps[0] + n] + Shift(ps[1..], n)
  }

  lemma {:induction false} PositionsShift(ps: seq<nat>, lo: nat, hi: nat, n: nat)
    requires Positions(ps, lo, hi)
    ensures Positions(Shift(ps, n), lo + n, hi + n)
    decreases |ps|
  {
    if ps != [] {
      PositionsShift(ps[1..], ps[0] + 1, hi, n);
      assert Shift(ps, n)[1..] == Shift(ps[1..], n);
    }
  }

  /** Past a newline at `ip`, the guard reads the same line in the shifted text. */
  lemma {:induction false} GuardShift(t: string, u: string, ip: nat, n: nat, p: nat)
    requires Shifted(t, u, ip, n) && ip < p <= |t| && t[ip] == '\n'
    ensures Guarded(u, p + n) == Guarded(t, p)
  {
    var ls := LineStart(t, p);
    LineStartShift(t, u, ip, n, p);
    SkipSpaceShift(t, u, ip, n, ls);
    var w := SkipSpace(t, ls);
    assert w < p ==> At(u, w + n) == t[w];
  }

  /** Past a newline at `ip`, the pass over the shifted text rewrites the
      same matches, shifted. */
  lemma {:induction false} Align(t: string, u: string, ip: nat, n: nat, k: string, p: nat)
    requires Shifted(t, u, ip, n) && ip < p <= |t| && t[ip] == '\n'
    ensures Rewritten(u, k, p + n) == Shift(Rewritten(t, k, p), n)
    decreases |t| - p
  {
    if p < |t| {
      var q := Resume(t, k, p);
      Align(t, u, ip, n, k, q);
      AlignStep(t, u, ip, n, k, p);
    }
  }

  /** Where the scan goes on after looking at `p`. */
  function Resume(t: string, k: string, p: nat): (q: nat)
    requires p < |t|
    ensures p < q <= |t|
  {
    var m := MatchAt(t, k, p);
    if m.None? then p + 1 else m.value.end
  }

  lemma {:induction false} AlignStep(t: string, u: string, ip: nat, n: nat, k: string, p: nat)
    requires Shifted(t, u, ip, n) && ip < p < |t| && t[ip] == '\n'
    requires var q := Resume(t, k, p); Rewritten(u, k, q + n) == Shift(Rewritten(t, k, q), n)
    ensures Rewritten(u, k, p + n) == Shift(Rewritten(t, k, p), n)
  {
    MatchAtShift(t, u, ip, n, p, k);
    if MatchAt(t, k, p).None? {
      AlignNone(t, u, ip, n, k, p);
    } else {
      GuardShift(t, u, ip, n, p);
      AlignSome(t, u, ip, n, k, p);
    }
  }

  lemma {:induction false} AlignNone(t: string, u: string, ip: nat, n: nat, k: string, p: nat)
    requires Shifted(t, u, ip, n) && ip < p < |t|
    requires MatchAt(t, k, p).None? && MatchAt(u, k, p + n).None?
    requires Rewritten(u, k, p + 1 + n) == Shift(Rewritten(t, k, p + 1), n)
    ensures Rewritten(u, k, p + n) == Shift(Rewritten(t, k, p), n)
  {
    RewrittenNone(t, k, p);
    RewrittenNone(u, k, p + n);
  }

  lemma {:induction false} AlignSome(t: string, u: string, ip: nat, n: nat, k: string, p: nat)
    requires Shifted(t, u, ip, n) && ip < p < |t| && MatchAt(t, k, p).Some?
    requires MatchAt(u, k, p + n) == ShiftSpan(MatchAt(t, k, p), n)
    requires Guarded(u, p + n) == Guarded(t, p)
    requires var e := MatchAt(t, k, p).value.end;
      Rewritten(u, k, e + n) == Shift(Rewritten(t, k, e), n)
    ensures Rewritten(u, k, p + n) == Shift(Rewritten(t, k, p), n)
  {
    var e := MatchAt(t, k, p).value.end;
    assert MatchAt(u, k, p + n).value.end == e + n;
    if Guarded(t, p) {
      AlignGuarded(t, u, k, p, e, n);
    } else {
      AlignHere(t, u, k, p, e, n);
    }
  }

  lemma {:induction false} AlignGuarded(t: string, u: string, k: string, p: nat, e: nat, n: nat)
    requires p < |t| && p + n < |u| && MatchAt(t, k, p).Some? && MatchAt(u, k, p + n).Some?
    requires MatchAt(t, k, p).value.end == e && MatchAt(u, k, p + n).value.end == e + n
    requires Guarded(t, p) && Guarded(u, p + n)
    requires Rewritten(u, k, e + n) == Shift(Rewritten(t, k, e), n)
    ensures Rewritten(u, k, p + n) == Shift(Rewritten(t, k, p), n)
  {
    GuardedSkip(t, k, p, e);
    GuardedSkip(u, k, p + n, e + n);
  }

  lemma {:induction false} AlignHere(t: string, u: string, k: string, p: nat, e: nat, n: nat)
    requires p < |t| && p + n < |u| && MatchAt(t, k, p).Some? && MatchAt(u, k, p + n).Some?
    requires MatchAt(t, k, p).value.end == e && MatchAt(u, k, p + n).value.end == e + n
    requires !Guarded(t, p) && !Guarded(u, p + n)
    requires Rewritten(u, k, e + n) == Shift(Rewritten(t, k, e), n)
    ensures Rewritten(u, k, p + n) == Shift(Rewritten(t, k, p), n)
  {
    RewrittenHere(t, k, p);
    RewrittenHere(u, k, p + n);
    var rest := Rewritten(t, k, e);
    assert ([p] + rest)[1..] == rest;
  }

  /** Past `ip`, the pieces are those of the shifted text. */
  lemma {:induction false} PieceShift(t: string, u: string, ip: nat, n: nat, c: string, p: nat)
    requires Shifted(t, u, ip, n) && ip <= p < |t|
    ensures Piece(u, p + n, c) == Piece(t, p, c)
  {
    SkipSpaceShift(t, u, ip, n, p + 1);
    SliceShift(t, u, ip, n, p, SkipSpace(t, p + 1));
  }

  /** Past `ip`, putting the pieces in the shifted text gives what putting
      them in the text gives. */
  lemma {:induction false} InsertShift(t: string, u: string, ip: nat, n: nat, c: string, pos: nat, ps: seq<nat>)
    requires Shifted(t, u, ip, n) && ip <= pos <= |t| && Positions(ps, pos, |t|)
    ensures Positions(Shift(ps, n), pos + n, |u|)
      && InsertFrom(u, pos + n, Shift(ps, n), c) == InsertFrom(t, pos, ps, c)
    decreases |ps|
  {
    PositionsShift(ps, pos, |t|, n);
    if ps == [] {
      SliceShift(t, u, ip, n, pos, |t|);
      InsertNone(t, u, pos, n, c);
    } else {
      PositionsWeaken(ps[1..], ps[0] + 1, ps[0], |t|);
      InsertShift(t, u, ip, n, c, ps[0], ps[1..]);
      InsertShiftStep(t, u, ip, n, c, pos, ps);
    }
  }

  /** The step of the induction: the first piece and the text before it
      agree, and the rest agrees by hypothesis. */
  lemma {:induction false} InsertShiftStep(t: string, u: string, ip: nat, n: nat, c: string, pos: nat, ps: seq<nat>)
    requires Shifted(t, u, ip, n) && ip <= pos <= |t| && Positions(ps, pos, |t|) && ps != []
    requires Positions(ps[1..], ps[0], |t|) && Positions(Shift(ps[1..], n), ps[0] + n, |u|)
    requires InsertFrom(u, ps[0] + n, Shift(ps[1..], n), c) == InsertFrom(t, ps[0], ps[1..], c)
    ensures Positions(Shift(ps, n), pos + n, |u|)
    ensures InsertFrom(u, pos + n, Shift(ps, n), c) == InsertFrom(t, pos, ps, c)
  {
    PositionsShift(ps, pos, |t|, n);
    assert Shift(ps, n)[1..] == Shift(ps[1..], n);
    PieceShift(t, u, ip, n, c, ps[0]);
    SliceShift(t, u, ip, n, pos, ps[0]);
    InsertCons(t, u, pos, n, c, ps);
  }

  /** With nothing to put in, both insertions copy the rest of the text. */
  lemma {:induction false} InsertNone(t: string, u: string, pos: nat, n: nat, c: string)
    requires pos <= |t| && |u| == |t| + n && u[pos + n..|t| + n] == t[pos..]
    ensures InsertFrom(u, pos + n, [], c) == InsertFrom(t, pos, [], c)
  {
    assert u[pos + n..] == u[pos + n..|t| + n];
  }

  /** The insertions agree when they agree on the text before the first
      position, on its piece and on the rest. */
  lemma {:induction false} InsertCons(t: string, u: string, pos: nat, n: nat, c: string, ps: seq<nat>)
    requires pos <= |t| && ps != [] && Positions(ps, pos, |t|)
    requires Positions(ps[1..], ps[0], |t|)
    requires pos + n <= |u| && Positions(Shift(ps, n), pos + n, |u|)
    requires Shift(ps, n)[0] == ps[0] + n && Positions(Shift(ps, n)[1..], ps[0] + n, |u|)
    requires u[pos + n..ps[0] + n] == t[pos..ps[0]]
    requires Piece(u, ps[0] + n, c) == Piece(t, ps[0], c)
    requires InsertFrom(u, ps[0] + n, Shift(ps, n)[1..], c) == InsertFrom(t, ps[0], ps[1..], c)
    ensures InsertFrom(u, pos + n, Shift(ps, n), c) == InsertFrom(t, pos, ps, c)
  {
    InsertUnfold(u, pos + n, Shift(ps, n), c);
    InsertUnfold(t, pos, ps, c);
  }

  // ---------------------------------------------------------------------
  // Peeling off the first rewritten match
  // ---------------------------------------------------------------------

  /** Up to and including `ip`, a text with the piece put in at `ip` has
      the same guards. */
  lemma {:induction false} GuardBefore(t: string, u: string, ip: nat, x: nat)
    requires Agree(t, u, 0, ip + 1) && x <= ip
    ensures Guarded(u, x) == Guarded(t, x)
  {
    GuardedIs(t, x);
    GuardedIs(u, x);
    forall j | 0 <= j < x ensures u[j] == t[j] {
      assert At(u, j) == t[j];
    }
    assert u[..x] == t[..x];
  }

  /** The scan reaches its first rewritten match, at `ip`, without
      rewriting anything before it. */
  lemma {:induction false} ScanTo(t: string, k: string, x: nat, ip: nat)
    requires x <= ip && x <= |t|
    requires Rewritten(t, k, x) != [] && Rewritten(t, k, x)[0] == ip
    ensures ip <= |t| && Rewritten(t, k, x) == Rewritten(t, k, ip)
    decreases ip - x
  {
    if x < ip {
      if MatchAt(t, k, x).None? {
        RewrittenNone(t, k, x);
        ScanTo(t, k, x + 1, ip);
      } else if Guarded(t, x) {
        RewrittenGuarded(t, k, x);
        ScanTo(t, k, MatchAt(t, k, x).value.end, ip);
      } else {
        assert false;
      }
    }
  }

  /** Before the first rewritten match of `t`, at `ip`, the scan of the text
      with the piece put in at `ip` takes the same steps, and so also
      reaches `ip` rewriting nothing. */
  lemma {:induction false} ScanPrefix(t: string, u: string, ip: nat, c: string, k: string, x: nat)
    requires PutPiece(t, u, ip, c) && IsWord(k) && x <= ip
    requires Rewritten(t, k, x) != [] && Rewritten(t, k, x)[0] == ip
    ensures Rewritten(u, k, x) == Rewritten(u, k, ip)
    decreases ip - x
  {
    if x < ip {
      PrefixStep(t, u, ip, c, k, x);
      ScanPrefix(t, u, ip, c, k, Resume(t, k, x));
    }
  }

  /** One step of the scan before `ip`. */
  lemma {:induction false} PrefixStep(t: string, u: string, ip: nat, c: string, k: string, x: nat)
    requires PutPiece(t, u, ip, c) && IsWord(k) && x < ip
    requires Rewritten(t, k, x) != [] && Rewritten(t, k, x)[0] == ip
    ensures var q := Resume(t, k, x);
      q <= ip && Rewritten(t, k, q) == Rewritten(t, k, x) && Rewritten(u, k, x) == Rewritten(u, k, q)
  {
    RewrittenAreMatches(t, k, x, ip);
    MatchFacts(t, k, ip);
    var h0 := MatchAt(t, k, ip).value.keyAt;
    KeyNotSpace(t, h0, k);
    PieceHash(t, u, ip, c);
    MatchBefore(t, u, ip, h0, ip + |Indent(t, ip)|, k, x);
    if MatchAt(t, k, x).None? {
      RewrittenNone(t, k, x);
      RewrittenNone(u, k, x);
    } else if Guarded(t, x) {
      RewrittenGuarded(t, k, x);
      GuardBefore(t, u, ip, x);
      RewrittenGuarded(u, k, x);
    } else {
      assert false;
    }
  }

  /** The rewritten matches of `t` are its first one, at `ip`, followed by
      those from the end of that match on. */
  lemma {:induction false} FirstRewritten(t: string, k: string, ip: nat)
    requires Rewritten(t, k, 0) != [] && Rewritten(t, k, 0)[0] == ip
    ensures ip < |t| && MatchAt(t, k, ip).Some? && t[ip] == '\n'
    ensures Rewritten(t, k, 0)[1..] == Rewritten(t, k, MatchAt(t, k, ip).value.end)
  {
    RewrittenAreMatches(t, k, 0, ip);
    MatchFacts(t, k, ip);
    ScanTo(t, k, 0, ip);
    RewrittenHere(t, k, ip);
  }

  /** The scan of the new text passes over the piece rewriting nothing, ... */
  lemma {:induction false} OverPiece(t: string, u: string, ip: nat, c: string, k: string)
    requires PutPiece(t, u, ip, c) && IsWord(k) && NoNewline(c)
    ensures ip + |Piece(t, ip, c)| <= |u|
    ensures Rewritten(u, k, ip) == Rewritten(u, k, ip + |Piece(t, ip, c)|)
  {
    NoMatchesInPiece(t, u, ip, c, k);
    RewrittenSkip(u, k, ip, ip + |Piece(t, ip, c)|);
  }

  lemma {:induction false} NoMatchesInPiece(t: string, u: string, ip: nat, c: string, k: string)
    requires PutPiece(t, u, ip, c) && IsWord(k) && NoNewline(c)
    ensures ip + |Piece(t, ip, c)| <= |u|
    ensures forall y :: ip <= y < ip + |Piece(t, ip, c)| ==> MatchAt(u, k, y).None?
  {
    forall y | ip <= y < ip + |Piece(t, ip, c)| ensures MatchAt(u, k, y).None? {
      NoMatchInPiece(t, u, ip, c, k, y);
    }
  }

  /** ... and then over the match the piece guards. */
  lemma {:induction false} OverGuardedMatch(t: string, u: string, ip: nat, c: string, k: string)
    requires PutPiece(t, u, ip, c) && NoNewline(c) && MatchAt(t, k, ip).Some?
    ensures var n := |Piece(t, ip, c)|;
      ip < MatchAt(t, k, ip).value.end
      && Rewritten(u, k, ip + n) == Rewritten(u, k, MatchAt(t, k, ip).value.end + n)
  {
    GuardedAfterPiece(t, u, ip, c, k);
    var n := |Piece(t, ip, c)|;
    GuardedSkip(u, k, ip + n, MatchAt(t, k, ip).value.end + n);
  }

  /** Past the piece, the match is there again, `n` further along, and
      guarded. */
  lemma {:induction false} GuardedAfterPiece(t: string, u: string, ip: nat, c: string, k: string)
    requires PutPiece(t, u, ip, c) && NoNewline(c) && MatchAt(t, k, ip).Some?
    ensures var n := |Piece(t, ip, c)|;
      ip + n < |u| && MatchAt(u, k, ip + n).Some? && Guarded(u, ip + n)
      && MatchAt(u, k, ip + n).value.end == MatchAt(t, k, ip).value.end + n
  {
    MatchFacts(t, k, ip);
    PutShifted(t, u, ip, c);
    PieceGuards(t, u, ip, c);
    MatchEndShift(t, u, ip, |Piece(t, ip, c)|, k);
  }

  /** The match of `t` at `ip` is, in the shifted text, a match at `ip + n`
      ending `n` further along. */
  lemma {:induction false} MatchEndShift(t: string, u: string, ip: nat, n: nat, k: string)
    requires Shifted(t, u, ip, n) && ip < |t| && MatchAt(t, k, ip).Some?
    ensures ip + n < |u| && MatchAt(u, k, ip + n).Some?
    ensures MatchAt(u, k, ip + n).value.end == MatchAt(t, k, ip).value.end + n
  {
    MatchAtShift(t, u, ip, n, ip, k);
  }

  /** Past the piece and the match it guards, the new text's scan rewrites
      the matches of `t` from the end of that match on, shifted. */
  lemma {:induction false} PastPiece(t: string, u: string, ip: nat, c: string, k: string)
    requires PutPiece(t, u, ip, c) && IsWord(k) && NoNewline(c)
    requires MatchAt(t, k, ip).Some?
    ensures var n := |Piece(t, ip, c)|;
      Rewritten(u, k, ip) == Shift(Rewritten(t, k, MatchAt(t, k, ip).value.end), n)
  {
    OverPiece(t, u, ip, c, k);
    OverGuardedMatch(t, u, ip, c, k);
    PieceAlign(t, u, ip, c, k);
  }

  /** Past the match the piece was put in front of, the scans agree, shifted. */
  lemma {:induction false} PieceAlign(t: string, u: string, ip: nat, c: string, k: string)
    requires PutPiece(t, u, ip, c) && MatchAt(t, k, ip).Some?
    ensures var e, n := MatchAt(t, k, ip).value.end, |Piece(t, ip, c)|;
      e + n <= |u| && Rewritten(u, k, e + n) == Shift(Rewritten(t, k, e), n)
  {
    PutShifted(t, u, ip, c);
    AlignPastMatch(t, u, ip, |Piece(t, ip, c)|, k);
  }

  lemma {:induction false} AlignPastMatch(t: string, u: string, ip: nat, n: nat, k: string)
    requires Shifted(t, u, ip, n) && ip < |t| && MatchAt(t, k, ip).Some?
    ensures var e := MatchAt(t, k, ip).value.end;
      e + n <= |u| && Rewritten(u, k, e + n) == Shift(Rewritten(t, k, e), n)
  {
    MatchNewline(t, k, ip);
    Align(t, u, ip, n, k, MatchAt(t, k, ip).value.end);
  }

  /** With the piece put in front of the first rewritten match, the pass
      rewrites the other matches, shifted by the piece's length. */
  lemma {:induction false} PeelFirst(t: string, u: string, ip: nat, c: string, k: string)
    requires PutPiece(t, u, ip, c) && IsWord(k) && NoNewline(c)
    requires Rewritten(t, k, 0) != [] && Rewritten(t, k, 0)[0] == ip
    ensures Rewritten(u, k, 0) == Shift(Rewritten(t, k, 0)[1..], |Piece(t, ip, c)|)
  {
    FirstRewritten(t, k, ip);
    ScanPrefix(t, u, ip, c, k, 0);
    PastPiece(t, u, ip, c, k);
  }

  /** Past `ip`, the text with the piece put in is the text shifted by the
      piece's length. */
  lemma {:induction false} PutShifted(t: string, u: string, ip: nat, c: string)
    requires PutPiece(t, u, ip, c)
    ensures Shifted(t, u, ip, |Piece(t, ip, c)|)
  {
  }

  /** The text with the piece put in is the text shifted past `ip`, with
      the text before `ip` and the piece in front. */
  lemma {:induction false} PutPieceSplit(t: string, u: string, ip: nat, c: string)
    requires PutPiece(t, u, ip, c)
    ensures var n := |Piece(t, ip, c)|;
      Shifted(t, u, ip, n) && u[..ip + n] == t[..ip] + Piece(t, ip, c)
  {
    var x := Piece(t, ip, c);
    forall j | 0 <= j < ip + |x| ensures u[..ip + |x|][j] == (t[..ip] + x)[j] {
      if j < ip {
        assert At(u, j) == t[j];
      } else {
        assert At(u, j) == x[j - ip];
      }
    }
  }

  /** Putting the pieces in front of `ps` is putting the first one in and
      then the others, shifted, in the new text, given that past the piece
      the insertions agree. */
  lemma {:induction false} InsertPeel(t: string, u: string, ip: nat, n: nat, c: string, ps: seq<nat>)
    requires ip < |t| && n == |Piece(t, ip, c)| && |u| == |t| + n
    requires u[..ip + n] == t[..ip] + Piece(t, ip, c)
    requires Positions(ps, 0, |t|) && ps != [] && ps[0] == ip
    requires Positions(ps[1..], ip, |t|) && Positions(Shift(ps[1..], n), ip + n, |u|)
    requires InsertFrom(u, ip + n, Shift(ps[1..], n), c) == InsertFrom(t, ip, ps[1..], c)
    ensures Positions(Shift(ps[1..], n), 0, |u|)
    ensures InsertFrom(u, 0, Shift(ps[1..], n), c) == InsertFrom(t, 0, ps, c)
  {
    var sps := Shift(ps[1..], n);
    PositionsWeaken(sps, ip + n, 0, |u|);
    calc {
      InsertFrom(u, 0, sps, c);
      == { InsertSkip(u, 0, ip + n, sps, c); }
      u[0..ip + n] + InsertFrom(u, ip + n, sps, c);
      == { assert u[0..ip + n] == u[..ip + n]; }
      (t[..ip] + Piece(t, ip, c)) + InsertFrom(t, ip, ps[1..], c);
      == { InsertFirst(t, ps, c); }
      InsertFrom(t, 0, ps, c);
    }
  }

  /** Putting the first piece in by hand and then running the pass gives
      what the pass gives on the original text. */
  lemma {:induction false} PeelSub(t: string, u: string, ip: nat, c: string, k: string)
    requires PutPiece(t, u, ip, c) && IsWord(k) && NoNewline(c)
    requires Rewritten(t, k, 0) != [] && Rewritten(t, k, 0)[0] == ip
    ensures Sub(u, k, c) == Sub(t, k, c)
  {
    var n := |Piece(t, ip, c)|;
    var ps := Rewritten(t, k, 0);
    PeelFirst(t, u, ip, c, k);
    PutPieceSplit(t, u, ip, c);
    PositionsWeaken(ps[1..], ip + 1, ip, |t|);
    InsertShift(t, u, ip, n, c, ip, ps[1..]);
    InsertPeel(t, u, ip, n, c, ps);
    SubIsInsert(t, k, c, 0);
    SubIsInsert(u, k, c, 0);
  }

  /** After a pass for `k` with a comment that holds no newline, the text is
      fixed for `k`: every match a second pass visits is guarded. */
  lemma {:induction false} SubFixes(t: string, k: string, c: string)
    requires IsWord(k) && NoNewline(c)
    ensures Fixed(Sub(t, k, c), k)
    decreases |Rewritten(t, k, 0)|
  {
    var ps := Rewritten(t, k, 0);
    if ps == [] {
      FixedUnchanged(t, k, c);
    } else {
      var ip := ps[0];
      FirstRewritten(t, k, ip);
      var u := t[..ip] + Piece(t, ip, c) + t[ip..];
      InsertedBuilt(t, ip, Piece(t, ip, c));
      PeelFirst(t, u, ip, c, k);
      PeelSub(t, u, ip, c, k);
      SubFixes(u, k, c);
    }
  }

  /** A second pass for the same key changes nothing, whatever its comment:
      with the same comment this is idempotence, and for a key that several
      structs share it means the comment of the first pass stays. */
  lemma {:induction false} SecondPassUnchanged(t: string, k: string, c1: string, c2: string)
    requires IsWord(k) && NoNewline(c1)
    ensures Sub(Sub(t, k, c1), k, c2) == Sub(t, k, c1)
  {
    SubFixes(t, k, c1);
    FixedUnchanged(Sub(t, k, c1), k, c2);
  }
}
