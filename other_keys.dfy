/**
  A pass for one key keeps a text fixed for every other key: a match of
  another key that the scan found guarded stays guarded, and the pieces put
  in front of the pass's own matches hold no new match of the other key.

  The proof again puts the pieces in one at a time. Before a piece the scans
  agree, except where a match of the other key runs on across the newline the
  piece goes in front of (its `\s*` crosses blank lines and its `[^\n]+` is
  the pass key's line); in the new text that match stops at the end of the
  comment line instead, still guarded, and the scan picks up after the piece
  as the old scan did after that line.
 */
module AnnotatorOtherKeys {
  import opened Text
  import opened OrderedMaps
  import opened TextShift
  import opened KclPattern
  import opened Annotator
  import opened AnnotatorFixpoint

  /** The setting of this module: `u` is `t` with the piece for comment `c`
      put in front of a match of key `k'` at `ip`, and `k` is another key. */
  predicate OtherSetting(t: string, u: string, ip: nat, c: string, k: string, k': string) {
    PutPiece(t, u, ip, c) && NoNewline(c) && IsWord(k) && IsWord(k') && k != k'
    && MatchAt(t, k', ip).Some?
  }

  /** From a match of `k'` at `ip` to the end of the line holding its key,
      no match of another word key starts: every newline there is followed
      by blanks and the key `k'`. */
  lemma {:induction false} NoOtherKeyNear(t: string, k: string, k': string, ip: nat, y: nat)
    requires IsWord(k) && IsWord(k') && k != k'
    requires ip <= |t| && MatchAt(t, k', ip).Some?
    requires ip <= y < Find(t, SkipSpace(t, ip + 1), '\n')
    ensures MatchAt(t, k, y).None?
  {
    MatchFacts(t, k', ip);
    var h0 := SkipSpace(t, ip + 1);
    FindRun(t, h0, '\n');
    if t[y] == '\n' && y < h0 {
      if y > ip {
        SkipSpaceFrom(t, ip + 1, y + 1);
      }
      if KeyAt(t, h0, k) {
        KeyUnique(t, h0, k, k');
      }
    }
  }

  /** A `\s*[^\n]+` from `r` whose line runs past a newline at `ip` has
      crossed it: its `\s*` runs over `ip` and stops where one started after
      `ip` stops. */
  lemma {:induction false} RunAcrossNewline(t: string, r: nat, ip: nat)
    requires r <= ip < |t| && t[ip] == '\n'
    requires SkipSpace(t, r) < |t| && Find(t, SkipSpace(t, r), '\n') > ip
    ensures ip < SkipSpace(t, r) && SkipSpace(t, ip + 1) == SkipSpace(t, r)
  {
    var w := SkipSpace(t, r);
    if w <= ip {
      FindRun(t, w, '\n');
    } else {
      SkipSpaceFrom(t, r, ip + 1);
    }
  }

  /** In `t`, a match of `k` before `ip` that runs past `ip` has its key
      before `ip`, followed by nothing but blanks up to the key `k'`, and
      ends with the line of `k'`. */
  lemma {:induction false} SpanningInOld(t: string, ip: nat, k: string, k': string, x: nat)
    requires IsWord(k) && IsWord(k') && k != k' && ip <= |t| && MatchAt(t, k', ip).Some?
    requires x < ip && MatchAt(t, k, x).Some? && MatchAt(t, k, x).value.end > ip
    ensures var q, h0 := MatchAt(t, k, x).value.keyAt, SkipSpace(t, ip + 1);
      q < ip && q + |k| + 2 <= ip && h0 < |t|
      && SkipSpace(t, q + |k| + 2) == h0
      && MatchAt(t, k, x).value.end == Find(t, h0, '\n')
  {
    var m := MatchAt(t, k, x).value;
    MatchFacts(t, k', ip);
    MatchFacts(t, k, x);
    SpanningFacts(t, ip, k, k', x, m.keyAt, m.end);
  }

  /** The same, on the facts a match spells out. */
  lemma {:induction false} SpanningFacts(t: string, ip: nat, k: string, k': string, x: nat, q: nat, e: nat)
    requires IsWord(k) && IsWord(k') && k != k' && ip < |t| && t[ip] == '\n'
    requires KeyAt(t, SkipSpace(t, ip + 1), k')
    requires x < ip && q == SkipSpace(t, x + 1) && KeyAt(t, q, k)
    requires FieldDefEnd(t, q + |k| + 2) == Some(e) && e > ip
    ensures var h0 := SkipSpace(t, ip + 1);
      q < ip && q + |k| + 2 <= ip && h0 < |t|
      && SkipSpace(t, q + |k| + 2) == h0 && e == Find(t, h0, '\n')
  {
    var h0 := SkipSpace(t, ip + 1);
    KeyNotSpace(t, q, k);
    KeyBeforeNewline(t, ip, k, k', x, q);
    var r := q + |k| + 2;
    KeyNotSpace(t, h0, k');
    SkipSpaceStops(t, r, h0);
    RunAcrossNewline(t, r, ip);
  }

  /** The key of a match of `k` before `ip` is not the key `k'` after `ip`,
      so it stands before `ip`, and `<k>?:` ends by `ip`. */
  lemma {:induction false} KeyBeforeNewline(t: string, ip: nat, k: string, k': string, x: nat, q: nat)
    requires IsWord(k) && IsWord(k') && k != k' && ip < |t| && t[ip] == '\n'
    requires KeyAt(t, SkipSpace(t, ip + 1), k')
    requires x < ip && q == SkipSpace(t, x + 1) && KeyAt(t, q, k) && !IsSpace(t[q])
    ensures q < ip && q + |k| + 2 <= ip
  {
    if q > ip {
      SkipSpaceFrom(t, x + 1, ip + 1);
      KeyUnique(t, q, k, k');
    }
    KeyAtBefore(t, t, ip, q, k);
  }

  /** Before `ip` a text that agrees with `t` up to `ip` has the same
      newline, blanks and key. */
  lemma {:induction false} SpanningKeyNew(t: string, u: string, ip: nat, k: string, x: nat, q: nat)
    requires Agree(t, u, 0, ip + 1) && IsWord(k) && t[ip] == '\n'
    requires x < q < ip && t[x] == '\n' && SkipSpace(t, x + 1) == q && KeyAt(t, q, k)
    ensures u[x] == '\n' && SkipSpace(u, x + 1) == q && KeyAt(u, q, k)
  {
    KeyAtBefore(t, u, ip, q, k);
    SkipSpaceAgree(t, u, x + 1, ip + 1);
    assert At(u, x) == t[x];
  }

  /** A `\s*[^\n]+` from `r` that ran over the newline at `ip` stops, in a
      text that agrees up to `ip` and then has blanks up to a line `[h, e)`,
      at the end of that line. */
  lemma {:induction false} SpanningFieldNew(t: string, u: string, ip: nat, h: nat, e: nat, r: nat)
    requires Agree(t, u, 0, ip + 1) && t[ip] == '\n'
    requires ip < h < e < |u| && SkipSpace(u, ip + 1) == h && u[e] == '\n'
    requires forall j :: h <= j < e ==> u[j] != '\n'
    requires r <= ip && SkipSpace(t, r) > ip
    ensures FieldDefEnd(u, r) == Some(e)
  {
    SkipSpaceRun(t, r);
    assert forall j :: r <= j < ip + 1 ==> IsSpace(u[j]) by {
      forall j | r <= j < ip + 1 ensures IsSpace(u[j]) {
        assert At(u, j) == t[j];
      }
    }
    SkipSpaceAcross(u, r, ip + 1);
    FindIs(u, h, e, '\n');
  }

  /** In `u`, the same match stops at the end of the comment line the piece
      puts in. */
  lemma {:induction false} SpanningInNew(t: string, u: string, ip: nat, c: string, k: string, x: nat, q: nat)
    requires PutPiece(t, u, ip, c) && NoNewline(c) && IsWord(k) && t[ip] == '\n'
    requires x < q < ip && q + |k| + 2 <= ip && t[x] == '\n' && SkipSpace(t, x + 1) == q
    requires KeyAt(t, q, k) && SkipSpace(t, q + |k| + 2) > ip
    ensures MatchAt(u, k, x) == Some(Span(q, ip + |Piece(t, ip, c)|))
  {
    var n := |Piece(t, ip, c)|;
    PieceHash(t, u, ip, c);
    PieceOneLine(t, u, ip, c);
    assert At(u, ip + n) == t[ip];
    SpanningKeyNew(t, u, ip, k, x, q);
    SpanningFieldNew(t, u, ip, ip + |Indent(t, ip)|, ip + n, q + |k| + 2);
  }

  /** A match of `k` that runs past `ip` in `t` keeps its key in `u` and ends
      with the comment line there; in `t` it ends with the line of `k'`. */
  lemma {:induction false} SpanningMatch(t: string, u: string, ip: nat, c: string, k: string, k': string, x: nat)
    requires OtherSetting(t, u, ip, c, k, k')
    requires x < ip && MatchAt(t, k, x).Some? && MatchAt(t, k, x).value.end > ip
    ensures MatchAt(t, k, x).value.end == Find(t, SkipSpace(t, ip + 1), '\n')
    ensures MatchAt(u, k, x) == Some(Span(MatchAt(t, k, x).value.keyAt, ip + |Piece(t, ip, c)|))
  {
    SpanningInOld(t, ip, k, k', x);
    MatchFacts(t, k, x);
    MatchFacts(t, k', ip);
    SpanningInNew(t, u, ip, c, k, x, MatchAt(t, k, x).value.keyAt);
  }

  /** Past the piece, a text whose scan for `k` from `ip` rewrites nothing
      and finds no match at `ip` rewrites nothing either. */
  lemma {:induction false} OtherAfterPiece(t: string, u: string, ip: nat, n: nat, k: string)
    requires Shifted(t, u, ip, n) && ip < |t| && t[ip] == '\n'
    requires MatchAt(t, k, ip).None? && Rewritten(t, k, ip) == []
    ensures Rewritten(u, k, ip + n) == []
  {
    MatchAtShift(t, u, ip, n, ip, k);
    RewrittenNone(t, k, ip);
    RewrittenNone(u, k, ip + n);
    Align(t, u, ip, n, k, ip + 1);
  }

  /** From the piece on, the scan for `k` of the new text rewrites nothing
      when that of `t` rewrites nothing from `ip` on. */
  lemma {:induction false} OtherAtPiece(t: string, u: string, ip: nat, c: string, k: string, k': string)
    requires OtherSetting(t, u, ip, c, k, k') && Rewritten(t, k, ip) == []
    ensures Rewritten(u, k, ip) == [] && Rewritten(u, k, ip + |Piece(t, ip, c)|) == []
  {
    NoOtherAtMatch(t, ip, k, k');
    OtherPastPiece(t, u, ip, c, k);
    OverPiece(t, u, ip, c, k);
  }

  /** Past the piece, the new text's scan for `k` rewrites nothing when that
      of `t` rewrites nothing from the newline at `ip`, where no match of `k`
      starts. */
  lemma {:induction false} OtherPastPiece(t: string, u: string, ip: nat, c: string, k: string)
    requires PutPiece(t, u, ip, c) && t[ip] == '\n'
    requires MatchAt(t, k, ip).None? && Rewritten(t, k, ip) == []
    ensures Rewritten(u, k, ip + |Piece(t, ip, c)|) == []
  {
    PutShifted(t, u, ip, c);
    OtherAfterPiece(t, u, ip, |Piece(t, ip, c)|, k);
  }

  /** No match of another key starts where a match of `k'` does. */
  lemma {:induction false} NoOtherAtMatch(t: string, ip: nat, k: string, k': string)
    requires IsWord(k) && IsWord(k') && k != k' && ip <= |t| && MatchAt(t, k', ip).Some?
    ensures ip < |t| && t[ip] == '\n' && MatchAt(t, k, ip).None?
  {
    MatchFacts(t, k', ip);
    KeyNotSpace(t, SkipSpace(t, ip + 1), k');
    FindRun(t, SkipSpace(t, ip + 1), '\n');
    NoOtherKeyNear(t, k, k', ip, ip);
  }

  /** A guarded match of `k` that runs past `ip`: in the new text it ends
      with the comment line, is still guarded, and the scan goes on with
      nothing rewritten. */
  lemma {:induction false} OtherSpanning(t: string, u: string, ip: nat, c: string, k: string, k': string, x: nat)
    requires OtherSetting(t, u, ip, c, k, k')
    requires x < ip && Rewritten(t, k, x) == []
    requires MatchAt(t, k, x).Some? && MatchAt(t, k, x).value.end > ip
    ensures Rewritten(u, k, x) == []
  {
    OldScanPastSpan(t, ip, k, k', x);
    UnrewrittenGuarded(t, k, x);
    OtherAtPiece(t, u, ip, c, k, k');
    SpanningGuarded(t, u, ip, c, k, k', x);
  }

  /** In the new text such a match is still guarded and ends at the piece's
      end, so when nothing is rewritten past the piece, nothing is from it. */
  lemma {:induction false} SpanningGuarded(t: string, u: string, ip: nat, c: string, k: string, k': string, x: nat)
    requires OtherSetting(t, u, ip, c, k, k')
    requires x < ip && MatchAt(t, k, x).Some? && MatchAt(t, k, x).value.end > ip && Guarded(t, x)
    requires Rewritten(u, k, ip + |Piece(t, ip, c)|) == []
    ensures Rewritten(u, k, x) == []
  {
    SpanningMatch(t, u, ip, c, k, k', x);
    PutAgree(t, u, ip, c);
    GuardBefore(t, u, ip, x);
    GuardedStep(u, k, x, ip + |Piece(t, ip, c)|);
  }

  /** A guarded match whose end the scan goes on from without rewriting
      anything is not rewritten either. */
  lemma {:induction false} GuardedStep(u: string, k: string, x: nat, e: nat)
    requires x < |u| && MatchAt(u, k, x).Some? && MatchAt(u, k, x).value.end == e
    requires Guarded(u, x) && Rewritten(u, k, e) == []
    ensures Rewritten(u, k, x) == []
  {
    RewrittenGuarded(u, k, x);
  }

  /** In `t`, the scan passes over such a match and then over the rest of
      the line of `k'`, so nothing is rewritten from `ip` on either. */
  lemma {:induction false} OldScanPastSpan(t: string, ip: nat, k: string, k': string, x: nat)
    requires IsWord(k) && IsWord(k') && k != k' && ip <= |t| && MatchAt(t, k', ip).Some?
    requires x < ip && Rewritten(t, k, x) == []
    requires MatchAt(t, k, x).Some? && MatchAt(t, k, x).value.end > ip
    ensures Rewritten(t, k, ip) == []
  {
    var e := MatchAt(t, k, x).value.end;
    SpanningInOld(t, ip, k, k', x);
    RewrittenGuarded(t, k, x);
    NoOtherKeysNear(t, k, k', ip, e);
    RewrittenSkip(t, k, ip, e);
  }

  /** The text with the piece put in agrees with `t` up to `ip`. */
  lemma {:induction false} PutAgree(t: string, u: string, ip: nat, c: string)
    requires PutPiece(t, u, ip, c)
    ensures Agree(t, u, 0, ip + 1)
  {
    PieceHash(t, u, ip, c);
  }

  lemma {:induction false} NoOtherKeysNear(t: string, k: string, k': string, ip: nat, e: nat)
    requires IsWord(k) && IsWord(k') && k != k'
    requires ip <= |t| && MatchAt(t, k', ip).Some?
    requires ip <= e <= Find(t, SkipSpace(t, ip + 1), '\n')
    ensures e <= |t|
    ensures forall y :: ip <= y < e ==> MatchAt(t, k, y).None?
  {
    forall y | ip <= y < e ensures MatchAt(t, k, y).None? {
      NoOtherKeyNear(t, k, k', ip, y);
    }
  }

  /** One step of the scan for `k` before `ip`, over no match or a guarded
      match that ends by `ip`: the new text takes the same step. */
  lemma {:induction false} OtherStep(t: string, u: string, ip: nat, c: string, k: string, k': string, x: nat)
    requires OtherSetting(t, u, ip, c, k, k')
    requires x < ip && Rewritten(t, k, x) == []
    requires MatchAt(t, k, x).Some? ==> MatchAt(t, k, x).value.end <= ip
    ensures var q := Resume(t, k, x);
      q <= ip && Rewritten(t, k, q) == [] && Rewritten(u, k, x) == Rewritten(u, k, q)
  {
    MatchFacts(t, k', ip);
    var h0 := MatchAt(t, k', ip).value.keyAt;
    KeyNotSpace(t, h0, k');
    PieceHash(t, u, ip, c);
    MatchBefore(t, u, ip, h0, ip + |Indent(t, ip)|, k, x);
    if MatchAt(t, k, x).None? {
      RewrittenNone(t, k, x);
      RewrittenNone(u, k, x);
    } else {
      RewrittenGuarded(t, k, x);
      GuardBefore(t, u, ip, x);
      RewrittenGuarded(u, k, x);
    }
  }

  /** Where the scan of `t` for `k` rewrites nothing from `x` on, neither
      does that of the new text. */
  lemma {:induction false} OtherPrefix(t: string, u: string, ip: nat, c: string, k: string, k': string, x: nat)
    requires OtherSetting(t, u, ip, c, k, k')
    requires x <= ip && Rewritten(t, k, x) == []
    ensures Rewritten(u, k, x) == []
    decreases ip - x
  {
    if x == ip {
      OtherAtPiece(t, u, ip, c, k, k');
    } else if MatchAt(t, k, x).Some? && MatchAt(t, k, x).value.end > ip {
      OtherSpanning(t, u, ip, c, k, k', x);
    } else {
      OtherStep(t, u, ip, c, k, k', x);
      OtherPrefix(t, u, ip, c, k, k', Resume(t, k, x));
    }
  }

  /** Putting a piece in front of a match of `k'` keeps a text fixed for `k`. */
  lemma {:induction false} KeepFixed(t: string, u: string, ip: nat, c: string, k: string, k': string)
    requires OtherSetting(t, u, ip, c, k, k') && Fixed(t, k)
    ensures Fixed(u, k)
  {
    OtherPrefix(t, u, ip, c, k, k', 0);
  }

  /** A pass for `k'` keeps a text fixed for every word key `k`. */
  lemma {:induction false} SubKeepsFixed(t: string, k': string, c: string, k: string)
    requires IsWord(k) && IsWord(k') && NoNewline(c) && Fixed(t, k)
    ensures Fixed(Sub(t, k', c), k)
    decreases |Rewritten(t, k', 0)|
  {
    var ps := Rewritten(t, k', 0);
    if k == k' {
      SubFixes(t, k', c);
    } else if ps == [] {
      FixedUnchanged(t, k', c);
    } else {
      var ip := ps[0];
      FirstRewritten(t, k', ip);
      var u := t[..ip] + Piece(t, ip, c) + t[ip..];
      InsertedBuilt(t, ip, Piece(t, ip, c));
      KeepFixed(t, u, ip, c, k, k');
      PeelFirst(t, u, ip, c, k');
      PeelSub(t, u, ip, c, k');
      SubKeepsFixed(u, k', c, k);
    }
  }
}
