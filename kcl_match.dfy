/**
  The pattern `(\n\s*)(<key>\?:\s*[^\n]+)` that the annotator looks for in a
  KCL schema: a newline, the indentation, `<key>?:` and the rest of the field
  definition. Matching is tried at one position of the text, as `re.sub`
  does at each position it visits.
 */
module KclPattern {
  import opened Text
  import opened OrderedMaps
  import opened TextShift

  /** Where a match puts its key and where it ends, as positions in the text. */
  datatype Span = Span(keyAt: nat, end: nat)

  /** One way for `\s*[^\n]+` to match `s[r..e]`: whitespace up to `w`, then
      at least one character, none of them a newline. */
  predicate FieldDefShape(s: string, r: nat, w: nat, e: nat) {
    r <= w < e <= |s| && AllSpace(s[r..w]) && '\n' !in s[w..e]
  }

  /** Where `\s*[^\n]+` from `r` ends. The greedy `\s*` stops at the first
      character that is not whitespace, and `[^\n]+` runs from there to the
      end of that line. When only whitespace is left, the engine backtracks:
      `\s*` gives back characters until `[^\n]+` can take one, so the match
      ends after the last character of the text that is not a newline; if
      there is none, the pattern fails. */
  function FieldDefEnd(s: string, r: nat): (e: Option<nat>)
    requires r <= |s|
    ensures e.Some? ==> r < e.value <= |s|
  {
    var w := SkipSpace(s, r);
    if w < |s| then Some(Find(s, w, '\n'))
    else
      var e := TrimNewlines(s, r, |s|);
      if e > r then Some(e) else None
  }

  /** The field definition found ends a line: its last character is not a
      newline, and a newline or the end of the text follows it. */
  lemma {:induction false} FieldDefEndsLine(s: string, r: nat)
    requires r <= |s| && FieldDefEnd(s, r).Some?
    ensures var e := FieldDefEnd(s, r).value;
      s[e - 1] != '\n' && (e < |s| ==> s[e] == '\n')
  {
    var w := SkipSpace(s, r);
    if w < |s| {
      FindRun(s, w, '\n');
    } else {
      TrimNewlinesRun(s, r, |s|);
    }
  }

  /** The pattern fails only where nothing but newlines is left. */
  lemma {:induction false} FieldDefNone(s: string, r: nat)
    requires r <= |s| && FieldDefEnd(s, r).None?
    ensures forall k :: r <= k < |s| ==> s[k] == '\n'
  {
    TrimNewlinesRun(s, r, |s|);
  }

  /** The end `FieldDefEnd` finds is that of a way for `\s*[^\n]+` to
      match, ... */
  lemma {:induction false} FieldDefSound(s: string, r: nat)
    requires r <= |s| && FieldDefEnd(s, r).Some?
    ensures exists w :: FieldDefShape(s, r, w, FieldDefEnd(s, r).value)
  {
    var w := SkipSpace(s, r);
    var e := FieldDefEnd(s, r).value;
    SkipSpaceRun(s, r);
    if w < |s| {
      FindRun(s, w, '\n');
      assert FieldDefShape(s, r, w, e);
    } else {
      assert FieldDefShape(s, r, e - 1, e);
    }
  }

  /** ... and no way to match ends later: the match is the longest one. */
  lemma {:induction false} FieldDefLongest(s: string, r: nat, w: nat, e: nat)
    requires FieldDefShape(s, r, w, e)
    ensures FieldDefEnd(s, r).Some? && e <= FieldDefEnd(s, r).value
  {
    var w0 := SkipSpace(s, r);
    SkipSpaceMax(s, r, w);
    if w0 < |s| {
      if w0 <= e {
        assert s[w0..e] == s[w..e][w0 - w..];
        FindMax(s, w0, e, '\n');
      }
    } else {
      TrimNewlinesRun(s, r, |s|);
      assert s[e - 1] == s[w..e][e - 1 - w];
    }
  }

  /** `<k>?:` stands at position `q` of `t`. */
  predicate KeyAt(t: string, q: nat, k: string) {
    q + |k| + 2 <= |t| && t[q..q + |k| + 2] == k + "?:"
  }

  /** One way for the whole pattern to match at position `p` of `t`, with the
      key at `q` and the field definition `\s*[^\n]+` as `w` and `e` say. */
  predicate MatchShape(t: string, k: string, p: nat, q: nat, w: nat, e: nat) {
    p < q && KeyAt(t, q, k) && t[p] == '\n' && AllSpace(t[p + 1..q])
    && FieldDefShape(t, q + |k| + 2, w, e)
  }

  /** The pattern from the key on, with the key at `q`: `<k>?:` and the
      field definition after it. */
  function MatchKey(t: string, k: string, q: nat): (m: Option<Span>)
    requires q <= |t|
    ensures m.Some? ==> m.value.keyAt == q && q + |k| + 2 < m.value.end <= |t|
  {
    if !KeyAt(t, q, k) then None
    else
      match FieldDefEnd(t, q + |k| + 2)
      case None => None
      case Some(e) => Some(Span(q, e))
  }

  /** `pattern.match(t, p)` for `(\n\s*)(<k>\?:\s*[^\n]+)`: group 1 is
      `t[p..keyAt]` (the newline and the indentation), group 2 is
      `t[keyAt..end]` (the field definition) and the whole match is
      `t[p..end]`. */
  function MatchAt(t: string, k: string, p: nat): (m: Option<Span>)
    requires p <= |t|
    ensures m.Some? ==> p < m.value.keyAt && m.value.keyAt + |k| + 2 < m.value.end <= |t|
  {
    if p == |t| || t[p] != '\n' then None
    else MatchKey(t, k, SkipSpace(t, p + 1))
  }

  /** A match found is a way for the pattern to match, ... */
  lemma {:induction false} MatchSound(t: string, k: string, p: nat)
    requires p <= |t| && MatchAt(t, k, p).Some?
    ensures exists w :: MatchShape(t, k, p, MatchAt(t, k, p).value.keyAt, w, MatchAt(t, k, p).value.end)
  {
    var m := MatchAt(t, k, p).value;
    FieldDefSound(t, m.keyAt + |k| + 2);
    var w :| FieldDefShape(t, m.keyAt + |k| + 2, w, m.end);
    SkipSpaceRun(t, p + 1);
    assert MatchShape(t, k, p, m.keyAt, w, m.end);
  }

  /** ... and for a key that is a word, every way to match is found, with the
      same key position and an end no later than the one found. */
  lemma {:induction false} MatchLongest(t: string, k: string, p: nat, q: nat, w: nat, e: nat)
    requires IsWord(k) && MatchShape(t, k, p, q, w, e)
    ensures MatchAt(t, k, p).Some?
    ensures MatchAt(t, k, p).value.keyAt == q && e <= MatchAt(t, k, p).value.end
  {
    assert t[q] == t[q..q + |k| + 2][0] == k[0];
    SkipSpaceOver(t, p + 1, q);
    FieldDefLongest(t, q + |k| + 2, w, e);
  }

  /** What a match says about the text, spelled out for the proofs. */
  lemma {:induction false} MatchFacts(t: string, k: string, p: nat)
    requires p <= |t| && MatchAt(t, k, p).Some?
    ensures var m := MatchAt(t, k, p).value;
      t[p] == '\n' && m.keyAt == SkipSpace(t, p + 1) && KeyAt(t, m.keyAt, k)
      && FieldDefEnd(t, m.keyAt + |k| + 2) == Some(m.end)
  {
  }

  /** A match starts at a newline. */
  lemma {:induction false} MatchNewline(t: string, k: string, p: nat)
    requires p <= |t| && MatchAt(t, k, p).Some?
    ensures p < |t| && t[p] == '\n'
  {
  }

  /** Two word keys cannot both be followed by `?:` at the same place. */
  lemma {:induction false} KeyUnique(t: string, q: nat, k1: string, k2: string)
    requires IsWord(k1) && IsWord(k2) && KeyAt(t, q, k1) && KeyAt(t, q, k2)
    ensures k1 == k2
  {
    KeyIsWordAt(t, q, k1);
    KeyIsWordAt(t, q, k2);
  }

  /** A word key followed by `?:` is exactly the word at its place. */
  lemma {:induction false} KeyIsWordAt(t: string, q: nat, k: string)
    requires IsWord(k) && KeyAt(t, q, k)
    ensures SkipWord(t, q) == q + |k| && t[q..q + |k|] == k
  {
    assert t[q..q + |k|] == t[q..q + |k| + 2][..|k|] == k;
    assert t[q + |k|] == t[q..q + |k| + 2][|k|] == '?';
    SkipWordOver(t, q, q + |k|);
  }

  /** The same match, `n` characters further along. */
  function ShiftSpan(m: Option<Span>, n: nat): (r: Option<Span>)
    ensures r.None? <==> m.None?
  {
    match m
    case None => None
    case Some(sp) => Some(Span(sp.keyAt + n, sp.end + n))
  }

  lemma {:induction false} KeyAtShift(t: string, u: string, a: nat, n: nat, q: nat, k: string)
    requires Shifted(t, u, a, n) && a <= q <= |t|
    ensures KeyAt(u, q + n, k) == KeyAt(t, q, k)
  {
    if q + |k| + 2 <= |t| {
      assert u[q + n..q + n + |k| + 2] == t[q..q + |k| + 2] by {
        forall j | q <= j < q + |k| + 2 ensures u[j + n] == t[j] {
          assert At(u, j + n) == t[j];
        }
      }
    }
  }

  lemma {:induction false} FieldDefEndShift(t: string, u: string, a: nat, n: nat, r: nat)
    requires Shifted(t, u, a, n) && a <= r <= |t|
    ensures FieldDefEnd(u, r + n) == match FieldDefEnd(t, r)
      case None => None
      case Some(e) => Some(e + n)
  {
    var w := SkipSpace(t, r);
    SkipSpaceShift(t, u, a, n, r);
    if w < |t| {
      FindShift(t, u, a, n, w, '\n');
    } else {
      TrimNewlinesShift(t, u, a, n, r, |t|);
    }
  }

  lemma {:induction false} MatchKeyShift(t: string, u: string, a: nat, n: nat, q: nat, k: string)
    requires Shifted(t, u, a, n) && a <= q <= |t|
    ensures MatchKey(u, k, q + n) == ShiftSpan(MatchKey(t, k, q), n)
  {
    KeyAtShift(t, u, a, n, q, k);
    if KeyAt(t, q, k) {
      FieldDefEndShift(t, u, a, n, q + |k| + 2);
      assert q + n + |k| + 2 == q + |k| + 2 + n;
    }
  }

  /** Whether the pattern matches at a position depends only on the text
      from there on: in a shifted text it matches in the same way. */
  lemma {:induction false} MatchAtShift(t: string, u: string, a: nat, n: nat, p: nat, k: string)
    requires Shifted(t, u, a, n) && a <= p <= |t|
    ensures MatchAt(u, k, p + n) == ShiftSpan(MatchAt(t, k, p), n)
  {
    if p < |t| {
      assert At(u, p + n) == t[p];
      if t[p] == '\n' {
        SkipSpaceShift(t, u, a, n, p + 1);
        MatchKeyShift(t, u, a, n, SkipSpace(t, p + 1), k);
      }
    }
  }

  /** A key that is a word cannot stand where the text holds `#`. */
  lemma {:induction false} HashNoKey(u: string, h: nat, k: string)
    requires IsWord(k) && h < |u| && u[h] == '#'
    ensures !KeyAt(u, h, k)
  {
    assert h + |k| + 2 <= |u| ==> u[h..h + |k| + 2][0] == u[h];
  }

  /** Where a key stands, the text holds a character that is not whitespace. */
  lemma {:induction false} KeyNotSpace(t: string, q: nat, k: string)
    requires IsWord(k) && KeyAt(t, q, k)
    ensures q < |t| && !IsSpace(t[q])
  {
    assert t[q] == t[q..q + |k| + 2][0];
  }

  /** Texts that agree up to and including a newline at `ip` have the same
      keys before it: `<k>?:` holds no newline, so it cannot reach past `ip`. */
  lemma {:induction false} KeyAtBefore(t: string, u: string, ip: nat, q: nat, k: string)
    requires IsWord(k) && Agree(t, u, 0, ip + 1) && t[ip] == '\n' && q < ip
    ensures KeyAt(u, q, k) == KeyAt(t, q, k)
    ensures KeyAt(t, q, k) ==> q + |k| + 2 <= ip
  {
    var e := q + |k| + 2;
    if e <= ip + 1 {
      assert u[q..e] == t[q..e] by {
        forall j | q <= j < e ensures u[j] == t[j] {
          assert At(u, j) == t[j];
        }
      }
      assert e == ip + 1 ==> t[q..e][ip - q] == t[ip];
    } else {
      assert e <= |t| ==> t[q..e][ip - q] == t[ip];
      assert e <= |u| ==> u[q..e][ip - q] == u[ip] == At(u, ip);
      assert (k + "?:")[ip - q] == if ip - q < |k| then k[ip - q] else "?:"[ip - q - |k|];
    }
  }

  /** Before a newline at `ip` that is followed, somewhere, by a character
      that is not whitespace, `\s*[^\n]+` always matches; a match that ends
      by `ip` is the same in a text that agrees up to `ip`. */
  lemma {:induction false} FieldDefBefore(t: string, u: string, ip: nat, h0: nat, r: nat)
    requires Agree(t, u, 0, ip + 1) && t[ip] == '\n' && r <= ip < h0 < |t| && !IsSpace(t[h0])
    ensures FieldDefEnd(t, r).Some?
    ensures FieldDefEnd(t, r).value <= ip ==> FieldDefEnd(u, r) == FieldDefEnd(t, r)
  {
    SkipSpaceStops(t, r, h0);
    var w := SkipSpace(t, r);
    var e := Find(t, w, '\n');
    if e <= ip {
      SkipSpaceAgree(t, u, r, ip + 1);
      FindAgree(t, u, w, ip + 1, '\n');
    }
  }

  lemma {:induction false} MatchKeyBefore(t: string, u: string, ip: nat, h0: nat, k: string, q: nat)
    requires IsWord(k) && Agree(t, u, 0, ip + 1) && t[ip] == '\n'
    requires q < ip < h0 < |t| && !IsSpace(t[h0])
    ensures MatchKey(t, k, q).None? ==> MatchKey(u, k, q).None?
    ensures MatchKey(t, k, q).Some? && MatchKey(t, k, q).value.end <= ip ==> MatchKey(u, k, q) == MatchKey(t, k, q)
  {
    KeyAtBefore(t, u, ip, q, k);
    if KeyAt(t, q, k) {
      FieldDefBefore(t, u, ip, h0, q + |k| + 2);
    }
  }

  /** A match found before a newline at `ip` in `t` is found, the same, in a
      text `u` that agrees with `t` up to `ip` and in which the whitespace
      after `ip` runs into a `#` (a comment line put in there); and where `t`
      has no match, neither has `u`. */
  lemma {:induction false} MatchBefore(t: string, u: string, ip: nat, h0: nat, h: nat, k: string, x: nat)
    requires IsWord(k) && Agree(t, u, 0, ip + 1) && t[ip] == '\n'
    requires x < ip < h0 < |t| && !IsSpace(t[h0])
    requires ip < h < |u| && SkipSpace(u, ip + 1) == h && u[h] == '#'
    ensures MatchAt(t, k, x).None? ==> MatchAt(u, k, x).None?
    ensures MatchAt(t, k, x).Some? && MatchAt(t, k, x).value.end <= ip ==> MatchAt(u, k, x) == MatchAt(t, k, x)
  {
    assert At(u, x) == t[x];
    if t[x] == '\n' {
      var q := SkipSpace(t, x + 1);
      if q <= ip {
        SkipSpaceAgree(t, u, x + 1, ip + 1);
        MatchKeyBefore(t, u, ip, h0, k, q);
      } else {
        SkipSpaceRun(t, x + 1);
        assert forall j :: x + 1 <= j < ip + 1 ==> IsSpace(u[j]) by {
          forall j | x + 1 <= j < ip + 1 ensures IsSpace(u[j]) {
            assert At(u, j) == t[j];
          }
        }
        SkipSpaceAcross(u, x + 1, ip + 1);
        HashNoKey(u, h, k);
      }
    }
  }

  /** No match of a word key starts on a stretch `[ip, e)` made of blanks
      from `ip` up to a `#` at `h` and then of one line: every newline in it
      is followed by blanks and the `#`. */
  lemma {:induction false} NoMatchInCommentLine(u: string, ip: nat, h: nat, e: nat, k: string, y: nat)
    requires IsWord(k) && ip <= y < e && h < e <= |u|
    requires u[h] == '#' && SkipSpace(u, ip + 1) == h
    requires forall j :: h <= j < e ==> u[j] != '\n'
    ensures MatchAt(u, k, y).None?
  {
    if u[y] == '\n' {
      SkipSpaceRun(u, ip + 1);
      if y > ip {
        SkipSpaceAcross(u, ip + 1, y + 1);
      }
      HashNoKey(u, h, k);
    }
  }
}
