/**
  The comment extractor (`extract_go_comments`): one forward pass over the
  lines of a Go source file that records, for every field declared with a
  `json:"key"` tag right after a block of `//` comment lines, the field's name
  and the block's text, under the struct the field belongs to.
 */
module GoComments {
  import opened Text
  import opened OrderedMaps

  /** What is recorded for one field: `{'field_name': ..., 'comment': ...}`. */
  datatype FieldInfo = FieldInfo(fieldName: string, comment: string)

  /** JSON key -> field information, for one struct. */
  type StructFields = ODict<FieldInfo>

  /** Struct name -> its fields: the value `extract_go_comments` returns. */
  type CommentIndex = ODict<StructFields>

  // ---------------------------------------------------------------------
  // Line shapes
  // ---------------------------------------------------------------------

  /** The struct-header pattern read piece by piece: the line is cut at
      `a < b < c`, `c + 6 <= d` into `type`, whitespace, the name, whitespace,
      `struct`, whitespace and `{`, with anything after. */
  predicate HeaderCuts(line: string, a: nat, b: nat, c: nat, d: nat) {
    4 < a < b < c && c + 6 <= d < |line|
    && line[..4] == "type" && AllSpace(line[4..a]) && IsWord(line[a..b]) && AllSpace(line[b..c])
    && line[c..c + 6] == "struct" && AllSpace(line[c + 6..d]) && line[d] == '{'
  }

  /** `re.match(r'^type\s+(\w+)\s+struct\s*{', line)`, giving group 1. Every
      quantifier is followed by a character it cannot take, so the greedy
      scan is the only way to match. */
  function StructHeader(line: string): (r: Option<string>)
    ensures r.Some? ==> StartsWith(line, "type") && IsWord(r.value)
  {
    if !StartsWith(line, "type") then None
    else
      var a := SkipSpace(line, 4);
      var b := SkipWord(line, a);
      var c := SkipSpace(line, b);
      if a == 4 || b == a || c == b || !StartsWith(line[c..], "struct") then None
      else
        var d := SkipSpace(line, c + 6);
        SkipWordRun(line, a);
        if d < |line| && line[d] == '{' then Some(line[a..b]) else None
  }

  /** A recognised header is cut by the pattern, around the name it gives ... */
  lemma {:induction false} StructHeaderSound(line: string)
    requires StructHeader(line).Some?
    ensures exists a: nat, b: nat, c: nat, d: nat :: HeaderCuts(line, a, b, c, d) && StructHeader(line).value == line[a..b]
  {
    var a := SkipSpace(line, 4);
    var b := SkipWord(line, a);
    var c := SkipSpace(line, b);
    var d := SkipSpace(line, c + 6);
    SkipSpaceRun(line, 4);
    SkipWordRun(line, a);
    SkipSpaceRun(line, b);
    SkipSpaceRun(line, c + 6);
    assert line[c..c + 6] == line[c..][..6];
    assert HeaderCuts(line, a, b, c, d);
  }

  /** ... and every way of cutting a line by the pattern is recognised, with
      the name between the cuts: the pattern cannot match in two ways. */
  lemma {:induction false} StructHeaderComplete(line: string, a: nat, b: nat, c: nat, d: nat)
    requires HeaderCuts(line, a, b, c, d)
    ensures StructHeader(line) == Some(line[a..b])
  {
    assert line[a] == line[a..b][0];
    SkipSpaceOver(line, 4, a);
    assert line[b] == line[b..c][0];
    SkipWordOver(line, a, b);
    assert line[c] == line[c..c + 6][0];
    SkipSpaceOver(line, b, c);
    SkipSpaceOver(line, c + 6, d);
    assert line[c..][..6] == line[c..c + 6];
  }

  /** The field pattern read piece by piece: the stripped line is cut at
      `n < p < bt` and `bt + 7 < m` into the name, whitespace, a type part
      without backticks, the tag opening `json:", and the key, which is not
      followed by another word character. */
  predicate FieldCuts(x: string, n: nat, p: nat, bt: nat, m: nat) {
    0 < n < p < bt && bt + 7 < m <= |x|
    && IsWord(x[..n]) && AllSpace(x[n..p]) && '`' !in x[p..bt]
    && x[bt..bt + 7] == "`json:\"" && IsWord(x[bt + 7..m]) && (m < |x| ==> !IsWordChar(x[m]))
  }

  /** `re.match(r'(\w+)\s+[^\`]+\`json:"(\w+)', x)`, giving groups 1 and 2:
      the declared field name and the JSON key. The name is the longest
      word, a whitespace character follows it, and at least one more
      character comes before the first backtick, which opens the tag. */
  function FieldLine(x: string): (r: Option<(string, string)>)
    ensures r.Some? ==> IsWord(r.value.0) && IsWord(r.value.1)
  {
    var n := SkipWord(x, 0);
    if n == 0 || n == |x| || !IsSpace(x[n]) then None
    else
      var bt := Find(x, n, '`');
      if bt < n + 2 || !StartsWith(x[bt..], "`json:\"") then None
      else
        var m := SkipWord(x, bt + 7);
        SkipWordRun(x, 0);
        SkipWordRun(x, bt + 7);
        if m == bt + 7 then None else Some((x[..n], x[bt + 7..m]))
  }

  /** A recognised field line is cut by the pattern, around the name and the
      key it gives ... */
  lemma {:induction false} FieldLineSound(x: string)
    requires FieldLine(x).Some?
    ensures exists n: nat, p: nat, bt: nat, m: nat :: FieldCuts(x, n, p, bt, m) && FieldLine(x).value == (x[..n], x[bt + 7..m])
  {
    var n := SkipWord(x, 0);
    var bt := Find(x, n, '`');
    var m := SkipWord(x, bt + 7);
    SkipWordRun(x, 0);
    FindRun(x, n, '`');
    SkipWordRun(x, bt + 7);
    assert x[bt..bt + 7] == x[bt..][..7];
    assert FieldCuts(x, n, n + 1, bt, m);
  }

  /** ... and every way of cutting a line by the pattern is recognised, with
      the name and the key between the cuts. */
  lemma {:induction false} FieldLineComplete(x: string, n: nat, p: nat, bt: nat, m: nat)
    requires FieldCuts(x, n, p, bt, m)
    ensures FieldLine(x) == Some((x[..n], x[bt + 7..m]))
  {
    assert x[n] == x[n..p][0];
    SkipWordOver(x, 0, n);
    assert x[bt] == x[bt..bt + 7][0];
    assert '`' !in x[n..bt] by {
      assert x[n..bt] == x[n..p] + x[p..bt];
      assert '`' !in x[n..p];
    }
    FindOver(x, n, bt, '`');
    assert x[bt..][..7] == x[bt..bt + 7];
    SkipWordOver(x, bt + 7, m);
  }

  /** `line.strip().startswith('//')` */
  predicate IsCommentLine(line: string) {
    StartsWith(Strip(line), "//")
  }

  /** `line.strip()[2:].strip()`: the text of a comment line. */
  function CommentText(line: string): (r: string)
    requires IsCommentLine(line)
    ensures r != [] ==> !IsSpace(r[0]) && !IsSpace(r[|r| - 1])
  {
    Strip(Strip(line)[2..])
  }

  /** What the scan asks of one line: is it a struct header (and of which
      struct), is it a comment line (and with which text), and does its
      stripped form declare a tagged field (with which name and key). */
  datatype LineInfo = LineInfo(header: Option<string>, comment: Option<string>, field: Option<(string, string)>)

  function Classify(line: string): (r: LineInfo)
    ensures r.header == StructHeader(line)
    ensures r.comment.Some? == IsCommentLine(line)
    ensures r.comment.Some? ==> r.comment.value == CommentText(line)
    ensures r.field == FieldLine(Strip(line))
  {
    LineInfo(StructHeader(line),
             if IsCommentLine(line) then Some(CommentText(line)) else None,
             FieldLine(Strip(line)))
  }

  /** `infos` classifies `lines`, line by line. */
  predicate Classified(lines: seq<string>, infos: seq<LineInfo>) {
    |infos| == |lines| &&
    forall k {:trigger Classify(lines[k])} :: 0 <= k < |lines| ==> infos[k] == Classify(lines[k])
  }

  /** Every line of the file, classified. */
  function ClassifyAll(lines: seq<string>): (infos: seq<LineInfo>)
    ensures Classified(lines, infos)
  {
    seq(|lines|, k requires 0 <= k < |lines| => Classify(lines[k]))
  }

  /** What the classification says about line `k`, one question at a time. */
  lemma {:induction false} HeaderAt(lines: seq<string>, infos: seq<LineInfo>, k: nat)
    requires Classified(lines, infos) && k < |lines|
    ensures infos[k].header == StructHeader(lines[k])
  {
    assert infos[k] == Classify(lines[k]);
  }

  lemma {:induction false} CommentAt(lines: seq<string>, infos: seq<LineInfo>, k: nat)
    requires Classified(lines, infos) && k < |lines|
    ensures infos[k].comment.Some? == IsCommentLine(lines[k])
    ensures infos[k].comment.Some? ==> infos[k].comment.value == CommentText(lines[k])
  {
    assert infos[k] == Classify(lines[k]);
  }

  lemma {:induction false} FieldAt(lines: seq<string>, infos: seq<LineInfo>, k: nat)
    requires Classified(lines, infos) && k < |lines|
    ensures infos[k].field == FieldLine(Strip(lines[k]))
  {
    assert infos[k] == Classify(lines[k]);
  }

  // ---------------------------------------------------------------------
  // Comment blocks
  // ---------------------------------------------------------------------

  /** The index of the first line at or after `i` that is not a comment line:
      where the inner `while` loop over a comment block stops. */
  function BlockEnd(infos: seq<LineInfo>, i: nat): (j: nat)
    requires i <= |infos|
    ensures i <= j <= |infos|
    ensures j < |infos| ==> infos[j].comment.None?
    ensures forall k :: i <= k < j ==> infos[k].comment.Some?
    decreases |infos| - i
  {
    if i < |infos| && infos[i].comment.Some? then BlockEnd(infos, i + 1) else i
  }

  /** `comment_lines` after reading lines `i..j`: the non-empty comment
      texts among them, in order. */
  function BlockTexts(infos: seq<LineInfo>, i: nat, j: nat): (texts: seq<string>)
    requires i <= j <= |infos|
    decreases j - i
  {
    if i == j then []
    else
      var c := infos[j - 1].comment;
      BlockTexts(infos, i, j - 1) + (if c.None? || c.value == [] then [] else [c.value])
  }

  // ---------------------------------------------------------------------
  // The scan
  // ---------------------------------------------------------------------

  /** The variables of the `while i < len(lines)` loop: the line index `i`,
      `current_struct` and the `comments` dictionary. */
  datatype ScanState = ScanState(i: nat, current: Option<string>, comments: CommentIndex)

  /** The cursor names a struct that has an entry, so that
      `comments[current_struct]` never fails. */
  predicate CursorOk(s: ScanState) {
    s.current.Some? ==> Lookup(s.comments, s.current.value).Some?
  }

  /** `comments[struct] = {}` */
  function Reset(acc: CommentIndex, struct: string): (r: CommentIndex)
    ensures Lookup(r, struct) == Some([])
  {
    PutLookup(acc, struct, [], struct);
    Put(acc, struct, [])
  }

  /** `comments[struct][key] = info` */
  function Record(acc: CommentIndex, struct: string, key: string, info: FieldInfo): (r: CommentIndex)
    requires Lookup(acc, struct).Some?
    ensures Lookup(r, struct) == Some(Put(Lookup(acc, struct).value, key, info))
  {
    PutLookup(acc, struct, Put(Lookup(acc, struct).value, key, info), struct);
    Put(acc, struct, Put(Lookup(acc, struct).value, key, info))
  }

  /** One turn of the outer loop, from line `s.i`: a struct header moves the
      cursor; once a header has been seen (the cursor is never cleared, so
      the struct's closing brace changes nothing), a comment line starts a
      block, after which the next line is read as a possible field and then
      skipped whatever it holds; any other line is passed over. The index
      always moves forward. */
  function Step(infos: seq<LineInfo>, s: ScanState): (t: ScanState)
    requires s.i < |infos| && CursorOk(s)
    ensures s.i < t.i <= |infos| + 1 && CursorOk(t)
  {
    var i := s.i;
    if infos[i].header.Some? then
      ScanState(i + 1, infos[i].header, Reset(s.comments, infos[i].header.value))
    else if s.current.Some? && infos[i].comment.Some? then
      var j := BlockEnd(infos, i);
      if j < |infos| && infos[j].field.Some? then
        var field := infos[j].field.value;
        var info := FieldInfo(field.0, JoinSpace(BlockTexts(infos, i, j)));
        ScanState(j + 1, s.current, Record(s.comments, s.current.value, field.1, info))
      else ScanState(j + 1, s.current, s.comments)
    else ScanState(i + 1, s.current, s.comments)
  }

  /** The dictionary the loop returns when it is entered in state `s`. */
  function Scan(infos: seq<LineInfo>, s: ScanState): (r: CommentIndex)
    requires CursorOk(s)
    decreases |infos| - s.i
  {
    if s.i >= |infos| then s.comments else Scan(infos, Step(infos, s))
  }

  /** What `extract_go_comments` returns for a file with text `content`. */
  function ExtractSpec(content: string): (r: CommentIndex) {
    Scan(ClassifyAll(Split(content)), ScanState(0, None, []))
  }

  /** `extract_go_comments`, on the file's text. */
  method ExtractGoComments(content: string) returns (comments: CommentIndex)
    ensures comments == ExtractSpec(content)
  {
    var lines := Split(content);
    ghost var infos := ClassifyAll(lines);
    comments := [];
    var current: Option<string> := None;
    var i := 0;
    while i < |lines|
      invariant CursorOk(ScanState(i, current, comments))
      invariant Scan(infos, ScanState(i, current, comments)) == Scan(infos, ScanState(0, None, []))
      decreases |lines| + 1 - i
    {
      ghost var s := ScanState(i, current, comments);
      ScanUnfold(infos, s);
      var line := lines[i];
      var structMatch := StructHeader(line);
      if structMatch.Some? {
        StepHeader(lines, infos, s);
        current := structMatch;
        comments := Reset(comments, structMatch.value);
        i := i + 1;
        assert ScanState(i, current, comments) == Step(infos, s);
        continue;
      }
      if current.Some? && IsCommentLine(line) {
        var commentLines;
        i, commentLines := CollectComments(lines, infos, i);
        StepBlock(lines, infos, s, i);
        if i < |lines| {
          var fieldLine := Strip(lines[i]);
          var fieldMatch := FieldLine(fieldLine);
          if fieldMatch.Some? {
            var info := FieldInfo(fieldMatch.value.0, JoinSpace(commentLines));
            comments := Record(comments, current.value, fieldMatch.value.1, info);
          }
        }
      } else {
        StepOther(lines, infos, s);
      }
      i := i + 1;
      assert ScanState(i, current, comments) == Step(infos, s);
    }
  }

  lemma {:induction false} ScanUnfold(infos: seq<LineInfo>, s: ScanState)
    requires s.i < |infos| && CursorOk(s)
    ensures Scan(infos, s) == Scan(infos, Step(infos, s))
  {
  }

  /** The inner loop `while i < len(lines) and lines[i].strip().startswith('//')`:
      it stops at the first line that is not a comment line and collects the
      non-empty comment texts on the way. */
  method CollectComments(lines: seq<string>, ghost infos: seq<LineInfo>, start: nat)
      returns (i: nat, commentLines: seq<string>)
    requires Classified(lines, infos) && start <= |lines|
    ensures i == BlockEnd(infos, start)
    ensures commentLines == BlockTexts(infos, start, i)
  {
    i := start;
    commentLines := [];
    while i < |lines| && IsCommentLine(lines[i])
      invariant start <= i <= |lines|
      invariant BlockEnd(infos, i) == BlockEnd(infos, start)
      invariant commentLines == BlockTexts(infos, start, i)
      decreases |lines| - i
    {
      var comment := CommentText(lines[i]);
      CommentStep(lines, infos, start, i);
      if comment != [] {
        commentLines := commentLines + [comment];
      }
      i := i + 1;
    }
    if i < |lines| {
      CommentAt(lines, infos, i);
    }
  }

  /** One line of a comment block, as the inner loop reads it. */
  lemma {:induction false} CommentStep(lines: seq<string>, infos: seq<LineInfo>, start: nat, i: nat)
    requires Classified(lines, infos)
    requires start <= i < |lines| && IsCommentLine(lines[i])
    ensures BlockEnd(infos, i + 1) == BlockEnd(infos, i)
    ensures BlockTexts(infos, start, i + 1) ==
      BlockTexts(infos, start, i) + (if CommentText(lines[i]) == [] then [] else [CommentText(lines[i])])
  {
    CommentAt(lines, infos, i);
  }

  /** A struct header line, as the outer loop handles it. */
  lemma {:induction false} StepHeader(lines: seq<string>, infos: seq<LineInfo>, s: ScanState)
    requires Classified(lines, infos) && s.i < |lines| && CursorOk(s)
    requires StructHeader(lines[s.i]).Some?
    ensures Step(infos, s) ==
      ScanState(s.i + 1, StructHeader(lines[s.i]), Reset(s.comments, StructHeader(lines[s.i]).value))
  {
    HeaderAt(lines, infos, s.i);
  }

  /** A comment block after a struct header that the inner loop read up to line
      `j`, as the outer loop handles it. */
  lemma {:induction false} StepBlock(lines: seq<string>, infos: seq<LineInfo>, s: ScanState, j: nat)
    requires Classified(lines, infos) && s.i < |lines| && CursorOk(s)
    requires StructHeader(lines[s.i]).None? && s.current.Some? && IsCommentLine(lines[s.i])
    requires j == BlockEnd(infos, s.i)
    ensures Step(infos, s) ==
      if j < |lines| && FieldLine(Strip(lines[j])).Some? then
        var field := FieldLine(Strip(lines[j])).value;
        ScanState(j + 1, s.current,
                  Record(s.comments, s.current.value, field.1, FieldInfo(field.0, JoinSpace(BlockTexts(infos, s.i, j)))))
      else ScanState(j + 1, s.current, s.comments)
  {
    HeaderAt(lines, infos, s.i);
    CommentAt(lines, infos, s.i);
    if j < |lines| {
      FieldAt(lines, infos, j);
    }
    StepBlockInfos(infos, s, j);
  }

  lemma {:induction false} StepBlockInfos(infos: seq<LineInfo>, s: ScanState, j: nat)
    requires s.i < |infos| && CursorOk(s)
    requires infos[s.i].header.None? && s.current.Some? && infos[s.i].comment.Some?
    requires j == BlockEnd(infos, s.i)
    ensures Step(infos, s) ==
      if j < |infos| && infos[j].field.Some? then
        var field := infos[j].field.value;
        ScanState(j + 1, s.current,
                  Record(s.comments, s.current.value, field.1, FieldInfo(field.0, JoinSpace(BlockTexts(infos, s.i, j)))))
      else ScanState(j + 1, s.current, s.comments)
  {
  }

  /** Any other line is passed over. */
  lemma {:induction false} StepOther(lines: seq<string>, infos: seq<LineInfo>, s: ScanState)
    requires Classified(lines, infos) && s.i < |lines| && CursorOk(s)
    requires StructHeader(lines[s.i]).None? && !(s.current.Some? && IsCommentLine(lines[s.i]))
    ensures Step(infos, s) == ScanState(s.i + 1, s.current, s.comments)
  {
    HeaderAt(lines, infos, s.i);
    CommentAt(lines, infos, s.i);
  }
}
