/**
  What the comment extractor promises about the index it returns: which
  lines give an entry and which do not, what an entry's comment is made of,
  how a repeated struct or key is treated, and that every key is a word and
  no comment spans lines.
 */
module GoCommentsFacts {
  import opened Text
  import opened OrderedMaps
  import opened GoComments

  // ---------------------------------------------------------------------
  // Dictionary updates
  // ---------------------------------------------------------------------

  /** A struct header seen again empties that struct's entry, in place; the
      other structs keep theirs. */
  lemma {:induction false} RepeatedStructResets(acc: CommentIndex, struct: string, other: string)
    ensures Lookup(Reset(acc, struct), other) == if other == struct then Some([]) else Lookup(acc, other)
    ensures Keys(Reset(acc, struct)) == if struct in Keys(acc) then Keys(acc) else Keys(acc) + [struct]
  {
    PutLookup(acc, struct, [], other);
    PutKeys(acc, struct, []);
  }

  /** A key recorded again in the same struct replaces the earlier entry, in
      place; the struct's other keys and the other structs are untouched. */
  lemma {:induction false} RepeatedKeyOverwrites(acc: CommentIndex, struct: string, key: string, info: FieldInfo, other: string, otherStruct: string)
    requires Lookup(acc, struct).Some?
    ensures var fields, fields' := Lookup(acc, struct).value, Lookup(Record(acc, struct, key, info), struct).value;
      Lookup(fields', other) == (if other == key then Some(info) else Lookup(fields, other))
      && Keys(fields') == (if key in Keys(fields) then Keys(fields) else Keys(fields) + [key])
    ensures otherStruct != struct ==> Lookup(Record(acc, struct, key, info), otherStruct) == Lookup(acc, otherStruct)
  {
    var fields := Lookup(acc, struct).value;
    PutLookup(fields, key, info, other);
    PutKeys(fields, key, info);
    PutLookup(acc, struct, Put(fields, key, info), otherStruct);
  }

  // ---------------------------------------------------------------------
  // One turn of the scan
  // ---------------------------------------------------------------------

  /** The index changes only at a struct header, and at a comment block
      after a struct header that a field line follows: a comment before any
      struct header, a block followed by another kind of line or by the end
      of the file, and a field with no comment above it leave no entry. */
  lemma {:induction false} NoEntryCases(infos: seq<LineInfo>, s: ScanState)
    requires s.i < |infos| && CursorOk(s)
    requires infos[s.i].header.None?
    requires !(s.current.Some? && infos[s.i].comment.Some?
               && BlockEnd(infos, s.i) < |infos| && infos[BlockEnd(infos, s.i)].field.Some?)
    ensures Step(infos, s).comments == s.comments
    ensures Step(infos, s).current == s.current
  {
  }

  /** After a comment block that follows a struct header, the scan resumes two lines past
      the block's last line: the line right after the block is read only as
      a possible field and is then skipped, even when it is a struct header.
      That line is never a comment line (`BlockEnd`); when it is blank, the
      field below it gets no entry (`BlankLineIgnored`, `NoEntryCases`). */
  lemma {:induction false} LineAfterBlockConsumed(infos: seq<LineInfo>, s: ScanState)
    requires s.i < |infos| && CursorOk(s)
    requires infos[s.i].header.None? && s.current.Some? && infos[s.i].comment.Some?
    ensures Step(infos, s).i == BlockEnd(infos, s.i) + 1
    ensures Step(infos, s).current == s.current
  {
  }

  /** A blank line is neither a struct header, nor a comment line, nor a
      field line: after a comment block it ends the block and is consumed
      as the failed field line, so a field separated from its comment by a
      blank line gets no entry. */
  lemma {:induction false} BlankLineIgnored(line: string)
    requires AllSpace(line)
    ensures StructHeader(line).None? && !IsCommentLine(line) && FieldLine(Strip(line)).None?
  {
    assert line == line + [] + [];
    StripIs(line, line, [], []);
    assert SkipWord([], 0) == 0;
    if |line| >= 4 {
      assert line[..4][0] == line[0] != 't';
    }
  }

  /** A field line after a comment block that follows a struct header is recorded under
      its JSON key, with the field name and the space-joined texts of the
      block's non-empty comment lines; the entry is made even when every
      line of the block is empty, and then its comment is empty. */
  lemma {:induction false} FieldRecorded(infos: seq<LineInfo>, s: ScanState)
    requires s.i < |infos| && CursorOk(s)
    requires infos[s.i].header.None? && s.current.Some? && infos[s.i].comment.Some?
    requires BlockEnd(infos, s.i) < |infos| && infos[BlockEnd(infos, s.i)].field.Some?
    ensures var j, field := BlockEnd(infos, s.i), infos[BlockEnd(infos, s.i)].field.value;
      var texts := BlockTexts(infos, s.i, j);
      var fields := Lookup(Step(infos, s).comments, s.current.value);
      fields.Some?
      && Lookup(fields.value, field.1) == Some(FieldInfo(field.0, JoinSpace(texts)))
      && (JoinSpace(texts) == [] <==>
          forall k :: s.i <= k < j ==> infos[k].comment.None? || infos[k].comment.value == [])
  {
    var j := BlockEnd(infos, s.i);
    var field := infos[j].field.value;
    var fields := Lookup(s.comments, s.current.value).value;
    var info := FieldInfo(field.0, JoinSpace(BlockTexts(infos, s.i, j)));
    PutLookup(fields, field.1, info, field.1);
    BlockTextsNonEmpty(infos, s.i, j);
    JoinSpaceEmpty(BlockTexts(infos, s.i, j));
    BlockTextsEmpty(infos, s.i, j);
  }

  /** The block's texts are exactly its non-empty comment texts: none is empty ... */
  lemma {:induction false} BlockTextsNonEmpty(infos: seq<LineInfo>, i: nat, j: nat)
    requires i <= j <= |infos|
    ensures forall x :: x in BlockTexts(infos, i, j) ==> x != []
    decreases j - i
  {
    if i < j {
      BlockTextsNonEmpty(infos, i, j - 1);
    }
  }

  /** ... and there are none exactly when every comment text is empty. */
  lemma {:induction false} BlockTextsEmpty(infos: seq<LineInfo>, i: nat, j: nat)
    requires i <= j <= |infos|
    ensures BlockTexts(infos, i, j) == [] <==>
      forall k :: i <= k < j ==> infos[k].comment.None? || infos[k].comment.value == []
    decreases j - i
  {
    if i < j {
      BlockTextsEmpty(infos, i, j - 1);
    }
  }

  /** `' '.join` of non-empty parts is empty only when there are no parts. */
  lemma {:induction false} JoinSpaceEmpty(parts: seq<string>)
    requires forall x :: x in parts ==> x != []
    ensures JoinSpace(parts) == [] <==> parts == []
  {
    if |parts| > 1 {
      assert parts[0] in parts;
    } else if |parts| == 1 {
      assert parts[0] in parts;
    }
  }

  /** A struct header is recognised only at the start of a line: an indented
      declaration is not one. */
  lemma {:induction false} IndentedHeaderIgnored(line: string)
    requires line != [] && IsSpace(line[0])
    ensures StructHeader(line).None?
  {
    assert !StartsWith(line, "type") by {
      if |line| >= 4 {
        assert line[..4][0] == line[0];
      }
    }
  }

  // ---------------------------------------------------------------------
  // Shape of the index
  // ---------------------------------------------------------------------

  /** Every key of the struct's entry is a word and no comment spans lines. */
  predicate FieldsOk(fields: StructFields) {
    forall e :: e in fields ==> IsWord(e.key) && NoNewline(e.value.comment)
  }

  predicate IndexOk(comments: CommentIndex) {
    forall e :: e in comments ==> FieldsOk(e.value)
  }

  /** No comment text of a line spans lines, and every JSON key of a field
      line is a word. */
  predicate InfosOk(infos: seq<LineInfo>) {
    forall k :: 0 <= k < |infos| ==>
      (infos[k].comment.Some? ==> NoNewline(infos[k].comment.value))
      && (infos[k].field.Some? ==> IsWord(infos[k].field.value.1))
  }

  lemma {:induction false} NoNewlineSlice(s: string, a: nat, b: nat)
    requires NoNewline(s) && a <= b <= |s|
    ensures NoNewline(s[a..b])
  {
    forall k | 0 <= k < b - a ensures s[a..b][k] != '\n' {
      assert s[a..b][k] == s[a + k];
    }
  }

  lemma {:induction false} StripNoNewline(s: string)
    requires NoNewline(s)
    ensures NoNewline(Strip(s))
  {
    var a := SkipSpace(s, 0);
    SkipSpaceRun(s, 0);
    TrimEndRun(s, a, |s|);
    NoNewlineSlice(s, a, TrimEnd(s, a, |s|));
  }

  /** The lines of a file hold no newline, so neither do their comment texts. */
  lemma {:induction false} ClassifiedOk(content: string)
    ensures InfosOk(ClassifyAll(Split(content)))
  {
    var lines := Split(content);
    var infos := ClassifyAll(lines);
    SplitJoin(content);
    forall k | 0 <= k < |infos| ensures infos[k].field.Some? ==> IsWord(infos[k].field.value.1) {
      FieldAt(lines, infos, k);
    }
    forall k | 0 <= k < |infos| && infos[k].comment.Some?
      ensures NoNewline(infos[k].comment.value)
    {
      CommentAt(lines, infos, k);
      var x := Strip(lines[k]);
      StripNoNewline(lines[k]);
      NoNewlineSlice(x, 2, |x|);
      StripNoNewline(x[2..]);
    }
  }

  lemma {:induction false} BlockTextsOk(infos: seq<LineInfo>, i: nat, j: nat)
    requires InfosOk(infos) && i <= j <= |infos|
    ensures forall x :: x in BlockTexts(infos, i, j) ==> NoNewline(x)
    decreases j - i
  {
    if i < j {
      BlockTextsOk(infos, i, j - 1);
    }
  }

  lemma {:induction false} JoinSpaceOk(parts: seq<string>)
    requires forall x :: x in parts ==> NoNewline(x)
    ensures NoNewline(JoinSpace(parts))
    decreases |parts|
  {
    if |parts| > 1 {
      assert parts[0] in parts;
      assert forall x :: x in parts[1..] ==> x in parts;
      JoinSpaceOk(parts[1..]);
    } else if |parts| == 1 {
      assert parts[0] in parts;
    }
  }

  lemma {:induction false} PutFieldsOk(fields: StructFields, key: string, info: FieldInfo)
    requires FieldsOk(fields) && IsWord(key) && NoNewline(info.comment)
    ensures FieldsOk(Put(fields, key, info))
  {
    forall e | e in Put(fields, key, info) ensures IsWord(e.key) && NoNewline(e.value.comment) {
      PutItems(fields, key, info, e);
    }
  }

  lemma {:induction false} PutIndexOk(acc: CommentIndex, struct: string, fields: StructFields)
    requires IndexOk(acc) && FieldsOk(fields)
    ensures IndexOk(Put(acc, struct, fields))
  {
    forall e | e in Put(acc, struct, fields) ensures FieldsOk(e.value) {
      PutItems(acc, struct, fields, e);
    }
  }

  /** One turn of the scan keeps the index well formed. */
  lemma {:induction false} StepOk(infos: seq<LineInfo>, s: ScanState)
    requires s.i < |infos| && CursorOk(s) && InfosOk(infos) && IndexOk(s.comments)
    ensures IndexOk(Step(infos, s).comments)
  {
    var i := s.i;
    if infos[i].header.Some? {
      PutIndexOk(s.comments, infos[i].header.value, []);
    } else if s.current.Some? && infos[i].comment.Some? {
      var j := BlockEnd(infos, i);
      if j < |infos| && infos[j].field.Some? {
        var field := infos[j].field.value;
        var texts := BlockTexts(infos, i, j);
        BlockTextsOk(infos, i, j);
        JoinSpaceOk(texts);
        RecordOk(s.comments, s.current.value, field.1, FieldInfo(field.0, JoinSpace(texts)));
      }
    }
  }

  lemma {:induction false} RecordOk(acc: CommentIndex, struct: string, key: string, info: FieldInfo)
    requires IndexOk(acc) && Lookup(acc, struct).Some? && IsWord(key) && NoNewline(info.comment)
    ensures IndexOk(Record(acc, struct, key, info))
  {
    var fields := Lookup(acc, struct).value;
    assert Entry(struct, fields) in acc;
    PutFieldsOk(fields, key, info);
    PutIndexOk(acc, struct, Put(fields, key, info));
  }

  lemma {:induction false} ScanOk(infos: seq<LineInfo>, s: ScanState)
    requires CursorOk(s) && InfosOk(infos) && IndexOk(s.comments)
    ensures IndexOk(Scan(infos, s))
    decreases |infos| - s.i
  {
    if s.i < |infos| {
      StepOk(infos, s);
      ScanOk(infos, Step(infos, s));
    }
  }

  /** Every JSON key in the extracted index is a word, and no comment in it
      holds a newline. */
  lemma {:induction false} ExtractOk(content: string)
    ensures IndexOk(ExtractSpec(content))
  {
    ClassifiedOk(content);
    ScanOk(ClassifyAll(Split(content)), ScanState(0, None, []));
  }

  // ---------------------------------------------------------------------
  // One entry per struct and per key
  // ---------------------------------------------------------------------

  /** Every struct name occurs once in the index, and every JSON key once in
      its struct's entry, as in the nested Python dictionaries. */
  predicate IndexUnique(comments: CommentIndex) {
    NoDupKeys(comments) && forall e :: e in comments ==> NoDupKeys(e.value)
  }

  lemma {:induction false} PutIndexUnique(acc: CommentIndex, struct: string, fields: StructFields)
    requires IndexUnique(acc) && NoDupKeys(fields)
    ensures IndexUnique(Put(acc, struct, fields))
  {
    PutNoDup(acc, struct, fields);
    forall e | e in Put(acc, struct, fields) ensures NoDupKeys(e.value) {
      PutItems(acc, struct, fields, e);
    }
  }

  lemma {:induction false} RecordUnique(acc: CommentIndex, struct: string, key: string, info: FieldInfo)
    requires IndexUnique(acc) && Lookup(acc, struct).Some?
    ensures IndexUnique(Record(acc, struct, key, info))
  {
    var fields := Lookup(acc, struct).value;
    assert Entry(struct, fields) in acc;
    PutNoDup(fields, key, info);
    PutIndexUnique(acc, struct, Put(fields, key, info));
  }

  /** One turn of the scan keeps one entry per struct and per key. */
  lemma {:induction false} StepUnique(infos: seq<LineInfo>, s: ScanState)
    requires s.i < |infos| && CursorOk(s) && IndexUnique(s.comments)
    ensures IndexUnique(Step(infos, s).comments)
  {
    var i := s.i;
    if infos[i].header.Some? {
      PutIndexUnique(s.comments, infos[i].header.value, []);
    } else if s.current.Some? && infos[i].comment.Some? {
      var j := BlockEnd(infos, i);
      if j < |infos| && infos[j].field.Some? {
        var field := infos[j].field.value;
        RecordUnique(s.comments, s.current.value, field.1, FieldInfo(field.0, JoinSpace(BlockTexts(infos, i, j))));
      }
    }
  }

  lemma {:induction false} ScanUnique(infos: seq<LineInfo>, s: ScanState)
    requires CursorOk(s) && IndexUnique(s.comments)
    ensures IndexUnique(Scan(infos, s))
    decreases |infos| - s.i
  {
    if s.i < |infos| {
      StepUnique(infos, s);
      ScanUnique(infos, Step(infos, s));
    }
  }

  /** The extracted index has one entry per struct name and, in each, one
      entry per JSON key: a repeated header or key replaces, never adds. */
  lemma {:induction false} ExtractNoDup(content: string)
    ensures NoDupKeys(ExtractSpec(content))
    ensures forall e :: e in ExtractSpec(content) ==> NoDupKeys(e.value)
  {
    ScanUnique(ClassifyAll(Split(content)), ScanState(0, None, []));
  }

  // ---------------------------------------------------------------------
  // The documented example
  // ---------------------------------------------------------------------

  /** The struct `Foo` with one field `Bar`, tagged `json:"bar"`, under a
      two-line comment: the index holds exactly that struct, with exactly
      that key, the field's name and the two comment lines joined by a
      space. */
  lemma {:induction false} ExtractionExample(lines: seq<string>)
    requires lines == ["type Foo struct {", "    // The bar value", "    // used for X",
                       "    Bar string `json:\"bar\"`", "}"]
    ensures ExtractSpec(JoinLines(lines)) == [Entry("Foo", [Entry("bar", FieldInfo("Bar", "The bar value used for X"))])]
  {
    var infos := ClassifyAll(lines);
    assert Split(JoinLines(lines)) == lines by {
      ExampleLines(lines);
      JoinSplit(lines);
    }
    assert infos[0].header == Some("Foo") by {
      HeaderAt(lines, infos, 0);
      ExampleHeader(lines[0]);
    }
    assert infos[1].header.None? && infos[1].comment == Some("The bar value")
        && infos[2].comment == Some("used for X") by {
      HeaderAt(lines, infos, 1);
      CommentAt(lines, infos, 1);
      CommentAt(lines, infos, 2);
      ExampleBlock(lines[1], lines[2]);
    }
    assert infos[3].comment.None? && infos[3].field == Some(("Bar", "bar")) by {
      CommentAt(lines, infos, 3);
      FieldAt(lines, infos, 3);
      ExampleField(lines[3]);
    }
    assert infos[4].header.None? && infos[4].comment.None? by {
      HeaderAt(lines, infos, 4);
      CommentAt(lines, infos, 4);
      ExampleClose(lines[4]);
    }
    ExampleScan(infos);
    ExampleJoin("The bar value", "used for X");
  }

  lemma {:induction false} ExampleLines(lines: seq<string>)
    requires lines == ["type Foo struct {", "    // The bar value", "    // used for X",
                       "    Bar string `json:\"bar\"`", "}"]
    ensures |lines| >= 1 && forall k :: 0 <= k < |lines| ==> NoNewline(lines[k])
  {
  }

  /** The header line names `Foo`. */
  lemma {:induction false} ExampleHeader(line: string)
    requires line == "type Foo struct {"
    ensures StructHeader(line) == Some("Foo")
  {
    assert HeaderCuts(line, 5, 8, 9, 16);
    StructHeaderComplete(line, 5, 8, 9, 16);
    assert line[5..8] == "Foo";
  }

  /** The two comment lines, with their texts. */
  lemma {:induction false} ExampleBlock(l1: string, l2: string)
    requires l1 == "    // The bar value" && l2 == "    // used for X"
    ensures StructHeader(l1).None? && IsCommentLine(l1) && CommentText(l1) == "The bar value"
    ensures IsCommentLine(l2) && CommentText(l2) == "used for X"
  {
    ExampleFirstComment(l1);
    ExampleSecondComment(l2);
  }

  lemma {:induction false} ExampleFirstComment(l1: string)
    requires l1 == "    // The bar value"
    ensures StructHeader(l1).None? && IsCommentLine(l1) && CommentText(l1) == "The bar value"
  {
    assert l1 == "    " + "// " + "The bar value";
    CommentLineOf(l1, "    ", "The bar value");
  }

  lemma {:induction false} ExampleSecondComment(l2: string)
    requires l2 == "    // used for X"
    ensures IsCommentLine(l2) && CommentText(l2) == "used for X"
  {
    assert l2 == "    " + "// " + "used for X";
    CommentLineOf(l2, "    ", "used for X");
  }

  /** The field line declares `Bar` with key `bar`. */
  lemma {:induction false} ExampleField(line: string)
    requires line == "    Bar string `json:\"bar\"`"
    ensures !IsCommentLine(line) && FieldLine(Strip(line)) == Some(("Bar", "bar"))
  {
    var tag := "`json:\"" + "bar" + "\"`";
    assert tag == "`json:\"bar\"`";
    assert line == "    " + "Bar" + " " + "string " + tag;
    FieldLineOf(line, "    ", "Bar", "string ", "bar");
  }

  /** An indented `// text` line is a comment line with that text, and not a
      struct header. */
  lemma {:induction false} CommentLineOf(line: string, w: string, text: string)
    requires line == w + "// " + text && AllSpace(w) && text != []
    requires !IsSpace(text[0]) && !IsSpace(text[|text| - 1])
    ensures StructHeader(line).None? && IsCommentLine(line) && CommentText(line) == text
  {
    var r := "// " + text;
    assert Strip(line) == r by {
      assert line == w + r + "" && r[|r| - 1] == text[|text| - 1];
      StripIs(line, w, r, "");
    }
    assert IsCommentLine(line) by {
      assert r[..2] == "//";
    }
    assert CommentText(line) == text by {
      assert r[2..] == " " + text + "";
      StripIs(r[2..], " ", text, "");
    }
    assert !StartsWith(line, "type") by {
      assert line[0] == if w == [] then r[0] else w[0];
      assert line[0] != 't';
      if |line| >= 4 {
        assert line[..4][0] == line[0];
      }
    }
  }

  /** An indented line `name type`json:"key"`` declares the field `name`
      with the key `key`, and is not a comment line. */
  lemma {:induction false} FieldLineOf(line: string, w: string, name: string, ty: string, key: string)
    requires line == w + name + " " + ty + "`json:\"" + key + "\"`"
    requires AllSpace(w) && IsWord(name) && ty != [] && '`' !in ty && IsWord(key)
    ensures !IsCommentLine(line) && FieldLine(Strip(line)) == Some((name, key))
  {
    var x := name + " " + ty + "`json:\"" + key + "\"`";
    assert Strip(line) == x by {
      assert line == w + x + "" && x[0] == name[0] && x[|x| - 1] == '`';
      StripIs(line, w, x, "");
    }
    var n := |name|;
    var bt := n + 1 + |ty|;
    var m := bt + 7 + |key|;
    assert FieldCuts(x, n, n + 1, bt, m) by {
      assert x[..n] == name;
      assert x[n..n + 1] == " ";
      assert x[n + 1..bt] == ty;
      assert x[bt..bt + 7] == "`json:\"";
      assert x[bt + 7..m] == key;
      assert x[m] == '"';
    }
    assert FieldLine(x) == Some((name, key)) by {
      FieldLineComplete(x, n, n + 1, bt, m);
      assert x[..n] == name && x[bt + 7..m] == key;
    }
    assert !StartsWith(x, "//") by {
      assert IsWordChar(name[0]);
      assert x[..2][0] == x[0] == name[0] != '/';
    }
  }

  /** The closing brace is neither a struct header nor a comment line. */
  lemma {:induction false} ExampleClose(line: string)
    requires line == "}"
    ensures StructHeader(line).None? && !IsCommentLine(line)
  {
    StripIs(line, "", "}", "");
  }

  /** The scan over the classified example: the header creates `Foo`, the
      block of lines 1 and 2 ends at the field line 3, which is recorded and
      consumed, and line 4 is passed over. */
  lemma {:induction false} ExampleScan(infos: seq<LineInfo>)
    requires |infos| == 5 && infos[0].header == Some("Foo")
    requires infos[1].header.None? && infos[1].comment == Some("The bar value")
    requires infos[2].comment == Some("used for X")
    requires infos[3].comment.None? && infos[3].field == Some(("Bar", "bar"))
    requires infos[4].header.None? && infos[4].comment.None?
    ensures Scan(infos, ScanState(0, None, [])) ==
      [Entry("Foo", [Entry("bar", FieldInfo("Bar", JoinSpace(["The bar value", "used for X"])))])]
  {
    var info := FieldInfo("Bar", JoinSpace(["The bar value", "used for X"]));
    var s0 := ScanState(0, None, []);
    var s1 := ScanState(1, Some("Foo"), [Entry("Foo", [])]);
    var s2 := ScanState(4, Some("Foo"), [Entry("Foo", [Entry("bar", info)])]);
    assert Step(infos, s0) == s1;
    assert BlockEnd(infos, 1) == 3 by {
      assert BlockEnd(infos, 3) == 3;
      assert BlockEnd(infos, 2) == 3;
    }
    assert BlockTexts(infos, 1, 3) == ["The bar value", "used for X"] by {
      assert BlockTexts(infos, 1, 1) == [];
      assert BlockTexts(infos, 1, 2) == ["The bar value"];
    }
    assert Step(infos, s1) == s2;
    assert Step(infos, s2) == ScanState(5, Some("Foo"), s2.comments);
    ScanUnfold(infos, s0);
    ScanUnfold(infos, s1);
    ScanUnfold(infos, s2);
  }

  lemma {:induction false} ExampleJoin(a: string, b: string)
    requires a == "The bar value" && b == "used for X"
    ensures JoinSpace([a, b]) == "The bar value used for X"
  {
  }
}

