/**
  `update_kcl_with_comments`: for every struct of the comment index and every
  field of that struct, in the dictionaries' iteration order, one pass of the
  annotator over the KCL text, each pass reading the text the previous one
  left.
 */
module KclUpdate {
  import opened Text
  import opened OrderedMaps
  import opened Annotator
  import opened AnnotatorFixpoint
  import opened AnnotatorOtherKeys
  import opened GoComments
  import opened GoCommentsFacts

  /** One pass: the JSON key whose fields get a comment, and the comment. */
  datatype Pass = Pass(key: string, comment: string)

  /** The passes the inner loop makes over one struct's fields. */
  function FieldPasses(fields: StructFields): (ps: seq<Pass>) {
    seq(|fields|, i requires 0 <= i < |fields| => Pass(fields[i].key, fields[i].value.comment))
  }

  /** The passes both loops make, struct after struct. */
  function Passes(comments: CommentIndex): (ps: seq<Pass>) {
    if comments == [] then []
    else Passes(comments[..|comments| - 1]) + FieldPasses(comments[|comments| - 1].value)
  }

  /** The text after running the passes `ps` in order. */
  function RunPasses(t: string, ps: seq<Pass>): (r: string) {
    if ps == [] then t
    else
      var last := ps[|ps| - 1];
      Sub(RunPasses(t, ps[..|ps| - 1]), last.key, last.comment)
  }

  /** The text `update_kcl_with_comments` writes back for the KCL text `kcl`. */
  function UpdateSpec(kcl: string, comments: CommentIndex): (r: string) {
    RunPasses(kcl, Passes(comments))
  }

  /** `update_kcl_with_comments`, on the file's text: the two loops, one
      `re.sub` per field. */
  method UpdateKclWithComments(kclContent: string, comments: CommentIndex) returns (r: string)
    ensures r == UpdateSpec(kclContent, comments)
  {
    r := kclContent;
    var i := 0;
    while i < |comments|
      invariant 0 <= i <= |comments|
      invariant r == RunPasses(kclContent, Passes(comments[..i]))
    {
      var fields := comments[i].value;
      ghost var done := Passes(comments[..i]);
      var j := 0;
      assert done + FieldPasses(fields[..0]) == done;
      while j < |fields|
        invariant 0 <= j <= |fields|
        invariant r == RunPasses(kclContent, done + FieldPasses(fields[..j]))
      {
        var comment := fields[j].value.comment;
        r := Sub(r, fields[j].key, comment);
        FieldStep(kclContent, done, fields, j);
        j := j + 1;
      }
      StructStep(comments, i);
      i := i + 1;
    }
    assert comments[..i] == comments;
  }

  /** One turn of the inner loop runs the pass for field `j` next. */
  lemma {:induction false} FieldStep(t: string, done: seq<Pass>, fields: StructFields, j: nat)
    requires j < |fields|
    ensures RunPasses(t, done + FieldPasses(fields[..j + 1])) ==
      Sub(RunPasses(t, done + FieldPasses(fields[..j])), fields[j].key, fields[j].value.comment)
  {
    var p := Pass(fields[j].key, fields[j].value.comment);
    assert FieldPasses(fields[..j + 1]) == FieldPasses(fields[..j]) + [p];
    assert done + FieldPasses(fields[..j + 1]) == (done + FieldPasses(fields[..j])) + [p];
    RunPassesSnoc(t, done + FieldPasses(fields[..j]), p);
  }

  /** Running one more pass. */
  lemma {:induction false} RunPassesSnoc(t: string, ps: seq<Pass>, p: Pass)
    ensures RunPasses(t, ps + [p]) == Sub(RunPasses(t, ps), p.key, p.comment)
  {
    assert (ps + [p])[..|ps|] == ps;
  }

  /** One turn of the outer loop runs the passes of struct `i` next. */
  lemma {:induction false} StructStep(comments: CommentIndex, i: nat)
    requires i < |comments|
    ensures Passes(comments[..i + 1]) == Passes(comments[..i]) + FieldPasses(comments[i].value[..|comments[i].value|])
  {
    assert comments[..i + 1][..i] == comments[..i];
    assert comments[i].value[..|comments[i].value|] == comments[i].value;
  }

  // ---------------------------------------------------------------------
  // Properties of the whole update
  // ---------------------------------------------------------------------

  /** Every key is a word and no comment holds a newline, as for every index
      the extractor builds. */
  predicate PassesOk(ps: seq<Pass>) {
    forall p :: p in ps ==> IsWord(p.key) && NoNewline(p.comment)
  }

  /** After the passes, the text is fixed for every key they used: a further
      pass for any of them changes nothing. */
  lemma {:induction false} RunPassesFixes(t: string, ps: seq<Pass>)
    requires PassesOk(ps)
    ensures forall p :: p in ps ==> Fixed(RunPasses(t, ps), p.key)
    decreases |ps|
  {
    if ps != [] {
      var init, last := ps[..|ps| - 1], ps[|ps| - 1];
      assert ps == init + [last];
      RunPassesFixes(t, init);
      var mid := RunPasses(t, init);
      SubFixes(mid, last.key, last.comment);
      forall p | p in ps ensures Fixed(Sub(mid, last.key, last.comment), p.key) {
        if p.key != last.key {
          assert p in init;
          SubKeepsFixed(mid, last.key, last.comment, p.key);
        }
      }
    }
  }

  /** Passes over a text that is fixed for each of their keys change nothing. */
  lemma {:induction false} RunPassesOnFixed(t: string, ps: seq<Pass>)
    requires forall p :: p in ps ==> Fixed(t, p.key)
    ensures RunPasses(t, ps) == t
    decreases |ps|
  {
    if ps != [] {
      var init, last := ps[..|ps| - 1], ps[|ps| - 1];
      assert ps == init + [last];
      RunPassesOnFixed(t, init);
      FixedUnchanged(t, last.key, last.comment);
    }
  }

  /** Running the update a second time with the same index leaves the text
      as the first run left it. */
  lemma {:induction false} RunPassesIdempotent(t: string, ps: seq<Pass>)
    requires PassesOk(ps)
    ensures RunPasses(RunPasses(t, ps), ps) == RunPasses(t, ps)
  {
    RunPassesFixes(t, ps);
    RunPassesOnFixed(RunPasses(t, ps), ps);
  }

  /** A pass for a key that an earlier pass already used changes nothing:
      the first comment given for a key is the one that stays. */
  lemma {:induction false} LaterPassUnchanged(t: string, ps: seq<Pass>, i: nat, j: nat)
    requires PassesOk(ps) && i < j < |ps| && ps[i].key == ps[j].key
    ensures RunPasses(t, ps[..j + 1]) == RunPasses(t, ps[..j])
  {
    var pre := ps[..j];
    assert ps[..j + 1][..j] == pre;
    assert ps[i] in pre;
    RunPassesFixes(t, pre);
    FixedUnchanged(RunPasses(t, pre), ps[j].key, ps[j].comment);
  }

  /** The passes of two indexes one after the other are those of the joined index. */
  lemma {:induction false} PassesAppend(x: CommentIndex, y: CommentIndex)
    ensures Passes(x + y) == Passes(x) + Passes(y)
    decreases |y|
  {
    if y != [] {
      var y' := y[..|y| - 1];
      assert (x + y)[..|x + y| - 1] == x + y';
      PassesAppend(x, y');
    } else {
      assert x + y == x;
    }
  }

  /** The pass for field `f` of struct `a` comes after the passes of the
      structs before `a`, and before those of the structs after it. */
  lemma {:induction false} PassAt(comments: CommentIndex, a: nat, f: nat)
    requires a < |comments| && f < |comments[a].value|
    ensures |Passes(comments[..a])| + |comments[a].value| <= |Passes(comments)|
    ensures var fields := comments[a].value;
      Passes(comments)[|Passes(comments[..a])| + f] == Pass(fields[f].key, fields[f].value.comment)
  {
    var one := [comments[a]];
    assert one[..0] == [];
    assert Passes(one) == FieldPasses(comments[a].value);
    assert comments == comments[..a] + (one + comments[a + 1..]);
    PassesAppend(comments[..a], one + comments[a + 1..]);
    PassesAppend(one, comments[a + 1..]);
  }

  /** The structs before `b` make at least the passes of the structs up to `a`. */
  lemma {:induction false} PassesGrow(comments: CommentIndex, a: nat, b: nat)
    requires a < b <= |comments|
    ensures |Passes(comments[..a])| + |comments[a].value| <= |Passes(comments[..b])|
  {
    var one := [comments[a]];
    assert one[..0] == [];
    assert Passes(one) == FieldPasses(comments[a].value);
    assert comments[..b] == comments[..a] + (one + comments[a + 1..b]);
    PassesAppend(comments[..a], one + comments[a + 1..b]);
    PassesAppend(one, comments[a + 1..b]);
  }

  /** When two structs share a JSON key, the pass for the later struct's
      field changes nothing: fields with that key keep the comment of the
      earlier struct. */
  lemma {:induction false} SharedKeyKeepsFirst(t: string, comments: CommentIndex, a: nat, g: nat, b: nat, f: nat)
    requires PassesOk(Passes(comments))
    requires a < b < |comments| && g < |comments[a].value| && f < |comments[b].value|
    requires comments[a].value[g].key == comments[b].value[f].key
    ensures var ps, j := Passes(comments), |Passes(comments[..b])| + f;
      j < |ps| && ps[j] == Pass(comments[b].value[f].key, comments[b].value[f].value.comment)
      && RunPasses(t, ps[..j + 1]) == RunPasses(t, ps[..j])
  {
    var i := SharedKeyAt(comments, a, g, b, f);
    LaterPassUnchanged(t, Passes(comments), i, |Passes(comments[..b])| + f);
  }

  /** Where the two passes of a shared key are. */
  lemma {:induction false} SharedKeyAt(comments: CommentIndex, a: nat, g: nat, b: nat, f: nat) returns (i: nat)
    requires a < b < |comments| && g < |comments[a].value| && f < |comments[b].value|
    requires comments[a].value[g].key == comments[b].value[f].key
    ensures var ps, j := Passes(comments), |Passes(comments[..b])| + f;
      i < j < |ps| && ps[i].key == ps[j].key
      && ps[j] == Pass(comments[b].value[f].key, comments[b].value[f].value.comment)
  {
    i := |Passes(comments[..a])| + g;
    PassAt(comments, a, g);
    PassAt(comments, b, f);
    PassesGrow(comments, a, b);
  }

  /** The passes of a well-formed index use word keys and one-line comments. */
  lemma {:induction false} PassesOfOk(comments: CommentIndex)
    requires IndexOk(comments)
    ensures PassesOk(Passes(comments))
    decreases |comments|
  {
    if comments != [] {
      var init, last := comments[..|comments| - 1], comments[|comments| - 1];
      assert forall e :: e in init ==> e in comments;
      PassesOfOk(init);
      assert last in comments;
      forall p | p in FieldPasses(last.value) ensures IsWord(p.key) && NoNewline(p.comment) {
        var f :| 0 <= f < |last.value| && FieldPasses(last.value)[f] == p;
        assert last.value[f] in last.value;
      }
    }
  }

  /** Extracting the comments of a Go file and updating a KCL text with them
      twice gives the text the first update gave. */
  lemma {:induction false} UpdateIdempotent(goContent: string, kcl: string)
    ensures var comments := ExtractSpec(goContent);
      UpdateSpec(UpdateSpec(kcl, comments), comments) == UpdateSpec(kcl, comments)
  {
    ExtractOk(goContent);
    PassesOfOk(ExtractSpec(goContent));
    RunPassesIdempotent(kcl, Passes(ExtractSpec(goContent)));
  }
}
