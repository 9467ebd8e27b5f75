# Go struct comments into a KCL schema

A model of `kcl/vcluster/add_comments.py`. The script has two parts:

- **Extractor.** `extract_go_comments` reads a Go source file line by line. After the first `type X struct {` header, it collects each run of `//` comment lines. When the line after the run declares a field with a `json:"key"` tag, it records the field's name and the run's text under the JSON key, in the entry of the most recent header's struct. The struct's closing `}` is never looked for, so a comment above a later `func` or `var` is collected under that struct too.
- **Annotator.** `update_kcl_with_comments` walks the structs and fields of that index in dictionary order. For each field it makes one `re.sub` pass over the KCL schema text with the pattern `(\n\s*)(key\?:\s*[^\n]+)`. The callback `replace_with_comment` puts an indented `# comment` line in front of every match whose preceding line is not already a `#` comment.

Both parts work on the file's text. Reading and writing the files is not modelled.

Layout:

- `text.dfy` (`Text`): character classes, greedy scanners, `strip`, `startswith`, `split('\n')` and `' '.join`.
- `odict.dfy` (`OrderedMaps`): Python dictionaries, with insertion order and assignment in place.
- `extract.dfy` (`GoComments`): the two line patterns, and the extractor as pure functions (`Step`, `Scan`, `ExtractSpec`). The imperative method `ExtractGoComments` is proved to return `ExtractSpec`.
- `extract_facts.dfy` (`GoCommentsFacts`): what the index returned holds.
- `kcl_match.dfy` (`KclPattern`): the KCL field pattern, tried at one position, including the backtracking of `\s*[^\n]+` at the end of the text.
- `annotate.dfy` (`Annotator`):
  - `re.sub` with the callback, as a left-to-right scan (`SubFrom`).
  - The same pass described as "copy the text and put a piece in front of each rewritten match" (`Rewritten`, `InsertFrom`).
- `shift.dfy` (`TextShift`): the scanners seen through an insertion.
- `fixpoint.dfy` (`AnnotatorFixpoint`): a second pass for the same key changes nothing.
- `other_keys.dfy` (`AnnotatorOtherKeys`): a pass for one key keeps the text fixed for every other key.
- `script.dfy` (`KclUpdate`): the two nested loops of `update_kcl_with_comments`, and idempotence of the whole update.

Behaviour worth knowing, all of it modelled:

- An entry is recorded even when every line of the comment block is empty after stripping. Its comment is then the empty string.
- A struct header is recognised only when `type` starts the line. `re.match` with `^type` does not skip leading whitespace, so an indented declaration is not a header.
- The line right after a comment block is read only as a possible field line and is then skipped. This happens even when that line is a struct header. That line is never a comment line, because the block runs up to the first line that is not one. When it is blank, the field below it gets no entry.
- The "already commented" guard reads the text as it was when the pass began, not the output being built. It needs at least one newline before the match. So a field on the second line of the text, under a `#` line on the first, is annotated again.

## Model

| member | source | states |
|---|---|---|
| Text.Strip | kcl/vcluster/add_comments.py:36-40 | `str.strip()` returns a string no longer than its input, with no whitespace at either end |
| Text.StripIs | kcl/vcluster/add_comments.py:36-40 | stripping removes exactly the leading and trailing whitespace: whitespace + `r` + whitespace strips to `r` |
| Text.Split | kcl/vcluster/add_comments.py:22 | `s.split('\n')`: always at least one piece; `SplitJoin`, `JoinSplit` and `SplitMany` state what the pieces are |
| Text.SplitJoin | kcl/vcluster/add_comments.py:22 | `'\n'.join(s.split('\n')) == s`, and no piece of the split holds a newline |
| Text.JoinSplit | kcl/vcluster/add_comments.py:22 | the other direction: joining lines that hold no newline and splitting again gives back the same lines |
| Text.SplitMany | kcl/vcluster/add_comments.py:80-81 | `split('\n')` gives at least two pieces exactly when the text holds a newline |
| Text.JoinSpace | kcl/vcluster/add_comments.py:52 | `' '.join(comment_lines)`; `GoCommentsFacts.JoinSpaceEmpty` states it is empty exactly when there are no parts, for non-empty parts |
| OrderedMaps.Put | kcl/vcluster/add_comments.py:31-56 | `d[k] = v` on an insertion-ordered dictionary; `PutLookup`, `PutKeys`, `PutNoDup` and `PutItems` state its result |
| OrderedMaps.PutLookup | kcl/vcluster/add_comments.py:53-56 | after `d[k] = v`, `k` maps to `v` and every other key keeps its value |
| OrderedMaps.PutKeys | kcl/vcluster/add_comments.py:53-56 | assignment keeps the iteration order: an existing key stays where it was, a new key goes last |
| OrderedMaps.PutNoDup | kcl/vcluster/add_comments.py:53-56 | assignment never makes a key appear twice |
| GoComments.StructHeader | kcl/vcluster/add_comments.py:20-30 | a recognised header line starts with `type` and gives a word as the struct name |
| GoComments.StructHeaderSound | kcl/vcluster/add_comments.py:20-30 | a recognised header is cut by `^type\s+(\w+)\s+struct\s*{` around the name returned |
| GoComments.StructHeaderComplete | kcl/vcluster/add_comments.py:20-30 | every way the header pattern matches a line is recognised, with the same name, so the match is unique |
| GoComments.FieldLine | kcl/vcluster/add_comments.py:47-51 | a recognised field line gives a word as the field name and a word as the JSON key |
| GoComments.FieldLineSound | kcl/vcluster/add_comments.py:47-51 | a recognised field line is cut by the field pattern (name, whitespace, a type part without backticks, the `json:"` tag opening, the key) around the name and the key returned |
| GoComments.FieldLineComplete | kcl/vcluster/add_comments.py:47-51 | every way the field pattern matches is recognised, with the same name and key |
| GoComments.IsCommentLine | kcl/vcluster/add_comments.py:36-39 | `line.strip().startswith('//')`; `GoCommentsFacts.CommentLineOf` and `BlankLineIgnored` state which lines are comment lines |
| GoComments.CommentText | kcl/vcluster/add_comments.py:40 | the text of a comment line has no whitespace at either end |
| GoComments.BlockEnd | kcl/vcluster/add_comments.py:39-43 | the inner loop stops at the first line at or after its start that is not a comment line, or at the end of the file |
| GoComments.CollectComments | kcl/vcluster/add_comments.py:37-43 | the inner loop returns the index where the block ends, and the block's non-empty comment texts in order |
| GoComments.Reset | kcl/vcluster/add_comments.py:31 | after `comments[struct] = {}`, the struct maps to an empty dictionary |
| GoComments.Record | kcl/vcluster/add_comments.py:53-56 | after `comments[struct][key] = info`, the struct's fields are its old fields with `key` set to `info` |
| GoComments.Step | kcl/vcluster/add_comments.py:24-57 | one turn of the outer loop moves the line index forward, past at most the end of the file, and `comments[current_struct]` always exists |
| GoComments.Scan | kcl/vcluster/add_comments.py:24-59 | the `while i < len(lines)` loop run from a state to the end; `GoCommentsFacts.ScanOk` and `ScanUnique` state what it keeps |
| GoComments.ExtractSpec | kcl/vcluster/add_comments.py:9-59 | what `extract_go_comments` returns for a text; `ExtractGoComments`, `GoCommentsFacts.ExtractOk`, `ExtractNoDup` and `ExtractionExample` state it |
| GoComments.ExtractGoComments | kcl/vcluster/add_comments.py:9-59 | the imperative loop returns the index computed by the pure function `ExtractSpec` |
| GoCommentsFacts.RepeatedStructResets | kcl/vcluster/add_comments.py:28-31 | a struct header seen again empties that struct's entry and keeps its place in the order; other structs keep their entries; a new struct goes last |
| GoCommentsFacts.RepeatedKeyOverwrites | kcl/vcluster/add_comments.py:53-56 | a key recorded again replaces the earlier entry in place; other keys and other structs are unchanged |
| GoCommentsFacts.NoEntryCases | kcl/vcluster/add_comments.py:35-57 | the index and the current struct change only at a header, or at a comment block after a header that a field line follows |
| GoCommentsFacts.LineAfterBlockConsumed | kcl/vcluster/add_comments.py:45-57 | after a comment block the scan resumes one line past the line that follows the block, whatever that line holds |
| GoCommentsFacts.FieldRecorded | kcl/vcluster/add_comments.py:37-56 | a field line after a block is recorded under its key, with its name and the space-joined non-empty texts; the comment is empty exactly when every text was empty |
| GoCommentsFacts.IndentedHeaderIgnored | kcl/vcluster/add_comments.py:20-28 | a line starting with whitespace is never a struct header |
| GoCommentsFacts.ExtractOk | kcl/vcluster/add_comments.py:9-59 | every JSON key in the extracted index is a word, and no comment in it holds a newline |
| GoCommentsFacts.ExtractNoDup | kcl/vcluster/add_comments.py:31-56 | no struct name occurs twice in the extracted index, and no JSON key occurs twice within one struct's fields |
| GoCommentsFacts.CommentLineOf | kcl/vcluster/add_comments.py:28-40 | an indented `// text` line is a comment line whose text is `text`, and not a struct header |
| GoCommentsFacts.FieldLineOf | kcl/vcluster/add_comments.py:47-51 | an indented ``Name type`json:"key"` `` line declares field `Name` with key `key`, and is not a comment line |
| GoCommentsFacts.BlankLineIgnored | kcl/vcluster/add_comments.py:28-51 | a blank line is not a struct header, not a comment line and not a field line, so a field below a blank line after its comment gets no entry |
| GoCommentsFacts.ExtractionExample | kcl/vcluster/add_comments.py:9-59 | the file with lines `type Foo struct {`, `// The bar value`, `// used for X`, ``Bar string `json:"bar"` `` (these three indented by four spaces) and `}` gives exactly struct `Foo` with key `bar`, field name `Bar` and comment `The bar value used for X` |
| KclPattern.FieldDefEnd | kcl/vcluster/add_comments.py:73 | `\s*[^\n]+` from a position ends strictly after it and within the text |
| KclPattern.FieldDefEndsLine | kcl/vcluster/add_comments.py:73 | the field definition found does not end in a newline, and a newline or the end of the text follows it |
| KclPattern.FieldDefNone | kcl/vcluster/add_comments.py:73 | `\s*[^\n]+` fails only when nothing but newlines is left |
| KclPattern.FieldDefSound | kcl/vcluster/add_comments.py:73 | the end found is the end of a way for `\s*[^\n]+` to match |
| KclPattern.FieldDefLongest | kcl/vcluster/add_comments.py:73 | no way for `\s*[^\n]+` to match ends later than the end found |
| KclPattern.MatchAt | kcl/vcluster/add_comments.py:73 | a match at `p` puts its key after `p` and ends after `key?:`, within the text |
| KclPattern.MatchSound | kcl/vcluster/add_comments.py:73 | a match found is a way for `(\n\s*)(key\?:\s*[^\n]+)` to match at that position |
| KclPattern.MatchLongest | kcl/vcluster/add_comments.py:73 | for a word key, every way for the pattern to match at a position is found, at the same key position and ending no later |
| Annotator.AlreadyCommented | kcl/vcluster/add_comments.py:79-81 | the guard of `replace_with_comment`; `GuardIsLastLine` and `GuardedIs` state it in plain words |
| Annotator.GuardIsLastLine | kcl/vcluster/add_comments.py:79-81 | the callback's guard holds exactly when the text before the match holds a newline and its last line, stripped, starts with `#` |
| Annotator.GuardedIs | kcl/vcluster/add_comments.py:79-81 | the guard on `t[:p]` equals a check on the line of `t` that holds `p`: it is not the first line, and its first non-blank character comes before `p` and is `#` |
| Annotator.Indent | kcl/vcluster/add_comments.py:76 | group 1 is the match's newline followed by whitespace only |
| Annotator.Piece | kcl/vcluster/add_comments.py:84 | the text put in front of an unguarded match; `AnnotatorFixpoint.PieceGuards` states that it makes the match guarded afterwards |
| Annotator.ReplaceWithComment | kcl/vcluster/add_comments.py:75-84 | the callback returns the match unchanged when the guard holds, and otherwise the indented `# comment` line followed by the match |
| Annotator.SubFrom | kcl/vcluster/add_comments.py:86 | `re.sub` from a position on: its output is never shorter than the rest of the text; `SubIsInsert` states what it returns |
| Annotator.Sub | kcl/vcluster/add_comments.py:86 | one `re.sub` pass; `SubIsInsert`, `NoOccurrence`, `FixedUnchanged`, `AnnotatorFixpoint.SubFixes` and `AnnotatorOtherKeys.SubKeepsFixed` state what it returns |
| Annotator.SubIsInsert | kcl/vcluster/add_comments.py:86 | `re.sub` with the callback copies the text and puts a comment piece in front of each rewritten match, and changes nothing else |
| Annotator.RewrittenAreMatches | kcl/vcluster/add_comments.py:81-86 | every rewritten position holds a match whose guard does not hold |
| Annotator.FirstMatchVisited | kcl/vcluster/add_comments.py:86 | the first match at or after a position is visited, and is rewritten exactly when its guard does not hold |
| Annotator.NoOccurrence | kcl/vcluster/add_comments.py:86 | a pass for a key that matches nowhere leaves the text unchanged |
| Annotator.FixedUnchanged | kcl/vcluster/add_comments.py:81-86 | a pass leaves a text unchanged, whatever its comment, when it would rewrite no match |
| Annotator.FirstLineException | kcl/vcluster/add_comments.py:80-84 | a field on the second line of the text is annotated even under a `#` line, because the text before it splits into one piece |
| Annotator.SecondLineGuarded | kcl/vcluster/add_comments.py:80-83 | the same lines one line further down are left alone |
| Annotator.InsertionExample | kcl/vcluster/add_comments.py:73-86 | a pass for key `bar` over `\n  bar?: string` puts `\n  # c` in front of the field, with the field's two-space indentation, for any comment `c` |
| Annotator.InsertionDocumented | kcl/vcluster/add_comments.py:73-86 | the same with the comment `The bar value used for X`: the result is `\n  # The bar value used for X\n  bar?: string` |
| AnnotatorFixpoint.SubFixes | kcl/vcluster/add_comments.py:73-86 | after a pass for a word key with a one-line comment, a further pass for that key rewrites nothing |
| AnnotatorFixpoint.SecondPassUnchanged | kcl/vcluster/add_comments.py:73-86 | a second pass for the same key changes nothing, whatever its comment: the first comment stays |
| AnnotatorOtherKeys.SubKeepsFixed | kcl/vcluster/add_comments.py:73-86 | a pass for one key keeps a text fixed for every word key: no pass for that key will rewrite anything |
| KclUpdate.FieldPasses | kcl/vcluster/add_comments.py:68-69 | the passes of the inner loop, one per field in dictionary order |
| KclUpdate.Passes | kcl/vcluster/add_comments.py:67-69 | the passes of both loops, struct after struct; `PassAt`, `PassesGrow` and `PassesAppend` state where each field's pass is |
| KclUpdate.RunPasses | kcl/vcluster/add_comments.py:67-86 | the text after running passes in order, each on the text the previous one left; `RunPassesFixes` and `RunPassesIdempotent` state its properties |
| KclUpdate.UpdateSpec | kcl/vcluster/add_comments.py:61-86 | the text `update_kcl_with_comments` writes back; `UpdateKclWithComments` returns it and `UpdateIdempotent` states it is idempotent |
| KclUpdate.UpdateKclWithComments | kcl/vcluster/add_comments.py:61-86 | the two nested loops return the text after one pass per (struct, field), in the dictionaries' order |
| KclUpdate.RunPassesFixes | kcl/vcluster/add_comments.py:67-86 | after a sequence of passes, the text is fixed for every key the passes used |
| KclUpdate.RunPassesIdempotent | kcl/vcluster/add_comments.py:67-86 | running the same passes again leaves the text as the first run left it |
| KclUpdate.LaterPassUnchanged | kcl/vcluster/add_comments.py:67-86 | a pass for a key an earlier pass used changes nothing |
| KclUpdate.SharedKeyKeepsFirst | kcl/vcluster/add_comments.py:67-86 | when two structs share a JSON key, the later struct's pass for it changes nothing: fields with that key keep the first comment |
| KclUpdate.UpdateIdempotent | kcl/vcluster/add_comments.py:61-86 | updating a KCL text twice with the index extracted from any Go text gives the text the first update gave |

## Left out

- Reading the Go file (lines 11-12) and reading and writing the KCL file (lines 63-64, 88-89). The model works on the files' text. A write that fails part-way is not modelled.
- The `__main__` driver (lines 91-105): its fixed paths and its progress output.
- The pattern at line 16 is assigned but never used, so it has no model.
- `struct-extractor/main.go` is not part of this model.
- `\s`, `\w` and `str.strip()` are modelled on ASCII. The full Unicode classes of Python's `re` and `str` are not modelled, so a non-ASCII space or letter is treated differently.
- The JSON key is interpolated into the KCL pattern without escaping. The model treats it as a literal string. The two agree for the `\w+` keys the extractor produces.
- KclPattern.MatchLongest: stated for word keys only. A key starting with whitespace could let `\s*` stop earlier, which the greedy scan does not consider.
- AnnotatorFixpoint.SubFixes: stated only for word keys and comments without a newline. ExtractOk shows that every index the extractor returns meets both conditions. For other comments, a piece could end in a line the guard reads differently.
- AnnotatorOtherKeys.SubKeepsFixed, KclUpdate.RunPassesFixes, KclUpdate.RunPassesIdempotent, KclUpdate.LaterPassUnchanged, KclUpdate.SharedKeyKeepsFirst: under the same two conditions, and for the same reason.
