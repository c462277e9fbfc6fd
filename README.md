# notes — a Dafny model of the rendering and note-store core

`notes` is a terminal note-taking application written in Go. This project models the parts of it that are deterministic:

- the markdown renderer (markdown/markdown.go), which turns a note's text into terminal lines. It classifies the lines, formats inline spans, highlights fenced code, numbers and wraps lines, and strips escape runs when it measures widths;
- the theme setters (markdown/theme.go);
- the in-memory parts of the note store (note/note.go): the `co …` copy command, line-range copying, unique-name generation, loading with newest-first ordering, deletion and renaming;
- the file-name rules of the add form (ui/add.go) and the name validator (ui/validator.go);
- the key-map merge and binding replacement (internal/keymap/keymap.go).

The loops the source runs over notes, lines, characters and fields are written as methods. Each method is proved to compute a specification function, and the promised properties are proved about those functions.

Modules:

| file | module | what it holds |
|---|---|---|
| wrappers.dfy | Wrappers | `Option`, `Result` |
| strings.dfy | Strings | the Go `strings`/`strconv` functions the core calls: `Split`, `Join`, `TrimSpace`, `Trim`, `Fields`, `ToLower`, `Itoa`, byte length |
| styles.dfy | Styles | a style as a concrete SGR escape run around its text |
| markdown_lines.dfy | MarkdownLines | the line classifier `ParseLines` as a fold carrying the fence state |
| visible_width.dfy | VisibleWidth | `estimateVisibleLength` and the greedy `wrapLine` |
| inline.dfy | Inline | the six inline substitutions as leftmost, shortest-match scanners |
| highlight.dfy | Highlight | `highlightCodeBlock` over a highlighter given as a parameter |
| render.dfy | Render | both renderers as one fold over pieces (shown line, fence line, flushed block), plus the numbering lemmas |
| parsed_render.dfy | ParsedRender | facts about rendering the output of the classifier |
| theme.dfy | Theme | the chroma style registry |
| markdown.dfy | Markdown | class `Model`: `New`, `ParseLines`, the renderers and the theme setters as imperative methods |
| validator.dfy | Validator | `validateNoteName` |
| add_note.dfy | AddNote | `setName` and the name rewrite on save |
| copy_command.dfy | CopyCommand | `ParseCopyLinesCommand` and `CopyLines` |
| note_store.dfy | Notes | class `Store`, sorting, unique names |
| keymap.dfy | Keymap | `CombineKeys`, `ReplaceBinding`, `ShortHelp`, `FullHelp` |

## Model

| member | source | states |
|---|---|---|
| MarkdownLines.LeadingHashes | markdown/markdown.go:104-108 | the count of leading '#' is exact: all of the first n characters are '#' and the next one is not |
| MarkdownLines.ParseOnePerPiece | markdown/markdown.go:74-129 | ParseLines yields exactly one Line per "\n"-separated piece, in order; every non-header line keeps its piece's text; a trailing "\n" adds one final empty line and leaves the earlier lines unchanged |
| MarkdownLines.ParsePiecesKeepsText | markdown/markdown.go:78-129 | the classifier fold keeps one line per piece and, for non-headers, the piece's text |
| MarkdownLines.ClassifyKeepsText | markdown/markdown.go:85-126 | one classification step keeps the text of every non-header line; a header arises only outside a fence from a '#'-prefixed piece |
| MarkdownLines.ParsePiecesSnoc | markdown/markdown.go:78-129 | the fold extended by one piece is the old result plus that piece classified in the state left by the others |
| MarkdownLines.ParseFences | markdown/markdown.go:87-102 | a line starting with ``` is always a fence and toggles the fence state; an opening fence's language is the untrimmed rest of the line and is carried on; a closing fence has an empty language |
| MarkdownLines.InsideFenceOpener | markdown/markdown.go:87-102 | while inside a fence there is an earlier opening fence with no fence between it and here, and the carried language is its rest-of-line |
| MarkdownLines.ParseInsideFence | markdown/markdown.go:97-102 | every non-fence line inside a fence, blank or '#'-prefixed included, is Code with its own text and the language of the fence that opened the current block (a fence met outside a block, with no fence between it and the line) |
| MarkdownLines.ParseOutsideFence | markdown/markdown.go:103-126 | outside a fence: k '#' then ' ' gives a Header of level k (no upper cap) with TrimSpace of the rest, in both directions; '#' then any other character gives Comment; only white space gives Empty; a line of only '#' stays Normal; never Code or CodeFence |
| MarkdownLines.ClassifyOutside | markdown/markdown.go:103-126 | the same classification rules for one step from any state outside a fence |
| MarkdownLines.HashLineNotBlank | markdown/markdown.go:103-122 | a '#'-prefixed line is never blank and has at least one leading '#', so the blank test never hides a header |
| Markdown.Model.constructor | markdown/markdown.go:46-67 | New registers both Catppuccin styles, selects Mocha in dark mode with line numbers off and the "text" lexer, and parses the content |
| Markdown.Model.SetLineNumbers | markdown/markdown.go:69-71 | only the line-number flag changes |
| Markdown.Model.ParseLines | markdown/markdown.go:74-130 | the loop over the pieces stores exactly the classifier's result; nothing else changes |
| Markdown.Model.ClassifyPieces | markdown/markdown.go:78-129 | the loop carrying `inCodeBlock` and `codeLang` computes the classifier fold |
| Markdown.Model.ClassifyPiece | markdown/markdown.go:82-126 | the loop body computes one classification step and the next fence state |
| Markdown.Model.ClassifyHeading | markdown/markdown.go:103-119 | the hash-counting loop computes the header/comment/normal decision |
| Markdown.Model.EstimateVisibleLength | markdown/markdown.go:314-338 | the counting loop with its escape flag computes the visible width |
| Markdown.Model.WrapLine | markdown/markdown.go:341-378 | the word loop with its current line and length computes the greedy wrap |
| Markdown.Model.HighlightCodeBlock | markdown/markdown.go:270-300 | the builder loop and the padding loop compute the highlighted block |
| Markdown.Model.JoinCode | markdown/markdown.go:279-284 | the builder loop writes each code line followed by "\n" |
| Markdown.Model.PadLines | markdown/markdown.go:291-297 | the padding loop extends the split result with "" up to the block length |
| Markdown.Model.Render | markdown/markdown.go:381-474 | Render's output is the compact rendering: fences dropped, code numbered by position |
| Markdown.Model.RenderPreservingAll | markdown/markdown.go:477-573 | the output is the preserving rendering, with fences kept and code numbered by position (the corrected numbering, see Findings) |
| Markdown.Model.RenderLoop | markdown/markdown.go:382-473 | the shared loop writes exactly the rows of the render fold |
| Markdown.Model.WriteFence | markdown/markdown.go:487-509 | a fence line appends the rows of a fence mark |
| Markdown.Model.FlushBlock | markdown/markdown.go:397-409 | flushing a closed block appends its code rows |
| Markdown.Model.WriteCodeRows | markdown/markdown.go:400-406 | the code loop writes row j of the block numbered i-k+j+shift, indented by two spaces |
| Markdown.Model.WriteLine | markdown/markdown.go:421-470 | a line outside a block appends its numbered first row and its continuations |
| Markdown.Model.WriteNumbered | markdown/markdown.go:303-311 | one numbered row plus "\n" |
| Markdown.Model.WriteContinuation | markdown/markdown.go:454-463 | one continuation row plus "\n" |
| Markdown.Model.WriteWrappedLine | markdown/markdown.go:447-465 | a line wider than the width left by the gutter is written as exactly the rows the renderer's model gives it: its wrap, first row numbered |
| Markdown.Model.WriteWrapped | markdown/markdown.go:446-465 | a wrapped line is its first piece numbered, then the other pieces as continuations |
| Markdown.Model.SetTerminalTheme | markdown/theme.go:114-118 | the theme changes only for "dark" or "light"; any other argument changes nothing |
| Markdown.Model.SetStyle | markdown/theme.go:120-126 | Style and ChromaStyle change together, and only when the registry knows the name |
| Markdown.Model.SetCatppuccinTheme | markdown/theme.go:97-111 | registration runs only when Mocha is missing and adds both styles; "dark" selects Mocha and dark, "light" selects Latte and light; any other mode leaves style and theme untouched |
| Theme.Registry.constructor | markdown/theme.go:9-12 | the registry starts with the library's styles |
| Theme.Registry.Get | markdown/theme.go:99-101 | a lookup succeeds exactly for registered names and returns the registered style |
| Theme.Registry.Register | markdown/theme.go:12-54 | registering adds or replaces exactly one name |
| Theme.Registry.RegisterCatppuccin | markdown/theme.go:9-93 | RegisterCatppuccinStyles adds Mocha then Latte, so both names are present after the call |
| Styles.Params | markdown/markdown.go:314-317 | a style's SGR parameters are digits and ';' |
| Styles.Sgr | markdown/markdown.go:314-317 | the escape run a style adds, as estimateVisibleLength expects it, starts with ESC, ends with 'm', holds no other 'm', ESC, space or newline |
| VisibleWidth.VisConcat | markdown/markdown.go:314-338 | the visible width of a concatenation is the first part's plus the second's, counted from the escape state the first part ends in |
| VisibleWidth.VisEscBound | markdown/markdown.go:314-338 | starting inside an escape run never counts more than starting outside |
| VisibleWidth.VisSubadditive | markdown/markdown.go:314-338 | the width of a concatenation is at most the sum of the widths |
| VisibleWidth.VisBoundedBy | markdown/markdown.go:314-338 | from either state the width never exceeds the rune count |
| VisibleWidth.VisibleAtMostLength | markdown/markdown.go:314-338 | the visible width never exceeds the rune count |
| VisibleWidth.VisibleWithoutEsc | markdown/markdown.go:314-338 | text without ESC has visible width equal to its rune count |
| VisibleWidth.NoCloseStaysHidden | markdown/markdown.go:321-327 | inside an escape run, text without 'm' counts nothing and the run stays open |
| VisibleWidth.UnterminatedEscHides | markdown/markdown.go:314-338 | an ESC with no later 'm' hides the rest of the string |
| VisibleWidth.EscapeRunInvisible | markdown/markdown.go:321-332 | an ESC … 'm' run counts nothing and closes the escape state |
| VisibleWidth.RenderInvisible | markdown/markdown.go:314-338 | styling text does not change its visible width |
| VisibleWidth.EndStateConcat | markdown/markdown.go:314-338 | the escape state after a concatenation is reached by scanning the parts in turn |
| VisibleWidth.RenderThenText | markdown/markdown.go:314-338 | a styled span followed by more text measures as the span's text plus the rest |
| VisibleWidth.WrapFits | markdown/markdown.go:341-378 | every line wrapLine returns fits the width or holds no space at which it could have been broken |
| VisibleWidth.WrapOversizedIsWord | markdown/markdown.go:353-370 | every wrapped line wider than the width is one of the input's words |
| VisibleWidth.WrapJoin | markdown/markdown.go:346-375 | when every word has positive visible width, joining the wrapped lines with " " gives back the input, so a line is broken only at ' ' |
| VisibleWidth.WrapNonEmpty | markdown/markdown.go:341-378 | a line with a non-space character wraps to at least one line |
| VisibleWidth.JoinMembers | markdown/markdown.go:348-375 | every character of a join comes from a part or the separator |
| Inline.FindClose | markdown/markdown.go:156-213 | the closing delimiter found is the first one at or after the start, with no newline before it when newlines are excluded |
| Inline.SpanAt | markdown/markdown.go:167-213 | a span match is delimiter, shortest inner text, delimiter; code needs a non-empty inner text, the other spans no newline |
| Inline.LinkAt | markdown/markdown.go:155-165 | a link match is "[" text "](" url ")", with text without ']' and url without ')', both non-empty |
| Inline.MatchAt | markdown/markdown.go:156-213 | a match starts at its opener, ends inside the string and covers exactly its source text |
| Inline.Tokenize | markdown/markdown.go:156-213 | the leftmost-match scan cuts the input without loss: the tokens' sources put together are the input |
| Inline.TokenizeLiteral | markdown/markdown.go:156-213 | with no match, the replacement reproduces the input |
| Inline.PassWithoutOpener | markdown/markdown.go:156-213 | a pass whose opening character is absent leaves the text unchanged |
| Inline.InlineWithoutDelimiters | markdown/markdown.go:154-216 | text without '[', '*', '_' or '`' passes through applyInlineFormatting unchanged |
| Inline.InlineKeepsNonBlank | markdown/markdown.go:154-216 | inline formatting never turns non-blank text into blank text |
| Highlight.Contents | markdown/markdown.go:279-283 | the contents of the block's lines, in order |
| Highlight.PadTo | markdown/markdown.go:291-297 | padding keeps the input as a prefix and fills with "" up to n entries |
| Highlight.HighlightBlock | markdown/markdown.go:270-300 | an empty block gives []; otherwise the result has at least one entry per block line |
| Highlight.CodeTextJoin | markdown/markdown.go:279-284 | the code text is the lines joined with "\n" plus a final "\n" |
| Highlight.CodeTextBlank | markdown/markdown.go:219-284 | the code text is blank exactly when every line is blank |
| Highlight.BlankBlock | markdown/markdown.go:219-300 | all-blank code gives one "" per line |
| Highlight.SplitCodeText | markdown/markdown.go:279-289 | splitting the code text gives back the lines and one final "" |
| Highlight.FallbackBlock | markdown/markdown.go:224-300 | when the highlighter fails, the result is the block's own lines and one final "" |
| Render.Continuations | markdown/markdown.go:454-463 | one unnumbered row per continuation text |
| Render.CodeRows | markdown/markdown.go:400-406 | a flushed block gives exactly k rows |
| Render.Fold | markdown/markdown.go:384-471 | the buffered block never exceeds the lines read |
| Render.AssembleConcat | markdown/markdown.go:382-473 | writing rows is a homomorphism: rows a then b write a's text then b's |
| Render.NumsRows | markdown/markdown.go:388-471 | the numbers written are exactly those each piece contributes, in order |
| Render.NumsCodeRows | markdown/markdown.go:400-406 | a block of k lines flushed at i is numbered i-k+shift up to i-1+shift, in order |
| Render.LineRowsNumbered | markdown/markdown.go:446-470 | a line outside a block carries exactly one number, its own position plus one, however it wraps |
| Render.NonFenceNumsRun | markdown/markdown.go:388-471 | a run of non-fence lines contributes its positions plus one |
| Render.FoldInvariant | markdown/markdown.go:388-471 | the fold's numbers so far are the expected numbers of the lines read, minus the open block |
| Render.CompactNumbering | markdown/markdown.go:388-419 | Render numbers every non-fence line by its position plus one, in order; a block never closed is never flushed and its lines vanish |
| Render.PreservingNumbering | markdown/markdown.go:484-520 | the corrected RenderPreservingAll numbers every line 1, 2, …, n, in order, fences included; an unclosed block's lines vanish |
| Render.AsWrittenRepeatsFenceNumber | markdown/markdown.go:494-505 | as written, a block opened at o is numbered from o+1, the opening fence's own number, where position numbering starts at o+2 |
| Render.AsWrittenExample | markdown/markdown.go:487-513 | as written, the lines "```", "x", "```" are numbered 1, 1, 3; corrected, they are numbered 1, 2, 3 |
| ParsedRender.ParseClassified | markdown/markdown.go:78-129 | every line the classifier types outside a fence is neither Code nor a fence, a Normal line there holds a non-space character, and a header's text does not start with white space |
| ParsedRender.FoldTracksParse | markdown/markdown.go:388-419 | on classified lines the renderer's fence state equals the classifier's |
| ParsedRender.ParsedNeverEmptyWrap | markdown/markdown.go:446-452 | for parsed content, no line shown outside a block wraps to nothing, provided every style emits a non-empty escape run (the SGR stand-in); under that assumption `wrappedLines[0]` is defined |
| Validator.ValidateNoteName | ui/validator.go:13-26 | only ' ' is trimmed; empty after trimming is EmptyName, and the converse holds; more than 40 bytes is NameTooLong, and the converse holds; otherwise the trimmed value, 1 to 40 bytes, without a space at either end |
| Validator.AcceptedIsCut | ui/validator.go:15-25 | an accepted name is the input with runs of ' ' cut from both ends |
| Validator.TabsKept | ui/validator.go:15 | tabs at either end survive trimming |
| Validator.LengthInBytes | ui/validator.go:11-23 | the bound counts bytes: 39 'a' and 'é' are refused, 40 'a' accepted |
| AddNote.CollapseSeparators | ui/add.go:393-394 | after collapsing, no '#', '-' or `\s` other than ' ' remains, no two spaces are adjacent, and the first character is a space exactly when the input started with a separator |
| AddNote.SlugShape | ui/add.go:390-398 | the derived name has no '#', no white space, no leading or trailing '-' and no "--" |
| AddNote.AddModel.constructor | ui/add.go:53-64 | the form's file name and content |
| AddNote.AddModel.SetName | ui/add.go:379-400 | a name already typed is kept; otherwise a first line starting with '#' proposes its slug and any other leaves the name empty; a proposed name is slug-shaped |
| AddNote.SaveName | ui/add.go:230-241 | a validation error is passed on; otherwise every ' ' of the validated name becomes '-', so the name has no space and keeps its 1 to 40 bytes |
| AddNote.ReplaceKeepsLength | ui/add.go:239 | replacing ' ' by '-' keeps the byte count |
| CopyCommand.Words | note/note.go:327-328 | the `(\s+word)+$` scan, as a partial function |
| CopyCommand.WordsSpaced | note/note.go:327-328 | words written with one space before each scan back to themselves |
| CopyCommand.Relative | note/note.go:366-393 | "> K" gives (B, B+K) and "> -1" gives (B, MaxInt32); "< K" gives (max(1, B-K), B) and "< -1" gives (1, B) |
| CopyCommand.ParseCopyLinesCommand | note/note.go:325-396 | every error is "invalid command format" for the whole command; a success needs the "co" prefix and a well-formed word list |
| CopyCommand.BareCommand | note/note.go:325-396 | "co" and "co " are errors |
| CopyCommand.SingleLine | note/note.go:331-347 | "co N" parses to (N, N) |
| CopyCommand.TwoLines | note/note.go:339-347 | "co A B" parses to (A, B), with no check of their order |
| CopyCommand.RelativeLines | note/note.go:351-393 | "co B > K" and "co B < K" parse to the relative range of B and signed K |
| CopyCommand.ClampEnd | note/note.go:279-286 | an end of MaxInt32, or past the last line, becomes the line count; any other end is kept |
| CopyCommand.CopyLines | note/note.go:276-315 | succeeds exactly when 1 ≤ start ≤ clamped end; otherwise InvalidStart, InvalidEnd or InvalidRange, each exactly in its case; on success the count is end-start+1 and the text splits back into lines start..end |
| CopyCommand.CopyWholeNote | note/note.go:276-315 | copying 1..MaxInt32 copies the whole content with its line count |
| Notes.SortNewestFirstSorted | note/note.go:175-185 | the sorted list is newest first and as long as the input |
| Notes.SortNewestFirstPermutes | note/note.go:175-185 | the sorted list is a permutation of the input |
| Notes.SortNewestFirstStable | note/note.go:175-185 | the sort is stable: notes with the same UpdatedAt keep their order |
| Notes.InsertNewestSorted | note/note.go:175-185 | inserting into a newest-first list keeps it newest first |
| Notes.RecordedOther | note/note.go:166-167 | names not walked keep their dictionary entry |
| Notes.RecordedLast | note/note.go:166-167 | a walked name maps to the last note walked under it |
| Notes.RecordedKeys | note/note.go:166-167 | old names stay and every walked name is a key |
| Notes.WithoutCounts | note/note.go:96-110 | removal drops every note of that name and keeps every other note as often as before |
| Notes.WithoutIdempotent | note/note.go:96-110 | removing twice is removing once |
| Notes.CandidatesDistinct | note/note.go:437-465 | the candidate names are pairwise distinct |
| Notes.IsDuplicate | note/note.go:449-454 | the inner loop finds a clash exactly when the lowercased name is in the list |
| Notes.GenerateUniqueName | note/note.go:437-465 | the result's lowercase form is not taken; it is the name itself when that does not clash, otherwise name-k for the least free k ≥ 1; the loop terminates |
| Notes.FileNames | note/note.go:398-414 | one lowercased name without ".md" per note, in order |
| Notes.NameIndex | note/note.go:131-139 | the first index whose note has that name, or None when no note has it |
| Notes.Store.constructor | note/note.go:39-50 | an empty store |
| Notes.Store.GetNoteByName | note/note.go:229-235 | succeeds exactly when the name is a key of the dictionary, with that key's note |
| Notes.Store.GetCurrentNote | note/note.go:52-58 | succeeds exactly when the current name is a key, with that key's note |
| Notes.Store.SetCurrentNoteName | note/note.go:60-62 | only the current name changes |
| Notes.Store.IsFirstNote | note/note.go:198-204 | true exactly when the list is empty or the current name is the first note's |
| Notes.Store.Record | note/note.go:166-167 | the loop records every walked note under its name |
| Notes.Store.LoadNotes | note/note.go:144-194 | a failed walk is an error that leaves notes and the current name unchanged; otherwise the notes are the walked notes sorted newest first (a permutation), and an empty current name becomes the first note's name when there is one |
| Notes.Store.Delete | note/note.go:96-110 | a failed removal leaves the list; otherwise every note of that name leaves the list; the dictionary and current name are unchanged |
| Notes.CollectFileNames | note/note.go:407-411 | the append loop yields exactly FileNames of the notes, in order |
| Notes.Store.AllNoteFileNames | note/note.go:398-414 | the file names of the freshly loaded notes, or of the current list when the walk fails |
| Notes.Store.Retitle | note/note.go:133-137 | entry i gets the new name; the old key leaves the dictionary and the new one maps to the renamed note |
| Notes.Store.RenameNote | note/note.go:120-142 | without a match the zero note; with one, the first matching note is renamed to a unique name, re-keyed in the dictionary (GetNoteByName finds it under the new name and nothing under the old one) and returned; the current name is never changed (value receiver) |
| Keymap.Set | internal/keymap/keymap.go:185-199 | setting a field changes that field and no other |
| Keymap.Merge | internal/keymap/keymap.go:178-203 | every field is b's when b's is non-zero, else a's |
| Keymap.CombineKeys | internal/keymap/keymap.go:178-203 | the field loop computes the merge: b's field when non-zero, otherwise a's, which may be zero |
| Keymap.MergeZero | internal/keymap/keymap.go:188-199 | combining with the zero map on either side gives the other map |
| Keymap.MergeAssociative | internal/keymap/keymap.go:178-203 | combining is associative and idempotent |
| Keymap.Replaced | internal/keymap/keymap.go:205-213 | same length; exactly the entries with the new binding's help key are replaced |
| Keymap.ReplacedIdempotent | internal/keymap/keymap.go:205-213 | replacing twice is replacing once |
| Keymap.ReplacedOnly | internal/keymap/keymap.go:205-213 | afterwards every entry with that help key is the new binding |
| Keymap.ReplaceBinding | internal/keymap/keymap.go:205-213 | the array is overwritten in place as Replaced says, and the same array is returned |
| Keymap.ShortHelp | internal/keymap/keymap.go:170-172 | the short-help list, unchanged |
| Keymap.FullHelp | internal/keymap/keymap.go:174-176 | always empty |

## Left out

- Chroma's lexers, formatters and colour tables are outside the model. The highlighter is a function parameter from a language and code to an optional text; None stands for a tokenise or format error, after which the code is returned unchanged. A style is known only by its name.
- Registry.Get answers None for an unregistered name. This follows the nil checks of markdown/theme.go:99 and markdown/markdown.go:61. The library's own fallback behaviour is not part of this model.
- lipgloss styles (the application's styles package is not part of this model) are modelled as a concrete SGR run `ESC [ params m` before the text and `ESC [0m` after it. The parameters stand in for the real colours; padding, borders and terminal colour detection are not modelled.
- Go regular expressions are modelled as explicit scanners, for the six inline patterns and the `co` grammars.
- `strings.ToLower` is modelled on ASCII letters only.
- `strconv.Atoi` is modelled as unbounded digits. The `co` numbers and `base+offset` are unbounded integers, so 64-bit overflow is not modelled.
- File-system and clipboard effects become parameters:
  - the notes a directory walk produced;
  - whether the walk, the removal or the rename failed.

  The clipboard write and its failure are left out; CopyLines returns the copied text instead.
- A note's times are integer timestamps. CreatedAt comes from a system call and is only carried along. The `Byte` field of a note is not modelled.
- Store operations that only do file I/O or wrap the modelled ones are not modelled: `Create`, `Update`, `DeleteCurrentNote`, `RenameCurrentNote`, `GetNote`, `saveNote`, `loadNoteFromFile` and the configuration getters and setters.
- Keymap.Merge: reflection over the record is modelled as a field enumeration. The zero test treats a nil slice and an empty slice alike.
- Render.LineTexts: an empty wrap would make the source index `wrappedLines[0]` out of range. The model shows "" there instead. ParsedNeverEmptyWrap proves this cannot happen for classified content only under the SGR stand-in for styles, that is, provided every style emits a non-empty escape run. With a style that writes no escapes (an Ascii colour profile), the note line `** **` formats to " ". At an available width of 0 or less, wrapLine then returns no lines, and markdown/markdown.go:451 and :551 index an empty slice. The model does not capture that crash.
- Markdown.Model.RenderPreservingAll: is proved against the corrected code numbering. The numbering as written is modelled by the `PreservingAsWritten` configuration (see Findings).
- The Bubble Tea plumbing of ui/add.go is not part of this model. This covers key handling, layout and the asynchronous save command, beyond the name rewrite.

## Findings

| source | as written | input that shows it | evidently intended | confidence | as-written member | corrected member |
|---|---|---|---|---|---|---|
| markdown/markdown.go:502 | RenderPreservingAll numbers code line j of a block of k lines closed at i as `i-k+j`. Render uses `i-k+j+1`, and RenderPreservingAll numbers every other line by its position plus one. | the content "```\nx\n```" is numbered 1, 1, 3: the code line repeats the opening fence's number | every line numbered by its position plus one: 1, 2, 3 | not executed | Render.AsWrittenExample | Render.PreservingNumbering |
