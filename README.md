# A verified model of the Markdown-to-ADF converter of `gerar_teste.py`

`gerar_teste.py` generates test cases for a Jira story and posts them back
to Jira as a sub-task. The sub-task's description is an Atlassian Document
Format (ADF) tree, which `markdown_para_adf` builds from the generated
Given/When/Then text. It works line by line. Each line of
`texto_markdown.splitlines()` is stripped and tested, and the first test
that passes decides the block:

1. `CT<digit><digit> - ` gives a level-3 heading.
2. A `**Dado que**`, `**Quando**`, `**Então**` or `📌 Validações:` label
   gives a paragraph whose bold spans become `strong` text nodes.
3. A bullet (`✔ • * -`) followed by whitespace gives a paragraph holding
   the raw line, with every "✔ " turned into "• ".
4. `---` gives a rule.
5. Any other non-blank line gives a plain paragraph.
6. A blank line gives an empty paragraph.

The project also models the helper `extrair_texto_bloco`. It collects the
texts of a Jira rich-text tree, depth first.

Modules, one per file:

- `Wrappers`: the `Option` and `Result` types.
- `Adf`: the ADF nodes as datatypes.
- `Strings`: the Python string operations the converter uses, on
  `seq<char>` with one `char` per code point:
  - `str.isspace`, which is also `\s` of `re`;
  - `str.strip`, `str.startswith` and `str.replace`;
  - `str.splitlines`, with its full set of line boundaries.
- `Inline`: the `re.split` with the pattern `(\*\*.*?\*\*|\_.*?\_\`)`, and
  the loop that turns split parts into text nodes.
- `Blocks`: the six line tests and the block of one line.
- `Converter`: the specification `Document` of the whole result, with
  `MarkdownToAdf`, the imperative loop over the lines, proved equal to it.
- `RichText`: `extrair_texto_bloco`.
  - It is written as a recursive method with its append loop, proved equal
    to an accumulating function.
  - That function is proved equal to an independent pre-order walk.
- `Examples`: concrete lines and what they become.

Two consequences of the code are worth spelling out:

- **Empty input.** `"".splitlines()` is `[]`, so an empty text gives a
  document with no blocks at all (`Converter.DocumentShape`).
- **Checklist rewrite.** `replace("✔ ", "• ")` is applied to the raw,
  unstripped line. So every "✔ " in the line is rewritten, not only the
  bullet, and the indentation is kept (`Blocks.ChecklistParagraph`,
  `Examples.ChecklistRawLine`).

`Blocks.ClassifyExact` shows that the five specific tests never overlap:
- a heading starts with "C";
- a label starts with "**" or "📌";
- a checklist item starts with one of ✔ • * - followed by whitespace: its first character is neither "C" nor "📌", and its second is not the "*" of a "**" label;
- a rule is exactly "---", whose second character is not whitespace.

So the order of the tests never changes the outcome.
`Inline.EmphasizeNonEmpty` shows that the `if text_nodes:` guard always
holds. The labelled case therefore always appends a block.

## Model

| member | source | states |
|---|---|---|
| Strings.IsSpace | gerar_teste.py:185 | the characters `str.isspace` accepts, which are also what `\s` matches at gerar_teste.py:218: the ASCII controls tab to carriage return and 0x1C-0x1F, the space, and the Unicode spaces and separators; used by `Strings.Strip` and `Blocks.IsChecklistLine` |
| Strings.IsLineBreak | gerar_teste.py:184 | the line boundaries of `str.splitlines`: "\n", "\r", vertical tab, form feed, 0x1C-0x1E, 0x85 and the Unicode line and paragraph separators; used by `Strings.SplitLines` |
| Strings.IsDigit | gerar_teste.py:187 | the `\d` of the heading pattern, as the ASCII digits 0-9 only |
| Strings.StartsWith | gerar_teste.py:193-196 | `str.startswith`: the prefix is no longer than the text and equals its first characters; used by `Blocks.IsLabelledLine` and stated by `Examples.PrefixLabelled` |
| Strings.Strip | gerar_teste.py:185 | `strip()` removes exactly the leading whitespace run and a whitespace tail; the result is a slice of the line whose first and last characters are not whitespace |
| Strings.StripExact | gerar_teste.py:185 | the stripped line is determined by the whitespace runs at both ends: with `a` spaces before and `b` after a non-space core, `strip()` gives exactly that core |
| Strings.Replace | gerar_teste.py:225 | `str.replace`, non-overlapping from the left; its effect on the check-mark rewrite is stated by `Strings.ReplaceCheckAt` |
| Strings.ReplaceCheckAt | gerar_teste.py:225 | `replace("✔ ", "• ")` keeps the length and changes a character exactly when it is a "✔" followed by a space, anywhere in the line |
| Strings.ReplaceCheckLeavesNone | gerar_teste.py:225 | after the rewrite no "✔" followed by a space is left in the line |
| Strings.SplitLines | gerar_teste.py:184 | `splitlines()` gives no lines exactly for the empty text, never more lines than characters, and no line holds a line boundary |
| Strings.After | gerar_teste.py:184 | the next line starts strictly after the boundary and never past the end of the text; that "\r\n" counts as one boundary is what `Strings.TrailingTerminator` and `Converter.DocumentTrailingTerminator` rely on |
| Strings.SplitTerminated | gerar_teste.py:184 | splitting lines that are each terminated by "\n" gives back exactly those lines, empty ones included, in order |
| Strings.TrailingTerminator | gerar_teste.py:184 | a final "\n", "\r" or "\r\n" after an unterminated last line adds no line |
| Inline.Close | gerar_teste.py:199 | the lazy `.*?` before a two-character closer finds the earliest closer reachable without crossing "\n", and there is none when it gives up |
| Inline.CloseFinds | gerar_teste.py:199 | a closer with no earlier closer and no "\n" before it is the one the lazy search finds |
| Inline.MatchAt | gerar_teste.py:199 | a match at a position is a `**…**` span or a `_…_\`` span of the line that starts there; the `**` alternative is tried first (its converse is `Inline.SpanMatches`) |
| Inline.SpanMatches | gerar_teste.py:199 | a `**…**` or `_…_\`` span of the line that starts at a position is exactly the match there |
| Inline.SplitsBy | gerar_teste.py:199 | what `re.split` with a capture group returns for a pattern whose matches are given: gaps and non-empty matches alternate, starting and ending with a gap; no match starts inside a gap; each captured part is the match where it starts (`Inline.Splits` instantiates it with `Inline.MatchAt`) |
| Inline.SplitsByUnique | gerar_teste.py:199 | at most one sequence of parts is a split of the line: gaps without a match start, and each captured part the match where it starts |
| Inline.LongBoldMatches | gerar_teste.py:199 | a stretch that starts and ends with "**" and is at least four long is caught by the first alternative where it starts |
| Inline.SplitFrom | gerar_teste.py:199 | the parts are the `re.split` of the rest of the line as `Inline.Splits` describes it (no match starts inside a gap, each captured part is the match where it starts), they alternate gap and span in odd number, no gap could be matched as a bold span, and they join back into the line |
| Inline.SplitSpans | gerar_teste.py:199 | the parts `re.split` returns on a labelled line are a split of it in the sense of `Inline.Splits`: no match starts inside a gap, and each captured part is the match where it starts |
| Inline.SplitSpansExact | gerar_teste.py:199 | a sequence of parts is a split of the line in that sense exactly when it is `SplitSpans` of the line |
| Inline.Inner | gerar_teste.py:205 | `part[2:-2]`: the part without its first two and last two characters, and empty when the part is shorter than four; used by `Inline.NodeOf` and stated by `Inline.ThreeNodes` |
| Inline.NodeOf | gerar_teste.py:201-212 | a part that starts and ends with "**" gives a strong node of its `[2:-2]`, any other non-empty part a plain node, an empty part nothing; characterised by `Inline.NodeOfClean`, `Inline.PlainNode` and `Inline.ThreeNodes` |
| Inline.PartsToNodes | gerar_teste.py:200-212 | the nodes of the parts, in order; characterised by `Inline.NodesEmptyIff` and `Inline.NodesClean`, and computed by `Converter.TextNodes` |
| Inline.Emphasize | gerar_teste.py:199-212 | the inline content of a labelled line; characterised by `Inline.EmphasizeNonEmpty`, `Inline.EmphasizeClean` and `Inline.BoldThenPlain` |
| Inline.GapNode | gerar_teste.py:199-212 | on a line without "\n", a gap between spans gives one plain node holding it, or nothing when empty, unless it is a left-over "**" or "***", which gives a strong node with empty text |
| Inline.NoMatchTail | gerar_teste.py:199 | where the pattern matches nowhere from a position on, the rest of the line is one last part |
| Inline.MarkerFree | gerar_teste.py:199-212 | a line without "*" and "_" splits into itself alone and gives one plain node, or none when it is empty |
| Inline.BoldThenPlain | gerar_teste.py:199-212 | a bold span followed by text without markers splits into an empty gap, the span and the text, and gives a strong node for the span's inside and a plain node for the text |
| Inline.ThreeNodes | gerar_teste.py:201-212 | the parts empty gap, a bold span, a last part give the strong node of the span's inside followed by the last part's node; the empty gap is dropped |
| Inline.PlainNode | gerar_teste.py:202-212 | a part that does not start with "*" gives one plain node holding it, or no node when empty |
| Inline.NodesEmptyIff | gerar_teste.py:200-213 | the node list is empty exactly when every part is empty |
| Inline.EmphasizeNonEmpty | gerar_teste.py:213 | a non-empty line gives a non-empty node list, so the `if text_nodes:` guard always holds |
| Inline.NodeOfClean | gerar_teste.py:201-212 | a part a line without "\n" can yield gives a strong node without "**" in its text, or a non-empty plain node |
| Inline.NodesClean | gerar_teste.py:200-212 | every node made from such parts has that form |
| Inline.EmphasizeClean | gerar_teste.py:199-212 | on a line without "\n", no strong node's text holds "**" (left-over "**" or "***" gaps give empty strong text) and no plain node is empty |
| Blocks.IsHeadingLine | gerar_teste.py:187 | `re.match(r"CT\d{2} - ", t)`, anchored at the start only; see `Blocks.ClassifyExact` |
| Blocks.IsLabelledLine | gerar_teste.py:193-196 | the four `startswith` label tests; see `Examples.PrefixLabelled` |
| Blocks.IsBullet | gerar_teste.py:218 | the character class `[\✔\•\*\-]`: exactly ✔ (U+2714), • (U+2022), `*` and `-` |
| Blocks.IsChecklistLine | gerar_teste.py:218 | `re.match(r"[\✔\•\*\-]\s", t)`; see `Blocks.ClassifyExact` |
| Blocks.Classify | gerar_teste.py:185-240 | the first test the stripped line passes, in source order; characterised by `Blocks.ClassifyExact` |
| Blocks.ConvertLine | gerar_teste.py:185-240 | the block one line appends; characterised by `Blocks.ConvertLineSome`, `Blocks.ConvertLineKinds`, `Blocks.LabelledParagraph` and `Blocks.ChecklistParagraph` |
| Blocks.ClassifyExact | gerar_teste.py:187-240 | each kind of line holds exactly when its own test passes on the stripped line; the five tests are disjoint, and a plain line is a non-blank line that passes none |
| Blocks.ConvertLineSome | gerar_teste.py:193-217 | every line appends a block |
| Blocks.ConvertLineKinds | gerar_teste.py:187-240 | a line gives a heading exactly when it passes the heading test, and then the heading is level 3 with one plain node equal to the stripped line; a rule exactly for "---"; an empty paragraph exactly for a blank line; a line that passes no test gives one plain node of the stripped line |
| Blocks.LabelledParagraph | gerar_teste.py:193-217 | a labelled line gives one paragraph of the nodes of its split parts; the parts join back into the stripped line; the node list is never empty; without "\n" every node has the clean form |
| Blocks.ChecklistParagraph | gerar_teste.py:218-229 | a checklist line gives a paragraph of one unmarked text node as long as the raw line, equal to it except that each "✔" followed by a space is now "•" |
| Converter.Document | gerar_teste.py:177-246 | the document `markdown_para_adf` returns; characterised by `Converter.DocumentShape` and `Converter.DocumentAppend`, and computed by `Converter.MarkdownToAdf` |
| Converter.CollectAllSome | gerar_teste.py:182-240 | when every line yields a block, the blocks are exactly those, one per line, in order |
| Converter.DocumentShape | gerar_teste.py:177-246 | the document is version 1 with exactly one block per element of `splitlines()`, each the block of that line in order, and no blocks exactly for the empty text |
| Converter.DocumentTrailingTerminator | gerar_teste.py:184-246 | a final "\n", "\r" or "\r\n" after an unterminated last line does not change the document |
| Converter.CollectAppend | gerar_teste.py:182-240 | the blocks of two runs of lines, one after the other, are the blocks of each, concatenated |
| Converter.ConvertedAppend | gerar_teste.py:184-240 | each line's outcome depends on that line alone |
| Converter.DocumentAppend | gerar_teste.py:184-246 | the blocks of the concatenation of two texts of whole lines are the blocks of each, concatenated: no line looks at another |
| Converter.TextNodes | gerar_teste.py:200-212 | the inner append loop over the split parts builds exactly the node list of the parts |
| Converter.LineBlocks | gerar_teste.py:185-240 | the loop body appends exactly the block of the line, or nothing where the labelled guard would fail |
| Converter.MarkdownToAdf | gerar_teste.py:177-246 | the append loop over the lines returns the specified document: version 1, one block per line, each the block of its line |
| RichText.BlockTexts | gerar_teste.py:64-74 | what `extrair_texto_bloco` returns or the `KeyError` it raises; characterised by `RichText.BlockTextsPreOrder` and `RichText.BlockTextsOk`, and computed by `RichText.ExtractTexts` |
| RichText.ItemsTexts | gerar_teste.py:68-73 | the loop over `bloco["content"]`; characterised by `RichText.ItemsTextsAppend` and `RichText.ItemsTextsOk` |
| RichText.ItemTextsOf | gerar_teste.py:69-73 | one pass of that loop; characterised by `RichText.ItemTextsPreOrder` and `RichText.ItemTextsOk` |
| RichText.ItemsTextsAppend | gerar_teste.py:68-73 | the walk over two runs of items is the walk over the first, then over the second, and an error in the first stops it |
| RichText.BlockTextsPreOrder | gerar_teste.py:64-74 | the accumulating loop collects the texts in pre-order, depth first and left to right, or stops at the first `KeyError` on the way |
| RichText.ItemsTextsPreOrder | gerar_teste.py:68-73 | the same for a list of items |
| RichText.ItemTextsPreOrder | gerar_teste.py:69-73 | the same for one item: a text item gives its text and is not descended into; another item with `content` gives what is inside it; anything else gives nothing |
| RichText.BlockTextsOk | gerar_teste.py:64-74 | a block without `content` yields no texts and no error (66-67); the walk succeeds exactly when every visited item has a `type` and every visited text item has a `text` |
| RichText.ItemsTextsOk | gerar_teste.py:68-73 | the walk over a list of items succeeds exactly when each item is well formed |
| RichText.ItemTextsOk | gerar_teste.py:69-73 | the walk over one item succeeds exactly when it is well formed |
| RichText.ExtractTexts | gerar_teste.py:64-74 | the recursive method with its append loop returns the specified walk, including each `KeyError` |
| Examples.HeadingTitle | gerar_teste.py:187-192 | "CT01 - x" becomes a level-3 heading holding the line |
| Examples.ThreeDigitNumber | gerar_teste.py:187 | "CT100 - x" is not a heading and becomes a plain paragraph |
| Examples.RuleLine | gerar_teste.py:231-232 | " --- " is a rule, not a checklist item |
| Examples.BlankLine | gerar_teste.py:239-240 | "" and " \t " become empty paragraphs |
| Examples.ChecklistIs | gerar_teste.py:218-229 | a checklist line gives one plain node holding the line with its "✔ " rewritten |
| Examples.CheckedItem | gerar_teste.py:225 | "✔ Ok." becomes "• Ok." |
| Examples.CheckedItemTab | gerar_teste.py:218-225 | "✔\tok" passes the checklist test but is not rewritten |
| Examples.ChecklistRawLine | gerar_teste.py:225 | "  - a ✔ b" keeps its indentation and has its inner "✔ " rewritten |
| Examples.ChecklistKeepsMarkers | gerar_teste.py:218-229 | "- **x**" is kept whole, with no bold splitting |
| Examples.LabelThenText | gerar_teste.py:193-217 | a bold label followed by text without markers gives a strong node for the label's word and a plain node for the text |
| Examples.StrayMarker | gerar_teste.py:199-212 | in "**a** **b" the unclosed "**" stays in the gap after the span: a strong "a", then a plain " **b" (its split is `Examples.StraySplit`) |
| Examples.StraySplit | gerar_teste.py:199 | "**a** **b" splits into "", "**a**" and " **b" |
| Examples.LeftoverMarker | gerar_teste.py:199-212 | in "**a****" the gap "**" after the span gives a second, empty strong node (its split is `Examples.LeftoverSplit`) |
| Examples.LeftoverSplit | gerar_teste.py:199 | "**a****" splits into "", "**a**" and "**" |
| Examples.TickSpan | gerar_teste.py:199-212 | in "_b_`c" the `_…_\`` span is captured and becomes a plain node of its own, followed by a plain "c" (its split is `Examples.TickSplit`) |
| Examples.TickSplit | gerar_teste.py:199 | "_b_`c" splits into "", "_b_`" and "c" |
| Examples.PrefixLabelled | gerar_teste.py:193-196 | a line that starts with a label passes the labelled test whatever follows |
| Examples.GivenLine | gerar_teste.py:193 | "**Dado que** o usuário está logado", and every Given line whose text has no markers, gives a strong "Dado que" and a plain node for the text |
| Examples.ThenLine | gerar_teste.py:195 | the same for "**Então**" |

## Left out

- Configuration (gerar_teste.py:10-37): loading `.env`, building the base64 credential header, and exiting on missing settings.
- The Jira HTTP calls (gerar_teste.py:50-96 outside `extrair_texto_bloco`, and 248-288). These are network I/O and error-message formatting.
- The outer loop over the description's blocks, with its join and strip (gerar_teste.py:76-84). It sits inside the HTTP path of `buscar_descricao`. It concatenates `RichText.BlockTexts` of each top-level block and never reads a top-level block's `type`.
- The Gemini prompt and calls (gerar_teste.py:98-163, 347-375): a foreign generative service.
- The console input loops and prints (gerar_teste.py:41-48, 291-394): interactive I/O.
- `salvar_markdown` (gerar_teste.py:165-175): file writing and the clock.
- JSON serialisation of the ADF tree. ADF nodes are datatypes, and the fixed keys (`"type": "doc"`, `"attrs"`, `"marks"`) are implied by the constructors.
- JSON value types in `extrair_texto_bloco`. The model assumes that `type` and `text` hold strings, that `content` holds a list of objects, and that `bloco` is an object. The `TypeError` of other shapes is not modelled.
- Strings.IsDigit: accepts the ASCII digits only. Python's `\d` also accepts other Unicode decimal digits, which the model does not list.
- Blocks.IsHeadingLine: `\d` in the heading test is restricted to ASCII digits. Python's `\d` also accepts other Unicode decimal digits.
- Regular expressions in general. Only the three patterns of the converter are modelled, each by hand.
- The worked examples use short lines. Each proof unfolds the definitions character by character, so the labelled examples are stated for any marker-free text after the label instead.
