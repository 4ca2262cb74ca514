# Knowledge cards and release assets, modelled in Dafny

This project models the text-processing core of a personal web site. The site has a
"knowledge cards" section and a download page.

- **Card parser** (`src/knowledgeCards/parseMarkdownToCards.ts`). A markdown note is split
  into lines that keep their line endings. `#`, `##` and `###` headings open a new card.
  The body lines between headings become the card's content. Each card records the headings
  above it, a title, and its position in the list as its id.
- **Math protection** (`src/knowledgeCards/renderMarkdownWithMath.ts`). Before the markdown
  renderer runs, `$$…$$` (block) and `$…$` (inline) spans are swapped for placeholder keys
  `MATHBLOCKPLACEHOLDER<n>` and `MATHINLINEPLACEHOLDER<n>`. After rendering, each key is
  replaced by its span, with the span's `$` delimiters written as the HTML entity `&#36;`;
  a `$` inside the math stays as it is.
- **Browse model** (`src/knowledgeCards/browseModel.ts`). This decides what the card browser
  shows for a filter on the three heading levels. It shows either folders (one per distinct
  heading value, counting its cards) or the matching cards as notes.
- **Release asset choice** (`pickReleaseAsset` in `src/lib/github.ts`). From a GitHub
  release, it picks the file to offer for Windows or for macOS.

The modules are:

- `Common`: `Option`, JavaScript's `trim` whitespace set, `startsWith`/`endsWith`/`includes`,
  decimal numerals and string concatenation.
- `KnowledgeTypes`: the card and browse-item records of `src/knowledgeCards/types.ts`.
- `CardParser`
- `CardExample`: the worked example of the parser's tests, proved for any words in its places and then for the example's own words.
- `ReplaceText`: JavaScript's `String.prototype.replaceAll` with a string replacement,
  including the `$` patterns of its replacement string.
- `MathProtect`: the scanners, key records, restore and render.
- `MathRoundTrip`: the proof that protection followed by the corrected restore gives the
  text back.
- `MathFindings`
- `MathSourceTrip`: the proof that the source's own protect and in-order restore give the
  text back under the conditions the findings stay clear of.
- `BrowseModel`
- `ReleaseAssets`

Code that works step by step is written as methods with loops. Each method is proved
against a recursive function:

- the card loop (`ParseMarkdownToCards` against `Scan`);
- both scanners (`ProtectBlockMath` and `ProtectInlineMath` against `BlockSplit` and
  `InlineSplit`);
- the restore loop;
- the grouping loop (`GroupByCategory` against `Groups`).

The properties are proved about those functions. Pure code stays as functions
(`GetBrowseItems`, `PickReleaseAsset`).

Three conventions apply throughout:

- JavaScript records and `Map`s that the source fills in insertion order are association
  lists `seq<(string, string)>` (or `seq<Group>`). Assigning to a key overwrites it in place
  or appends a new entry.
- `marked.parse` and `DOMPurify.sanitize` are parameters of the render method.
- `typeof window` is a boolean parameter of the render method.

## Model

| member | source | states |
|---|---|---|
| `Common.Trim` | src/knowledgeCards/parseMarkdownToCards.ts:37 | the result is the text with leading and trailing JavaScript whitespace removed: empty exactly when the text is all whitespace, otherwise a slice of it that starts and ends with non-whitespace and is followed only by whitespace |
| `Common.VisibleTrim` | src/knowledgeCards/parseMarkdownToCards.ts:22 | trimming removes no character other than whitespace |
| `Common.Decimal` | src/knowledgeCards/renderMarkdownWithMath.ts:37 | a counter's numeral is never empty, and is a single character exactly when the counter is below 10 |
| `Common.DecimalDigits` | src/knowledgeCards/renderMarkdownWithMath.ts:37 | a counter's numeral consists of decimal digits only |
| `Common.DecimalInjective` | src/knowledgeCards/renderMarkdownWithMath.ts:37 | different counters give different numerals |
| `CardParser.SplitLinesKeepEndings` | src/knowledgeCards/parseMarkdownToCards.ts:3-9 | the empty input gives no lines; no line is empty; every line but the last ends in a line feed |
| `CardParser.GlobalMatchesShape` | src/knowledgeCards/parseMarkdownToCards.ts:5-7 | the global match of the line pattern always ends with exactly one empty match, which line 7 drops; no other match is empty, and every match but the last two ends in a line feed |
| `CardParser.SplitLinesRoundTrip` | src/knowledgeCards/parseMarkdownToCards.ts:3-9 | for text whose carriage returns all precede a line feed and which holds neither U+2028 nor U+2029, joining the lines gives the input back |
| `CardParser.LoneCarriageReturnDropsText` | src/knowledgeCards/parseMarkdownToCards.ts:5 | a lone carriage return is not a line ending for the pattern: `"ab\rcd"` splits into `["cd"]` and the text before it is lost |
| `CardParser.HeadingDetection` | src/knowledgeCards/parseMarkdownToCards.ts:37-60 | a line is a level-1, 2 or 3 heading exactly when its trimmed text starts with `# `, `## ` or `### `; four or more `#` make a body line |
| `CardParser.MarkersExclusive` | src/knowledgeCards/parseMarkdownToCards.ts:38-55 | the three heading tests never hold together, so their order does not matter |
| `CardParser.Classify` | src/knowledgeCards/parseMarkdownToCards.ts:37-60 | a heading's text is already trimmed |
| `CardParser.Flush` | src/knowledgeCards/parseMarkdownToCards.ts:21-34 | `flushCard` keeps the context, empties the pending content, keeps the earlier cards, and adds one card exactly when the pending content is not all whitespace |
| `CardParser.Step` | src/knowledgeCards/parseMarkdownToCards.ts:36-62 | one line adds at most one card and keeps the earlier ones; a body line adds none and keeps the context; a heading empties the pending content |
| `CardParser.Scan` | src/knowledgeCards/parseMarkdownToCards.ts:36-63 | the loop keeps the earlier cards and adds at most one card per line |
| `CardParser.ScanAppend` | src/knowledgeCards/parseMarkdownToCards.ts:36-63 | scanning two runs of lines is scanning the first and then the second from where it stopped |
| `CardParser.ScanBody` | src/knowledgeCards/parseMarkdownToCards.ts:62 | body lines only grow the pending content and change nothing else |
| `CardParser.FlushKeepsCards` | src/knowledgeCards/parseMarkdownToCards.ts:21-34 | flushing keeps every id equal to the card's position and every card well formed, and leaves the headings alone |
| `CardParser.FlushAddsLast` | src/knowledgeCards/parseMarkdownToCards.ts:21-34 | pending content with visible text becomes exactly one more card: its id is the number of cards before it, it carries the current headings and title (or `无标题`), and its content is the joined content trimmed |
| `CardParser.ScanKeepsCards` | src/knowledgeCards/parseMarkdownToCards.ts:36-63 | the loop keeps ids equal to positions, non-empty trimmed contents and consistent heading context |
| `CardParser.ParseLinesWellNumbered` | src/knowledgeCards/parseMarkdownToCards.ts:11-67 | the cards of any line list are numbered 0, 1, 2 …; each has trimmed, non-empty content and non-empty headings, and is titled by its innermost heading, or `无标题` when it sits under `未分类` with no heading |
| `CardParser.FlushVisible` | src/knowledgeCards/parseMarkdownToCards.ts:21-34 | a flush moves the non-whitespace characters of the pending content into the cards, dropping nothing and adding nothing |
| `CardParser.ScanVisible` | src/knowledgeCards/parseMarkdownToCards.ts:36-63 | after any run of lines, the cards and pending content hold exactly the non-whitespace characters of the body lines seen, in order |
| `CardParser.ParseLinesKeepsBodyText` | src/knowledgeCards/parseMarkdownToCards.ts:11-67 | the card contents together hold exactly the non-whitespace characters of all body lines, in order; no heading text leaks in and no body text is lost |
| `CardParser.HeadinglessText` | src/knowledgeCards/parseMarkdownToCards.ts:15-34 | a note without headings gives no card if it is blank, else one card under `未分类` titled `无标题` holding the trimmed text |
| `CardParser.AdjacentHeadings` | src/knowledgeCards/parseMarkdownToCards.ts:21-23 | a heading directly after a heading adds no card |
| `CardParser.HeadingOnEmptyBuffer` | src/knowledgeCards/parseMarkdownToCards.ts:21-23 | a heading met while no content is pending adds no card |
| `CardParser.ScanHeadingBody` | src/knowledgeCards/parseMarkdownToCards.ts:36-62 | after a heading and body lines, the cards are those flushed at the heading, the context is the one the heading sets, and exactly the body lines are pending |
| `CardParser.HeadingStartsCard` | src/knowledgeCards/parseMarkdownToCards.ts:36-60 | a heading followed by non-blank body text yields a last card titled with the heading, holding that body trimmed, numbered by its position; an `#` heading resets the lower levels, a `##` keeps the `#` and resets `###`, a `###` keeps both |
| `CardParser.FlushCard` | src/knowledgeCards/parseMarkdownToCards.ts:21-34 | the cards after `flushCard` are those of the flush step of the scan |
| `CardParser.ParseMarkdownToCards` | src/knowledgeCards/parseMarkdownToCards.ts:11-67 | the loop computes the parse of the split lines; every id equals its position; every card has trimmed, non-empty content |
| `CardExample.SplitLfLines` | src/knowledgeCards/parseMarkdownToCards.ts:3-9 | text made of lines each ending in one line feed splits back into exactly those lines |
| `CardExample.JoinTerminated` | src/knowledgeCards/knowledgeCards.test.ts:8-23 | `join('\n')` of parts ending with an empty part is the parts each followed by a line feed |
| `CardExample.NoteSplit` | src/knowledgeCards/knowledgeCards.test.ts:8-25 | the note of the worked example splits into its thirteen lines, each with its line feed, for any words in its places |
| `CardExample.NoteCards` | src/knowledgeCards/knowledgeCards.test.ts:7-45 | for any words in the places of the worked example, the parser gives four cards: the text before the first heading under `未分类` titled `无标题`, then one card per heading, titled by it, under the headings above it, holding its text with the blank lines trimmed |
| `CardExample.ExampleCards` | src/knowledgeCards/knowledgeCards.test.ts:7-45 | the worked example itself gives the four cards the test expects: `intro\nline2` untitled and uncategorized, `a\nb` under `H1`, `c` under `H1`/`H2`, `d` under `H1`/`H2`/`H3` |
| `ReplaceText.Expand` | src/knowledgeCards/renderMarkdownWithMath.ts:110 | a replacement string without `$` is inserted as it stands; the `$` patterns are expanded only when one is present |
| `ReplaceText.ReplaceAll` | src/knowledgeCards/renderMarkdownWithMath.ts:110 | `replaceAll` with a replacement free of `$` replaces every occurrence literally |
| `ReplaceText.ReplaceAbsent` | src/knowledgeCards/renderMarkdownWithMath.ts:110 | replacing a key the text does not contain leaves the text unchanged |
| `ReplaceText.ReplaceConcat` | src/knowledgeCards/renderMarkdownWithMath.ts:110 | when no occurrence straddles the seam, replacing in a concatenation is replacing in each part |
| `MathProtect.KeyInjective` | src/knowledgeCards/renderMarkdownWithMath.ts:37 | keys of one family with different counters differ |
| `MathProtect.NextKeyIsFresh` | src/knowledgeCards/renderMarkdownWithMath.ts:37-38 | in a record numbered from the start counter, the key of the next counter is not yet present, so `map[key] = …` adds a new entry |
| `MathProtect.NumberedAppend` | src/knowledgeCards/renderMarkdownWithMath.ts:37-38 | adding the next counter's key keeps the record numbered: its entry at position `q` holds the key of counter `start + q` |
| `MathProtect.EscapedDollarIsText` | src/knowledgeCards/renderMarkdownWithMath.ts:6-8 | a dollar sign after a backslash neither opens nor closes a span |
| `MathProtect.BlockCloser` | src/knowledgeCards/renderMarkdownWithMath.ts:24-29 | the search stops at the first unescaped `$$` before the last character, or reports that there is none |
| `MathProtect.IndexOf` | src/knowledgeCards/renderMarkdownWithMath.ts:67-68 | `indexOf` gives the first position of the character from the start index on, or -1 when there is none |
| `MathProtect.LineEnd` | src/knowledgeCards/renderMarkdownWithMath.ts:66-72 | the end of the line is the first `\n` or `\r` after the opening `$`, or the end of the text |
| `MathProtect.InlineCloser` | src/knowledgeCards/renderMarkdownWithMath.ts:74-79 | the search stops at the first unescaped `$` before the end of the line, or reaches it |
| `MathProtect.BlockSplitCovers` | src/knowledgeCards/renderMarkdownWithMath.ts:10-44 | the block spans, with `$$` put back around them, make up the text: the scan drops or duplicates nothing |
| `MathProtect.BlockSplit` | src/knowledgeCards/renderMarkdownWithMath.ts:10-44 | each block span uses at least four characters of the text, for its two `$$` fences |
| `MathProtect.InlineSplit` | src/knowledgeCards/renderMarkdownWithMath.ts:46-95 | each inline span uses at least two characters of the text, for its two `$` fences |
| `MathProtect.InlineSplitCovers` | src/knowledgeCards/renderMarkdownWithMath.ts:46-95 | the inline spans, with `$` put back around them, make up the text |
| `MathProtect.FindBlockEnd` | src/knowledgeCards/renderMarkdownWithMath.ts:24-29 | the inner loop finds the block closer |
| `MathProtect.RecordSpan` | src/knowledgeCards/renderMarkdownWithMath.ts:36-39 | recording a span appends the counter's key to the output and the entry of that key and the fenced span to the record, and moves the counter on by one; the scan invariant then holds for the spans after it |
| `MathProtect.ProtectBlockAt` | src/knowledgeCards/renderMarkdownWithMath.ts:35-40 | at a closed block span the loop resumes two characters after the closing `$$`, and the scan invariant holds there |
| `MathProtect.ProtectBlockMath` | src/knowledgeCards/renderMarkdownWithMath.ts:10-44 | the output is the text with each block span replaced by the next key; the record maps those keys in order to the span text fenced by `&#36;&#36;`; the counter moves on by the number of spans |
| `MathProtect.FindInlineEnd` | src/knowledgeCards/renderMarkdownWithMath.ts:74-79 | the inner loop finds the inline closer |
| `MathProtect.ProtectInlineAt` | src/knowledgeCards/renderMarkdownWithMath.ts:87-91 | at a closed inline span the loop resumes one character after the closing `$`, and the scan invariant holds there |
| `MathProtect.ProtectInlineMath` | src/knowledgeCards/renderMarkdownWithMath.ts:46-95 | the same for inline spans, fenced by `&#36;`, with unclosed or line-crossing `$` kept as text |
| `MathProtect.FamiliesApart` | src/knowledgeCards/renderMarkdownWithMath.ts:88 | a block key never equals an inline key |
| `MathProtect.MergeDisjoint` | src/knowledgeCards/renderMarkdownWithMath.ts:103 | spreading two records with no key in common lists the first record's entries, then the second's |
| `MathProtect.NumberedDistinct` | src/knowledgeCards/renderMarkdownWithMath.ts:97-105 | the block keys and inline keys of one run are all different |
| `MathProtect.ProtectMath` | src/knowledgeCards/renderMarkdownWithMath.ts:97-105 | block spans are taken out first, then inline spans of what is left, with the inline counter continuing the block counter; all keys in the merged record are distinct, so no entry is lost |
| `MathProtect.RestoreMath` | src/knowledgeCards/renderMarkdownWithMath.ts:107-113 | the loop applies `replaceAll(key, value)` for each key in insertion order |
| `MathProtect.RestoreMathReversed` | src/knowledgeCards/renderMarkdownWithMath.ts:107-113 | the corrected loop replaces keys last-first and inserts values verbatim |
| `MathProtect.RenderMarkdownWithMath` | src/knowledgeCards/renderMarkdownWithMath.ts:115-128 | the result is the text protected with the source's keys, rendered, restored by `replaceAll` in insertion order, and sanitised only in a browser |
| `MathProtect.RenderCorrected` | src/knowledgeCards/renderMarkdownWithMath.ts:115-128 | the corrected render: delimited keys, restored last-first and verbatim, sanitised only in a browser |
| `MathRoundTrip.KeyDistinct` | src/knowledgeCards/renderMarkdownWithMath.ts:37 | different counters give different keys |
| `MathRoundTrip.KeyNotPrefix` | src/knowledgeCards/renderMarkdownWithMath.ts:37 | with delimited keys, no key is a proper prefix of another |
| `MathRoundTrip.KeyNotInKey` | src/knowledgeCards/renderMarkdownWithMath.ts:88 | with delimited keys, no key occurs inside another key of its family |
| `MathRoundTrip.PrefixNotInKey` | src/knowledgeCards/renderMarkdownWithMath.ts:88 | a key of one family never contains the other family's prefix |
| `MathRoundTrip.EntriesAt` | src/knowledgeCards/renderMarkdownWithMath.ts:36-38 | entry `q` of a family's record holds the key of counter `n + q` and span `q` between the family's fences |
| `MathRoundTrip.EntriesKeyLike` | src/knowledgeCards/renderMarkdownWithMath.ts:37 | every key in a record starts with `M`, has no other `M`, and contains no `$`, `&` or `;` |
| `MathRoundTrip.ReversedRecord` | src/knowledgeCards/renderMarkdownWithMath.ts:107-113 | the reversed record lists the keys last first, each with its own span between fences |
| `MathRoundTrip.RestoreFenced` | src/knowledgeCards/renderMarkdownWithMath.ts:107-113 | restoring keys in fenced text restores them inside each span and leaves the fences alone |
| `MathRoundTrip.RestoreFamily` | src/knowledgeCards/renderMarkdownWithMath.ts:107-113 | restoring a family's entries last-first turns its protected text back into the spans with their fences |
| `MathRoundTrip.DecodeBlockFenced` | src/knowledgeCards/renderMarkdownWithMath.ts:38 | for spans free of `&#36;`, decoding the entity turns the block fences back into `$$` |
| `MathRoundTrip.DecodeInlineFences` | src/knowledgeCards/renderMarkdownWithMath.ts:89 | decoding the entity turns the inline fences back into `$` |
| `MathRoundTrip.RoundTrip` | src/knowledgeCards/renderMarkdownWithMath.ts:97-113 | with delimited keys and the corrected restore, decoding `&#36;` in the restored text gives back every input that contains neither key prefix nor `&#36;` |
| `MathRoundTrip.RenderRoundTrip` | src/knowledgeCards/renderMarkdownWithMath.ts:115-128 | with an identity renderer and outside a browser, the corrected render decodes to the input, for input holding neither key prefix nor `&#36;` |
| `MathSourceTrip.KeyedFromStep` | src/knowledgeCards/renderMarkdownWithMath.ts:109-111 | putting back the first key still in place, when the keys after it neither hold nor start it, turns that key into its span between fences and changes nothing else |
| `MathSourceTrip.KeyedFromRestoreAll` | src/knowledgeCards/renderMarkdownWithMath.ts:107-113 | putting back the remaining keys first to last, each passed over by the keys after it, leaves every span between its fences |
| `MathSourceTrip.SourcePair` | src/knowledgeCards/renderMarkdownWithMath.ts:37 | two different source keys of one family with counters below ten neither hold nor start each other |
| `MathSourceTrip.SourceKeysPass` | src/knowledgeCards/renderMarkdownWithMath.ts:37 | source keys with counters from `n` up to ten pass each other over |
| `MathSourceTrip.RestoreFamilyInOrder` | src/knowledgeCards/renderMarkdownWithMath.ts:107-113 | putting back one family's source keys in insertion order gives every span back between its fences, when the counters stay below ten and the pieces lack the family's prefix |
| `MathSourceTrip.InlineBlockPass` | src/knowledgeCards/renderMarkdownWithMath.ts:88 | an inline source key neither holds nor starts a block source key |
| `MathSourceTrip.RestoreProtected` | src/knowledgeCards/renderMarkdownWithMath.ts:107-113 | putting back entries whose keys the split's keys pass over keeps those keys and restores each piece between them |
| `MathSourceTrip.UnreplacedPrefix` | src/knowledgeCards/renderMarkdownWithMath.ts:110 | up to the first character of the value, the replaced text equals the text |
| `MathSourceTrip.ReplaceKeepsAbsent` | src/knowledgeCards/renderMarkdownWithMath.ts:110 | `replaceAll` with a value that lacks a pattern and whose first and last characters are foreign to it adds no occurrence of the pattern |
| `MathSourceTrip.RestoreKeepsAbsent` | src/knowledgeCards/renderMarkdownWithMath.ts:107-113 | a whole record of such values adds no occurrence |
| `MathSourceTrip.BlockRecordKeepsOut` | src/knowledgeCards/renderMarkdownWithMath.ts:36-38 | block values of spans without inline placeholder text hold none, and start and end with fence characters |
| `MathSourceTrip.InlineInnersKept` | src/knowledgeCards/renderMarkdownWithMath.ts:107-113 | inline spans without block placeholder text pass through the block record unchanged |
| `MathSourceTrip.InlineStage` | src/knowledgeCards/renderMarkdownWithMath.ts:107-113 | after the block record, the inline record puts every inline span back between `$` once decoded |
| `MathSourceTrip.SourceRoundTrip` | src/knowledgeCards/renderMarkdownWithMath.ts:97-113 | the source's own keys and in-order `replaceAll` give the content back once `&#36;` is decoded, for content with no placeholder text and no entity, at most ten spans, no `$` inside a span, and no `$$…$$` inside a `$…$` |
| `MathSourceTrip.SourceRenderRoundTrip` | src/knowledgeCards/renderMarkdownWithMath.ts:115-128 | `renderMarkdownWithMath` as written, with an identity renderer and outside a browser, gives such content back once decoded |
| `MathProtect.RestoreInOrder` | src/knowledgeCards/renderMarkdownWithMath.ts:107-113 | when no value contains `$`, the source's restore is a verbatim in-order replacement |
| `MathFindings.DollarPatternProtected` | src/knowledgeCards/renderMarkdownWithMath.ts:10-44 | `$$a$&$$` becomes a single block key whose value is `&#36;&#36;a$&&#36;&#36;` |
| `MathFindings.DollarPatternRestore` | src/knowledgeCards/renderMarkdownWithMath.ts:110 | `replaceAll` expands the `$&` in that value into the key itself |
| `MathFindings.DollarPatternExpands` | src/knowledgeCards/renderMarkdownWithMath.ts:97-113 | for `$$a$&$$` the source's protect and restore leave the raw key in the output, which decodes to `$$a<key>$$`, not the input |
| `MathFindings.NestedProtected` | src/knowledgeCards/renderMarkdownWithMath.ts:97-105 | in `$a$$b$$c$` the block key lands inside an inline span, and the inline value holds the block key |
| `MathFindings.NestedKeyLeaks` | src/knowledgeCards/renderMarkdownWithMath.ts:97-113 | for `$a$$b$$c$` the in-order restore replaces the block key before the value holding it is inserted; the output decodes to `$a<key>c$` in either key format |
| `MathFindings.RepeatedProtected` | src/knowledgeCards/renderMarkdownWithMath.ts:10-44 | `n` copies of `$$a$$` become `n` consecutive block keys and entries |
| `MathFindings.KeyTen` | src/knowledgeCards/renderMarkdownWithMath.ts:37 | the source's key 10 is key 1 followed by `0` |
| `MathFindings.FirstTwoKeys` | src/knowledgeCards/renderMarkdownWithMath.ts:109-111 | restoring key 1 rewrites key 10 into key 1's value followed by `0` |
| `MathFindings.PrefixKeyCorrupts` | src/knowledgeCards/renderMarkdownWithMath.ts:107-113 | for eleven `$$a$$`, restoring key 1 first corrupts key 10; the decoded output ends with `0` and differs from the input |
| `MathFindings.CorrectedOnFindings` | src/knowledgeCards/renderMarkdownWithMath.ts:97-113 | with delimited keys and the corrected restore, all three inputs above come back unchanged |
| `BrowseModel.SentinelShared` | src/knowledgeCards/browseModel.ts:10 | a heading shares the missing heading's group key exactly when its text is `___NULL___` |
| `BrowseModel.FindGroup` | src/knowledgeCards/browseModel.ts:11 | the lookup finds the group with the key, or reports that no group has it |
| `BrowseModel.GroupByCategory` | src/knowledgeCards/browseModel.ts:5-17 | the loop computes the folders of the groups built card by card |
| `BrowseModel.DedupFacts` | src/knowledgeCards/browseModel.ts:16 | the distinct keys appear once each, in order of first appearance, as the `Map` iterates them |
| `BrowseModel.GroupsDescribe` | src/knowledgeCards/browseModel.ts:5-17 | one group per distinct key, in first-seen order; each counts the cards with that key and carries the heading value of the first such card |
| `BrowseModel.GroupsTotal` | src/knowledgeCards/browseModel.ts:8-16 | the folder counts add up to the number of cards |
| `BrowseModel.GroupedMeaning` | src/knowledgeCards/browseModel.ts:5-17 | the folders of `groupByCategory`: one per distinct key, in first-seen order, each with a count of at least one equal to the number of cards with that key, titled by its first card, counts totalling the cards |
| `BrowseModel.GroupedNonEmpty` | src/knowledgeCards/browseModel.ts:5-17 | there are no folders exactly when there are no cards |
| `BrowseModel.FilteredAppend` | src/knowledgeCards/browseModel.ts:20-23 | the three filters distribute over concatenation |
| `BrowseModel.FilteredMatching` | src/knowledgeCards/browseModel.ts:20-23 | the successive filters keep, in order, exactly the cards that match every set level, with an empty or missing filter value matching all |
| `BrowseModel.MatchingMembers` | src/knowledgeCards/browseModel.ts:20-23 | a card is kept exactly when it is among the cards and matches the filter |
| `BrowseModel.RelabelMeaning` | src/knowledgeCards/browseModel.ts:33-36 | relabelling keeps level and count, gives every folder a title, and replaces exactly the missing or empty titles with the label |
| `BrowseModel.RelabelTotal` | src/knowledgeCards/browseModel.ts:33-36 | relabelling keeps the total count |
| `BrowseModel.BrowseEmpty` | src/knowledgeCards/browseModel.ts:25 | the result is empty exactly when no card matches the filter |
| `BrowseModel.BrowseTopLevel` | src/knowledgeCards/browseModel.ts:27 | without an `h1` filter, the result is the `h1` folders of the matching cards |
| `BrowseModel.BrowseTwoH2Keys` | src/knowledgeCards/browseModel.ts:29-38 | with an `h1` filter and no `h2` filter, two matching cards in different `h2` groups make the result the relabelled `h2` folders |
| `BrowseModel.BrowseValidH2` | src/knowledgeCards/browseModel.ts:29-38 | with an `h1` filter and no `h2` filter, one matching card with a real second-level heading other than `未分类` makes the result the relabelled `h2` folders |
| `BrowseModel.FirstFolder` | src/knowledgeCards/browseModel.ts:8-16 | the first folder carries the first card's heading value as its title |
| `BrowseModel.H2PassedExactly` | src/knowledgeCards/browseModel.ts:30-32 | the `h2` folders are passed over exactly when the cards all share one `h2` key and the first of them has no `h2` or `未分类`; both directions |
| `BrowseModel.BrowseH2Folders` | src/knowledgeCards/browseModel.ts:29-38 | with an `h1` filter, no `h2` filter and some matching card, the result is the relabelled `h2` folders exactly when the matching cards do not share one plain `h2` key |
| `BrowseModel.BrowseValidH3` | src/knowledgeCards/browseModel.ts:40-49 | when the `h2` filter is set or the matching cards share one plain `h2` key, and no `h3` filter is set, one matching card with a third-level heading makes the result the relabelled `h3` folders |
| `BrowseModel.BrowseNoH3` | src/knowledgeCards/browseModel.ts:40-51 | when the `h2` filter is set or the matching cards share one plain `h2` key, and no `h3` filter is set, matching cards without a third-level heading are listed as notes |
| `BrowseModel.BrowseLeaf` | src/knowledgeCards/browseModel.ts:51 | with the `h1` and `h3` filters set, and the `h2` filter set or the `h2` level passed over (the matching cards share one `h2` key that is missing or `未分类`), the result is the matching cards as notes, each with its title, in order |
| `BrowseModel.BrowseTotal` | src/knowledgeCards/browseModel.ts:19-51 | whenever folders are shown, their counts add up to the number of matching cards |
| `BrowseModel.FewerFolders` | src/knowledgeCards/browseModel.ts:5-17 | there are never more folders than cards |
| `BrowseModel.GetBrowseItems` | src/knowledgeCards/browseModel.ts:19-52 | the result has at most one item per matching card, and is either the matching cards as notes or folders only |
| `ReleaseAssets.LowerNoCapitals` | src/lib/github.ts:35 | lower-casing leaves a name without capital letters unchanged |
| `ReleaseAssets.Candidates` | src/lib/github.ts:34-39 | the candidates are at most the assets, and each passes the target's filter on its lower-cased name |
| `ReleaseAssets.FirstHit` | src/lib/github.ts:41-45 | a hit is a candidate ending with one of the extensions; there is no hit exactly when no candidate ends with any of them |
| `ReleaseAssets.Pick` | src/lib/github.ts:30-47 | a choice is a candidate; nothing is chosen exactly when there is no candidate |
| `ReleaseAssets.PickReleaseAsset` | src/lib/github.ts:30-47 | a choice belongs to the release; nothing is chosen exactly when no asset passes the source's filter |
| `ReleaseAssets.CandidatesMembers` | src/lib/github.ts:34-39 | the candidates are exactly the assets whose lower-cased name passes the target's filter |
| `ReleaseAssets.FindWithExtFirst` | src/lib/github.ts:43 | `find` gives the first candidate whose name ends with the extension, and nothing exactly when none does |
| `ReleaseAssets.FirstHitSkips` | src/lib/github.ts:42-45 | extensions that no candidate ends with are passed over |
| `ReleaseAssets.PickPrefers` | src/lib/github.ts:41-45 | the choice is the earliest candidate with the most preferred extension any candidate has |
| `ReleaseAssets.PickFallback` | src/lib/github.ts:46 | when no candidate has a preferred extension, the choice is the first candidate, or nothing if there is none |
| `ReleaseAssets.PickIsCandidate` | src/lib/github.ts:30-47 | a chosen asset belongs to the release and passes the filter; nothing is chosen exactly when no asset passes |
| `ReleaseAssets.WindowsPickExcludesMac` | src/lib/github.ts:37 | a Windows choice never names `mac`, `dmg` or `pkg` |
| `ReleaseAssets.MacPickExcludesWindows` | src/lib/github.ts:38 | a macOS choice never names `win`, `windows`, `.exe` or `.msi` |
| `ReleaseAssets.DarwinNeverMac` | src/lib/github.ts:38 | under the source's rules, no name containing `darwin` is a macOS candidate |
| `ReleaseAssets.DarwinNameOneWin` | src/lib/github.ts:38 | in `app-darwin.dmg` every `win` is the end of `darwin` |
| `ReleaseAssets.DarwinDmgDropped` | src/lib/github.ts:38 | a release whose every asset name holds `darwin`, such as one whose only asset is `app-darwin.dmg`, offers nothing for macOS |
| `ReleaseAssets.DarwinDmgPicked` | src/lib/github.ts:38 | under the corrected rule a release whose only asset is named `app-darwin.dmg` offers it for macOS, whatever its address and size |
| `ReleaseAssets.DarwinAwareWidens` | src/lib/github.ts:36-39 | the corrected rule accepts every name the source accepts, and differs from it only for macOS names containing `win` |

## Left out

- `fetchLatestRelease` in `src/lib/github.ts` is not modelled. It is a network call.
- The rest of `src/lib/github.ts`, `src/knowledgeCards/storage.ts` and the React views are
  not part of this model.
- `marked.parse` and `DOMPurify.sanitize` are uninterpreted parameters. The round trip is
  stated with the identity function for both. A real markdown renderer may itself rewrite
  text around the keys; that is not modelled.
- `marked.setOptions` is left out. It configures the renderer, which is a parameter here.
- `ReleaseAssets.Lower`: `toLowerCase` is modelled on the ASCII letters A to Z only. Other
  scripts' case mappings, such as `İ` or the Greek final sigma, are not modelled.
- `Common.Trim` uses JavaScript's whitespace set as a fixed list of characters. The list is
  taken from the ECMAScript definitions of WhiteSpace and LineTerminator.
- `CardParser.SplitLinesRoundTrip` holds only for text whose every carriage return comes
  before a line feed and which holds neither U+2028 (line separator) nor U+2029 (paragraph
  separator). The pattern's `.` stops at all three characters without matching them as line
  endings, so the source loses text there, as `LoneCarriageReturnDropsText` shows for a
  lone carriage return.
- `CardParser.SplitLinesKeepEndings` states "empty input gives no lines" one way only. The
  converse fails: the input `"\r"` also gives no lines.
- `BrowseModel.GroupByCategory` keeps the source's sentinel `___NULL___`. A heading whose
  text is `___NULL___` is grouped with the missing headings, as `SentinelShared` states.
  Every grouping property is stated in terms of group keys.
- `MathProtect.RestoreMath` and `MathProtect.RenderMarkdownWithMath` model the source as
  written. Their round trip is proved only under the conditions of
  `MathSourceTrip.SourceRoundTrip`: at most ten spans, no `$` inside a span, and no
  `$$…$$` inside a `$…$`. Outside them the source loses text, as the findings below show.
  The corrected pipeline is `MathProtect.RenderCorrected`.
- `MathRoundTrip.RoundTrip` requires the input to contain neither key prefix nor the
  entity `&#36;`. Input that already holds placeholder text or the entity cannot come back
  unchanged under any restore by text replacement.
- JavaScript strings are sequences of UTF-16 code units; here a `string` is a sequence of
  Unicode scalar values, so lengths, indices and lone surrogates differ for characters
  outside the Basic Multilingual Plane. Every test the core makes compares single
  characters of the Basic Multilingual Plane (`$`, `\`, `#`, line terminators, the
  whitespace set, ASCII letters), so the behaviour modelled does not depend on this.
- JavaScript numbers are modelled as unbounded integers. The 2^53 limit on the key
  counter and card ids is not modelled.

## Findings

| source | as written | input that shows it | evidently intended | confidence | as-written member | corrected member |
|---|---|---|---|---|---|---|
| src/knowledgeCards/renderMarkdownWithMath.ts:37 | keys `MATHBLOCKPLACEHOLDER<n>` have no terminator, and `restoreMath` replaces them in insertion order, so key 1 is replaced inside key 10 | eleven copies of `$$a$$`: the last span comes out as span 1's math followed by `0` | every span comes back as its own math | high, not executed | `MathFindings.PrefixKeyCorrupts` | `MathRoundTrip.RoundTrip` |
| src/knowledgeCards/renderMarkdownWithMath.ts:97-113 | block spans are protected first, so a `$$…$$` inside a `$…$` leaves its key in the inline value, and the block key is restored before that value is inserted | `$a$$b$$c$` is rendered as `$a` + `MATHBLOCKPLACEHOLDER0` + `c$` | the text comes back as written | high, not executed | `MathFindings.NestedKeyLeaks` | `MathFindings.CorrectedOnFindings` |
| src/knowledgeCards/renderMarkdownWithMath.ts:110 | `replaceAll(key, value)` with a string value expands `$&`, `$$`, `` $` `` and `$'` in the math text | `$$a$&$$` is rendered as `$$a` + `MATHBLOCKPLACEHOLDER0` + `$$` | the math is inserted verbatim | high, not executed | `MathFindings.DollarPatternExpands` | `MathFindings.CorrectedOnFindings` |
| src/lib/github.ts:38 | the macOS exclusion pattern tests for `win`, which matches inside `darwin`, so the `darwin` alternative of the inclusion can never select an asset | a release whose only asset is `app-darwin.dmg` offers nothing for macOS | `darwin` assets are macOS candidates | medium, not executed | `ReleaseAssets.DarwinDmgDropped` | `ReleaseAssets.DarwinDmgPicked` |
