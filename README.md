# Mastodon formatter string logic in Dafny

This project models four pieces of string logic from the Ruby status formatter,
and proves properties about each:

- **Custom-emoji substitution.** `Formatter#encode_custom_emojis` and
  `Formatter#count_tag_nesting` (module `CustomEmoji`, file `emoji.dfy`; the
  laws are in `CustomEmojiLaws`, file `emoji_laws.dfy`).
  - The Ruby loop is kept as a method, `EncodeCustomEmojis`. Like the original,
    it splices the `<img …>` tag into the string it is scanning and moves its
    cursor with index arithmetic.
  - It is proved to compute `Encode`. `Encode` is a character transducer
    (`Step`/`Run`) that reads the original input once and writes a fresh output.
  - The laws (replacement, tags, invisible spans, unknown shortcodes) are proved
    about `Encode`.
- **Entity splicer.** `Formatter#rewrite` (module `EntityRewrite`, `rewrite.dfy`;
  laws in `EntityRewriteLaws`, `rewrite_laws.dfy`).
  - The method `Rewrite` keeps the loop that pushes slices and replacements onto
    `result`. It is proved equal to the specification `RewriteAll`.
  - For entities that lie inside the text and do not overlap, `RewriteAll` is
    proved to agree with an independent reference, `ApplyRightToLeft`, which
    replaces the ranges one at a time starting with the last. This holds for
    entities given in start order, and for entities given in any order when none
    of them is empty (`OrderIrrelevant`).
  - The caller's block is a function parameter. The plain slices between the
    entities are copied unescaped, as in the original.
- **Autolink label.** `Formatter#link_html` (module `LinkLabel`, `link.dfy`).
  URL normalisation and HTML escaping are function parameters.
- **Markdown line breaks.** `Formatter_Markdown#formatted` and the
  expectation of `Formatter_MarkdownTester#testBR` (module `MarkdownLineBreak`,
  `markdown.dfy`). The function `Formatted` models the `gsub` of `formatted` as a
  left-to-right scan, and every lemma of the module is about it.

`Wrappers` (`wrappers.dfy`) holds the `Option` type, which stands for Ruby's
`nil`. `Strings` (`strings.dfy`) holds `Join`, which stands for `Array#join`.

Behaviour of the Ruby code worth knowing, which the model keeps:

- **Plain slices in `rewrite`.** The text between entities is emitted as it is; `rewrite` does not escape it.
- **Sort order in `rewrite`.** `sort_by` is not stable, so entities that share a
  start offset may come out in either order.
- **Invisible depth.** At positive depth, every completed tag adjusts the depth
  by `count_tag_nesting`. At depth zero, only the exact tag
  `<span class="invisible">` raises it.
- **Overlapping entities.** `rewrite` does not resolve them: it splices the entities in start order as given.
- **Markdown.** `Formatter_Markdown` implements one rule, the line break; there are no headings, lists or other Markdown constructs.
- **`link_html` cut-off.** A URL of exactly 30 characters is marked `ellipsis`,
  because the padding space makes it 31 long.

## Model

| member | source | states |
|---|---|---|
| CustomEmoji.CountTagNesting | app/lib/formatter.rb:115-120 | The nesting change of a completed tag is -1, 0 or +1. |
| CustomEmoji.TagNestingKinds | app/lib/formatter.rb:115-120 | A closing tag `</…>` counts -1, even when it also ends in `/>`. A self-closing tag `<…/>` counts 0. Any other tag counts +1. |
| CustomEmoji.ReplacementSpelled | app/lib/formatter.rb:141-144 | The image tag is the literal `<img draggable="false" class="emojione" alt=":code:" title=":code:" src="url" />`. It is 69 characters longer than two shortcodes and the URL, and its last character is `>`, which is where the cursor arithmetic after a replacement lands. |
| CustomEmoji.EncodeCustomEmojis | app/lib/formatter.rb:122-168 | The in-place scanning loop, with its splice and cursor arithmetic, returns exactly what the transducer `Encode` computes from the original input. This includes the early return for an empty emoji list. |
| CustomEmoji.LoopPass | app/lib/formatter.rb:134-164 | One pass of the loop body. It takes the four branches in the source's order and produces the next loop variables: the spliced string, the moved cursor, the tag start, the candidate flag and start, and the depth. |
| CustomEmoji.HitKeepsMirror | app/lib/formatter.rb:136-144 | After a known shortcode is replaced, the spliced string is the output so far, then the image tag, then the unread input. The cursor points one before the tag's final `>`, so the inserted tag is never scanned again. |
| CustomEmoji.LandingKeepsMirror | app/lib/formatter.rb:144 | The step after a replacement lands on the inserted tag's final `>`. It is outside any tag and any candidate, so it changes nothing. |
| CustomEmoji.MissKeepsMirror | app/lib/formatter.rb:145-149 | After an unknown shortcode, the candidate is written out unchanged and the cursor steps back, so its closing colon is read again. |
| CustomEmoji.TagCloseKeepsMirror | app/lib/formatter.rb:150-157 | A `>` ends the open tag. The depth then changes by `count_tag_nesting` when it is positive, becomes 1 on `<span class="invisible">`, and stays 0 otherwise. |
| CustomEmoji.TagOpenKeepsMirror | app/lib/formatter.rb:158-160 | A `<` opens a tag at the cursor and cancels any open candidate. The candidate's text is kept in the output. |
| CustomEmoji.ColonKeepsMirror | app/lib/formatter.rb:161-163 | A `:` outside a tag opens a candidate at the cursor. This holds both on a first reading and when the closing colon of an unknown shortcode is read again. |
| CustomEmoji.LoopMatchesEncode | app/lib/formatter.rb:133-167 | Running the loop to its end, from any state that corresponds to the transducer, yields `Encode` of the original input. |
| CustomEmoji.RunConcat | app/lib/formatter.rb:133-165 | Scanning `a + b` is scanning `a` and then scanning `b` from the state where `a` left off. |
| CustomEmojiLaws.EarlyReturnAgrees | app/lib/formatter.rb:123 | Even with an empty image table, the scan writes its input back unchanged, so the early return for an empty emoji list only saves work. |
| CustomEmojiLaws.EmptyTableConserves | app/lib/formatter.rb:133-165 | Without any known shortcode, what the scan writes, plus what it still holds back, is the held-back text followed by the input. |
| CustomEmojiLaws.NoColonUnchanged | app/lib/formatter.rb:161-163 | Markup without a colon is returned unchanged, because only a `:` can open a shortcode. |
| CustomEmojiLaws.PlainTextCopied | app/lib/formatter.rb:133-165 | Text without `<` or `:` is copied and leaves the scanner in text mode at the same depth. |
| CustomEmojiLaws.CodeCollected | app/lib/formatter.rb:161-163 | Characters after an opening colon, up to the next `<` or `:`, are held back as the candidate and nothing is written. |
| CustomEmojiLaws.ShortcodeRun | app/lib/formatter.rb:136-149 | At depth zero, `:code:` becomes the image tag when `code` is known. When it is not known, `:code` is written and a new candidate is open. |
| CustomEmojiLaws.ShortcodeReplaced | app/lib/formatter.rb:136-144 | A known `:code:` met at rest at depth zero is replaced by its image tag. Everything before it is kept, and everything after it is substituted as a document of its own. |
| CustomEmojiLaws.ShortcodeAfterPlainText | app/lib/formatter.rb:136-144 | After plain text, a known `:code:` is replaced. The text before it is preserved exactly. |
| CustomEmojiLaws.EncodeAfterRest | app/lib/formatter.rb:133-165 | After a prefix that leaves the scanner at rest, the rest of the document is substituted on its own. |
| CustomEmojiLaws.MissReopens | app/lib/formatter.rb:145-149 | In `:x:y:` with `x` unknown and `y` known, `:x` is kept and `:y:` is still replaced, because the closing colon of `:x:` opens the next candidate. |
| CustomEmojiLaws.ClosingColonReused | app/lib/formatter.rb:145-149 | With only `y` known, `:x:y:` becomes `:x` followed by the image tag of `y`. |
| CustomEmojiLaws.TagBodyCopied | app/lib/formatter.rb:150-163 | Inside a tag, every character except `<` and `>` is copied into the tag and the output, colons included. No colon there opens or closes a shortcode. |
| CustomEmojiLaws.TagCopied | app/lib/formatter.rb:150-160 | A whole tag `<…>` is copied. Any open candidate is written out first, and the depth afterwards is the depth rule applied to that tag. |
| CustomEmojiLaws.DeepTextConserved | app/lib/formatter.rb:136-149 | At positive depth, text without `<` is returned exactly as it came (colons included) and the depth is unchanged. |
| CustomEmojiLaws.DeepStepConserves | app/lib/formatter.rb:136-157 | At positive depth, every character, whether in text, in a tag or in a candidate, extends what is written plus what is held back by exactly that character. |
| CustomEmojiLaws.DeepRunConserves | app/lib/formatter.rb:136-157 | While the depth stays positive, no replacement happens, whatever tags the text holds: the scan gives back its input. |
| CustomEmojiLaws.InvisibleSpanOpens | app/lib/formatter.rb:155-156 | The exact tag `<span class="invisible">` is copied and sets the depth to 1. |
| CustomEmojiLaws.InvisibleSpanUntouched | app/lib/formatter.rb:136-157 | An invisible span whose content has no tags is copied unchanged, even when it contains known shortcodes. Its closing `</span>` brings the depth back to 0. |
| CustomEmojiLaws.InvisibleSpanInContext | app/lib/formatter.rb:136-157 | In a whole document, such an invisible span is kept as it is. The text before and after it is substituted. |
| EntityRewriteLaws.SliceConcat | app/lib/formatter.rb:184-189 | Two adjacent slices, `chars[a...b].join` and `chars[b...c].join`, put together give `chars[a...c].join`. When `c` is past the end, both the second slice and the whole are cut at the end of the text. |
| EntityRewrite.Insert | app/lib/formatter.rb:175-178 | Inserting an entity into a sequence sorted by start keeps it sorted and adds exactly that entity. |
| EntityRewrite.SortByStart | app/lib/formatter.rb:175-178 | The entities sorted by start offset, as a permutation of the input. |
| EntityRewrite.Rewrite | app/lib/formatter.rb:170-192 | The loop that pushes each raw slice and each replacement onto `result` computes `RewriteAll`. An error is returned where the `join` on a `nil` slice raises. |
| EntityRewriteLaws.NoEntitiesUnchanged | app/lib/formatter.rb:182-191 | With no entities, the text is returned unchanged. |
| EntityRewriteLaws.FailsIffStopPastEnd | app/lib/formatter.rb:182-191 | The rewrite fails exactly when some entity ends past the end of the text. |
| EntityRewriteLaws.MatchesReference | app/lib/formatter.rb:180-191 | For sorted entities that do not overlap and lie inside the text, the left-to-right splice equals replacing each range with its block result, from the last range to the first. |
| EntityRewriteLaws.PassThrough | app/lib/formatter.rb:175-191 | Suppose the block returns each entity's own text, as the block at lines 102-104 does for Markdown entities. Then the whole rewrite gives the text back unchanged, for entities in any order that lie inside the text and do not overlap once sorted. |
| EntityRewriteLaws.InOrderMatchesReference | app/lib/formatter.rb:175-191 | For entities given in start order that lie inside the text and do not overlap, empty ones included, the whole rewrite (sorting included) equals the range-by-range reference replacement. |
| EntityRewriteLaws.SortedFixed | app/lib/formatter.rb:175-178 | Sorting entities that are already in start order leaves them as they are. |
| EntityRewriteLaws.OrderIrrelevant | app/lib/formatter.rb:175-191 | For non-empty, non-overlapping entities, the result does not depend on the order in which they are given. It is the range-by-range replacement in start order. |
| LinkLabel.Split | app/lib/formatter.rb:228-231 | The visible text is at most 30 characters, and prefix, text and suffix put together give the padded URL back. The `ellipsis` cut-off holds exactly when more than 30 characters follow the prefix, which is exactly when the suffix is non-empty. |
| LinkLabel.LinkHtml | app/lib/formatter.rb:225-234 | The markup in closed form. The invisible prefix is always empty. A padded URL longer than 30 characters shows its first 30 with class `ellipsis` and hides the rest; otherwise it shows the whole padded URL without the class. |
| LinkLabel.SplitPadded | app/lib/formatter.rb:227-231 | The label of a space-padded URL in closed form. |
| LinkLabel.PaddedNeverMatches | app/lib/formatter.rb:227-228 | A padded URL ends in a space, and the pattern's last character cannot be a space, so the prefix is always empty. |
| LinkLabel.ExactlyThirtyMarkedCut | app/lib/formatter.rb:227-231 | A URL of exactly 30 characters is shown whole but still marked `ellipsis`, and only the padding space is hidden. |
| MarkdownLineBreak.BreakReplaced | app/lib/formatter_markdown.rb:9 | Two ASCII or two ideographic spaces, then `\n`, `\r\n` or a lone `\r`, become `<br />` and a newline, and the rest is formatted on its own. |
| MarkdownLineBreak.PlainPrefix | app/lib/formatter_markdown.rb:9 | Text without any space of either kind is passed through, whatever follows it. |
| MarkdownLineBreak.TestBR | app/lib/formatter_markdown.rb:49-60 | The tester's input, a line ending in two ASCII spaces and one ending in two ideographic spaces, formats to its expected output. |
| MarkdownLineBreak.TwoLines | app/lib/formatter_markdown.rb:49-60 | Any two space-free lines, the first ending in two ASCII spaces and the second in two ideographic spaces, each get a `<br />`. |
| MarkdownLineBreak.CrLfIsOneTerminator | app/lib/formatter_markdown.rb:9 | `\r\n` after the spaces is consumed as one terminator. |
| MarkdownLineBreak.NearMissesUnchanged | app/lib/formatter_markdown.rb:9 | A single space, or an ASCII space paired with an ideographic one, before the newline leaves the text unchanged. |
| MarkdownLineBreak.Lengthens | app/lib/formatter_markdown.rb:9 | The rewrite never shortens the text, and it lengthens the text whenever the pattern occurs. |
| MarkdownLineBreak.NoBreakCopied | app/lib/formatter_markdown.rb:9 | Text in which the pattern does not occur is returned unchanged. |
| MarkdownLineBreak.UnchangedIffNoBreak | app/lib/formatter_markdown.rb:9 | The text comes back unchanged exactly when the pattern does not occur in it. |
| MarkdownLineBreak.OutputHasNoBreak | app/lib/formatter_markdown.rb:9 | The output contains no occurrence of the pattern: none is left in and none is created. |
| MarkdownLineBreak.Idempotent | app/lib/formatter_markdown.rb:7-10 | Formatting the formatted text again changes nothing. |

## Left out

- **Callers of these functions.** `Formatter#format`, `linkify`, `simplified_format`, `format_spoiler`, `format_bbcode`, `plaintext` and `clean_paragraphs` are glue over external libraries (Sanitize, twitter-text, Rails helpers, a BBCode gem), so they are not modelled.
- **Mention and hashtag HTML.** `link_to_url` depends on `Addressable::URI` and `Twitter::Autolink`. `link_to_mention`, `link_to_account`, `hashtag_html` and `mention_html` depend on the account database, `TagManager` and URL helpers. `rewrite`'s block is a parameter instead.
- **Emoji URLs.** `emoji_map` is built from `full_asset_url(e.image.url(:static))`. The model takes the map from shortcode to URL as given.
- **Console output.** The `puts text` in `rewrite` is not modelled.
- **Exceptions in `link_html`.** `Addressable::URI.parse` and `HTMLEntities#encode` are function parameters, so their exceptions are not modelled. When the suffix is `nil`, `LinkHtml` passes `""` to `encode`; this matches HTMLEntities, which turns its argument into a string with `to_s` first.
- **Non-integer indices.** `rewrite` takes entity offsets as natural numbers; negative or non-integer indices are not modelled.
- **`nil` from the block.** A block that returns `nil` (which `flatten.join` turns into an empty string) has to be modelled by a block that returns `""`.
- EntityRewrite.SortByStart: it is a stable insertion sort, while Ruby's `sort_by` is not stable. The result differs only for entities with equal start offsets, and the laws about order (`OrderIrrelevant`) require distinct starts.
- **`Formatter_Markdown#initialize`.** The copy made by `html.dup`, and the fact that `formatted` never changes `@html`, are not modelled as an object. Dafny strings are values, so `Formatted` is a function of the text, and repeated calls give the same result by construction.
- **Tester plumbing.** `Formatter_MarkdownTester` itself (`newFM`, its `assert`, `testAll`) is not modelled; `TestBR` states the expected pair as a lemma.
- **JavaScript.** The React components, the Redux container, the QR-code modal and `public/txt.wav.js` are user-interface code, so they are not modelled.
- CustomEmoji.CountTagNesting: its own contract states only the range; its three cases are stated by `TagNestingKinds`. For tags shorter than two characters (which the scanner never completes) it returns 1, as Ruby's comparison with `nil` does.
- CustomEmojiLaws.InvisibleSpanUntouched: it covers only invisible spans whose content contains no tags. For content with nested tags, `DeepRunConserves` shows that nothing is replaced while the depth stays positive, but no lemma computes the depth across balanced nested tags.
