# Feishu document to WeChat article: the content script

This project models the content script (`content.js`) of a browser extension. The script copies a Feishu/Lark document into WeChat-article-ready HTML. When it gets the `convert_and_copy` message, it does four things:

1. It finds the document's scrolling container.
2. It scrolls the container step by step, so the editor renders its lazily loaded blocks.
3. After each step it collects the rendered blocks into a store keyed by block id, where the first write wins.
4. It converts image addresses to data URLs, renders every block as inline-styled HTML, and answers with the number of blocks copied.

The modules follow the script's own parts:

- `Strings`: the string operations the script relies on: `includes`, the `heading(\d)` match, `trim`, removal of zero-width characters, `join("")`, number-to-string.
- `Blocks`: the block record `{id, type, level, content, src, index}`.
- `Styles`: `WX_STYLES`, as a record of style strings.
- `Classify`: `identifyType` and the ace-line rules in `extractAceLines` (block classification), and `isGarbageContent` with `GARBAGE_TEXTS`.
- `InlineText`: `extractFormattedText`, the recursive walk that turns inline nodes into markup.
- `Store`: `CONTENT_POOL` as the class `BlockStore`, with `extractWikiBlocks`, `extractAceLines`, `collectVisibleBlocks` and `getSortedBlocks`. Each extraction pass is also stated as a function on values (`Pool`, `AddAll`, `Collect`), and the store's properties are proved about those functions.
- `Scroll`: `isScrollable`, `findMainContentContainer` and `scrollAndCollect`. The rendered page is a function from scroll position to what is rendered there (`Snapshot`).
- `Render`: `renderToHtml`. It writes the ordinal of every ordered item into the block array and builds the fragment.
- `Images`: `processImages`. It rewrites the image blocks of an array in place.
- `Pipeline`: the message handler, inside the class `ContentScript`, which holds the style table and the block store.

The model follows `content.js` in these points:

- The renderer emits one flex `div` per list item, with a bullet span or a number span. It never opens `ul`/`ol` containers around runs of list items. The numbering restarts at 1 after any block that is not an ordered item.
- `identifyType` never yields the divider type. Dividers therefore never reach the store.
- `findMainContentContainer` always returns an element, because it falls back to `document.documentElement`. So the "container not found" error of `scrollAndCollect` (content.js:85) can never be raised, and the model has no such error path.
- A wiki heading whose class has no `heading<digit>` match has level 1. An ace line's heading level is the first digit after `heading-h`.

## Model

| member | source | states |
|---|---|---|
| Strings.Contains | content.js:246-258 | The definition of `includes`, used by every class-name and style test (also content.js:137, 181, 218-222, 273). It holds when the substring is a prefix of the text or of one of its suffixes. Its meaning is the next row. |
| Strings.ContainsIff | content.js:246-258 | `includes` holds exactly when the substring occurs at some position of the text, in both directions. |
| Strings.NatToString | content.js:348 | The decimal text of a number in a template literal (also content.js:184, 207, 360). The result is a non-empty string of digits, and a number below 10 is its single digit. |
| Strings.NatToStringValue | content.js:348 | Reading the digits back gives the number, and there is no leading zero. |
| Strings.ToLower | content.js:271 | `toLowerCase` of tag names, and of class names at content.js:135. It keeps the length and lowers each character on its own, ASCII letters only. |
| Strings.ToLowerIdempotent | content.js:271 | Lowering twice changes nothing more. |
| Strings.Join | content.js:295 | The definition of `join("")` (also content.js:283), concatenating the parts in order. Its properties are the next rows. |
| Strings.JoinConcat | content.js:295 | Joining distributes over concatenation of the part lists. |
| Strings.JoinSplit | content.js:295 | Each part sits in the joined text between the join of the parts before it and the join of the parts after it. |
| Strings.FirstDigitAfterSpec | content.js:247-248 | The first digit after the first occurrence of a marker, as the regular expression `marker(\d)` finds it. The result is none when no occurrence is followed by a digit. When it is some, the marker occurs there, a digit follows, and no earlier occurrence is followed by a digit. |
| Strings.StripZeroWidth | content.js:268 | Removing U+200B, U+200C, U+200D and U+FEFF leaves none of them. Text without them is unchanged. The result is empty exactly when the text consists only of them. |
| Strings.StripZeroWidthConcat | content.js:268 | Removal works character by character: it distributes over concatenation, so every character that is not zero-width is kept, in order. |
| Strings.StripZeroWidthChar | content.js:268 | A single zero-width character is removed, and any other single character is kept. |
| Strings.Trim | content.js:342 | The definition of `trim()`: leading white space removed, then trailing. What it keeps and drops is stated by the TrimStart and TrimEnd rows below. |
| Strings.TrimStart | content.js:342 | Drops exactly the leading white space: the result is a suffix of the input, everything dropped is white space, and the result does not start with white space. |
| Strings.TrimEnd | content.js:342 | Drops exactly the trailing white space: the result is a prefix of the input, everything dropped is white space, and the result does not end with white space. |
| Classify.FirstMatchSpec | content.js:254-260 | A first-match rule list yields the earliest rule whose marker occurs in the class name. It yields none exactly when no rule's marker occurs. |
| Classify.WikiHeadingLevel | content.js:247-248 | A heading's level is the digit after the first `heading<digit>` in its class, and 1 when there is none. The level is at most 9. |
| Classify.IdentifyType | content.js:244-261 | The type is null exactly when the class mentions `image` but not `heading` and the node holds no `img`. A heading takes precedence, with its level. An image type carries the `img`'s address, and no other type carries an address. The result is never a divider. |
| Classify.IdentifyTypeByRules | content.js:254-260 | Below heading and image, the type is the first of bullet/list (unordered), ordered, quote, callout and code whose marker occurs, with paragraph as the default. |
| Classify.ListBeforeOrdered | content.js:254-255 | An item typed ordered has `ordered` in its class and neither `list` nor `bullet`. |
| Classify.AceType | content.js:210-226 | An ace line is a heading exactly when `heading-h<digit>` matches, and then its level is that digit. It is an ordered item only with both `list-` and `ordered`. Only a gallery line carries the image's address. |
| Classify.AceTypeByRules | content.js:218-226 | After the heading test, an ace line's type is the first rule that matches among `list-` (ordered when `ordered` also occurs, unordered otherwise), `quote` and `gallery` (an image carrying the `img`'s address), with paragraph as the default. There is no code rule for ace lines. |
| Classify.IsGarbageContent | content.js:174-177 | The definition: non-empty text in which some phrase of the list occurs. Its properties are the next three rows. |
| Classify.GarbageIffOccurs | content.js:174-177 | Text is garbage exactly when one of the garbage phrases occurs in it at some position. |
| Classify.GarbageClosedUnderExtension | content.js:174-177 | Any text that contains garbage text is itself garbage. |
| Classify.GarbagePhrases | content.js:71-79 | Each garbage phrase is itself recognised as garbage. |
| InlineText.Flatten | content.js:266-292 | A node contributes the empty string exactly when it shows no text. |
| InlineText.FlattenAllAppend | content.js:281-283 | The contribution of a child list is the in-order concatenation of the contributions of its parts. |
| InlineText.FlattenUnformatted | content.js:266-292 | A tree without bold, inline-code or link elements contributes exactly its visible text, with zero-width characters removed. |
| InlineText.FlattenAllUnformatted | content.js:294-295 | Unformatted children contribute exactly their visible text. |
| InlineText.ElementWrapping | content.js:285-289 | An element that shows text keeps its children's markup inside its own. The outermost wrapper is the link when there is one, else the inline-code span, else the bold span. An element without formatting adds nothing. |
| InlineText.ElementNesting | content.js:287-289 | The bold span sits directly around the children's markup, and the inline-code span directly around the bold span. This holds also inside a link. |
| InlineText.ElementOpeningTags | content.js:287-289 | A formatted element opens with its tags outermost first: a link followed by its inline-code span or, without code, its bold span, and an inline-code span followed by its bold span. |
| InlineText.Traverse | content.js:266-292 | `traverse` pushes the node's contribution exactly when it is not empty, and otherwise leaves the result list alone. |
| InlineText.TraverseChildren | content.js:277-283 | The redirected pushes over the child nodes join to the children's in-order contribution. |
| InlineText.ExtractFormattedText | content.js:263-296 | The result is the in-order contribution of the root's children. It is empty exactly when they show no text. |
| Store.WikiCandidate | content.js:179-203 | A wiki node yields a block under its `data-block-id`, or under `wiki_<index>` when that is missing. The block is clean: not garbage, has text unless it is an image, not a divider, and has no ordinal. |
| Store.WikiAdmission | content.js:181-193 | A wiki node is admitted exactly when all of these hold: it is not nested inside a table or quote block, it is classified, its text is not garbage, and it shows text or is an image. The block carries the classification and the formatted text. |
| Store.AceCandidate | content.js:205-233 | An ace line yields a clean block under `ace_<index>`: not garbage, with text unless it is an image, never a divider, no ordinal. |
| Store.AceAdmission | content.js:228-230 | An ace line is admitted exactly when its text is not garbage and it shows text or is a gallery line with an image address. The block carries the line's type, level and address and its formatted text. |
| Store.Values | content.js:236-238 | The blocks come in insertion order, one per stored id. Each block is clean and carries its own id, and no id repeats. |
| Store.AddAllValid | content.js:195-201 | An extraction pass keeps the store well formed: the order lists each stored id once, and every block is clean and stored under its id. |
| Store.AddAllKeeps | content.js:185 | A pass never replaces a stored block. The old insertion order is a prefix of the new one. |
| Store.AddAllMembership | content.js:185-201 | After a pass, an id is stored exactly when it was stored before or some admitted candidate carries it. |
| Store.AddAllFirstWins | content.js:185 | A new id holds the block of the first candidate of the pass that carries it. |
| Store.AddAllPresent | content.js:185 | A pass whose every admitted id is already stored changes nothing. |
| Store.AddAllIdempotent | content.js:179-203 | Repeating a pass over the same nodes changes nothing. |
| Store.AddAllOrder | content.js:195-201 | The ids a pass appends come in the order of their first candidates in the node list. |
| Store.Collect | content.js:161-172 | The definition of one collection pass: a wiki pass when wiki blocks are rendered, else an ace pass when ace lines are rendered, else no change. Its properties are the rows that follow. |
| Store.CollectValid | content.js:161-172 | One collection pass keeps the store well formed. |
| Store.CollectAllValid | content.js:99-109 | Any sequence of collection passes keeps the store well formed. |
| Store.CollectIdempotent | content.js:161-172 | Collecting twice from an unchanged view gives the store that collecting once gives. |
| Store.CollectAllUnchangedView | content.js:99-109 | Any number of passes over one unchanged view equals a single pass. |
| Store.CollectAllKeeps | content.js:99-109 | Across passes a stored block never changes, and the insertion order only grows at its end. |
| Store.BlockStore.constructor | content.js:69 | The store starts empty. |
| Store.BlockStore.Clear | content.js:82 | Clearing empties the map and the order. |
| Store.BlockStore.Has | content.js:185 | True exactly when the id is stored. |
| Store.BlockStore.Set | content.js:195-201 | The key maps to the block. A new key goes to the end of the order. An existing key keeps its position. |
| Store.BlockStore.AdmitWikiNode | content.js:180-202 | One turn for a node leaves the store as adding that node's candidate does. |
| Store.BlockStore.ExtractWikiBlocks | content.js:179-203 | The new store is the old one after a wiki pass over the nodes. |
| Store.BlockStore.AdmitAceLine | content.js:206-233 | One turn for an ace line leaves the store as adding that line's candidate does. |
| Store.BlockStore.ExtractAceLines | content.js:205-234 | The new store is the old one after an ace pass over the lines. |
| Store.BlockStore.CollectVisibleBlocks | content.js:161-172 | Wiki blocks are collected when any are rendered. Otherwise ace lines are collected when any are rendered. Otherwise nothing changes. |
| Store.BlockStore.GetSortedBlocks | content.js:236-238 | The stored blocks, one per id, in insertion order. |
| Scroll.IsScrollable | content.js:154-159 | The definition: the computed `overflowY` is `auto` or `scroll` and the content is more than 50 pixels taller than the visible part. |
| Scroll.IsOutlineClass | content.js:135-139 | The definition: the lower-cased class name contains `nav`, `sidebar`, `catalog` or `tree`. |
| Scroll.OutlineIgnoresCase | content.js:135 | The outline test ignores case: a class name is an outline class exactly when its lower-case form is one. |
| Scroll.Eligible | content.js:134-142 | The definition of a `div` the fallback scan may choose: it is scrollable, its class name is not an outline class, and it is at least 400 pixels wide. |
| Scroll.FirstPriority | content.js:124-127 | The first priority selector that finds a scrollable element, with none scrollable before it. The result is none when no priority selector does. |
| Scroll.BestUpTo | content.js:129-149 | The winner of the fallback scan is an eligible `div` of positive area. No eligible `div` is larger, and every eligible `div` before it is strictly smaller, so the first one wins on ties. The result is none exactly when every eligible `div` has zero area. |
| Scroll.FindMainContentContainer | content.js:116-152 | The container comes from one of three sources. It is the first scrollable priority element. Failing that, it is the first largest eligible `div`. Failing both, it is the document root. In each case the conditions of the earlier choices are proved not to hold. |
| Scroll.StopsShape | content.js:95-105 | The stepped positions are `start + k * step`, all below the total height. One more step reaches the height. There are none exactly when the start is not below the height. |
| Scroll.StopsCover | content.js:99-105 | Every offset between the start and the height lies within one step below some stepped position. |
| Scroll.ScrollCoverage | content.js:89-109 | A long document is collected first at its entry position, then at 0, then at successive steps, and last at its full height. Every offset below the height is within one step (80% of the viewport) below a stepped position. |
| Scroll.PassCount | content.js:89-109 | A short document gets one pass. A long one gets the stepped passes plus the first and the last, and the number of steps is the least that reaches the height. |
| Scroll.GatheredIsCollectAll | content.js:89-109 | Collecting at successive positions equals collecting over the successive views seen there. |
| Scroll.CollectAt | content.js:101-103 | One pass at a position records that position and leaves the store as the passes so far plus this one leave it. |
| Scroll.ScanStep | content.js:99-105 | One loop turn moves one position from the plan's remainder to the positions done and advances by one step. |
| Scroll.ScanLong | content.js:95-109 | The stepped passes from 0 and the final pass at full height happen, in that order. |
| Scroll.ScrollAndCollect | content.js:81-114 | The store is cleared, the container is found, and collection happens exactly at the planned positions. The scroll position is reset to 0, or left where it was for a short document. The blocks come back in insertion order from a well-formed store. |
| Render.StripMarkers | content.js:342 | Removing the leading markers leaves a suffix of the text that starts with no marker. |
| Render.StripMarkersStep | content.js:342 | The pattern `^(token)+` strips one token at a time. Text that starts with no token is kept as it is. Otherwise the first token is dropped and stripping goes on from there. |
| Render.MarkerSplit | content.js:342 | What is dropped splits into marker tokens: the entity `&nbsp;`, one white-space character, digits followed by `.`, or one bullet glyph. These tokens in order, followed by the stripped text, make up the text. |
| Render.StripMarkersMaximal | content.js:342 | The stripped text starts with no marker token, so the pattern took as many tokens as it could. |
| Render.CleanListText | content.js:340-343 | The definition: list-item text with its markers stripped, then trimmed. Its properties are the next rows. |
| Render.CleanListTextShape | content.js:340-343 | List-item text after cleaning is a prefix of the marker-stripped text, starts with no marker token, and has no white space at either end. |
| Render.CleanListTextIdempotent | content.js:340-343 | Cleaning list-item text twice changes nothing more. |
| Render.CleanListTextExample | content.js:342 | The typed markers `1.` and `•` in front of the text are removed. |
| Render.BlockHtml | content.js:345-378 | The definition: the markup of one block, by its type. Its properties are the next rows. |
| Render.BlockHtmlEmpty | content.js:345-378 | A block produces markup exactly when it renders. The exceptions are an image without an address and a paragraph, or a block of no listed type, with empty text. |
| Render.BlockHtmlShows | content.js:345-378 | A block's markup displays its text, cleaned for list items, or its address for an image. |
| Render.MarkupEmpty | content.js:345-378 | For any text, the markup of a block's type is empty exactly for an image without an address, or for a paragraph or block of no listed type whose text is empty. |
| Render.MarkupShows | content.js:345-378 | For any text, the markup of a block's type contains that text, or the image address for an image. |
| Render.HeadingMarkup | content.js:347-348 | A heading opens a tag named after its raw level. It is styled h1 for level 1, h2 for level 2 and h3 for every other level, and it closes the same tag. |
| Render.OlItemShowsNumber | content.js:357-362 | An ordered item's markup shows its ordinal, followed by a dot, in the number span. |
| Render.RunBeforeSpec | content.js:331-338 | Counts the maximal run of ordered items that ends just before a position. |
| Render.Numbered | content.js:331-338 | Ordered items get an ordinal one more than the run of ordered items before them. Every other block is unchanged. |
| Render.OlNumbering | content.js:331-338 | An ordered item's ordinal is its position in its maximal run. It is 1 at the start of a run and one more than its predecessor's ordinal inside a run. |
| Render.RenderSpec | content.js:326-382 | The reference definition that RenderToHtml and HandleMessage are stated against: the container `div` around the joined markups of the numbered blocks, in order. Its properties are the next rows. |
| Render.RenderShowsEveryBlock | content.js:326-382 | The fragment is one container `div` and displays every block's text, or every image's address. |
| Render.RenderKeepsOrder | content.js:326-382 | The markup of block `j` comes before that of block `k` when `j < k`, with the markup of the blocks in between between them. |
| Render.RenderEmpty | content.js:327-381 | No blocks render as an empty container. |
| Render.NumberBlock | content.js:332-338 | One numbering step writes the block's ordinal into the array and advances the counter and the last type as the pass does. |
| Render.RenderToHtml | content.js:326-382 | The array afterwards holds the numbered blocks, and the result is the container holding each block's markup in order. |
| Images.Converted | content.js:303-309 | An image with a truthy address takes the conversion of that address whenever the conversion is truthy. Nothing else changes: every other block, and every other field, is kept, and the address stays truthy. |
| Images.ProcessImages | content.js:302-311 | The array afterwards holds each block after conversion, in the same order. |
| Pipeline.ContentScript.constructor | content.js:11-33 | The script starts with the style table `WX_STYLES` and an empty block store. |
| Pipeline.ContentScript.HandleMessage | content.js:38-63 | Other actions get no answer and change nothing. `convert_and_copy` collects the page. An empty collection is answered with the "nothing extracted" message and copies nothing. Otherwise the rendered fragment of the converted blocks is copied, and the answer is the number of blocks. |
| Pipeline.ConversionKeepsRendering | content.js:50-51 | Image conversion never adds or drops a block's markup, and non-image blocks render as before. |
| Pipeline.ClipboardShowsEveryBlock | content.js:44-53 | Every collected block appears on the clipboard: its text, or an image's address after conversion. |

## Left out

- Scroll.ScrollAndCollect: requires that the stepping loop ends. A container whose total height exceeds its visible height by more than 100 pixels while its visible height is 0 or 1 gets a step of 0, and the source loop then never ends.
- Pipeline.ContentScript.HandleMessage: inherits that requirement from `ScrollAndCollect`, for the `convert_and_copy` action only. Other actions never scan and carry no requirement.
- Pipeline.ContentScript.HandleMessage: assumes one run at a time. The listener is asynchronous, so two `convert_and_copy` messages can interleave at the scroll waits and at the image conversions (content.js:102, 108, 305). They share the module-global `CONTENT_POOL`, so the second run's `clear()` (content.js:82) would empty the first run's partial store and both would render from a mixed pool. The ensures `pool.State() == CollectedPool(...)` describes a run that nothing overlaps.
- `copyToClipboard`, `chrome.runtime.onMessage` and `sendResponse`: browser APIs. The handler returns the copied HTML and the response value instead.
- `urlToBase64`: the CORS `fetch` and `FileReader` become the `Converter` parameter, with `None` standing for `null`.
- The `setTimeout` waits between scroll steps and all console logging: timing and output only.
- The DOM is given as records. The page is the per-selector query results and the list of `div`s, and the lazily rendered document is a function from scroll position to the nodes rendered there.
- Element sizes are natural numbers, not floats. `Math.floor(h * 0.8)` is written as `(4 * h) / 5`, which agrees with it for integral heights.
- The `scrollTop` assignment is taken as exact. The browser's clamping of a position beyond the maximum is not modelled, because the model records the positions the script asks for.
- `toLowerCase` is modelled for ASCII letters only. This applies to tag names in the inline walk (content.js:271) and to the class names the container scan tests for outline words (content.js:135).
- `processImages` starts every conversion and then waits for all of them. The model converts blocks one after another, which gives the same array because each task writes only its own block.
- The aliasing between `CONTENT_POOL`'s block objects and the rendered array is not modelled. The handler copies the blocks into a fresh array, so numbering and conversion do not reach back into the store.
- The `catch` branch of the handler, for exceptions from the browser APIs: the modelled code throws none, and the "container not found" throw is unreachable.
- The renderer takes the style table as a parameter, and the content script instantiates it with `WX_STYLES`. Its properties hold for every style table.
- `popup.js` and `background.js` are not part of this model.
