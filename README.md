# greggsay, the render function

A Dafny model of the function exported by `index.js` in greggsay. It
draws the Gregg, an ASCII-art character, with a message in a rounded
speech bubble beside it. The model follows the function step by step:

- `message || default` and `trim`;
- the wrap width chosen from `options.maxLength`;
- the `styledIndexes` map of escape sequences and their visible offsets;
- the wrapped lines, each kept whole or trimmed;
- each line restyled character by character, trimmed again and centred
  between the frame's sides;
- the rows of the art with the bubble spliced in, joined by line feeds.

The files:

- `text.dfy` (module `Text`): messages as visible characters and
  escape sequences, JavaScript's `trim`, `split` and `join`, and
  pad-component's left padding.
- `bubble.dfy` (module `Bubble`): the wrap width, the frame, and the
  centring of a line.
- `styles.dfy` (module `Styles`): the extraction of the escape sequences
  (`message.replace(ansiRegex, …)`) and their reinsertion in front of
  each character (`str.replace(/./g, …)`).
- `greeting.dfy` (module `Greeting`): the message, the lines, the rows,
  and a class `Renderer` whose field `topOffset` is the module-level
  variable of the same name.

Each loop of the source is a method with invariants. Each such method
is proved equal to a specification function, and the lemmas beside that
function state what it means:

- `ExtractStyles` equals `StyleMap`.
- `RestyleLine` equals `Rebuilt`.
- `PlaceLines` equals `Layout`.
- `Render` equals `Rendered`.

The module-level `topOffset` (index.js:13) is lowered in place on the
first line of every call with two or more lines (index.js:146 and 150)
and never reset, so its value carries over from one call to the next:
a second call starts higher up. `Renderer.Render` therefore changes the
field.

With `maxLength`, the wrap width is the larger of `maxLength` and the
length of the first lower-cased word in JavaScript's sort order
(`sort()[0]`, index.js:68), not of the longest word.
`WidthCanBeBelowLongestWord` shows a message where the two differ.

The pieces of the message are:

- `Token`: a visible character `Plain(c)` or one whole escape sequence
  `Escape(text)`. A message is a sequence of tokens, as the ANSI escape
  pattern splits it.
- `Raw`: the text as written.
- `Strip`: what strip-ansi leaves.

## Model

| member | source | states |
|---|---|---|
| Text.Trim | index.js:42 | `trim`: the result is a contiguous middle part of the input; everything cut off on either side is white space; the result is empty or starts and ends with a non-white-space element |
| Text.TrimIdle | index.js:133 | trimming something that neither starts nor ends with white space returns it unchanged |
| Text.Split | index.js:93-94 | `split('\n')`: at least one piece, no piece contains the separator, and joining the pieces with it gives back the input |
| Text.SplitJoin | index.js:93-94 | splitting undoes joining when no piece contains the separator |
| Text.SplitLower | index.js:68 | lower-casing before the split keeps the same number of words, each word lower-cased in place |
| Text.PadLeft | index.js:163 | `pad.left(s, len)`: the result is `len` long (or `s` when longer), ends with `s`, and has only spaces before it |
| Text.RawIsStripPlusEscapes | index.js:85-90 | the written length of a message is its visible length plus the lengths of its escape sequences |
| Text.StripAppend | index.js:85-90 | the visible text of two messages one after the other is their visible texts one after the other |
| Bubble.SortFirst | index.js:68 | `sort()[0]` is one of the words and no word comes before it in JavaScript's string order |
| Bubble.SortFirstUnique | index.js:68 | any word that is in the list and at or before every word is `sort()[0]`, whatever order equal words end up in |
| Bubble.WrapWidth | index.js:61-73 | without a truthy `maxLength` the width is 24; with one, the width is at least `maxLength` and at least the length of the first word, and equals one of the two |
| Bubble.WrapWidthIsOptionOrWord | index.js:67-73 | with `maxLength` the width is that option or the length of one of the message's own space-separated words |
| Bubble.WidthCanBeBelowLongestWord | index.js:68 | for "a bb" and `maxLength` 1 the width is 1, below the length of the longest word |
| Bubble.MakeFrame | index.js:77-83 | the top border is the two round corners around `w + 2` horizontal glyphs; the side is the vertical glyph between reset codes; the bottom is a reset code, then the bottom corners around the same horizontal run |
| Bubble.PadCentre | index.js:135-140 | the padded line is as wide as `maxLength` (or the line when wider); its visible text is the line centred, with the odd space on the left; as written, the line sits between two reset codes |
| Styles.SortedKeys | index.js:86 | `Object.keys` of integer keys: every key exactly once, in strictly ascending order |
| Styles.KeyedLengthSorted | index.js:86-88 | summing the stored lengths in `Object.keys` order gives the total length of all stored texts |
| Styles.SubtractLengths | index.js:86-88 | the loop subtracts the length of the text under each key from the offset |
| Styles.VisibleOffset | index.js:86-88 | the adjusted offset is the written offset less the total length of every escape stored so far |
| Styles.RecordEscape | index.js:85-90 | one escape is stored under the number of visible characters before it, after any text already stored there |
| Styles.ExtractStyles | index.js:85-91 | the map built escape by escape is `StyleMap` of the whole message |
| Styles.StyleMapGroupsRuns | index.js:85-91 | the map has one key per visible offset at which an escape sits, and under it the escapes at that offset concatenated in order |
| Styles.StyleMapLength | index.js:85-91 | the stored texts add up to every escape sequence of the message: nothing is lost or duplicated |
| Styles.NoEscapesNoStyles | index.js:85-91 | a message with no escape sequences leaves the map empty |
| Styles.AnchorSpec | index.js:111-131 | the text put in front of a character comes from a key at or below it with no key in between; its own text always wins; it gets nothing exactly when it has no text and the style does not continue |
| Styles.SingleAnchorNotCarried | index.js:111-131 | with a single key, its text goes in front of its own character only and is never carried forward |
| Styles.ContinuesByKeys | index.js:111-123 | the style continues exactly when two keys lie below the character, or one below and one above it |
| Styles.CountKeys | index.js:114-123 | walking the ascending keys, `hasContinuedStyle` ends as the number of keys below the character, or 2 when exactly one lies below and one above; the remembered text is that of the last key below |
| Styles.CountContinued | index.js:111-124 | `hasContinuedStyle` reaches 2 exactly when the style continues, and the remembered text is then that of the nearest key below |
| Styles.StylePrefix | index.js:111-131 | the text put in front of the character at a visible offset is its own non-empty text, else the continued one, else nothing |
| Styles.RebuiltStrip | index.js:104-132 | removing the reinserted texts from a restyled line gives back the line |
| Styles.RebuiltShape | index.js:104-132 | in a restyled line every escape sequence is directly followed by a visible character |
| Styles.RestyleLine | index.js:104-132 | the line rebuilt character by character is each character preceded by the text chosen for its visible offset |
| Greeting.Normalize | index.js:42 | the empty message becomes the default greeting; the result is that message with the white space removed from both ends and nothing else |
| Greeting.BlankMessageStaysBlank | index.js:42 | a non-empty message of white space only renders as an empty message, not as the default greeting |
| Greeting.NormalizeIdempotent | index.js:42 | normalising a non-empty result again changes nothing |
| Greeting.DefaultGreetingStyles | index.js:42 | the default greeting stores the magenta code at visible offset 25 and the closing code at 37, its visible length |
| Greeting.DefaultGreetingCarriesMagenta | index.js:104-131 | every character of "Squee squee!" gets the magenta code in front, and the closing code is never put back |
| Greeting.WrappedLines | index.js:93-94 | the wrapped visible text split at line feeds: at least one line, none holds a line feed, and joined back they are the wrapped text |
| Greeting.WhitespaceRunIffLongest | index.js:75 | `\s{n}` matches a line exactly when its longest run of white space is at least `n` long |
| Greeting.Kept | index.js:98-100 | a line holding a white-space run of the wrap width is kept whole; otherwise the result neither starts nor ends with white space; in both cases it is a contiguous part of the line and everything cut off either end is white space |
| Greeting.KeptIdempotent | index.js:98-100 | keeping a kept line again changes nothing: trimming creates no white-space run of the wrap width and leaves none at the ends |
| Greeting.KeepLine | index.js:98-100 | the method's keep-or-trim step yields `Kept` of the wrapped line |
| Greeting.PositionInText | index.js:102-108 | when every line break took out one character, character `j` of line `i` is character `LineStart + j` of the text rebuilt from the lines and those characters |
| Greeting.NextLine | index.js:102-104 | the piece cut from the end of `completedString` is the kept line, and its first character sits at `LineStart` |
| Greeting.PaddedShowsLine | index.js:104-140 | a kept line that neither starts nor ends with white space shows its characters unchanged, centred in the bubble's width |
| Greeting.EndKeyNeverEmitted | index.js:104-131 | when every line break took out one character, no character gets the text of a key at or past the end of the visible text |
| Greeting.TextStartPosition | index.js:102-108 | character `j` of line `i` is character `TextStart + j` of the visible text, whatever each break took out |
| Greeting.LineStartIsTextStart | index.js:106-108 | the offset index.js computes for a line is its true start in the visible text whenever every break took out exactly one character |
| Greeting.StyleAtTextOffset | index.js:106-108 | offset by its true start, every character gets the text chosen for its own offset in the visible text, never that of a key at or past the end |
| Greeting.HardBreakMovesClosingCode | index.js:106-108 | for magenta a to z and a hard wrap at 24 columns, index.js puts the closing code in front of `z`; the true offset gives `z` magenta |
| Greeting.PrefixRule | index.js:104-131 | a line terminator gets nothing in front; another character gets its own text, else the nearest text below when the style continues, else nothing |
| Greeting.FormatLine | index.js:104-140 | the framed body of a line is `LineBody` of that line at its visible offset |
| Greeting.NextBody | index.js:98-140 | one step of the `reduce` extends `completedString` by the kept line and yields that line's framed body |
| Greeting.BackgroundShape | index.js:16-31 | the art has fourteen rows of 42 columns |
| Greeting.OverflowIsCeiling | index.js:156-157 | the blank rows put on top are `Math.ceil((n - 7) / 2)` for more than seven lines, none otherwise |
| Greeting.SetRow | index.js:169-171 | writing a row one past the end appends it; any other write replaces that row only |
| Greeting.WithTop | index.js:166 | the top border is appended to the row above the bubble and every other row is unchanged |
| Greeting.PlacedRows | index.js:169-177 | after placing the pieces, each row from the bubble's start on is its old row (or 42 spaces) followed by its piece, and every other row is unchanged |
| Greeting.LayoutPlacesBubble | index.js:142-177 | in the final rows the top border is on the row above the bubble, line `i` on row `t + i`, the bottom border on the row after the last line, and every other row is the art's row |
| Greeting.RenderedShape | index.js:181 | the output ends with a line feed and has at least the fourteen rows of the art plus the blank rows on top |
| Greeting.Unshift | index.js:159-161 | `k` calls to `unshift('')` put `k` empty rows in front |
| Greeting.Renderer.constructor | index.js:13 | `topOffset` starts at 4 |
| Greeting.Renderer.Render | index.js:41-182 | the output is `Rendered` of the message at the new offset; `topOffset` goes down by the rise for the number of lines and stays at most 4 |
| Greeting.Renderer.StartBubble | index.js:142-167 | on the first line `topOffset` goes down by the rise, blank rows go on top beyond seven lines, and the top border (pushed to column 70 then) is appended to the row above the bubble |
| Greeting.Renderer.PlaceLines | index.js:95-180 | the rows after the `reduce` are `Layout`: the art with the bubble spliced in |
| Greeting.Renderer.PlaceBody | index.js:142-177 | one step puts the line's body on its row, starting the bubble on the first line and closing it with the bottom border after the last |

## Findings

| source | as written | input that shows it | evidently intended | confidence | as-written member | corrected member |
|---|---|---|---|---|---|---|
| index.js:106-108 | a line's offset in the visible text counts one character for every line break before it | the magenta code, the letters a to z, the closing code, at width 24: a hard wrap splits the word as "a…x" and "yz" and takes out no character, so `z` gets offset 26, where the closing code sits, and loses its colour | each character gets the text chosen for its own offset in the visible text, counting only the characters the breaks took out | medium, not executed; wrap-ansi's hard split is assumed, as the library is not part of this model | Greeting.HardBreakMovesClosingCode | Greeting.StyleAtTextOffset |

The render model keeps the offsets as written (`LineStart`).
`LineStartIsTextStart` shows they equal the corrected `TextStart` whenever
every break takes out exactly one character, as a break at a space does.

## Left out

- `cli.js`, the command-line wrapper, is not part of this model.
- wrap-ansi is a parameter `wrap` of `Render` and of the specification functions. The model only splits its output at line feeds, and `PositionInText` states what the offsets mean when the lines and the characters each break took out spell the visible text.
- ansi-regex and strip-ansi are not modelled as text matchers. A message comes already split into visible characters and whole escape sequences, so `Strip` and `Raw` stand for strip-ansi and the original string. An escape token is taken to be a match of ansi-regex: non-empty, starting with ESC (or CSI) and ending in a final character that is not white space. The model does not check this. For such tokens, trimming token by token cuts what `trim` cuts from the written string.
- string-width counts one column per visible character. Wide and zero-width characters are not modelled.
- The chalk colours of the art are left out. `Background` is the art's visible text only, and terminal colour detection is left out with it.
- `toLowerCase` lowers ASCII letters only.
- `DefaultGreeting` holds chalk's magenta codes. It assumes colour output is enabled; with colour detection off, chalk would add no codes.
- Strings are sequences of characters. UTF-16 surrogate pairs are not modelled.
- `options.maxLength` is an integer or absent. Non-numeric values and non-string messages are not modelled.
- Greeting.Renderer.Render: requires `topOffset` to stay at 1 or more. After enough calls index.js writes to negative array indices, which `join` ignores; this model does not cover that.
- Greeting.Renderer.PlaceLines: takes the art rows as a parameter with at least four rows; `Render` passes `Background`.
- Bubble.PadCentre: the centring of pad-component is modelled from its documented behaviour (the extra space on the left); the library itself is not part of this model.
