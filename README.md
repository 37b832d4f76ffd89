# mscgenjs text utilities, modelled in Dafny

This project models the text utilities of mscgenjs-core
(`src/script/node/textutensils.js`). Renderers use them to word-wrap labels,
and hosts use them to guess which input language a program or file is in:

- `wrap(text, maxLength)` normalises the text, then breaks it greedily into
  lines (module `Wrapping`). First every run of tabs and newlines becomes one
  space. Then every backslash-`n` escape becomes a real newline. One
  character-by-character scan with a counter then cuts the text into lines:
  - a newline always ends the line and resets the counter to 0;
  - a character that finds the counter at (or above) the maximum ends the
    line at the last space since the line began, drops that space and
    resets the counter to 0;
  - when the line has no such space, the line ends right before that
    character and the counter restarts at 1.
- `unescapeString(text)` turns every escaped double quote into a plain one
  (module `Escapes`). It shares one left-to-right, non-overlapping
  pair-replacement function with the backslash-`n` step of `wrap`.
- `classify(text)` and `classifyExtension(name)` guess the input language,
  "mscgen", "json" or "msgenny" (module `Sniffer`):
  - a text is MscGen when `msc\s*{` occurs anywhere in it, JSON when it
    starts (after `\s` characters) with `{`, and MsGenny otherwise;
  - a file name is classified by the part after its last dot, looked up in
    a six-entry table, with MscGen as the default.

`Wrapping.Wrap` keeps the source's single loop and its variables (`charCount`,
`start`, `newStart`, `end`, `i`). It is proved equal to `Wrapping.Lines`, a
line-at-a-time definition of the same output. The properties of the output
are lemmas about `Lines`.

The lines are not bounded by the maximum. A first reading of the algorithm
suggests no line exceeds the maximum unless it is one overlong word. The code
does not keep that promise. After a break at a space the counter restarts at
0, although the new line already holds the characters that followed the
space. `Wrapping.CounterRestartsAfterSpaceBreak` shows that with a maximum of
5, `"aaaa bbbbbbbb"` becomes `"aaaa"`, `"bbbbbb"` (six characters) and
`"bb"`. The model follows the code. The bound that does hold, for the first
line or a line after a newline, is `Wrapping.WidthBreak`; where any
overflowing line, including one after a soft break, ends is
`Wrapping.OverflowBreak`.

## Model

| member | source | states |
|---|---|---|
| Strings.LastIndexOf | src/script/node/textutensils.js:36 | `lastIndexOf` of one character: -1 or an index holding it, with no occurrence after it |
| Escapes.ReplacePair | src/script/node/textutensils.js:25 | a global regex replacement of a two-character pair never lengthens the text and introduces no character but the replacement |
| Escapes.ReplacePairLength | src/script/node/textutensils.js:25 | each replaced pair shortens the text by one: the length is the input length minus the number of pair positions (for pairs of two different characters) |
| Escapes.ReplacePairIdentity | src/script/node/textutensils.js:82 | a text without the pair is returned unchanged |
| Escapes.ReplacePairExhaustive | src/script/node/textutensils.js:25 | when the replacement is neither half of the pair, no pair is left afterwards |
| Escapes.UnescapeNewlines | src/script/node/textutensils.js:25 | after replacing backslash-`n` by a newline, no backslash-`n` remains and the text is one character shorter per escape |
| Escapes.UnescapeString | src/script/node/textutensils.js:81-85 | replacing escaped quotes shortens the text by exactly the number of backslash-quote pairs |
| Escapes.UnescapeStringUnchanged | src/script/node/textutensils.js:81-85 | a text with no escaped quote comes back unchanged |
| Escapes.UnescapeStringCounts | src/script/node/textutensils.js:81-85 | every double quote is kept, and exactly one backslash disappears per escaped quote |
| Wrapping.SkipTabsAndNewlines | src/script/node/textutensils.js:25 | drops the leading run of tabs and newlines (the `[\t\n]+` match): every dropped character is a tab or newline, and what is left is empty or starts with another character |
| Wrapping.SkipTabsAndNewlinesIsSuffix | src/script/node/textutensils.js:25 | what is left after the leading run is exactly the remaining suffix of the text |
| Wrapping.CollapseTabsAndNewlines | src/script/node/textutensils.js:25 | after collapsing, no tab or newline is left and the text is no longer than before |
| Wrapping.CollapseRun | src/script/node/textutensils.js:25 | each maximal run of tabs and newlines becomes exactly one space, and the text on both sides is collapsed on its own, in order |
| Wrapping.CollapseKeepsCharacters | src/script/node/textutensils.js:25 | collapsing introduces no character other than the space |
| Wrapping.CollapseIdentity | src/script/node/textutensils.js:25 | a text without tabs and newlines is left unchanged by the collapsing step |
| Wrapping.Normalise | src/script/node/textutensils.js:25 | the normalised text has no tab and no backslash-`n` escape left |
| Wrapping.StopAt | src/script/node/textutensils.js:27-35 | the scan passes non-newline characters while the counter is below the maximum and stops at the first newline, the first character that finds the counter full, or the end |
| Wrapping.NextStep | src/script/node/textutensils.js:28-46 | the shape of one step of the scan: the last line has no newline ahead; a break drops one separator (nothing, one space or the newline) that sits right after the line, passes no newline before it, and moves the scan forward |
| Wrapping.NextStepChoice | src/script/node/textutensils.js:28-46 | for every scan state, with `j` where the scan stops: the last line exactly when `j` is the end of the text; a newline at `j` ends the line there with the counter at 0; otherwise the line ends at the last space since its start (dropped, counter 0) or, with no space, right before `j` (counter 1) |
| Wrapping.LinesFrom | src/script/node/textutensils.js:27-49 | from every state of the scan at least one line is still emitted, because the line in progress is always emitted at the end |
| Wrapping.OverflowBreak | src/script/node/textutensils.js:35-46 | from every scan state, also after a soft break: a line cut because a character found the counter full ends right before the last space on it, or, with no space, holds everything up to that character |
| Wrapping.Wrap | src/script/node/textutensils.js:17-51 | the loop returns exactly the line-at-a-time definition `Lines` of the normalised text, and at least one line |
| Wrapping.LinesFromReconstruct | src/script/node/textutensils.js:27-49 | the lines from any scan state are consecutive slices: interleaved with separators "", " " or newline they give back the rest of the text |
| Wrapping.LinesReconstruct | src/script/node/textutensils.js:27-49 | the lines, interleaved with the dropped separators (nothing, one space or one newline), give back the normalised text exactly |
| Wrapping.LinesFromClean | src/script/node/textutensils.js:30-46 | no line contains a newline, and every character of a line comes from the text |
| Wrapping.WrappedLinesHaveNoTabOrNewline | src/script/node/textutensils.js:25-49 | no wrapped line contains a tab or a newline |
| Wrapping.WrapEmpty | src/script/node/textutensils.js:28-29 | the empty text wraps to one empty line |
| Wrapping.SingleLine | src/script/node/textutensils.js:27-49 | a text without newlines that fits within the maximum is one line equal to the text |
| Wrapping.HardBreak | src/script/node/textutensils.js:30-34 | on the first line or a line after a newline, a newline within the maximum ends the line, and the next line starts after it with the counter at 0 |
| Wrapping.WidthBreak | src/script/node/textutensils.js:35-46 | the first line or a line after a newline, with no newline within reach, ends before the last space among its first `maxLength` characters, or after exactly `maxLength` characters when there is none |
| Wrapping.CounterRestartsAfterSpaceBreak | src/script/node/textutensils.js:42-43 | with a maximum of 5, `"aaaa bbbbbbbb"` wraps to `"aaaa"`, `"bbbbbb"`, `"bb"`: a line can be longer than the maximum |
| Sniffer.SkipSpaces | src/script/node/textutensils.js:96 | finds the end of a run of `\s` characters: all skipped characters are `\s` and the one after is not |
| Sniffer.MscOpenFromCorrect | src/script/node/textutensils.js:95 | the search for `msc\s*{` succeeds exactly when a match starts at or after the given index |
| Sniffer.FirstNonSpaceIsBrace | src/script/node/textutensils.js:96 | the first non-space character is a brace exactly when `^\s*{` matches |
| Sniffer.Classify | src/script/node/textutensils.js:94-104 | "mscgen" if and only if `msc\s*{` occurs; "json" if and only if it does not and `^\s*{` matches; "msgenny" if and only if neither matches |
| Sniffer.ClassifyExtension | src/script/node/textutensils.js:106-125 | the result is one of the three languages, and a name without a dot is MscGen |
| Sniffer.ClassifyExtensionBySuffix | src/script/node/textutensils.js:115-123 | only the text after the last dot decides: a known extension gives its table entry, any other gives "mscgen" |

## Left out

- `_determineMaxTextWidth` (textutensils.js:63-75) is not part of this model: it is a floating-point heuristic that turns a width in pixels into a character count.
- Wrapping.Wrap: the maximum is an integer. A fractional JavaScript maximum behaves like its ceiling, because the counter is an integer. A maximum that is `NaN` or `undefined` (every comparison false, so no width break) is not modelled.
- Wrapping.Wrap: characters are Unicode scalar values. JavaScript counts UTF-16 code units, so a character outside the Basic Multilingual Plane counts as two there and as one here.
- Sniffer.ClassifyExtension: the extension table is a plain JavaScript object, so keys inherited from `Object.prototype` (such as `constructor`) hit in the source and return a non-string. The model returns "mscgen" for them.
- The module wrapper (`define`/`amdefine`), the exported object and the commented-out string shims after line 125 are not modelled; they hold no logic of their own.
