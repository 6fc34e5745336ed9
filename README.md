# Styled-segment editor of the Discord Colored Text Generator

This project models the editor inside the `App` component of the Discord Colored Text Generator, a single-page React app, and proves its properties.

The editor keeps three pieces of state:

- a text buffer;
- the selection `{start, end}`: the initial empty `{0, 0}` until the user first selects something, afterwards the last non-empty selection of the textarea;
- `formattedSegments`, an ordered list of segments `{text, color, bg, bold, underline}` whose texts spell the buffer.

The editor has four operations:

- `applyFormatting` splits every segment that overlaps the selection into a prefix, a selected part and a suffix. A colour swatch overwrites `color` or `bg` on the selected part. Bold and Line flip that part's own flag, segment by segment. One left-to-right pass then drops empty segments and merges neighbours whose four attributes are equal.
- A text edit or Reset All collapses the list to one unstyled segment.
- Selection recording keeps a selection only when it is non-empty.
- The export builds the Discord markup string. Each segment is wrapped, innermost first, in `[hex]…[/hex]`, `[@hex]…[/@hex]`, `**…**` and `__…__`. The wrapped segments are concatenated with no separator.

Modules:

- `Segments` (segments.dfy) defines the segment datatype and the character-level view `Flat`, which lists every character with its own style. It also proves that a merged list is the only merged list with a given view (`NormalUnique`).
- `Formatting` (formatting.dfy) holds the split pass, the merge pass and `applyFormatting`. Each is a pure specification function and a loop method proved equal to it. The properties are lemmas over the functions.
- `Serializer` (serializer.dfy) is the string-building part of `copyToClipboard`, as a function and as the accumulating loop.
- `App` (app.dfy) is a class `Editor` with fields `text`, `selStart`, `selEnd` and `formattedSegments`, and one method per handler. Its invariant `Valid()` says that the segments spell `text` and are either merged or the single plain segment.

A few points where the app's stated behaviour and its code disagree; the model follows the code:

- The About paragraph (App.js:308) talks of ANSI colour codes. The code emits bracket, asterisk and underscore tokens.
- A run is meant never to be empty. Clearing the textarea stores one segment with empty text, and Reset All on an empty buffer does the same. Applying formatting to that list with a non-empty recorded selection yields the empty list; while the recorded selection is still the initial `{0, 0}`, the list stays as it is (`ApplyEmptyText`).
- A selection is meant to lie inside the buffer. A text edit does not reset the selection, so a stale selection can run past the buffer. The guards `segmentEnd <= selectedRange.start`, `segmentStart < selectedRange.start` and `segmentEnd > selectedRange.end` (App.js:77, 87, 117) and the `Math.min` with the segment length (App.js:99) keep every `substring` call inside the segment's text, so such a selection is harmless (`OverlapSlices`, `ApplyCells`, `ApplyPastEnd`).
- The merge loop tests `i > 0` and then reads the last merged segment. That read is defined only if an earlier segment was non-empty. `MergeGuardSafe` states exactly this condition. Every list the editor holds meets it (`CoherentIsSafe`).

## Model

| member | source | states |
|---|---|---|
| `Segments.Substring` | App.js:90-120 | JavaScript `substring` with clamping: for in-range indices it is the slice, and it is never longer than the string |
| `Segments.FlatChars` | App.js:4-12 | the characters of the per-character view spell the concatenated segment texts |
| `Segments.NormalUnique` | App.js:129-146 | two lists without empty segments and without equally styled neighbours that show the same characters in the same styles are equal |
| `Formatting.Retouch` | App.js:95-112 | the selected part is a copy of the segment with exactly one field changed: `color` or `bg` set to the swatch value, or `bold` or `underline` set to the negation of that segment's own flag |
| `Formatting.Pieces` | App.js:73-123 | one segment contributes one to three pieces, none longer than the segment, each carrying either the segment's own attributes or the restyled ones |
| `Formatting.PiecesShape` | App.js:76-122 | a non-empty segment yields at least one piece and only non-empty pieces; an empty segment yields exactly one empty piece |
| `Formatting.PiecesCells` | App.js:73-123 | character by character, one segment's pieces are that segment with exactly the characters inside `[start, end)` restyled |
| `Formatting.Split` | App.js:68-126 | the `forEach` pass, each segment at the offset given by the length of the text before it, turns n segments into between n and 3n pieces |
| `Formatting.SplitSafe` | App.js:72-135 | the split pass never produces a list on which the merge loop would read a missing last element |
| `Formatting.SplitCells` | App.js:68-126 | the split pass keeps every character and changes the style of exactly those inside `[start, end)` |
| `Formatting.MergeOf` | App.js:129-146 | after the merge loop no segment is empty and no two neighbours share all four attributes; the result is empty exactly when every input segment was empty |
| `Formatting.MergeCells` | App.js:129-146 | dropping empty segments and joining equal neighbours keeps every character with its style, in order |
| `Formatting.MergeStep` | App.js:131-145 | one merge iteration changes nothing for an empty current segment; otherwise it either pushes the current segment after all earlier merged segments, unchanged, which happens at `i == 0` or when the last merged segment's attributes differ, or it keeps all but the last merged segment and extends the last one, whose attributes equal the current segment's, by the current text |
| `Formatting.MergeOfSnoc` | App.js:130-146 | the merged list after `i + 1` iterations is one more merge iteration applied to the list after `i`, and that iteration never reads a missing last segment |
| `Formatting.MergeStepCells` | App.js:131-145 | one iteration of the merge loop (skip an empty segment, extend the equally styled last segment, or push a copy) appends exactly the current segment's characters with their style |
| `Formatting.JoinCells` | App.js:136-141 | appending `current.text` to the equally styled last segment shows the same characters as keeping `current` separate |
| `Formatting.Apply` | App.js:64-149 | an empty selection returns the list itself; otherwise the result is the merge of the split list and has no empty segment and no equally styled neighbours; the merge guard is demanded only for a non-empty selection |
| `Formatting.ApplyCells` | App.js:64-149 | per character: inside `[start, end)` the colour or background is set to the value or the character's own bold/underline flag is flipped; outside, the style is unchanged; no character is added or lost, even for a selection past the buffer |
| `Formatting.ApplyCharacterised` | App.js:64-149 | for a non-empty selection, a list without empty segments or equally styled neighbours is the result exactly when it shows the input's characters with those in `[start, end)` restyled: both directions |
| `Formatting.ApplyKeepsText` | App.js:72-146 | the output segment texts concatenate to the input segment texts |
| `Formatting.ApplyColorIdempotent` | App.js:104-107 | applying the same foreground or background colour to the same selection twice gives the same segment list as applying it once |
| `Formatting.ApplyToggleTwice` | App.js:108-111 | toggling bold or underline twice on the same selection restores every character's style, and restores a merged list exactly |
| `Formatting.ApplyPastEnd` | App.js:77-78 | a selection that starts at or after the end of the buffer leaves a merged list unchanged |
| `Formatting.ApplyEmptyText` | App.js:42-65 | the single empty segment left by clearing the textarea becomes the empty list under a non-empty selection and stays under the initial empty selection |
| `Formatting.BoldMiddle` | App.js:86-122 | bold on `[1,2)` of a plain "abc" gives the runs "a", bold "b", "c" |
| `Formatting.JoinEqualNeighbours` | App.js:134-142 | two neighbouring runs "ab" and "cd", both bold, are joined into the single bold run "abcd" by the merge pass |
| `Formatting.SegmentPieces` | App.js:73-123 | the body of the `forEach` pushes exactly that segment's pieces |
| `Formatting.SplitPass` | App.js:68-126 | the `forEach` loop accumulating `currentPosition` builds exactly the split list |
| `Formatting.MergePass` | App.js:129-146 | the merge loop, with its in-place `prev.text += current.text`, builds exactly the merged list, which has no empty segment, no equal neighbours and the same characters and styles as its input |
| `Formatting.ApplyFormatting` | App.js:64-149 | `applyFormatting` returns the specified list, which spells the same text, restyles exactly the selected characters and is merged when the selection is non-empty |
| `Serializer.FirstIndex` | App.js:163 | the index returned holds the first occurrence of the character |
| `Serializer.RemoveFirst` | App.js:163-169 | `replace('#', '')` with a string pattern: no change when the character does not occur, otherwise the text before and after its first occurrence, joined |
| `Serializer.RemoveFirstDrops` | App.js:163-169 | when the character occurs, exactly one copy of it is removed and nothing else: the text before the first occurrence and the text after it are both kept, so the result is one character shorter with the same characters but one |
| `Serializer.RemoveFirstHead` | App.js:163-169 | `replace('#', '')` on a value starting with `#` drops only that leading `#` |
| `Serializer.HexCode` | App.js:163-169 | a `#rrggbb` colour is written in tags as its six hex digits, with no `#` left |
| `Serializer.PaletteIsHex` | App.js:17-38 | every foreground and background swatch is a `#rrggbb` colour |
| `Serializer.Wrap` | App.js:159-181 | one segment's `formattedText`: the foreground tag, then the background tag, then bold, then underline, each wrapped around the previous result when its attribute is set |
| `Serializer.WrapNesting` | App.js:159-181 | a wrapped segment is underline delimiter, bold delimiter, background tag, foreground tag, the text, and the matching closers in reverse order; each wrapper is present exactly when its attribute is set and JavaScript-truthy |
| `Serializer.WrapPlain` | App.js:159-181 | an unstyled segment is exported as its bare text |
| `Serializer.WrapBoldColor` | App.js:161-176 | a bold segment with a hex foreground colour exports as `**[rrggbb]text[/rrggbb]**`, with bold outside the colour tag |
| `Serializer.Export` | App.js:157-184 | `discordText`: the wrapped segments in list order with no separator |
| `Serializer.ExportAppend` | App.js:157-184 | the export of two lists one after the other is the concatenation of their exports, with no separator |
| `Serializer.ExportPlainText` | App.js:157-184 | a list of unstyled segments exports to exactly its concatenated text |
| `Serializer.ExportHelloWorld` | App.js:157-184 | red "Hello" followed by an unstyled " World" exports as `[ff3232]Hello[/ff3232] World` |
| `Serializer.BuildDiscordText` | App.js:157-184 | the loop that rebinds `formattedText` and accumulates `discordText` returns the specified export string |
| `App.InitialCoherent` | App.js:4-12 | the initial segments spell the initial text and are already merged |
| `App.CoherentIsSafe` | App.js:42-152 | every list the editor holds satisfies the merge loop's guard condition |
| `App.Editor.constructor` | App.js:4-12 | the initial text, the empty selection `{0, 0}` and the five initial segments, with the invariant established |
| `App.Editor.HandleTextChange` | App.js:40-43 | the buffer becomes the new text, the segments become that one plain segment, and the selection is kept |
| `App.Editor.HandleTextSelect` | App.js:45-54 | a non-empty selection is recorded; an empty one leaves the previous selection; text and segments are unchanged |
| `App.Editor.ApplyFormatting` | App.js:64-149 | the segments become the specified result on the recorded selection and restyle exactly its characters; an empty selection changes nothing; the invariant is kept |
| `App.Editor.ApplyFgColor` | App.js:56-58 | a foreground swatch applies `SetColor` with its colour |
| `App.Editor.ApplyBgColor` | App.js:60-62 | a background swatch applies `SetBg` with its colour |
| `App.Editor.ResetAll` | App.js:151-153 | the segments collapse to one plain segment holding the whole buffer; text and selection are unchanged |
| `App.Editor.CopyToClipboard` | App.js:155-185 | returns the export string of the current segments |

## Left out

- Rendering is not modelled because it is UI only. This covers the JSX, the preview `<span>` mapping and the `styles` object (App.js:190-386).
- `navigator.clipboard.writeText` and `alert` are browser side effects. The model ends at the returned `discordText`.
- The DOM read of `textareaRef.current.selectionStart/End` is replaced by method parameters. The `if (textareaRef.current)` check is not modelled: the textarea is taken as mounted.
- App.Editor.HandleTextSelect: requires `start <= end`, which a textarea's selection always satisfies. A reversed pair is not modelled.
- React `useState` mechanics are not modelled. The state slots are fields that each handler updates at once, with no batching or deferred re-render.
- Text is `seq<char>`. UTF-16 code units versus code points are not distinguished.
- An `applyFormatting` call with a type other than the four buttons' types is not modelled. In the source such a call would only re-split and merge the list; `Format` has exactly the four variants.
- Under a non-empty selection, a list that starts with an empty segment followed by a non-empty one is excluded by `MergeGuardSafe`. On such a list the source throws a `TypeError` when it reads a property of `undefined`. No handler ever produces such a list.
- Colour values are any strings. The palettes appear only as constants and in `PaletteIsHex`. A colour is wrapped exactly when it is JavaScript-truthy, so `null` and the empty string get no tag.
