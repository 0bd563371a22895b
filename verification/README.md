# Image resizer: the dimension resolver

The image resizer is a browser app: the user loads an image, picks a target
width and height (by typing either side, by choosing a named preset, with or
without the "Maintain Aspect Ratio" lock), and downloads a re-encoded copy.
The only logic in it is how the `App` component keeps the target size: a
small state machine over integers. This project models that state machine
in Dafny and proves what each user event does to it.

- `rounding.dfy` (`Rounding`): `Math.round(a / b)` on exact rationals as
  `(2a + b) / (2b)`, proved equal to ECMAScript's definition of rounding
  (nearest integer, halves up).
- `parse_int.dfy` (`IntParsing`): `parseInt` with no radix, as the two number
  fields use it: leading white space, a sign, an optional `0x` prefix, the
  longest run of digits, NaN when there is none. Proved to read back the
  decimal text of every integer, also with trailing text such as `"12.5"`.
- `presets.dfy` (`Presets`): the preset catalog, "Original" first, and the
  first-match lookup by name.
- `resizer.dfy` (`Resizer`): the state (original size, original ratio,
  target size, lock), the events (image decoded, width field, height field,
  preset chosen, lock toggled), their handlers, and the aspect-ratio effect
  as a separate `Settle` step. `Step` is handler then effect; `Run` folds a
  sequence of events.
- `properties.dfy` (`ResizerProperties`): the properties, kept apart for the
  handler's output and for the settled state, and the ratio invariant of
  every reachable state.

The effect runs after an event only when the lock, the width or the ratio
changed value; if the lock is then on and the width positive, it overwrites
the height with `round(width / ratio)`.
Because of that, several behaviours one might expect do not hold of the
code, and the model follows the code:

- A locked height edit can lose the typed height: with a 1 x 1000 image,
  typing 1700 gives 2 x 2000 (`ScenarioTypedHeightOverwritten`).
- Choosing the same preset twice does not always give the same size: a
  3 x 7 image with "Thumbnail" settles at 129 x 301, and after the
  placeholder option (the drop-down only reports a changed choice) and
  "Thumbnail" again at 129 x 300
  (`PresetSettlesDifferentlyTwice`). What the preset handler writes is the
  same every time (`PresetHandlerRepeats`) and fits inside the preset box
  (`LockedPresetFits`), but the settled size need not: 301 exceeds the
  box's 300.
- The width is not always positive: a locked height edit can round it to
  0, and while it is 0 switching the lock on does not restore the ratio
  (`ZeroWidthBreaksRatio`). The ratio invariant therefore holds with the
  lock on and a positive width (`ReachableKeepsRatio`).

Ratios are exact rationals and comparisons of ratios are cross-multiplied
(`pw / ph > w0 / h0` becomes `pw * h0 > w0 * ph`). The program computes
with doubles, so at exact half-way ties, and for quotients from about 10^12
up, its result can differ by one from the model's, and above 2^53 by more.
For example, a 1366 x 768 image with the lock on and width 10450258759185
gets height 5875401703554 in doubles, where the exact rounding, 5875401703553,
is not a tie.

## Model

| member | source | states |
|---|---|---|
| `Rounding.RoundDiv` | src/App.tsx:101 | `Math.round(a / b)` is the integer r with 2a - b < 2br <= 2a + b: within half a unit of a / b, halves going up |
| `Rounding.RoundDivIsMathRound` | src/App.tsx:112 | an integer rounds a / b in the sense of `Math.round` if and only if it equals `RoundDiv(a, b)` |
| `Rounding.RoundDivExact` | src/App.tsx:34 | rounding an exact quotient k * b / b gives k back |
| `Rounding.RoundDivAtMost` | src/App.tsx:75-84 | a quotient at most m rounds to at most m |
| `IntParsing.TrimStart` | src/App.tsx:98 | what `parseInt` reads starts at the first character that is not white space; everything before it is white space |
| `IntParsing.DigitRun` | src/App.tsx:98 | `parseInt` reads the longest prefix of digits: all read characters are digits and the next one is not |
| `IntParsing.ParseIntDecimal` | src/App.tsx:98 | the decimal text of any integer reads back as that integer, also when followed by text that does not continue the digits |
| `IntParsing.ParseIntSkipsWhiteSpace` | src/App.tsx:109 | leading white space never changes what `parseInt` reads |
| `Presets.Catalog` | src/App.tsx:22-29 | the catalog starts with "Original" at the original size; the other entries have positive sizes; names are distinct |
| `Presets.FirstMatch` | src/App.tsx:60-62 | the position found is the first entry with the name, or past the end when no entry has it |
| `Presets.Find` | src/App.tsx:60-62 | a found preset is the first catalog entry carrying the name; none is found only when no entry has the name |
| `Presets.FindByOwnName` | src/App.tsx:208-216 | with distinct names, choosing an entry's own name finds exactly that entry |
| `Resizer.OnImageDecoded` | src/App.tsx:46-50 | a decode loads the image (ratio w0 / h0), sets target and originals to (w0, h0) and keeps the lock |
| `Resizer.OnWidthEdited` | src/App.tsx:97-106 | only width and height can change; a NaN or non-positive value changes nothing; an accepted value becomes the width; with the lock off the height is kept |
| `Resizer.OnHeightEdited` | src/App.tsx:108-117 | only width and height can change; a NaN or non-positive value changes nothing; an accepted value becomes the height; with the lock off the width is kept |
| `Resizer.OnPresetSelected` | src/App.tsx:59-95 | a preset changes at most the width and the height |
| `Resizer.OnLockToggled` | src/App.tsx:252-256 | the checkbox flips the lock and changes nothing else |
| `Resizer.Settle` | src/App.tsx:31-37 | the effect writes only the height; it does nothing unless a dependency changed, the lock is on and the width is positive; when it runs on a loaded image the height is within half a pixel of width * h0 / w0 |
| `ResizerProperties.DecodeResetsTarget` | src/App.tsx:46-50 | after a decode, from any state, target and originals are (w0, h0) and the lock is kept; the effect's round(w0 * h0 / w0) leaves h0 |
| `ResizerProperties.RejectedEditIgnored` | src/App.tsx:97-117 | a width or height value that is NaN or <= 0 leaves the whole state unchanged |
| `ResizerProperties.UnlockedWidthEdit` | src/App.tsx:99-104 | with the lock off a valid width edit sets the width and nothing else, also after the effect |
| `ResizerProperties.UnlockedHeightEdit` | src/App.tsx:110-115 | with the lock off a valid height edit sets the height and nothing else, also after the effect |
| `ResizerProperties.LockedWidthEdit` | src/App.tsx:100-104 | with the lock on a width edit n gives height round(n * h0 / w0), within half a pixel (abs(2 h w0 - 2 n h0) <= w0), and the effect keeps that |
| `ResizerProperties.LockedHeightEdit` | src/App.tsx:111-115 | with the lock on a height edit n gives width round(n * w0 / h0); after the effect the height is n unless the width changed to a positive value, in which case it is round(width * h0 / w0) |
| `ResizerProperties.SettleSameImage` | src/App.tsx:31-37 | after a handler that kept image and lock, the effect runs exactly when the lock is on and the width changed to a positive value |
| `ResizerProperties.SettleDerivesHeight` | src/App.tsx:32-35 | whenever a dependency changed, the lock is on and the width is positive, the settled height is round(width * h0 / w0) and nothing else changes |
| `ResizerProperties.LockSwitchedOff` | src/App.tsx:252-256 | switching the lock off leaves width and height as they were |
| `ResizerProperties.LockSwitchedOn` | src/App.tsx:252-256 | switching the lock on keeps the width and re-derives the height from it when it is positive |
| `ResizerProperties.OnlyDecodeChangesImage` | src/App.tsx:183 | no event but a decode changes the originals or the ratio; before the first decode every other event is ignored |
| `ResizerProperties.OriginalPresetRestores` | src/App.tsx:64-66 | "Original" sets the target to (w0, h0) whatever the lock and previous edits, in the handler and after the effect |
| `ResizerProperties.UnknownPresetIgnored` | src/App.tsx:60-63 | a name no catalog entry has changes nothing |
| `ResizerProperties.PlaceholderIgnored` | src/App.tsx:205-207 | the empty value of the placeholder option changes nothing |
| `ResizerProperties.UnlockedPreset` | src/App.tsx:88-92 | with the lock off a preset sets exactly its own width and height |
| `ResizerProperties.LockedPresetFits` | src/App.tsx:68-87 | with the lock on the size the handler writes (before the effect) fits inside the preset box; for a wider box it keeps the preset height and derives the width, otherwise it keeps the preset width and derives the height |
| `ResizerProperties.FitArithmetic` | src/App.tsx:73-86 | the derived side, rounded, never exceeds the preset box on that side |
| `ResizerProperties.PresetIgnoresTarget` | src/App.tsx:59-95 | the size the preset handler writes depends on preset, originals and lock only, not on the current target |
| `ResizerProperties.PresetHandlerRepeats` | src/App.tsx:59-95 | choosing the same preset again makes the handler write the same size again |
| `ResizerProperties.PresetSettlesDifferentlyTwice` | src/App.tsx:73-79 | for a 3 x 7 image, "Thumbnail", the placeholder, then "Thumbnail" again settles first at 129 x 301 (the placeholder keeps it) and then at 129 x 300, which the same round trip keeps |
| `ResizerProperties.ScenarioLockedWidth` | src/App.tsx:100-104 | 1920 x 1080, lock on, width "960" gives 960 x 540 |
| `ResizerProperties.ScenarioLockedPreset` | src/App.tsx:80-86 | 1000 x 500, lock on, "Instagram Square" gives 1080 x 540 |
| `ResizerProperties.ScenarioUnlockedWidth` | src/App.tsx:97-106 | 800 x 600, lock off, width "400" gives 400 x 600 |
| `ResizerProperties.ScenarioTypedHeightOverwritten` | src/App.tsx:111-115 | 1 x 1000, lock on, height "1700": the handler writes 2 x 1700 and the effect turns it into 2 x 2000 |
| `ResizerProperties.StepKeepsInv` | src/App.tsx:31-117 | every event keeps the invariant: no image yet or a loaded image, and with the lock on and a positive width the target keeps w0 / h0 up to rounding of one side |
| `ResizerProperties.RunKeepsInv` | src/App.tsx:31-117 | any sequence of events keeps that invariant |
| `ResizerProperties.ReachableKeepsRatio` | src/App.tsx:31-37 | in every state reachable from start, lock on and positive width imply a loaded image whose target ratio is within half a pixel of w0 / h0 along one side |
| `ResizerProperties.ZeroWidthBreaksRatio` | src/App.tsx:111-113 | a 1 x 1000 image can reach width 0 with the lock on and a height of 5000, where the ratio is not kept |

## Left out

- Reading the file and decoding the image (`FileReader`, `Image`) are browser I/O; only their outcome is modelled, as the `ImageDecoded(w, h)` event with positive w and h. A decode that reports a zero size is not modelled.
- The `image` data URL itself is not kept; "an image is loaded" is `Loaded`, which every decode establishes.
- The download (canvas drawing, JPEG encoding, the link click) is browser I/O and is not modelled.
- The quality slider's handler only stores a number for the encoder and is not modelled.
- The drag-and-drop uploader component is UI wiring around the same upload handler and is not modelled.
- Rendering is not modelled; it appears only as the rule that controls exist once an image is loaded (`Enabled`).
- React's scheduling is reduced to one deterministic effect run after each handler, comparing the effect's dependencies with their values before the event.
- Rounding.RoundDiv: computes on exact rationals, not on doubles; `w0 / h0` stored as a double and `Math.round` of a double can differ by one at half-way ties and for quotients from about 10^12 up (where the double's rounding error reaches the distance to the nearest half), and by more above 2^53.
- IntParsing.ParseInt: keeps the exact integer; a double rounds values above 2^53, a digit run whose value is about 1.8 x 10^308 or more reads as `Infinity` (which passes the handlers' NaN and positivity test and would be stored as the size, while the model stores a finite integer), and `"-0"` gives negative zero (which the handlers reject all the same).
