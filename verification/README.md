# Colour sampling and debouncing of the map overlay

The repository is a single React/Leaflet component (`src/App.tsx`) that shows
a raster image over a map and, when the pointer moves over it, displays the
colour of the pixel under the cursor as a `#rrggbb` tooltip. Two pieces of it
carry logic of their own, and this project models both:

- **The colour formatter** (`ColorHex`, `color_hex.dfy`). The three pixel
  bytes are written into the template `rgb(r, g, b)`, and `rgbToHex` turns
  that string back into hex: it deletes everything but digits and commas,
  splits on commas, parses fields 0, 1 and 2 as decimal integers, renders
  each with `toString(16)` padded to two characters with `"0"`, and
  concatenates them after `#`. Each step is a pure function over
  `seq<char>`, with its partner: `Join` for `Split`, a digit-value reader for
  the decimal rendering, `HexValue` for the hex rendering. JavaScript's
  `NaN` (an empty or missing field) is `None`, rendered as `"NaN"`.
- **The debouncer** (`Debounce`, `debounce.dfy`). Each debounced instance
  owns one timer slot. Every call clears it and schedules the wrapped
  function with the latest arguments one delay later. The transition
  functions `Triggered` and `Elapsed` work on a `State` value that has an
  explicit clock. `Replay` folds a sequence of calls, each preceded by a
  wait, through them. The class `Debouncer` keeps the slot as a mutable
  field, and its methods are proved to perform exactly those transitions.
  Running the wrapped function appends a `Run` to a log.

`Option` lives in `wrappers.dfy`.

## Model

| member | source | states |
|---|---|---|
| `ColorHex.Filter` | src/App.tsx:13 | the result holds only digits and commas, is no longer than the input, is the input itself when the input has nothing else, and is empty when the input has no digit or comma |
| `ColorHex.FilterAppend` | src/App.tsx:13 | the filter works character by character: it distributes over concatenation, so order is kept |
| `ColorHex.FilterCounts` | src/App.tsx:13 | every digit and comma is kept as often as it occurs in the input; no other character survives |
| `ColorHex.Split` | src/App.tsx:13 | `split(",")` yields at least one field, no field contains a comma, and on a digits-and-commas string every field is all digits |
| `ColorHex.JoinSplit` | src/App.tsx:13 | joining the split fields with commas gives the input back |
| `ColorHex.SplitJoin` | src/App.tsx:13 | comma-free fields joined with commas split back into exactly those fields |
| `ColorHex.Decimal` | src/App.tsx:39 | the template's rendering of a number is a non-empty digit string without a leading zero; the only rendering that starts with `0` is `"0"` itself |
| `ColorHex.ParseInt` | src/App.tsx:14-16 | `parseInt(_, 10)` of a digit string is NaN exactly when the string is empty |
| `ColorHex.ParseField` | src/App.tsx:14-16 | parsing `hex[i]` gives a number exactly when the field exists and is non-empty |
| `ColorHex.DecimalRoundTrip` | src/App.tsx:39 | parsing the decimal rendering of n gives back n |
| `ColorHex.ToHex` | src/App.tsx:14-16 | `toString(16)` gives a non-empty lower-case hex string without a leading zero |
| `ColorHex.ToHexLength` | src/App.tsx:14-16 | the hex rendering has one digit exactly below 16 and at most two exactly below 256 |
| `ColorHex.HexRoundTrip` | src/App.tsx:14-16 | reading back the hex rendering of n gives n |
| `ColorHex.PadStart` | src/App.tsx:14-16 | `padStart` leaves a long enough string alone, otherwise reaches the target length; the original is a suffix and everything before it is the fill |
| `ColorHex.HexLeadingZeros` | src/App.tsx:14-16 | leading zeros from the pad do not change the hex value |
| `ColorHex.HexByte` | src/App.tsx:14-16 | a channel rendering is at least two lower-case hex digits, exactly two exactly when the value is below 256 |
| `ColorHex.HexByteRoundTrip` | src/App.tsx:14-16 | reading back the padded rendering of every value gives the value |
| `ColorHex.HexByteInjective` | src/App.tsx:14-16 | distinct values never share a rendering |
| `ColorHex.HexBytePair` | src/App.tsx:14-16 | a byte renders as its high and low nibble digits; below 16 that is "0" and one digit |
| `ColorHex.Channel` | src/App.tsx:14-16 | a channel is "NaN" exactly when the field is missing or empty, otherwise hex digits that read back as the parsed value; never shorter than two |
| `ColorHex.RgbToHex` | src/App.tsx:12-18 | for every input the result starts with `#` and has at least seven characters |
| `ColorHex.RgbToHexTwoFields` | src/App.tsx:13-17 | with only two fields, `hex[2]` is `undefined`: red and green are rendered from the fields and blue is `NaN` |
| `ColorHex.RgbToHexOfFields` | src/App.tsx:13-17 | when the filtered input is three digit strings separated by commas, fields 0, 1 and 2 become the red, green and blue pairs in that order |
| `ColorHex.FormatRgb` | src/App.tsx:39 | the template string starts with `rgb(`, ends with `)`, and is nine characters longer than the three decimals it holds |
| `ColorHex.FilterFormatRgb` | src/App.tsx:38-40 | the filter reduces `rgb(r, g, b)` to the three decimals and two commas |
| `ColorHex.FormatRgbChannels` | src/App.tsx:38-40 | formatting `rgb(r, g, b)` gives `#` and the renderings of r, g and b, in that order |
| `ColorHex.FormatRgbToHex` | src/App.tsx:12-40 | for bytes r, g, b the colour is `#` followed by the two lower-case hex digits of r, then g, then b |
| `ColorHex.PixelHex` | src/App.tsx:37-40 | the colour of a sampled pixel has length 7, starts with `#`, and its three pairs read back as red, green and blue; alpha plays no part |
| `ColorHex.ReadBack` | src/App.tsx:14-17 | each two-digit pair of a formatted colour reads back as its channel |
| `ColorHex.NoDigitsGivesNaN` | src/App.tsx:13-16 | an input without digits or commas formats as `#NaNNaNNaN` |
| `ColorHex.ExampleDecimals` | src/App.tsx:39 | bytes 255, 0 and 16 are written as `rgb(255, 0, 16)` |
| `ColorHex.ExampleFilter` | src/App.tsx:13 | `rgb(255, 0, 16)` filters to `255,0,16` |
| `ColorHex.ExampleSplit` | src/App.tsx:13 | `255,0,16` splits into `255`, `0` and `16` |
| `ColorHex.ExampleHex` | src/App.tsx:12-18 | `rgb(255, 0, 16)` formats as `#ff0010` |
| `Debounce.Triggered` | src/App.tsx:50-55 | a call keeps the timing invariant, replaces whatever was pending with its own arguments due one delay from now, and runs nothing |
| `Debounce.Elapsed` | src/App.tsx:52-54 | letting time pass keeps the timing invariant; a due run executes once with the pending arguments at its deadline and empties the slot, otherwise nothing changes but the clock |
| `Debounce.Replay` | src/App.tsx:50-54 | a sequence of calls keeps the timing invariant, never rewrites past runs, and leaves the last call's arguments pending |
| `Debounce.RunsBounded` | src/App.tsx:51-52 | each call accounts for at most one run: runs plus the pending slot grow by at most the number of calls |
| `Debounce.Burst` | src/App.tsx:51-54 | calls closer together than the delay run nothing; the last call's arguments are pending |
| `Debounce.BurstRunsOnce` | src/App.tsx:50-54 | after such a burst and one quiet delay the function has run exactly once, with the last call's arguments, and nothing is pending |
| `Debounce.Spaced` | src/App.tsx:52-54 | calls at least one delay apart each run, in order, with their own arguments; only the last is still pending |
| `Debounce.SpacedRunsEach` | src/App.tsx:52-54 | such calls followed by one quiet delay have each run once, in order, with their own arguments |
| `Debounce.Debouncer.constructor` | src/App.tsx:45-49 | a fresh instance has an empty slot, no runs and the given delay |
| `Debounce.Debouncer.Trigger` | src/App.tsx:50-55 | a call clears the slot and schedules the latest arguments, exactly as `Triggered`, keeping the invariant |
| `Debounce.Debouncer.Advance` | src/App.tsx:52-54 | passing time changes the instance exactly as `Elapsed`, keeping the invariant |

## Left out

- The canvas work in `onHover` (src/App.tsx:21-37) is not modelled: creating a canvas, drawing the image and reading a pixel are browser calls. The pixel is an input value `Rgba` of four bytes.
- The early returns at src/App.tsx:24 and 27 are not modelled. They silently do nothing when no 2D context or image element is available. The code raises no out-of-bounds or source-unavailable error, so the model has none.
- Pixel coordinates are never checked against the image size in the code (src/App.tsx:31-37), so no bounds property is stated.
- `setTooltip` and `console.log` (src/App.tsx:41-42) are UI state and output, and are not modelled.
- React and Leaflet rendering, hooks and configuration (src/App.tsx:1-10, 58-93) are not modelled. This includes the click handler, which calls `onHover` directly without the debouncer.
- `debounce` is re-created on every render (src/App.tsx:58), so each render gets its own slot. The model covers a single instance.
- Cancelling a pending run when the component is torn down is not modelled: the code has no such cancellation.
- `setTimeout`, `clearTimeout` and the event loop are not modelled as such. Time is an explicit clock advanced by `Elapsed`. A run whose deadline has been reached executes before the next call is handled, including when the wait equals the delay exactly.
- ColorHex.ParseInt: models `parseInt` only on strings of decimal digits, the only strings this formatter can pass it. Leading whitespace, signs and trailing non-digits are never reached.
- ColorHex.ParseInt: uses exact integers. JavaScript numbers are doubles. A field whose value exceeds 2^53 may parse to a nearby double and render differently. A field whose value is about 1.8 × 10^308 or more parses to `Infinity` and renders as `"Infinity"`. Byte inputs are far below these bounds.
