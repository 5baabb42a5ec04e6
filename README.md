# Paleta Frutificando — a Dafny model of the palette core

Paleta Frutificando is a single-page tool. The user picks one to five colours, previews them, and renders a labelled circle swatch image. The image can be downloaded or shared through a link whose query string carries the colours. This project models the logic of `src/App.jsx` that can be stated exactly, and proves what it promises:

- **Palette state** (`PaletteState.dfy`). The `colors` state cell starts as `['#3B82F6']` and changes through three handlers: `addColor`, `removeColor` and `updateColor`. The header's minus button always removes the last colour, and the palette is restored from the address bar once on load. The cell is the class `Palette`, with one method per handler. Each method is tied to a pure transition function (`Added`, `Removed`, `Updated`, `Restored`). `Action`/`Step`/`Run` replay any sequence of handler calls, and the lemmas prove that every reachable palette holds one to five colours.
- **URL codec** (`UrlCodec.dfy`, built on `PercentEncoding.dfy`, `FormUrlEncoded.dfy` and `Text.dfy`). The encoder is `colors.map((c, i) => `color${i+1}=${encodeURIComponent(c)}`).join('&')`. The decoder is the load-time loop over `color1`..`color5`, which reads the query through `URLSearchParams`. It keeps the truthy values and installs them only when there is at least one. Three standards are modelled explicitly:
  - `encodeURIComponent` (ECMA-262, section 19.2.6.5), with its unreserved set `A-Z a-z 0-9 - _ . ! ~ * ' ( )` and upper-case `%XX` escapes (section 2.1 of RFC 3986);
  - the application/x-www-form-urlencoded parser of the WHATWG URL Standard, section 5.1: split on `&`, cut at the first `=`, replace `+` by a space, percent-decode;
  - the first-match `get`.
- **Swatch layout** (`Layout.dfy`). These are the integer positions `generatePalette` computes on its 800×400 canvas: `startX = (800 - (n-1)*120)/2`, centres at `startX + i*120` and y = 200, radius 60, labels at (x, 285).

One would expect decoding an encoded palette to give it back for any colours. The code drops empty values, because `if (color)` treats `""` as false (src/App.jsx:110), and the model follows the code. So `RoundTrip` requires non-empty colours, `ReadBackEncoded` states what comes back in general (the non-empty colours, in order), and `EmptyColorsAreLost` states the exception.

## Model

| member | source | states |
|---|---|---|
| PaletteState.Palette.constructor | src/App.jsx:8 | The palette starts as exactly `['#3B82F6']`, which satisfies the 1..5 invariant. |
| PaletteState.Added | src/App.jsx:12-16 | Below five colours, add appends exactly one `#000000` and keeps the earlier colours as a prefix. At five colours the palette is unchanged. |
| PaletteState.Palette.AddColor | src/App.jsx:12-16 | The handler installs `Added(old colors)` and keeps the one-to-five invariant. |
| PaletteState.AddsSaturate | src/App.jsx:12-16 | n repeated adds are always possible and reach length min(len + n, 5). From a full palette they change nothing. |
| PaletteState.DropIndex | src/App.jsx:21 | `colors.filter((_, i) => i !== index)` never lengthens the list. DropIndexSlices gives its exact result. |
| PaletteState.DropIndexSlices | src/App.jsx:21 | `filter((_, i) => i !== index)` equals `colors[..index] + colors[index+1..]` when index is a position, and leaves the list unchanged otherwise. |
| PaletteState.Removed | src/App.jsx:19-24 | With more than one colour and an in-range index, remove drops exactly that entry: the length falls by one, entries before it stay put, and entries after it shift down by one in order. Otherwise nothing changes. |
| PaletteState.Palette.RemoveColor | src/App.jsx:19-24 | The handler installs `Removed(old colors, index)` and keeps the one-to-five invariant. |
| PaletteState.Palette.RemoveLast | src/App.jsx:170 | The header minus button calls `removeColor(colors.length - 1)`, which drops the last colour when there is more than one. |
| PaletteState.RemoveFromSingleIsNoOp | src/App.jsx:20 | Removing any index from a one-colour palette leaves it as it was. |
| PaletteState.Updated | src/App.jsx:27-31 | Update puts the new colour at the index. The length and every other entry are unchanged. |
| PaletteState.Palette.UpdateColor | src/App.jsx:27-31 | The handler copies the list into a fresh array, assigns the entry at the index, installs the copy (`Updated(old colors, index, c)`), and keeps the invariant. |
| PaletteState.Restored | src/App.jsx:115-117 | When the address bar yields no colour, the prior palette is kept. Otherwise the result is exactly the collected colours: one to five of them, all non-empty. |
| PaletteState.Palette.RestoreFromUrl | src/App.jsx:104-118 | The load effect installs `Restored(old colors, search)` and keeps the invariant. |
| PaletteState.RunInBounds | src/App.jsx:12-24 | Any sequence of add, remove, update and restore steps from a palette of one to five colours ends with one to five colours. |
| PaletteState.ReachableInBounds | src/App.jsx:8 | Every palette reachable from `['#3B82F6']` holds one to five colours. |
| PaletteState.Step | src/App.jsx:12-31 | One handler call (add, remove, update or the restore on load) keeps a palette of one to five colours within one to five colours. The gates are `< 5` (line 13) and `> 1` (line 20), and decode collects at most five values. |
| PaletteState.Run | src/App.jsx:12-31 | Replays a sequence of handler calls, one atomic step after another. RunInBounds states what it preserves. |
| PaletteState.RestoreAfterSync | src/App.jsx:104-124 | After the address bar is rewritten with a palette of one to five non-empty ASCII colours, a reload restores exactly that palette, whatever palette was there before. |
| PaletteState.RestoreWithoutParameters | src/App.jsx:115 | Loading with no `color1`..`color5` parameters keeps the default palette `['#3B82F6']`. |
| Text.SplitJoin | src/App.jsx:122 | Splitting a `join(sep)` on `sep` gives back the parts when no part contains `sep`. |
| Text.Join | src/App.jsx:122 | `.join(sep)` of no parts is the empty string and of one part is that part. SplitJoin states that splitting inverts it. |
| Text.Split | src/App.jsx:105 | Strict splitting yields at least one piece, and no piece contains the separator. |
| Text.SplitWithoutSeparator | src/App.jsx:105 | A string without the separator splits into itself alone. |
| Text.Decimal | src/App.jsx:122 | The template-literal rendering of `index + 1` is a non-empty digit string, with one digit exactly when the number is below 10. |
| Text.DecimalSingleDigitInjective | src/App.jsx:122 | Distinct positions 1..9 render differently, so `color1`..`color5` are distinct names. |
| Text.ToUpperAscii | src/App.jsx:70 | `color.toUpperCase()` keeps the length, turns each of `a`..`z` into its capital (code minus 32), leaves no lower-case ASCII letter, and changes no other character. |
| PercentEncoding.HexDigit | src/App.jsx:122 | The digit `encodeURIComponent` writes for a value below 16 is upper-case (`0`-`9`, `A`-`F`), never `a`-`f`, and reads back as that value. |
| PercentEncoding.EncodeChar | src/App.jsx:122 | An unreserved character stays as it is. Any other ASCII character becomes `%` and two upper-case hex digits whose value is its code. |
| PercentEncoding.EncodeURIComponent | src/App.jsx:122 | The encoded value consists only of unreserved characters and `%`, and is one to three times as long as the input. |
| PercentEncoding.EncodedHasNoDelimiters | src/App.jsx:122 | An encoded value contains no raw `&`, `=`, `+` or `?`. |
| PercentEncoding.EncodeUnreserved | src/App.jsx:122 | A string of unreserved characters is its own encoding. |
| PercentEncoding.EncodeHashColor | src/App.jsx:122 | `#` followed by unreserved characters (such as `#RRGGBB`) encodes as `%23` followed by the same characters. |
| PercentEncoding.PercentDecode | src/App.jsx:109 | Percent-decoding never lengthens its input, and a value without `%` decodes to itself. |
| PercentEncoding.DecodeEncodedChar | src/App.jsx:109 | Decoding one encoded character in front of any text yields that character in front of the decoded text. |
| PercentEncoding.DecodeEncode | src/App.jsx:109 | Percent-decoding inverts `encodeURIComponent` on every ASCII string. |
| FormUrlEncoded.PlusToSpace | src/App.jsx:105 | The form parser's replacement turns every `+` into a space and keeps every other character in place, so no `+` remains and a string without `+` is unchanged. |
| FormUrlEncoded.BreakAt | src/App.jsx:105 | The cut at the first `=` has a left part free of `=` and reassembles the input. Without `=`, the whole input is the name and the value is empty. |
| FormUrlEncoded.BreakAtUnique | src/App.jsx:105 | The cut at the first separator is the only cut whose left part is free of the separator. |
| FormUrlEncoded.ParsePair | src/App.jsx:105 | A sequence without `=` is a name with an empty value, the name being its decoded text. ParsePairPlain states the `name=value` case. |
| FormUrlEncoded.Parse | src/App.jsx:105 | `new URLSearchParams(query)`: the empty query gives no pairs, and a non-empty query without `&` gives exactly one pair. |
| FormUrlEncoded.ParseSearch | src/App.jsx:105 | `new URLSearchParams(location.search)` drops one leading `?`, so the empty search and a bare `?` give no pairs. |
| FormUrlEncoded.ParseSequences | src/App.jsx:105 | Parsing yields at most one pair per `&`-separated sequence, and exactly one per sequence when none is empty. |
| FormUrlEncoded.ParseSequencesAll | src/App.jsx:105 | When no sequence is empty, the pairs are the parses of the sequences, in order. |
| FormUrlEncoded.ParsePairPlain | src/App.jsx:105 | `name=value` with a plain name and a value without `+` parses to the name and the percent-decoded value. |
| FormUrlEncoded.Get | src/App.jsx:109 | `get` returns null exactly when no pair has the requested name. |
| FormUrlEncoded.GetFirst | src/App.jsx:109 | `get` returns the value of the first pair with the requested name. |
| UrlCodec.Key | src/App.jsx:109 | The parameter name `color{k}` that both the encoder (line 122) and the decoder read. KeyIsPlain and KeyInjective state its properties. |
| UrlCodec.Pair | src/App.jsx:122 | One parameter `color{k}=encodeURIComponent(color)` never contains a raw `&`. |
| UrlCodec.Pairs | src/App.jsx:122 | The `map` yields one parameter per colour, none containing a raw `&`. |
| UrlCodec.Encode | src/App.jsx:122 | The empty palette encodes as the empty query. Otherwise splitting the query on `&` gives back exactly the parameters, one per colour, in order. |
| UrlCodec.Search | src/App.jsx:123 | The query handed to `replaceState`: `?` followed by the encoded palette. ParseSearchEncode states that it parses like the bare query. |
| UrlCodec.KeyInjective | src/App.jsx:109 | The keys `color{k}` of single-digit positions are pairwise distinct. |
| UrlCodec.KeyIsPlain | src/App.jsx:122 | A key contains none of `& = + %` and is longer than five characters. |
| UrlCodec.EncodeOnePairPerColor | src/App.jsx:122 | The encoder emits exactly one `color{k}=` sequence per colour, with k = index + 1, in palette order and joined by `&`. Each encoded value is free of raw `&`, `=` and `+`. |
| UrlCodec.ParsePairEncoded | src/App.jsx:122 | One encoded parameter parses back to its key and its colour. |
| UrlCodec.ParseEncode | src/App.jsx:105-122 | Parsing the encoder's output gives the pairs (`color{i+1}`, colour i), in order. |
| UrlCodec.ParseSearchEncode | src/App.jsx:123-124 | The `?`-prefixed query handed to `replaceState` parses like the bare query. |
| UrlCodec.GetEncoded | src/App.jsx:109 | For an encoded palette of at most five colours, `get('color' + k)` yields colour k - 1 when k is a position, and null after the end. |
| UrlCodec.HashColorPair | src/App.jsx:122 | The parameter for a `#`-colour is `color{k}=%23` followed by the colour's digits. |
| UrlCodec.EncodeThreeHashColors | src/App.jsx:122 | Three `#`-colours encode as `color1=%23…&color2=%23…&color3=%23…`. For example, `#FF0000,#00FF00,#0000FF` encodes as `color1=%23FF0000&color2=%2300FF00&color3=%230000FF`. |
| UrlCodec.Collected | src/App.jsx:108-113 | After positions 1..k the loop holds at most k values, all non-empty. |
| UrlCodec.CollectedEmptyIff | src/App.jsx:108-115 | The loop collects nothing exactly when no `color1`..`color{k}` is present and non-empty, which is when the palette on load is kept. |
| UrlCodec.CollectedSkipsMissing | src/App.jsx:110 | A missing or empty `color{k}` adds nothing: indices are skipped, not filled. |
| UrlCodec.CollectedAcrossGap | src/App.jsx:108-113 | With only `color1` and `color3` set, the decoder yields those two values in index order. |
| UrlCodec.CollectedFromKeys | src/App.jsx:108-113 | Every collected value is the value of some `color{j}` with j in 1..k. |
| UrlCodec.CollectUrlColors | src/App.jsx:106-113 | For every parsed query, the loop over i = 1..5 returns exactly the values of `color1`..`color5` that are present and non-empty, in index order: at most five. |
| UrlCodec.ReadUrlColors | src/App.jsx:104-113 | Reading `location.search` returns the collected values of its parsed query: at most five, all non-empty. |
| UrlCodec.NonEmpty | src/App.jsx:110 | Keeping the non-empty strings never lengthens the list. It keeps everything when nothing is empty and nothing when everything is. |
| UrlCodec.ValueOrEmpty | src/App.jsx:109-110 | Reading `get`'s null as `""`, a value is non-empty exactly when `if (color)` accepts it. |
| UrlCodec.Lookups | src/App.jsx:108-109 | The values of `color1`..`color{k}` in index order, one per index, a missing one as `""`. |
| UrlCodec.CollectedIsNonEmptyLookups | src/App.jsx:108-113 | For every query, the loop collects exactly the non-empty values among `color1`..`color{k}`, in index order: both that every collected value was present and that every present non-empty value is collected. |
| UrlCodec.CollectedLookup | src/App.jsx:108-113 | When `get` finds colour j - 1 under `color{j}` and null past the end, the loop collects the non-empty colours, in order. |
| UrlCodec.ReadBackEncoded | src/App.jsx:104-122 | Decoding the encoded query of one to five ASCII colours gives their non-empty colours, in order. |
| UrlCodec.RoundTrip | src/App.jsx:108-122 | Decoding the encoded query of one to five non-empty ASCII colours reproduces the palette. |
| UrlCodec.EmptyColorsAreLost | src/App.jsx:110 | The round trip fails for empty colours: a palette of empty colours reads back as nothing, so the palette on load is kept. |
| Layout.StartX | src/App.jsx:49 | `startX` is a whole number: twice it is exactly `800 - (n-1)*120`. |
| Layout.CenterX | src/App.jsx:53 | The centre of swatch i is `startX + i*120`; twice its offset from x = 400 is `(2i + 1 - n)*120`. |
| Layout.CenterY | src/App.jsx:50 | `centerY` is exactly half the canvas height. |
| Layout.LabelY | src/App.jsx:70 | The label baseline `centerY + 60 + 25` lies below the circle and above the canvas bottom. |
| Layout.Swatches | src/App.jsx:52-70 | The renderer draws one swatch per colour. |
| Layout.SwatchPositions | src/App.jsx:52-70 | Swatch i carries colour i, is centred at y = 200 with radius 60, and is labelled with its upper-cased colour at (x_i, 285). |
| Layout.NeighboursEvenlySpaced | src/App.jsx:53 | Consecutive centres are exactly 120 apart, which is twice the radius, so neighbouring circles touch without overlapping. |
| Layout.SwatchesSymmetric | src/App.jsx:49-53 | Centres are symmetric about x = 400: `x_i + x_{n-1-i} = 800`. |
| Layout.SingleSwatchCentred | src/App.jsx:49-53 | A single colour is drawn at (400, 200). |
| Layout.SwatchesInsideCanvas | src/App.jsx:47-70 | For one to five colours every circle lies inside the 800×400 canvas, and every label sits below its circle and inside the canvas. |
| Layout.FitsExactlyUpToSix | src/App.jsx:47-53 | The fixed geometry fits the canvas for up to six colours and no more. |

## Left out

- Rendering (src/App.jsx:127-308): the JSX, styling and layout classes are UI. The model keeps only the gating they share with the handlers (`> 1`, `< 5`) and the header's `removeColor(colors.length - 1)`.
- Canvas drawing calls, fill and stroke styles, the watermark, fonts and `toDataURL` (src/App.jsx:35-44, 56-69, 73-81): these are a browser API that produces raster bytes. `Layout.Swatches` records only the coordinates and label text each swatch is drawn with.
- `downloadImage` and `shareWhatsApp` (src/App.jsx:85-101): they create DOM anchors, call `window.open` and read `window.location`. The query string that the share link embeds is the same `UrlCodec.Encode`.
- `window.history.replaceState` (src/App.jsx:124): the address-bar write is not modelled. Only the `?`-prefixed query handed to it is modelled (`UrlCodec.Search`).
- UrlCodec.Search is the query passed to `replaceState`, not the `location.search` the browser then reports. The WHATWG URL parser re-encodes a query of an http(s) URL with its special-query percent-encode set, which turns `'` (left alone by `encodeURIComponent`) into `%27`. Percent-decoding gives `'` back either way, so what is read back on reload is the same. The re-encoding itself is not modelled.
- React scheduling: `useState`/`useEffect` timing and stale closures are not modelled. Each handler is one atomic step.
- `generatedImage` and the Editing/Rendered view state (src/App.jsx:9, 81): these only decide which buttons show.
- UrlCodec.Encode and PercentEncoding.EncodeURIComponent require ASCII colours. UTF-8 encoding of other characters and the `URIError` that `encodeURIComponent` throws on lone surrogates are not modelled. The `#RRGGBB` values of the colour input are ASCII.
- PercentEncoding.PercentDecode reads each decoded byte as the character with that code. It does not UTF-8-decode the bytes, so it matches the browser for every escape below `%80`. The query parser likewise treats each character of the query as one byte.
- Text.ToUpperAscii upper-cases only the ASCII letters. Unicode case mapping, such as `ß` to `SS`, is not modelled.
- PaletteState.Palette.UpdateColor requires an index inside the palette, as every caller passes the index of a rendered swatch (src/App.jsx:198, 205). In JavaScript an index equal to the length would append, a larger one would grow the array with holes, and a negative one would set a property that is not an element. For the same reason the `Update` action of `PaletteState.Step` is enabled only for existing positions.
- Text.Decimal is proved injective only for positions below 10. The decoder looks only at `color1`..`color5`.
- vite.config.js is build configuration (plugins, base path, alias) with no behaviour.
