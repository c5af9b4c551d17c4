# PuzzleScript sprite generator, modelled in Dafny

This tool reads a sprite sheet (a PNG) and a catalogue of object declarations. It prints one
PuzzleScript object definition for every sprite variant the catalogue declares. A definition is a
name, a palette of RGB colours and a grid of palette indices.

The model covers the three parts of the generator that compute:

- **Variant expansion** (`index.js`, module `Variants`).
  - Each declaration yields modifier sets in a fixed order: flip (`R`, `L`), then sequence
    (`0 .. n-1`), then blend.
  - The blend set has one no-op per `null` entry and one alternative per variant of each referenced
    object. Those objects are expanded recursively.
  - `cartesianProduct` enumerates every combination of the sets with a queue.
  - Each combination runs its modifiers against a freshly seeded options record. The record selects
    the source cell, the mirror flag, the blend sprite and the name suffixes.
  - The closures are the `Modifier` datatype. The options record is the `VariantOptions` class,
    whose `Apply` method performs one closure's field updates.
  - The JavaScript functions are methods (`GetObjectVariants`, `GetVariantModifierSets`,
    `ReduceBlend`, `MapVariants`, `BuildVariant`, `CartesianProduct`). Each is proved equal to a
    specification function (`ObjectVariants`, `ModifierSets`, `BlendSet`, `VariantsOf`,
    `MakeVariant`, `Product`), and the lemmas state what those functions promise.
- **Pixel buffers** (`image.js`, module `Images`).
  - `Image` is a class over a byte `array`. Its constructor, `Clone`, `Flip` and `Blend` are proved
    to build, in fresh storage, exactly the `Bitmap` value the functions `Blank`, `FlipBitmap` and
    `BlendBitmap` describe.
  - `UnpackSpriteMap` builds the grid `SpriteGrid` describes. Every cell gets a buffer of its own.
- **Palette quantisation and text output** (`puzzleScriptObject.js`, module `PuzzleScript`).
  - `NewObject` is the constructor's nested loop. It is proved equal to `Encode`, which describes the
    palette (distinct colours in first-seen order) and the index grid.
  - `Format` is the `+=` loop of `format()`, proved equal to the lines `Lines` describes.
  - `Text` models the JavaScript string built-ins used: `toString(radix)`, `padStart`, `join`.

Errors are values. `Result<T>` is either `Ok(value)` or `Err(error)`, where the error is:

- `UnknownObject` for a blend entry naming no declaration (a `TypeError` in JavaScript);
- `MissingCell` for a source position outside the grid (also a `TypeError`);
- `TooManyColours` for a palette overflow (the `Error` that is thrown).

Points where the model departs from a plain reading:

- **Palette limit.** The palette may hold eleven colours. A new colour is refused only when the
  palette already holds more than ten (`puzzleScriptObject.js:24`), yet the error message says
  "more than 10 colours". So index 10 is reachable, and it prints as two characters.
  `RowTextLength` states a row's text length in general: it is the width plus one per index of 10
  or more. `EncodeIndexBound` shows no index exceeds 10.
- **Blend cycles.** The code has no cycle guard: a blend cycle recurses until the stack overflows.
  The model follows the code.
  - It takes as a precondition (`Ranked`) a rank map under which every blend reference points to a
    lower-ranked id.
  - That rank is ghost: the methods do not use it at run time.

## Model

| member | source | states |
|---|---|---|
| Text.PadStart | puzzleScriptObject.js:61 | the result is at least `len` long, ends with the input and is filled with the pad character before it |
| Text.ToBaseRoundTrip | puzzleScriptObject.js:61 | reading the digits of `n.toString(base)` back gives `n` |
| Text.ToBaseDigits | puzzleScriptObject.js:61 | every character of `n.toString(base)` is a lower-case digit of that base |
| Text.ToBaseInjective | puzzleScriptObject.js:61 | different numbers have different digit strings |
| Text.ToBaseLength | puzzleScriptObject.js:61 | a number below `base^k` has at most `k` digits |
| Text.FromBaseLeadingZeros | puzzleScriptObject.js:61 | zero padding does not change the value that digits read back as |
| Text.JoinSnoc | index.js:53 | joining one more part appends the separator and that part |
| Text.ToBase | puzzleScriptObject.js:61 | reference definition of `toString(radix)`: most significant digit first, no leading zeros; its meaning is stated by `ToBaseRoundTrip`, `ToBaseDigits` and `ToBaseInjective` |
| Text.NatToString | index.js:83 | reference definition of decimal `toString()`, the text of a sequence index or a palette index; `ToBaseRoundTrip` and `ToBaseDigits` at base 10 state its meaning |
| Text.Join | index.js:53 | reference definition of `Array.prototype.join`: the parts with the separator between neighbours, the empty string for no parts; `JoinSnoc` states how it grows |
| Images.Image.constructor | image.js:9-13 | a fresh zero-filled buffer of `width * height * 4` bytes with that width and height |
| Images.Image.Clone | image.js:15-19 | a new image with the same size and bytes, whose buffer is freshly allocated and so shares nothing with the original |
| Images.Image.Flip | image.js:30-46 | a new image in fresh storage holding `FlipBitmap` of the receiver; the receiver is not modified |
| Images.Image.FlipRow | image.js:34-42 | one row's pixels are copied to their mirrored positions; every byte of the rows before and after it is untouched |
| Images.FlipBitmap | image.js:30-46 | the flipped image has the receiver's size and a well-formed buffer |
| Images.FlipAt | image.js:36-41 | output pixel (x, y) is input pixel (w-1-x, y) when horizontal, else (x, y), channel by channel |
| Images.FlipIdentity | image.js:38 | flipping with `horizontal` false returns identical pixels |
| Images.FlipInvolution | image.js:33-42 | flipping horizontally twice returns the original image |
| Images.CopyBytes | image.js:36-41 | `Buffer.copy` between distinct buffers: the target range holds the source range, the rest of the target is unchanged |
| Images.Image.Blend | image.js:48-78 | a new image in fresh storage holding `BlendBitmap` of the receiver and the source (`null` as `None`) |
| Images.BlendBitmap | image.js:48-78 | the blended image has the receiver's size and a well-formed buffer |
| Images.BlendNothing | image.js:49-53 | blending with `null` gives an exact copy of the receiver |
| Images.BlendTransparentPixel | image.js:59-64 | where the source alpha is 0, the result alpha is 0 and the destination's RGB is kept |
| Images.BlendOpaquePixel | image.js:66-73 | where the source alpha is 255 the result pixel equals the source pixel |
| Images.Over | image.js:57-73 | reference definition of one blended pixel: a transparent source clears alpha and keeps the destination's RGB, any other source mixes each channel; `BlendTransparentPixel` and `BlendOpaquePixel` state its exact cases |
| Images.MixChannel | image.js:66-72 | reference definition of one mixed colour channel, `(s*sa + d*da*(1 - sa)) / resultAlpha`, truncated into a byte; with alpha 255 it is the source channel (`BlendOpaquePixel`) |
| Images.MixAlpha | image.js:66-73 | reference definition of the alpha byte, `resultAlpha * 255` truncated into a byte; with alpha 255 it is 255 (`BlendOpaquePixel`) |
| Images.BlendOpaque | image.js:55-77 | blending a fully opaque source gives exactly the source |
| Images.BlendTransparent | image.js:55-77 | blending a fully transparent source gives alpha 0 everywhere |
| Images.BlendPixel | image.js:57-73 | writes exactly the four bytes of one pixel, which equal `Over` of the source and destination pixels |
| Images.BlendInto | image.js:55-75 | after pixel `p` the blended prefix grows by one pixel and the rest is still the destination's bytes |
| Images.Cell | image.js:93-94 | a cell is a well-formed `spriteWidth` by `spriteHeight` image |
| Images.SpriteGrid | image.js:84-85 | the grid has `floor(height / sh)` rows of `floor(width / sw)` cells |
| Images.CellAt | image.js:97-108 | pixel (col, row) of cell (x, y) is sheet pixel (x*sw + col, y*sh + row) |
| Images.GridAt | image.js:89-111 | every grid position holds the cell copied from that block of the sheet |
| Images.GridUniform | image.js:93-94 | every cell of the grid is `sw` by `sh` |
| Images.UnpackSpriteMap | image.js:81-114 | the returned grid has the grid's dimensions, each cell holds `SpriteGrid`'s cell in a freshly allocated buffer, and no two cells share a buffer |
| Images.NewRow | image.js:92-110 | one row of fresh, pairwise distinct cell images matching the grid's row |
| Images.NewCell | image.js:93-109 | a fresh `sw` by `sh` image holding cell (x, y) of the sheet |
| PuzzleScript.PixelValue | puzzleScriptObject.js:14 | four bytes read big-endian fit in 32 bits |
| PuzzleScript.Rgb | puzzleScriptObject.js:21 | `pixelValue >>> 8` fits in 24 bits |
| PuzzleScript.ReadUIntBE | puzzleScriptObject.js:14 | `readUIntBE(offset, 4)` combines the four bytes at the offset big-endian |
| PuzzleScript.PixelColour | puzzleScriptObject.js:14-21 | reference definition of pixel `p`'s colour; `PixelColourBytes` states it in terms of the alpha and RGB bytes |
| PuzzleScript.PixelColourBytes | puzzleScriptObject.js:16-21 | a pixel has no colour exactly when its alpha byte is below 255; otherwise its colour is its RGB value |
| PuzzleScript.Colours | puzzleScriptObject.js:9-13 | one colour entry per pixel, row-major |
| PuzzleScript.ColoursAt | puzzleScriptObject.js:13-21 | entry `p` is the colour read from pixel `p`'s bytes |
| PuzzleScript.FirstIndex | puzzleScriptObject.js:30 | the first position holding the value |
| PuzzleScript.IndexOf | puzzleScriptObject.js:30 | `indexOf` returns the first position that holds the colour |
| PuzzleScript.IndexStable | puzzleScriptObject.js:27-30 | appending colours never moves an earlier colour's index |
| PuzzleScript.DistinctUnique | puzzleScriptObject.js:23-27 | the first-seen colours are pairwise distinct |
| PuzzleScript.DistinctContents | puzzleScriptObject.js:23-27 | a colour is in the palette exactly when some opaque pixel has it |
| PuzzleScript.DistinctOrder | puzzleScriptObject.js:23-27 | palette order is the order of first occurrence |
| PuzzleScript.DistinctPrefix | puzzleScriptObject.js:23-27 | the palette of a prefix of the pixels is a prefix of the palette |
| PuzzleScript.AddColour | puzzleScriptObject.js:23-27 | reference definition of one step of the palette build; `PaletteAfterSpec` states what the steps add up to |
| PuzzleScript.PaletteAfter | puzzleScriptObject.js:23-27 | reference definition of the palette after `k` pixels, or the error thrown by then; `PaletteAfterSpec` relates it to the first-seen colours |
| PuzzleScript.PaletteAfterSpec | puzzleScriptObject.js:23-27 | after `k` pixels the build has failed exactly when more than eleven distinct colours were seen, naming the object, and otherwise holds the first-seen colours |
| PuzzleScript.PaletteAfterFails | puzzleScriptObject.js:24-26 | once the build has failed it stays failed |
| PuzzleScript.PaletteShape | puzzleScriptObject.js:23-28 | a finished palette has at most eleven pairwise distinct colours, exactly those of the opaque pixels |
| PuzzleScript.Encode | puzzleScriptObject.js:4-33 | the object keeps the name and has `height` rows of `width` entries |
| PuzzleScript.EncodePalette | puzzleScriptObject.js:23-27 | construction fails, with the object's name, exactly when there are more than eleven distinct opaque colours; otherwise the palette is the first-seen colours, at most eleven |
| PuzzleScript.EncodePixel | puzzleScriptObject.js:13-30 | an entry is `null` exactly when the pixel's alpha is below 255; otherwise it is an index below the palette length whose colour is the pixel's RGB |
| PuzzleScript.EncodeGrid | puzzleScriptObject.js:9-32 | construction yields the loop's palette and the row-by-row index grid |
| PuzzleScript.EncodeIndexBound | puzzleScriptObject.js:24-30 | no palette index exceeds 10 |
| PuzzleScript.NewObject | puzzleScriptObject.js:4-33 | the constructor's loops build exactly `Encode` of the image, its error included |
| PuzzleScript.BlankPixels | puzzleScriptObject.js:35-39 | `isBlank()` holds exactly when no pixel is fully opaque |
| PuzzleScript.IsBlank | puzzleScriptObject.js:35-39 | reference definition of `isBlank()`: every entry of every row is `null`; `BlankIff` characterises it |
| PuzzleScript.NoColourDistinct | puzzleScriptObject.js:23-28 | no opaque pixel exactly when the first-seen colours are empty |
| PuzzleScript.BlankIff | puzzleScriptObject.js:35-39 | `isBlank()` holds exactly when every pixel is transparent, and exactly when the palette is empty |
| PuzzleScript.FormatHexColorShape | puzzleScriptObject.js:60-62 | a colour formats as `#` and six lower-case hex digits that read back as the colour |
| PuzzleScript.FormatHexColor | puzzleScriptObject.js:60-62 | reference definition of `formatHexColor`: `#` and the hexadecimal digits padded to six; `FormatHexColorShape` states its shape and that it reads back as the colour |
| PuzzleScript.RowText | puzzleScriptObject.js:44-52 | reference definition of one row's text: `.` for a `null` entry, the decimal index otherwise, no separators; `RowTextLength` states its length |
| PuzzleScript.Lines | puzzleScriptObject.js:41-57 | reference definition of the lines `format()` writes; `FormatLines` states them one by one |
| PuzzleScript.Unlines | puzzleScriptObject.js:48-55 | reference definition of newline-terminated text; `UnlinesAppend` and `SplitUnlines` state how it composes and splits back |
| PuzzleScript.UnlinesAppend | puzzleScriptObject.js:48-55 | the text of two runs of lines is the concatenation of their texts |
| PuzzleScript.Format | puzzleScriptObject.js:41-57 | the accumulated text is each of `Lines` (name, palette, rows, empty line) followed by a newline |
| PuzzleScript.SplitUnlines | puzzleScriptObject.js:48-55 | splitting newline-terminated lines at newlines gives the lines back, plus a trailing empty piece |
| PuzzleScript.FormatLines | puzzleScriptObject.js:41-57 | splitting the text at newlines gives the name, the palette line, one line per row and an empty line |
| PuzzleScript.RowTextLength | puzzleScriptObject.js:44-52 | for a row whose indices are below 100, its text is one character per pixel plus one per index of 10 or more; `EncodeIndexBound` shows every constructed row meets that precondition |
| Variants.Appended | index.js:128-130 | one extension of the prefix per element |
| Variants.AppendedAt | index.js:128-130 | extension `r` is the prefix followed by element `r` |
| Variants.ExtendLength | index.js:118-131 | extending every prefix by a set multiplies the count by the set's size |
| Variants.ExtendAt | index.js:118-131 | prefix `q` extended by element `r` appears at position `q * |s| + r` |
| Variants.ExtendIndex | index.js:118-131 | every extended tuple is some prefix followed by some element |
| Variants.ProductLength | index.js:114-134 | the product has as many tuples as the product of the set sizes; that is zero exactly when some set is empty; for no sets it is the single empty tuple |
| Variants.Product | index.js:114-134 | reference definition of the cartesian product, earlier sets varying slowest; `ProductSound`, `ProductComplete`, `ProductLength` and `ProductAt` characterise it |
| Variants.ProductSound | index.js:114-134 | every tuple has one element per set, drawn from that set |
| Variants.ProductComplete | index.js:114-134 | every tuple drawn from the sets appears in the product |
| Variants.ProductAt | index.js:118-131 | the tuple picking indices `ds` sits at the mixed-radix index of `ds`: earlier sets vary slowest and each set keeps its order |
| Variants.SingleProduct | index.js:114-134 | the product of one set lists its elements as one-element tuples, in order |
| Variants.PairProduct | index.js:114-134 | the product of two sets has `|a| * |b|` tuples, and `[a[f], b[i]]` is at `f * |b| + i` |
| Variants.PushExtensions | index.js:128-130 | pushes the prefix extended by each element, in order, onto the queue |
| Variants.CartesianProduct | index.js:114-134 | the queue loop returns exactly `Product(sets)`, and for no sets the single empty tuple |
| Variants.AllDone | index.js:118-131 | once the queue is empty, the results are the whole product |
| Variants.Advance | index.js:118-131 | the queue loop can move on to the next level without changing the queue or the results |
| Variants.VariantOptions.constructor | index.js:34-42 | the record starts at the declared position with no suffixes, no mirroring and no blend sprite |
| Variants.VariantOptions.Apply | index.js:66-103 | calling one closure updates the record as that closure does: `R`/`L` with the mirror flag, a shift with its index, the no-op, or a blend sprite with its name |
| Variants.SuffixesSnoc | index.js:44 | the suffixes and shift of one more modifier extend those of the earlier ones |
| Variants.Step | index.js:66-103 | reference definition of one closure call on the options record; `VariantOptions.Apply` is proved to perform it |
| Variants.Applied | index.js:44 | reference definition of running the closures in order; `AppliedEffect` and `AppliedFlags` state its result |
| Variants.AppliedEffect | index.js:44 | after the modifiers run, the suffixes are all their suffixes in order, x is shifted by the sequence index and y is unchanged |
| Variants.AppliedFlags | index.js:66-103 | after the modifiers run, the mirror flag is that of the last `Face` modifier and the blend sprite that of the last `BlendWith` modifier, each unchanged from the seed when there is no such modifier |
| Variants.LastBlendSized | index.js:99-103 | the last blend sprite has the cell size when every modifier's sprite has it |
| Variants.GridSheet | image.js:93-94 | the unpacked grid is a sheet whose cells share one size |
| Variants.Lookup | index.js:48 | a sprite found in the grid has the sheet's cell size |
| Variants.RanksBelow | index.js:97 | under the rank precondition, every blend entry of a declaration ranks below it |
| Variants.SequenceSet | index.js:79-85 | the sequence set has `n` alternatives |
| Variants.BlendAlternatives | index.js:99-104 | one blend alternative per variant |
| Variants.MakeVariant | index.js:44-55 | a built variant's sprite has the sheet's cell size |
| Variants.VariantsOf | index.js:32-56 | the map yields one variant per combination, each of the cell size |
| Variants.ObjectVariants | index.js:28-57 | every variant's sprite has the sheet's cell size |
| Variants.ModifierSets | index.js:59-112 | every modifier set keeps sprites at the cell size |
| Variants.BlendSet | index.js:89-108 | every blend alternative keeps sprites at the cell size |
| Variants.VariantsOfAt | index.js:32-56 | variant `k` is the one built from combination `k` |
| Variants.SetOrder | index.js:59-112 | the sets are the flip set first when flipped, the sequence set `0 .. n-1` next when sequenced, and the blend set last when a blend list is declared; no other set is present |
| Variants.VariantCount | index.js:28-32 | an object has as many variants as the product of its modifier-set sizes |
| Variants.MakeVariantShape | index.js:44-55 | a built variant satisfies `BuiltFrom`: it is named `id` joined by `_` with its suffixes in application order, and its sprite is the cell at the position shifted right by the sequence index, mirrored exactly when the last `Face` modifier is `L`, then blended with the sprite of the last `BlendWith` modifier (none if there is none) |
| Variants.VariantAt | index.js:28-57 | variant `k` of an object satisfies `BuiltFrom` for combination `k` of the product of its modifier sets: name, source cell, mirroring and blend sprite are all those the combination selects |
| Variants.PlainObject | index.js:28-57 | an object with no flip, sequence or blend has exactly one variant, named `id`, holding its cell; an unknown cell is the error |
| Variants.SingleCombination | index.js:32-56 | a single no-op combination yields the declared cell under the plain id |
| Variants.KeepVariant | index.js:93 | the no-op modifier leaves the plain cell and the plain name |
| Variants.EmptyBlend | index.js:89-108 | `blend: []` gives an empty set and so no variants at all |
| Variants.FacedShifted | index.js:44-55 | flip `h` with sequence index `i` gives the name `id_R_i` or `id_L_i` and the cell `i` to the right, mirrored when `L` |
| Variants.FlipSequence | index.js:64-87 | a flipped, sequenced object without blend has the sets `[R, L]` and `[0 .. n-1]`, and its variants are built from their product in that order |
| Variants.CombinationAt | index.js:44-55 | the variant built from `[Face(h), Shift(i)]` is the mirrored cell `i` to the right, named with the side and the index |
| Variants.BlendSetKinds | index.js:91-107 | every blend alternative is the no-op or a blend with some variant |
| Variants.BlendedVariant | index.js:99-104 | blending with variant `v` names the result `id_` + `v`'s name and blends `v`'s sprite onto the cell |
| Variants.BlendOnly | index.js:89-109 | with only a blend list, variant `k` is the plain cell for a `null` entry, or the cell blended with that referenced variant's sprite |
| Variants.SkipIff | index.js:19 | a variant is skipped exactly when the object is marked `omit` or no pixel of its sprite is fully opaque |
| Variants.Skipped | index.js:19 | reference definition of the filter test, `omit` or `isBlank()`; `SkipIff` states it on a variant's sprite |
| Variants.VariantsOfFails | index.js:33-56 | the first failing combination's error is the result: later combinations do not change it |
| Variants.BlendSetFails | index.js:91-107 | the first failing blend entry's error is the result: later entries do not change it |
| Variants.BlendCountSnoc | index.js:91-107 | one more entry adds its own count: 1 for `null`, the variant count of the object it names otherwise |
| Variants.BlendSetCount | index.js:89-108 | the blend set has `BlendCount` alternatives: one per `null` entry plus one per variant of each named object |
| Variants.BlendSetPrefix | index.js:91-107 | the alternatives of the first `j` entries form a prefix of the blend set |
| Variants.BlendNullAt | index.js:92-95 | a `null` entry `j` puts the no-op at position `BlendCount(entries[..j])` |
| Variants.BlendObjectAt | index.js:97-104 | an entry `j` naming object `b` puts, from position `BlendCount(entries[..j])` on, one blend with each variant of `b`, in `b`'s order |
| Variants.GetObjectVariants | index.js:28-57 | the method computes exactly `ObjectVariants`, errors included |
| Variants.MapVariants | index.js:33-56 | the map over combinations computes exactly `VariantsOf` |
| Variants.BuildVariant | index.js:34-55 | seeding a record, running the closures with `Apply`, then flipping and blending the cell computes exactly `MakeVariant` |
| Variants.GetVariantModifierSets | index.js:59-112 | the pushes compute exactly `ModifierSets` |
| Variants.ReduceBlend | index.js:89-108 | the `reduce` over the blend entries computes exactly `BlendSet` |
| Variants.PushBlends | index.js:99-104 | pushes one blend alternative per variant, in order |

## Left out

- `printObjects` (`index.js:7-26`) is not modelled: it reads files, parses YAML and writes to standard
  output. Only its filter test (`index.js:19`) is modelled, as `Skipped`. The order of `for ... in`
  over the catalogue and the asynchronous rethrow at the end are left out as well.
- `Image.fromPng` and the `pngjs` set-up (`image.js:1-4`, `image.js:21-28`) are not modelled: they wrap
  a foreign PNG decoder.
- Images.MixChannel, Images.MixAlpha: the general blend case is JavaScript floating-point arithmetic,
  truncated by the byte store. That covers the colour channels (`image.js:70-72`) and the alpha byte
  `resultAlpha * 0xff` (`image.js:73`). The model computes both with exact rationals, then floors and
  wraps modulo 256. It does not claim bit-level agreement with IEEE doubles. Only the exact cases are
  proved: no source, alpha 0 and alpha 255.
- Images.Image.Blend: requires the source to have the receiver's size. The code would compute offsets
  with the source's width for other sizes; every caller passes a cell of the same sheet.
- Images.Image.constructor: both sizes are required natural numbers. The code's defaults
  (`width = 0, height = 0`, `image.js:9`) and negative or fractional sizes are not modelled; every
  caller passes the sizes explicitly.
- Images.UnpackSpriteMap: requires a positive cell size; a zero cell size divides by zero in the code.
- Images.CopyBytes: models `Buffer.copy` between two distinct buffers only, which is how the code
  uses it. The other Node `Buffer` calls (`alloc`, `from`, `readUIntBE`) are array allocation, copying
  and the big-endian byte combination `ReadUIntBE`.
- Variants: the variants carry `Bitmap` values rather than `Image` objects. The identity of a blend
  sprite shared between variants is therefore not modelled. Nothing in the code mutates an image
  after it is built.
- Variants.GetObjectVariants, Variants.ObjectVariants, Variants.ModifierSets, Variants.BlendSet,
  Variants.GetVariantModifierSets, Variants.ReduceBlend: all require the rank precondition `Ranked`.
  The code has no cycle guard, so a blend cycle recurses until Node throws a `RangeError` (maximum
  call stack size exceeded); that error is not modelled. `Ranked` constrains every declaration of
  the catalogue, not only those reachable from `id`. So it also excludes a call whose object never
  reaches the cycle, and a cycle reached only after a blend entry that already fails with a
  `TypeError`, although the code returns or throws normally in both cases.
- Variants.ObjectDefinition: `sequence` is a natural number, with 0 standing for a missing or falsy
  value. Negative or fractional sequence values and a missing `position` are not modelled.
- PuzzleScript.NewObject: the thrown `Error` is the `TooManyColours` result rather than an exception.
  The partly built object is discarded, as in the code.
- Variants.FlipSequence: for a flipped, sequenced object it states the modifier sets and the product
  they are expanded over. `PairProduct` then gives the order of the variants, and `CombinationAt` their
  name and sprite. It is not restated as one closed formula per variant.
