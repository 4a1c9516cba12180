# RGBit core: a Dafny model

RGBit is an Android app that shows, for each camera frame, the five most
frequent colours of the image and their share of it. Almost all of
`MainActivity.kt` is Camera2 plumbing; this project models the few parts of it
that compute something exactly:

- the dominant-colour histogram of `jpegToBitmap`: counting every pixel of the
  decoded bitmap in a colour-to-count map, ordering the entries by count and
  taking the first `NUMBER_OF_TOP` (5), padded with `(0, 0, 0)` placeholders
  (module `Histogram`, file `histogram.dfy`);
- the preview-size choice `chooseOptimalSize` with its comparator
  `CompareSizesByArea`, and the clamp of the display size that feeds it
  (module `Sizes`, file `sizes.dfy`);
- the rotation rule `areDimensionsSwapped` (module `Rotation`, file `rotation.dfy`);
- the colour of the percentage text, the complement of the top colour
  (module `TextColor`, file `text_color.dfy`);
- the JVM integer semantics these depend on: 32- and 64-bit wrap-around,
  division truncating toward zero, `Long.signum` (module `JvmInt`, file `jvm_int.dfy`).

The counting loops, the `toList` of the hash map, the filling of the top list
and the filtering loop of `chooseOptimalSize` (with `Collections.min`/`max`)
are methods with loops and invariants. The counting loops are proved against
the specification function `Tally`, the filtering loop against `BigEnough` and
`NotBigEnough`, and the top-list loop against a closed form (sorted entries with
their percentages, then placeholders); the properties of these are lemmas.
The library sort `sortedByDescending` is modelled by the function
`SortedByCountDescending`, whose ordering and permutation properties are lemmas. The comparator, the rotation table and the colour
complement are functions.

Decisions worth knowing:

- A decoded bitmap is a `Bitmap` value: `pixels[x][y]` is `getPixel(x, y)`,
  column-major as the loops visit it. `Flatten` lists the pixels in visiting
  order; `FlattenIndex` shows pixel `(x, y)` is visited at step
  `x * height + y`, so each is visited exactly once.
- The `HashMap` iteration order is unspecified, so `ListEntries` (the model of
  `toList()`) picks any remaining key at each step. Nothing about the order of
  equal counts is promised downstream; `sortedByDescending` is modelled as a
  stable insertion sort, and only its permutation and ordering are used.
- The percentage is an exact `real`, `100 * count / (width * height)`.
- The aspect test `option.height == option.width * h / w` is evaluated with
  Kotlin `Int` semantics: the product wraps at 32 bits and `/` truncates toward
  zero (Dafny's own `/` is Euclidean).
- `compare` computes areas as `Long` products; the model computes them with
  64-bit wrap-around and proves that neither the products of two `Int`s nor
  their difference ever wrap, so the result is the sign of the exact
  difference of areas.
- Colours in `TextColor` are `bv32`: a Kotlin `Int` is its 32 bits, and its
  wrapping `+` is `bv32` addition.

## Model

| member | source | states |
|---|---|---|
| `JvmInt.Wrap32` | app/src/main/java/com/omeric/android/rgbit/MainActivity.kt:814 | The `Int` kept of an exact product is congruent to it modulo 2^32 and equals it when it is in range. |
| `JvmInt.Wrap64` | app/src/main/java/com/omeric/android/rgbit/MainActivity.kt:846 | The `Long` kept of an exact value is congruent to it modulo 2^64 and equals it when it is in range. |
| `JvmInt.TruncDiv` | app/src/main/java/com/omeric/android/rgbit/MainActivity.kt:814 | Quotient rounded toward zero: the remainder is smaller than the divisor in magnitude and has the sign of the dividend. |
| `JvmInt.Div32` | app/src/main/java/com/omeric/android/rgbit/MainActivity.kt:814 | `Int` division equals the truncated quotient for every divisor other than -1; dividing by -1 negates, except that `Int.MIN_VALUE / -1` wraps back to `Int.MIN_VALUE`. |
| `JvmInt.DivBound` | app/src/main/java/com/omeric/android/rgbit/MainActivity.kt:814 | Dividing an `Int` by anything but 0 or -1 stays in the `Int` range. |
| `JvmInt.Signum` | app/src/main/java/com/omeric/android/rgbit/MainActivity.kt:846 | `Long.signum` returns -1, 0 or 1 with the sign of its argument. |
| `Sizes.ProductBounds` | app/src/main/java/com/omeric/android/rgbit/MainActivity.kt:845-846 | The product of two `Int`s lies in (-2^62, 2^62], so one `Long` subtraction of two such products cannot overflow. |
| `Sizes.Compare` | app/src/main/java/com/omeric/android/rgbit/MainActivity.kt:842-847 | `compare` returns -1, 0 or 1 exactly when the left area is smaller, equal or larger; the 64-bit arithmetic never wraps. |
| `Sizes.CompareAntisymmetric` | app/src/main/java/com/omeric/android/rgbit/MainActivity.kt:842-847 | `compare(a, b) == -compare(b, a)`. |
| `Sizes.CompareTransitive` | app/src/main/java/com/omeric/android/rgbit/MainActivity.kt:842-847 | `compare(a, b) <= 0` and `compare(b, c) <= 0` give `compare(a, c) <= 0`. |
| `Sizes.BigEnoughMembers` | app/src/main/java/com/omeric/android/rgbit/MainActivity.kt:807-820 | A size is in `bigEnough` iff it is a choice within the bounds, of the aspect ratio, and at least the texture view's size. |
| `Sizes.NotBigEnoughMembers` | app/src/main/java/com/omeric/android/rgbit/MainActivity.kt:807-822 | A size is in `notBigEnough` iff it is a choice within the bounds and of the aspect ratio but smaller than the texture view. |
| `Sizes.MinByArea` | app/src/main/java/com/omeric/android/rgbit/MainActivity.kt:827 | `Collections.min` with the comparator returns an element of least area, the first such in the list. |
| `Sizes.MaxByArea` | app/src/main/java/com/omeric/android/rgbit/MainActivity.kt:828 | `Collections.max` with the comparator returns an element of greatest area, the first such in the list. |
| `Sizes.ChooseOptimalSize` | app/src/main/java/com/omeric/android/rgbit/MainActivity.kt:802-835 | The result is always a choice; if some choice passes the filter and covers the view, a least-area such choice; else if some choice passes the filter, a greatest-area such choice; else `choices[0]`. |
| `Sizes.PreviewTarget` | app/src/main/java/com/omeric/android/rgbit/MainActivity.kt:426-434 | The view and display sizes are transposed when swapped, and the maximum preview size is the display size clamped to 1920 x 1080. |
| `Sizes.QualifiedWithinPreviewLimits` | app/src/main/java/com/omeric/android/rgbit/MainActivity.kt:428-444 | Every size that passes the filter with these bounds is at most 1920 x 1080. |
| `Rotation.AreDimensionsSwapped` | app/src/main/java/com/omeric/android/rgbit/MainActivity.kt:489-513 | True exactly when the rotation is one of the four `Surface` values, the sensor orientation a quarter-turn multiple, and together they make an odd number of quarter turns; any other rotation gives false. |
| `Rotation.HalfTurnInvariant` | app/src/main/java/com/omeric/android/rgbit/MainActivity.kt:494-505 | Rotating the display by 180 degrees never changes the answer. |
| `Rotation.QuarterTurnFlips` | app/src/main/java/com/omeric/android/rgbit/MainActivity.kt:494-505 | For a valid sensor orientation, rotating the display by 90 degrees always flips the answer. |
| `TextColor.ComplementAsWritten` | app/src/main/java/com/omeric/android/rgbit/MainActivity.kt:906 | The sum of the three masked terms equals `~color & 0x00FFFFFF`, since the masks are disjoint; its alpha byte is 0. |
| `TextColor.ComplementChannels` | app/src/main/java/com/omeric/android/rgbit/MainActivity.kt:906 | Each of red, green and blue of the text colour is 255 minus that channel of the background colour. |
| `TextColor.AsWrittenIsTransparent` | app/src/main/java/com/omeric/android/rgbit/MainActivity.kt:903-906 | For every colour, opaque black included, the text colour passed to `setTextColor` has alpha 0. |
| `TextColor.OpaqueComplement` | app/src/main/java/com/omeric/android/rgbit/MainActivity.kt:906 | The corrected text colour has alpha 255 and the same RGB bits as the expression as written. |
| `TextColor.OpaqueComplementChannels` | app/src/main/java/com/omeric/android/rgbit/MainActivity.kt:906 | Each channel of the corrected text colour is the complement of the background's. |
| `TextColor.OpaqueComplementInvolution` | app/src/main/java/com/omeric/android/rgbit/MainActivity.kt:906 | Complementing twice gives back the colour made opaque. |
| `Histogram.FlattenLength` | app/src/main/java/com/omeric/android/rgbit/MainActivity.kt:861-864 | The loops visit `width * height` pixels. |
| `Histogram.FlattenIndex` | app/src/main/java/com/omeric/android/rgbit/MainActivity.kt:861-865 | Pixel `(x, y)` is the one visited at step `x * height + y`, so every pixel is visited, each exactly once. |
| `Histogram.FlattenMember` | app/src/main/java/com/omeric/android/rgbit/MainActivity.kt:861-865 | Everything visited is a pixel of the bitmap. |
| `Histogram.TallySnoc` | app/src/main/java/com/omeric/android/rgbit/MainActivity.kt:865-868 | `rgbMap[pixel] = (rgbMap[pixel] ?: 0) + 1` turns the tally of the pixels so far into the tally including this one. |
| `Histogram.SumOfCountsRemove` | app/src/main/java/com/omeric/android/rgbit/MainActivity.kt:860 | The sum of a colour map's counts splits at any key. |
| `Histogram.SumOfCountsIncrement` | app/src/main/java/com/omeric/android/rgbit/MainActivity.kt:866-868 | One increment raises the sum of the counts by exactly one. |
| `Histogram.TallySum` | app/src/main/java/com/omeric/android/rgbit/MainActivity.kt:860-870 | The counts of the tally add up to the number of pixels visited. |
| `Histogram.TallyBounds` | app/src/main/java/com/omeric/android/rgbit/MainActivity.kt:860-870 | Every count in the map is at least 1 and at most the number of pixels. |
| `Histogram.TallyKeys` | app/src/main/java/com/omeric/android/rgbit/MainActivity.kt:860-870 | A colour is a key of the map iff some pixel of the bitmap has it. |
| `Histogram.UniformTally` | app/src/main/java/com/omeric/android/rgbit/MainActivity.kt:860-870 | A single-colour image gives one key whose count is the number of pixels. |
| `Histogram.DistinctPixelsCountOnce` | app/src/main/java/com/omeric/android/rgbit/MainActivity.kt:860-870 | When no two pixels share a colour, every count is 1. |
| `Histogram.PixelAt` | app/src/main/java/com/omeric/android/rgbit/MainActivity.kt:862-869 | Step `i` of the visiting order is the pixel `(i / height, i % height)` of the bitmap. |
| `Histogram.UniformBitmap` | app/src/main/java/com/omeric/android/rgbit/MainActivity.kt:860-870 | A bitmap of one colour yields a map with that single colour, counted `width * height` times. |
| `Histogram.DistinctBitmap` | app/src/main/java/com/omeric/android/rgbit/MainActivity.kt:860-870 | A bitmap whose pixels all differ yields a map in which every colour is counted once. |
| `Histogram.CountColors` | app/src/main/java/com/omeric/android/rgbit/MainActivity.kt:860-870 | The nested loops build exactly the tally of the pixels, and its counts sum to `width * height`. |
| `Histogram.ListEntries` | app/src/main/java/com/omeric/android/rgbit/MainActivity.kt:879 | `toList()` lists every entry of the map once, with its count and no colour twice, in some order. |
| `Histogram.InsertByCountPermutes` | app/src/main/java/com/omeric/android/rgbit/MainActivity.kt:879 | Inserting an entry adds exactly that entry. |
| `Histogram.InsertByCountOrdered` | app/src/main/java/com/omeric/android/rgbit/MainActivity.kt:879 | Inserting into a list of non-increasing counts keeps it non-increasing. |
| `Histogram.InsertByCountDistinct` | app/src/main/java/com/omeric/android/rgbit/MainActivity.kt:879 | Inserting a new colour keeps colours distinct. |
| `Histogram.SortedByCountDescendingCorrect` | app/src/main/java/com/omeric/android/rgbit/MainActivity.kt:879 | `sortedByDescending` by count returns a permutation of its input with non-increasing counts, distinct colours staying distinct. |
| `Histogram.SortedEntries` | app/src/main/java/com/omeric/android/rgbit/MainActivity.kt:879 | The sorted listing has one entry per colour of the map, each with its count, ordered by count. |
| `Histogram.PercentageBounds` | app/src/main/java/com/omeric/android/rgbit/MainActivity.kt:890 | `100 * count / (width * height)` lies in (0, 100] for a colour present, and is 100 for a colour covering the whole image. |
| `Histogram.TakeTop` | app/src/main/java/com/omeric/android/rgbit/MainActivity.kt:881-898 | Exactly five buckets: slot `i` is the `i`-th sorted entry with its percentage while entries remain, then `(0, 0, 0)`. |
| `Histogram.TopOfSorted` | app/src/main/java/com/omeric/android/rgbit/MainActivity.kt:879-898 | The first five of the sorted entries are distinct colours of the map with their exact counts, non-increasing, none beaten by an omitted colour, followed by placeholders. |
| `Histogram.SingleColor` | app/src/main/java/com/omeric/android/rgbit/MainActivity.kt:860-870 | With only one colour, its count is the whole sum of counts, so the percentage computed at line 890 is 100. |
| `Histogram.DominantColors` | app/src/main/java/com/omeric/android/rgbit/MainActivity.kt:860-898 | Five buckets; the first `min(5, #colours)` are distinct colours of the bitmap with their exact counts and percentages in (0, 100], non-increasing, none beaten by a colour left out; the rest are `(0, 0, 0)`; a single-colour image reports its full pixel count at 100%. |

## Left out

- Camera opening and closing, the `cameraLock` semaphore, the background `HandlerThread`, permissions and the activity lifecycle: concurrency and Android lifecycle code, with nothing to compute.
- The still-capture state machine: the capture callbacks in this file have empty bodies and `setAutoFlash` is never called, so there is no sequencing to model.
- JPEG decoding (`BitmapFactory.decodeByteArray`), `YuvToBitmap` and `ImageReader.acquireLatestImage`: library calls; the model starts from an already decoded pixel grid.
- `configureTransform`: floating-point matrix geometry.
- Camera enumeration in `setUpCameraOutputs`, other than the clamp of the display size (`PreviewTarget`).
- The UI updates inside `runOnUiThread`, except the text colour computed there, and the unused `ORIENTATIONS` table.
- `Float` rounding of the percentage: percentages are exact reals. The source divides by `image.width * image.height` while it counts over `bitmap.width * bitmap.height`; the model assumes the decoded bitmap has the image's dimensions, which a JPEG decode gives.
- The counts are Kotlin `Int`s; the model's counts are unbounded, which differs only for images of more than 2^31 - 1 pixels.
- DominantColors: does not promise how equal counts are ordered, because that depends on the hash map's iteration order.
- ChooseOptimalSize: among several qualifying sizes of the same least (or greatest) area, does not say which one is returned, although `MinByArea` and `MaxByArea` do (the first in list order).
- ChooseOptimalSize: requires a non-zero aspect-ratio width for every call, although the source reaches the division only when some choice is within the maximum bounds; an empty `choices` is excluded because the source then throws at `choices[0]`.

## Findings

| source | as written | input that shows it | evidently intended | confidence | as-written member | corrected member |
|---|---|---|---|---|---|---|
| app/src/main/java/com/omeric/android/rgbit/MainActivity.kt:906 | `setTextColor((~c & 0xff) + (~c & 0xff00) + (~c & 0xff0000))` keeps only the RGB bits, so the alpha byte of the text colour is 0 | any colour, e.g. opaque black `0xFF000000` gives `0x00FFFFFF`, fully transparent white | an opaque complementary colour, `0xFF000000` or-ed with `~c & 0x00FFFFFF`, so the percentage is readable | medium, not executed (assumes Android's `0xAARRGGBB` reading of `setTextColor`) | `TextColor.AsWrittenIsTransparent` | `TextColor.OpaqueComplement` |
