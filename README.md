# ImagePalette in Dafny

A model of the PHP class `Bfoxwell\ImagePalette\ImagePalette`, which finds the
prominent colours of an image. Every sampled pixel is matched against a fixed
whitelist of 33 hex colours, and the most frequent matches are returned.

The model follows the class member by member:

- `HexToRGB` parses the hex whitelist into RGB triples (`setRGBWhiteList`).
- `setWorkingImageGD` picks a GD loader from the file extension.
- `readPixelsGD` visits every `precision`-th pixel in each direction, in
  x-major order. It records `"transparent"` when `detectTransparency` sees a
  fully transparent alpha. Otherwise it records the hex that
  `getClosestColor` finds nearest.
- `getColors` counts the recorded labels, drops `"transparent"`, sorts by
  count and keeps the first `numColorsOnPalette`.

The modules, in dependency order:

- `Hex` (`hex.dfy`): `HexToRGB` with PHP's `str_replace`, `substr` and
  `hexdec`, including a start past the end and non-hex characters, on text
  counted in characters (PHP counts bytes; the two agree on ASCII, see
  "Left out"). It proves the 6-digit and 3-digit forms and
  case-insensitivity.
- `Palette` (`palette.dfy`): the whitelist `$hexWhiteList` as the constant
  `HexWhiteList`, its parse written out as `WhiteListRGB` and checked entry
  by entry, and the squared colour distance. `NearestIndex` is the first index of least
  distance. It proves the round trip hex → RGB → closest hex.
- `Transparency` (`transparency.dfy`): the 7-bit alpha field of a GD colour
  index, on `bv64`.
- `FileType` (`file_type.dfy`): the extension switch and its error message.
- `PhpArrays` (`php_arrays.dfy`): `min`, `array_search` and
  `array_count_values` on lists.
- `Sampling` (`sampling.dfy`): the labels `readPixelsGD` appends, as
  functions of an abstract image, the whitelists and the stride. It covers
  the length, the order and the labels that can occur.
- `Ranking` (`ranking.dfy`): `IsRanking`, the specification of a
  `getColors` result. Also the count sort and the take loop, and the
  lemma that ties them to the specification.
- `ImagePalette` (`image_palette.dfy`): the class itself. It has the PHP
  fields, and a method for each PHP method that reads or writes them:
  the constructor, `Process`, `SetRGBWhiteList`, `SetWorkingImageGD`,
  `ReadPixelsGD`, `GetClosestColor` and `GetColors`. `LabelPixel` is the
  body of `readPixelsGD`'s inner loop as a method of its own. Each method's
  contract states the new state or the result in terms of the functions
  above.

The PHP methods that touch no field are module functions:
`HexToRGB` is `Hex.HexToRGB`, `detectTransparency` is
`Transparency.DetectTransparency`, and `getSimpleColorDiff` is
`Palette.SimpleColorDiff`. `setImageSizeGD` is inlined in
`SetWorkingImageGD`, which records the loaded image's size. `requireGD`
is left out (see below).

GD is not modelled. The decoded image is a value of type `Sampling.Image`.
It holds the size `getimagesize` reports, the `imagecolorat` index of every
pixel and the `imagecolorsforindex` channels of every index. Those channels
have type `Hex.Channels`, so each lies in 0..255 as GD reports them. The choice of
loader is modelled exactly. The loading itself is a parameter
`decode: Loader -> Image` of the constructor.

## Model

| member | source | states |
|---|---|---|
| Hex.RemoveHash | src/Bfoxwell/ImagePalette/ImagePalette.php:142 | the result contains no `#`, and a string without `#` is left as it is |
| Hex.RemoveHashConcat | src/Bfoxwell/ImagePalette/ImagePalette.php:142 | removing `#` from a concatenation removes it from each part |
| Hex.RemoveHashCount | src/Bfoxwell/ImagePalette/ImagePalette.php:142 | the result is shorter than the input by exactly the number of `#`s; with `RemoveHashConcat` and the two facts of `RemoveHash` this determines it: each `#` becomes nothing, every other character is kept, in order |
| Hex.Substr | src/Bfoxwell/ImagePalette/ImagePalette.php:146-154 | PHP `substr`: the slice of `len` characters when it fits, the rest from `start` when it runs past the end, empty once the start is past the end |
| Hex.HexDec | src/Bfoxwell/ImagePalette/ImagePalette.php:146-154 | n characters give a value below 16^n |
| Hex.HexDecSkips | src/Bfoxwell/ImagePalette/ImagePalette.php:146-154 | as PHP `hexdec` does, a character that is not a hex digit is skipped: removing it from anywhere leaves the value unchanged |
| Hex.HexToRGB | src/Bfoxwell/ImagePalette/ImagePalette.php:140-160 | every channel of the parsed triple lies in 0..255, whatever the input |
| Hex.HexDecPair | src/Bfoxwell/ImagePalette/ImagePalette.php:152-154 | two hex digits read as the number 16·hi + lo |
| Hex.SixDigitHex | src/Bfoxwell/ImagePalette/ImagePalette.php:150-155 | a six-digit colour, with or without `#`, gives the values of digit pairs 0-1, 2-3, 4-5 |
| Hex.ThreeDigitHexDoubles | src/Bfoxwell/ImagePalette/ImagePalette.php:144-149 | a three-character colour parses as its doubled six-character form, and the leading `#` does not matter |
| Hex.HexToRGBCaseInsensitive | src/Bfoxwell/ImagePalette/ImagePalette.php:140-160 | lower-casing the input does not change the parsed triple |
| Palette.WhiteListShape | src/Bfoxwell/ImagePalette/ImagePalette.php:79-86 | every whitelist entry is `#` followed by six characters |
| Palette.WhiteListEntryParses | src/Bfoxwell/ImagePalette/ImagePalette.php:79-86 | entry i of the hex whitelist parses to entry i of the written-out RGB whitelist |
| Palette.WhiteListRGBDistinct | src/Bfoxwell/ImagePalette/ImagePalette.php:79-86 | the 33 whitelist colours are pairwise different |
| Palette.SimpleColorDiff | src/Bfoxwell/ImagePalette/ImagePalette.php:291-300 | the squared distance is non-negative, and zero exactly when all three channels agree |
| Palette.Distance | src/Bfoxwell/ImagePalette/ImagePalette.php:267 | the distance to a palette colour is zero exactly for that colour |
| Palette.DistanceBound | src/Bfoxwell/ImagePalette/ImagePalette.php:291-300 | between colours with channels in 0..255 the squared distance is at most 3·255², an integer a double holds exactly |
| Palette.BlackAndWhiteEntries | src/Bfoxwell/ImagePalette/ImagePalette.php:79-86 | whitelist entry 24 is `#000000`, parsed (0, 0, 0), and entry 27 is `#ffffff`, parsed (255, 255, 255) |
| Palette.NearestIndex | src/Bfoxwell/ImagePalette/ImagePalette.php:259-278 | the index is in range, no entry is nearer, and every earlier entry is strictly farther (the first tie wins) |
| Palette.FirstNearestUnique | src/Bfoxwell/ImagePalette/ImagePalette.php:270-273 | any index that is least and first among equals is the one `NearestIndex` picks |
| Palette.ClosestColor | src/Bfoxwell/ImagePalette/ImagePalette.php:277 | the answer against the reference palette is one of the 33 whitelist hexes |
| Palette.NearestToOwnColour | src/Bfoxwell/ImagePalette/ImagePalette.php:259-278 | the colour of whitelist entry i is matched to entry i |
| Palette.ClosestColorRoundTrip | src/Bfoxwell/ImagePalette/ImagePalette.php:259-278 | for every whitelist hex, parsing and then matching returns that same hex |
| Transparency.Alpha | src/Bfoxwell/ImagePalette/ImagePalette.php:246 | the shifted mask is the seven bits 24-30 of the index, a value in 0..127 |
| Transparency.DetectTransparency | src/Bfoxwell/ImagePalette/ImagePalette.php:244-249 | the test holds exactly when bits 24-30 of the index are all set |
| Transparency.TrueColorAlpha | src/Bfoxwell/ImagePalette/ImagePalette.php:244-249 | on a packed true-colour pixel, the test reads back its alpha, and only alpha 127 counts as transparent |
| FileType.FileExtension | src/Bfoxwell/ImagePalette/ImagePalette.php:169-170 | the extension is no longer than the path |
| FileType.ExtensionIsLastSegment | src/Bfoxwell/ImagePalette/ImagePalette.php:169-170 | `end(explode('.', path))` is the `.`-free tail of the path, preceded by a `.` unless it is the whole path |
| FileType.ExtensionOfSuffix | src/Bfoxwell/ImagePalette/ImagePalette.php:169-170 | after a path ending in `.`, a `.`-free text is exactly the extension |
| FileType.LoaderFor | src/Bfoxwell/ImagePalette/ImagePalette.php:174-190 | a refused extension carries the message "The file type .ext is not supported." |
| FileType.LoaderForSuffix | src/Bfoxwell/ImagePalette/ImagePalette.php:174-190 | `prefix.ext` is accepted exactly when ext is `png`, `jpg`, `gif` or `bmp` (case-sensitive), each mapped to its own loader |
| PhpArrays.Min | src/Bfoxwell/ImagePalette/ImagePalette.php:270 | the minimum occurs in the list and is at most every element |
| PhpArrays.Search | src/Bfoxwell/ImagePalette/ImagePalette.php:273 | the key holds the needle, and no earlier key does |
| PhpArrays.CountValues | src/Bfoxwell/ImagePalette/ImagePalette.php:310 | the keys are exactly the elements, each mapped to its number of occurrences |
| Sampling.NoImage | src/Bfoxwell/ImagePalette/ImagePalette.php:37 | before loading there is nothing to visit: width and height are 0 |
| Sampling.ReferenceUsable | src/Bfoxwell/ImagePalette/ImagePalette.php:79-86 | the reference whitelists are non-empty, have a hex for every RGB entry, and no hex reads "transparent" |
| Sampling.Classify | src/Bfoxwell/ImagePalette/ImagePalette.php:222-233 | the label is "transparent" exactly when the alpha test holds, otherwise the hex of the nearest RGB entry, so always one of those two kinds |
| Sampling.ClassifyReference | src/Bfoxwell/ImagePalette/ImagePalette.php:231-233 | against the reference whitelists, an opaque pixel gets `ClosestColor` of its channels |
| Sampling.CeilDivIsCeiling | src/Bfoxwell/ImagePalette/ImagePalette.php:218-220 | the least q with q·p ≥ n is `CeilDiv(n, p)`, the number of values a stride-p loop visits below n |
| Sampling.StrideExit | src/Bfoxwell/ImagePalette/ImagePalette.php:218-220 | a stride loop exits after exactly `CeilDiv(n, p)` iterations |
| Sampling.Column | src/Bfoxwell/ImagePalette/ImagePalette.php:220-234 | j visited rows of one column give j labels |
| Sampling.ColumnAt | src/Bfoxwell/ImagePalette/ImagePalette.php:220-234 | label b of a column is the pixel at row b·p |
| Sampling.ColumnsLength | src/Bfoxwell/ImagePalette/ImagePalette.php:218-235 | i columns give i·rows labels |
| Sampling.ColumnsNext | src/Bfoxwell/ImagePalette/ImagePalette.php:218-235 | column i, at x = i·p, is appended after the first i columns |
| Sampling.ColumnsKeepEarlier | src/Bfoxwell/ImagePalette/ImagePalette.php:218-235 | appending the next column leaves every entry of the earlier columns where it was |
| Sampling.ColumnsLast | src/Bfoxwell/ImagePalette/ImagePalette.php:218-235 | entry (i−1)·rows + b of i columns is pixel ((i−1)·p, b·p), row b of the last column |
| Sampling.ColumnsAt | src/Bfoxwell/ImagePalette/ImagePalette.php:218-235 | entry a·rows + b is the pixel (a·p, b·p): the order is x-major |
| Sampling.ColumnsLabels | src/Bfoxwell/ImagePalette/ImagePalette.php:218-235 | every entry has any property all pixel labels have |
| Sampling.Columns | src/Bfoxwell/ImagePalette/ImagePalette.php:218-235 | definition: the outer loop's columns x = 0, p, 2p, …, each the inner loop's `Column`, concatenated in visiting order |
| Sampling.Samples | src/Bfoxwell/ImagePalette/ImagePalette.php:216-236 | definition: everything one `readPixelsGD` run appends, the `Columns` of `Classify` over ceil(width/p) columns of ceil(height/p) rows |
| Sampling.SamplesLength | src/Bfoxwell/ImagePalette/ImagePalette.php:216-236 | one run appends ceil(width/p)·ceil(height/p) labels |
| Sampling.SamplesAt | src/Bfoxwell/ImagePalette/ImagePalette.php:216-236 | entry a·Rows + b of one run is the label of pixel (a·p, b·p) |
| Sampling.SamplesLabels | src/Bfoxwell/ImagePalette/ImagePalette.php:216-236 | every appended label is "transparent" or a whitelist hex |
| Sampling.EmptyImageSamples | src/Bfoxwell/ImagePalette/ImagePalette.php:216-236 | an image with no width or no height appends nothing |
| Sampling.CoarseStrideSamplesOrigin | src/Bfoxwell/ImagePalette/ImagePalette.php:216-236 | a stride that covers the whole image samples only pixel (0, 0) |
| Sampling.TwoByTwo | src/Bfoxwell/ImagePalette/ImagePalette.php:218-235 | two columns of two rows at stride 10 come out as (0,0), (0,10), (10,0), (10,10) |
| Sampling.HalvesSamples | src/Bfoxwell/ImagePalette/ImagePalette.php:216-236 | a 20×20 opaque image with two colour halves, at stride 10, gives the left hex twice, then the right hex twice |
| Ranking.IsRanking | src/Bfoxwell/ImagePalette/ImagePalette.php:307-335 | definition, independent of the sort: no "transparent", no repeats, only colours seen, `PaletteSize` many, counts non-increasing, no omitted colour counting more than a kept one |
| Ranking.DistinctColors | src/Bfoxwell/ImagePalette/ImagePalette.php:310-316 | the colours counted are exactly the labels seen other than "transparent" |
| Ranking.PaletteSize | src/Bfoxwell/ImagePalette/ImagePalette.php:324-332 | with a limit of at least 1 the number kept is min(distinct, limit); with a lower limit it is 1 (0 if nothing was seen) |
| Ranking.InsertByCount | src/Bfoxwell/ImagePalette/ImagePalette.php:318-322 | insertion keeps the keys sorted by count, adds exactly the new key and keeps them distinct |
| Ranking.InsertBehindHead | src/Bfoxwell/ImagePalette/ImagePalette.php:318-322 | a key counting at least as much as every other stays in front of the insertion |
| Ranking.SortByCount | src/Bfoxwell/ImagePalette/ImagePalette.php:318-322 | `asort` then `array_reverse`: every key exactly once, highest count first |
| Ranking.TakeColors | src/Bfoxwell/ImagePalette/ImagePalette.php:324-332 | the loop keeps exactly the first `PaletteSize(|colors|, limit)` colours |
| Ranking.PrefixOrdered | src/Bfoxwell/ImagePalette/ImagePalette.php:318-332 | a kept prefix is ordered by occurrence count |
| Ranking.PrefixDominates | src/Bfoxwell/ImagePalette/ImagePalette.php:318-332 | no colour left out occurs more often than a kept one |
| Ranking.SortedPrefixIsRanking | src/Bfoxwell/ImagePalette/ImagePalette.php:318-332 | that prefix of the sorted counts meets every clause of `IsRanking` |
| Ranking.RankingCoversAll | src/Bfoxwell/ImagePalette/ImagePalette.php:307-335 | when the limit leaves room for every colour, exactly the colours seen are returned |
| Ranking.AllTransparentRanksNothing | src/Bfoxwell/ImagePalette/ImagePalette.php:312-316 | if every label is "transparent", the result is empty |
| Ranking.SingleColourRanksAlone | src/Bfoxwell/ImagePalette/ImagePalette.php:307-335 | if one colour is all that was seen, the result is exactly that colour, whatever the limit |
| Ranking.TiedPairRanksBoth | src/Bfoxwell/ImagePalette/ImagePalette.php:318-332 | two colours seen twice each, with a limit of at least 2, come back as both, in either order |
| ImagePalette.WhiteListHalves | src/Bfoxwell/ImagePalette/ImagePalette.php:216-335 | a 20×20 opaque image in the colours of two whitelist entries, left and right half, sampled at stride 10 and ranked with room for two colours, gives exactly those two hexes, in either order |
| ImagePalette.BlackAndWhiteHalves | src/Bfoxwell/ImagePalette/ImagePalette.php:216-335 | the black-left, white-right 20×20 image gives `["#000000", "#ffffff"]` or `["#ffffff", "#000000"]` |
| ImagePalette.ParseAll | src/Bfoxwell/ImagePalette/ImagePalette.php:128-131 | entry i of the parsed list is `HexToRGB` of hex i, and the lengths agree |
| ImagePalette.WhiteListParsesToRGB | src/Bfoxwell/ImagePalette/ImagePalette.php:126-132 | parsing the whole hex whitelist gives the written-out RGB whitelist |
| ImagePalette.ParsedWhiteListUsable | src/Bfoxwell/ImagePalette/ImagePalette.php:126-132 | the whitelists the constructor builds can be searched |
| ImagePalette.ProcessedColors | src/Bfoxwell/ImagePalette/ImagePalette.php:115-119 | a refused file type records nothing, and every recorded label is "transparent" or a whitelist hex |
| ImagePalette.ReferenceColors | src/Bfoxwell/ImagePalette/ImagePalette.php:102-110 | the same two facts for the reference whitelist |
| ImagePalette.FirstOfLeastIsNearest | src/Bfoxwell/ImagePalette/ImagePalette.php:267-273 | `array_search(min(diffs), diffs)` over the distances is `NearestIndex` |
| ImagePalette.CountsOfColors | src/Bfoxwell/ImagePalette/ImagePalette.php:310-316 | after `unset`, the keys are exactly the colours seen, each mapped to its number of occurrences |
| ImagePalette.ImagePalette.constructor | src/Bfoxwell/ImagePalette/ImagePalette.php:102-110 | stores the arguments, sets the reference hex whitelist, establishes `Valid` (RGB list = parsed hex list, both searchable; size = loaded image's size; a positive stride when there is width), loads `decode(loader)` or nothing, and records `ReferenceColors` |
| ImagePalette.ImagePalette.Process | src/Bfoxwell/ImagePalette/ImagePalette.php:115-119 | from the unloaded state: the image its loader selects is loaded, the size is recorded, and `ProcessedColors` is appended |
| ImagePalette.ImagePalette.SetRGBWhiteList | src/Bfoxwell/ImagePalette/ImagePalette.php:126-132 | appends `ParseAll` of the hex whitelist to the RGB whitelist, and changes nothing else |
| ImagePalette.ImagePalette.SetWorkingImageGD | src/Bfoxwell/ImagePalette/ImagePalette.php:167-211 | a supported extension loads the image and records its size; otherwise image and size stay unchanged and the echoed line is the message and a newline |
| ImagePalette.ImagePalette.GetClosestColor | src/Bfoxwell/ImagePalette/ImagePalette.php:259-278 | the returned hex is the one at `NearestIndex` of the RGB whitelist: least distance, first among ties |
| ImagePalette.ImagePalette.LabelPixel | src/Bfoxwell/ImagePalette/ImagePalette.php:222-233 | the label recorded for pixel (x, y) is `Classify` of that pixel |
| ImagePalette.ImagePalette.ReadPixelsGD | src/Bfoxwell/ImagePalette/ImagePalette.php:216-236 | appends exactly `Samples` of the image (length, x-major order and labels come from the Sampling lemmas), and leaves earlier entries as they were |
| ImagePalette.ImagePalette.GetColors | src/Bfoxwell/ImagePalette/ImagePalette.php:307-335 | the result satisfies `IsRanking`: no "transparent", distinct entries, each seen, as many as `PaletteSize`, counts non-increasing, no omitted colour counting more than a kept one; no field changes |

## Left out

- GD is not modelled. This covers `requireGD` (the extension check), the `imagecreatefrom*` loaders, `getimagesize`, `imagecolorat` and `imagecolorsforindex`. The decoded image is the `decode` parameter, which returns an `Image` value. The size `getimagesize` reads from the file is taken to be the decoded image's size.
- A loader failing on a broken file (GD returns `false`) is not modelled: `decode` always yields an image.
- The `echo` of the unsupported-type message is I/O. `SetWorkingImageGD` returns the echoed line, and the constructor drops it.
- `getSimpleColorDiff` returns `sqrt` of the sum of squares, a float. The model keeps the integer sum of squares instead; floating point has no model here. For pixel channels, which GD reports in 0..255 (`Hex.Channels` in `Sampling.Image`), and whitelist channels, `Palette.DistanceBound` shows the sum is at most 3·255². Such sums are exact doubles, and their rounded square roots keep their order and their differences, so the least value and the first index agree with PHP's.
- Palette.SimpleColorDiff: states the squared distance without the `sqrt` the source takes, for the reason above.
- ImagePalette.ImagePalette.GetClosestColor: takes any integers, as the public PHP method does, and picks the index of least exact squared distance. With large arguments PHP's doubles can tie where the integers do not. For `getClosestColor(10000000000, 0, 0)`, `pow` leaves the integer range and entries 19 (`#ff9900`) and 20 (`#ff6600`) both give the float distance 9999999745.0. PHP then returns `#ff9900`, the model `#ff6600` (worked out with IEEE-754 double arithmetic). Calls made by `readPixelsGD` pass channels in 0..255, where the two agree.
- Hex.HexToRGB: counts characters where PHP's `strlen` and `substr` count bytes. The two agree on ASCII text, which includes every whitelist entry (the only input the class parses). On other text they can differ: `"ÿab"` is 3 characters but 4 bytes in UTF-8, so the model takes the three-digit branch, giving (0, 170, 187), where PHP takes the six-digit one, giving (0, 171, 0).
- ImagePalette.ImagePalette.GetClosestColor: requires a non-empty RGB whitelist, with at least as many hexes. With an empty list PHP indexes `hexWhiteList['']` and yields `null`; the constructor always builds 33 entries.
- ImagePalette.ImagePalette.ReadPixelsGD: requires `Valid`, which includes a positive precision when the image has width. With precision ≤ 0 and a non-empty image the PHP loop never ends, so the constructor and `Process` carry the same requirement.
- ImagePalette.ImagePalette.Process: requires `Valid` and the unloaded state (no image, size 0). `process` is protected and called once, from the constructor, before any image exists.
- After an unsupported file type the code echoes and carries on. The size stays unset, so `readPixelsGD` records nothing and `getColors` returns an empty list. The model follows this code behaviour rather than stopping with an error.
- PHP's `switch` compares loosely, with `==`. For the four three-letter extensions this is exact string equality, which is how the model compares.
- The order of equal counts after `asort` and `array_reverse` depends on PHP's sort. `SortByCount` takes the keys in an unspecified order, and `IsRanking` only constrains order by count.
- `LabelPixel` and `TakeColors` are the inner loop's body and the final `foreach` of their PHP methods, split out as their own methods. The lookup `LoaderFor` stands for the `switch` inside `setWorkingImageGD`.
- Calling `readPixelsGD` a second time (it is public) is covered by its contract, which appends to the existing labels. No lemma follows such a call sequence.
- Default arguments (`precision = 10`, `numColorsOnPalette = 5`) are not modelled; the constructor takes all arguments explicitly.
- Concurrency and URLs as images are not modelled.

## Proof helpers

These lemmas state general facts the proofs above use; they model nothing in the class by themselves:

- `Ranking.DistinctSize`: a list without repeats is as long as its set.
- `Ranking.SubsetSize`: a subset is no larger than its superset.
- `Ranking.SubsetOfSameSize`: a subset of the same size is the whole set.
- `Palette.SquarePositive`, `Palette.SquareBound`: bounds on the square of a channel difference.
- `Palette.ProductMonotone`: multiplying by a non-negative factor keeps the order.
- `Sampling.StrideStep`: one `+= p` step from the k-th stride value k·p reaches (k+1)·p.
- `Sampling.IndexSplit`: the bounds of index a·rows + b against the first i−1 columns.
- `ImagePalette.AppendAssoc`: concatenation is associative.
