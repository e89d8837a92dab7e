/**
 * The `ImagePalette` object: its fields, and the methods that fill them
 * (`setRGBWhiteList`, `setWorkingImageGD`, `readPixelsGD`) or read them
 * (`getClosestColor`, `getColors`), each proved against the specification
 * functions of the modules it imports.
 */
module ImagePalette {
  import opened Hex
  import opened Palette
  import opened Transparency
  import opened FileType
  import opened PhpArrays
  import opened Sampling
  import opened Ranking

  /** `HexToRGB` applied to each hex, in order. */
  function ParseAll(hexes: seq<string>): (rgbs: seq<RGB>)
    ensures |rgbs| == |hexes|
    ensures forall i :: 0 <= i < |hexes| ==> rgbs[i] == HexToRGB(hexes[i])
  {
    seq(|hexes|, i requires 0 <= i < |hexes| => HexToRGB(hexes[i]))
  }

  /** The whitelist parses to the reference triples, entry by entry. */
  lemma WhiteListParsesToRGB()
    ensures ParseAll(HexWhiteList) == WhiteListRGB
  {
    forall i | 0 <= i < |HexWhiteList|
      ensures ParseAll(HexWhiteList)[i] == WhiteListRGB[i]
    {
      WhiteListEntryParses(i);
    }
  }

  /** The parsed whitelist can be searched. */
  lemma ParsedWhiteListUsable()
    ensures Usable(HexWhiteList, ParseAll(HexWhiteList))
  {
    WhiteListParsesToRGB();
    ReferenceUsable();
  }

  /**
   * What `process` appends to `loadedImageColors` when it starts from no
   * image, with the whitelists `hexes` and `rgbs`: nothing when the file
   * type is refused (the size stays unset, so neither loop runs) or the
   * image is empty, and otherwise the samples of the decoded image.
   */
  function ProcessedColors(image: string, decode: Loader -> Image, precision: int,
                           hexes: seq<string>, rgbs: seq<RGB>): (s: seq<string>)
    requires Usable(hexes, rgbs)
    requires LoaderFor(image).Ok? && decode(LoaderFor(image).value).width > 0 ==> precision > 0
    ensures LoaderFor(image).Err? ==> s == []
    ensures forall tag :: tag in s ==> tag == TransparentLabel || tag in hexes
  {
    match LoaderFor(image)
    case Err(_) => []
    case Ok(loader) =>
      var img := decode(loader);
      if img.width == 0 then []
      else
        SamplesLabels(img, hexes, rgbs, precision);
        Samples(img, hexes, rgbs, precision)
  }

  /** `ProcessedColors` with the reference whitelist, as the constructor sets it. */
  function ReferenceColors(image: string, decode: Loader -> Image, precision: int): (s: seq<string>)
    requires LoaderFor(image).Ok? && decode(LoaderFor(image).value).width > 0 ==> precision > 0
    ensures LoaderFor(image).Err? ==> s == []
    ensures forall tag :: tag in s ==> tag == TransparentLabel || tag in HexWhiteList
  {
    ParsedWhiteListUsable();
    ProcessedColors(image, decode, precision, HexWhiteList, ParseAll(HexWhiteList))
  }

  /**
   * `array_search(min($diffs), $diffs)` over the distances to a palette is
   * the first nearest palette index.
   */
  lemma FirstOfLeastIsNearest(palette: seq<RGB>, c: RGB, diffs: seq<int>)
    requires |diffs| == |palette| > 0
    requires forall j :: 0 <= j < |palette| ==> diffs[j] == Distance(c, palette[j])
    ensures Search(Min(diffs), diffs) == NearestIndex(palette, c)
  {
    var key := Search(Min(diffs), diffs);
    assert IsFirstNearest(palette, c, key);
    FirstNearestUnique(palette, c, key);
  }

  /**
   * `array_count_values` with the "transparent" key unset: one key per
   * colour seen, mapped to its number of occurrences.
   */
  lemma CountsOfColors(s: seq<string>, counted: map<string, nat>, counts: map<string, nat>)
    requires counted == CountValues(s)
    requires counts == if TransparentLabel in counted then counted - {TransparentLabel} else counted
    ensures forall x :: x in counts <==> x in DistinctColors(s)
    ensures forall x :: x in counts ==> counts[x] == Occurrences(s, x)
    ensures |counts| == |DistinctColors(s)|
  {
    assert counts.Keys == DistinctColors(s);
  }

  /**
   * A 20 x 20 opaque image whose left half has the colour of whitelist entry
   * `i` and whose right half that of entry `j`, sampled at stride 10: the
   * two hexes are tied at two samples each, so with room for two colours
   * `getColors` answers both, in one order or the other.
   */
  lemma WhiteListHalves(img: Image, i: nat, j: nat, prominent: seq<string>, limit: int)
    requires i < |HexWhiteList| && j < |HexWhiteList| && i != j
    requires img.width == 20 && img.height == 20
    requires forall x: nat, y: nat :: !DetectTransparency(img.colorAt(x, y))
    requires forall x: nat, y: nat ::
      img.colorsForIndex(img.colorAt(x, y)) == if x < 10 then WhiteListRGB[i] else WhiteListRGB[j]
    requires limit >= 2
    requires Usable(HexWhiteList, WhiteListRGB)
    requires IsRanking(prominent, Samples(img, HexWhiteList, WhiteListRGB, 10), limit)
    ensures prominent == [HexWhiteList[i], HexWhiteList[j]] || prominent == [HexWhiteList[j], HexWhiteList[i]]
  {
    WhiteListEntryParses(i);
    WhiteListEntryParses(j);
    NearestToOwnColour(i);
    NearestToOwnColour(j);
    HalvesSamples(img, HexWhiteList, WhiteListRGB, WhiteListRGB[i], WhiteListRGB[j]);
    WhiteListRGBDistinct();
    assert HexWhiteList[i] != HexWhiteList[j];
    TiedPairRanksBoth(prominent, HexWhiteList[i], HexWhiteList[j], limit);
  }

  /**
   * The black-and-white case: black on the left, white on the right gives
   * "#000000" and "#ffffff", in one order or the other.
   */
  lemma BlackAndWhiteHalves(img: Image, prominent: seq<string>, limit: int)
    requires img.width == 20 && img.height == 20
    requires forall x: nat, y: nat :: !DetectTransparency(img.colorAt(x, y))
    requires forall x: nat, y: nat ::
      img.colorsForIndex(img.colorAt(x, y)) == if x < 10 then RGB(0, 0, 0) else RGB(255, 255, 255)
    requires limit >= 2
    requires Usable(HexWhiteList, WhiteListRGB)
    requires IsRanking(prominent, Samples(img, HexWhiteList, WhiteListRGB, 10), limit)
    ensures prominent == ["#000000", "#ffffff"] || prominent == ["#ffffff", "#000000"]
  {
    BlackAndWhiteEntries();
    WhiteListHalves(img, 24, 27, prominent, limit);
  }

  /**
   * Concatenation is associative; stated apart so that the loops of
   * `ReadPixelsGD` do not reason about sequence equality themselves.
   */
  lemma AppendAssoc(a: seq<string>, b: seq<string>, c: seq<string>)
    ensures a + b + c == a + (b + c)
  {
  }

  class ImagePalette {
    /** The path of the image. */
    var file: string
    /** The decoded image; `NoImage()` until one is loaded. */
    var loadedImage: Image
    /** One label per visited pixel, in visiting order. */
    var loadedImageColors: seq<string>
    /** The sampling stride. */
    var precision: int
    var width: nat
    var height: nat
    /** How many colours `GetColors` returns at most. */
    var numColorsOnPalette: int
    /** The palette as hex strings, and the same palette parsed. */
    var hexWhiteList: seq<string>
    var RGBWhiteList: seq<RGB>

    /**
     * The state the constructor establishes and the methods keep: the RGB
     * whitelist parsed from the hex one and both searchable, the recorded
     * size being that of the loaded image, and a positive stride whenever
     * there is a width to walk. (No method changes `hexWhiteList`, which the
     * constructor sets to the reference whitelist.)
     */
    ghost predicate Valid()
      reads this`hexWhiteList, this`RGBWhiteList, this`loadedImage, this`width, this`height, this`precision
    {
      && RGBWhiteList == ParseAll(hexWhiteList)
      && Usable(hexWhiteList, RGBWhiteList)
      && width == loadedImage.width
      && height == loadedImage.height
      && (width > 0 ==> precision > 0)
    }

    /**
     * `__construct` followed by `process`: store the arguments, parse the
     * whitelist, load the image with the loader its extension selects
     * (`decode` stands in for the GD loaders and `getimagesize`) and sample
     * it. PHP loops for ever when a non-empty image meets a stride below 1.
     */
    constructor (image: string, decode: Loader -> Image, precision: int, numColorsOnPalette: int)
      requires LoaderFor(image).Ok? && decode(LoaderFor(image).value).width > 0 ==> precision > 0
      ensures Valid() && hexWhiteList == HexWhiteList
      ensures file == image
      ensures this.precision == precision && this.numColorsOnPalette == numColorsOnPalette
      ensures LoaderFor(image).Ok? ==> loadedImage == decode(LoaderFor(image).value)
      ensures LoaderFor(image).Err? ==> loadedImage == NoImage()
      ensures loadedImageColors == ReferenceColors(image, decode, precision)
    {
      file := image;
      loadedImage := NoImage();
      loadedImageColors := [];
      this.precision := precision;
      this.numColorsOnPalette := numColorsOnPalette;
      width := 0;
      height := 0;
      hexWhiteList := HexWhiteList;
      RGBWhiteList := [];
      new;
      SetRGBWhiteList();
      assert [] + ParseAll(hexWhiteList) == ParseAll(hexWhiteList);
      ParsedWhiteListUsable();
      Process(decode);
      assert [] + ProcessedColors(file, decode, precision, hexWhiteList, RGBWhiteList) ==
        ProcessedColors(file, decode, precision, hexWhiteList, RGBWhiteList);
    }

    /**
     * `process`: load the image with the loader its extension selects
     * (`decode` stands in for the GD loaders and `getimagesize`) and sample
     * it. It runs once, from the constructor, before any image is loaded.
     * PHP loops for ever when a non-empty image meets a stride below 1.
     */
    method Process(decode: Loader -> Image)
      requires Valid() && loadedImage == NoImage()
      requires LoaderFor(file).Ok? && decode(LoaderFor(file).value).width > 0 ==> precision > 0
      modifies this`loadedImage, this`width, this`height, this`loadedImageColors
      ensures Valid()
      ensures LoaderFor(file).Ok? ==> loadedImage == decode(LoaderFor(file).value)
      ensures LoaderFor(file).Err? ==> loadedImage == NoImage()
      ensures width == loadedImage.width && height == loadedImage.height
      ensures loadedImageColors ==
        old(loadedImageColors) + ProcessedColors(file, decode, precision, hexWhiteList, RGBWhiteList)
    {
      ghost var added := ProcessedColors(file, decode, precision, hexWhiteList, RGBWhiteList);
      var _ := SetWorkingImageGD(file, decode);
      ReadPixelsGD();
      if loadedImage.width == 0 {
        if precision > 0 {
          EmptyImageSamples(loadedImage, hexWhiteList, RGBWhiteList, precision);
        }
        assert added == [];
      } else {
        assert LoaderFor(file).Ok?;
        assert added == Samples(loadedImage, hexWhiteList, RGBWhiteList, precision);
      }
    }

    /** `setRGBWhiteList`: append the parse of every whitelist hex. */
    method SetRGBWhiteList()
      modifies this`RGBWhiteList
      ensures RGBWhiteList == old(RGBWhiteList) + ParseAll(hexWhiteList)
    {
      var i := 0;
      while i < |hexWhiteList|
        invariant 0 <= i <= |hexWhiteList|
        invariant RGBWhiteList == old(RGBWhiteList) + ParseAll(hexWhiteList[..i])
      {
        RGBWhiteList := RGBWhiteList + [HexToRGB(hexWhiteList[i])];
        i := i + 1;
        assert ParseAll(hexWhiteList[..i]) == ParseAll(hexWhiteList[..i - 1]) + [HexToRGB(hexWhiteList[i - 1])];
      }
      assert hexWhiteList[..i] == hexWhiteList;
    }

    /**
     * `setWorkingImageGD`: a supported extension loads the image and takes
     * its size; any other leaves every field as it was and returns the line
     * PHP echoes.
     */
    method SetWorkingImageGD(image: string, decode: Loader -> Image) returns (echoed: string)
      modifies this`loadedImage, this`width, this`height
      ensures LoaderFor(image).Ok? ==>
        && loadedImage == decode(LoaderFor(image).value)
        && width == loadedImage.width && height == loadedImage.height
        && echoed == ""
      ensures LoaderFor(image).Err? ==>
        && unchanged(this`loadedImage, this`width, this`height)
        && echoed == LoaderFor(image).message + "\n"
    {
      var loader := LoaderFor(image);
      match loader
      case Ok(imageCreate) =>
        loadedImage := decode(imageCreate);
        width := loadedImage.width;
        height := loadedImage.height;
        echoed := "";
      case Err(message) =>
        echoed := message + "\n";
    }

    /**
     * `getClosestColor`: grow the list of differences one palette entry at
     * a time, and after each entry take the first index of the least one.
     */
    method GetClosestColor(r: int, g: int, b: int) returns (hex: string)
      requires 0 < |RGBWhiteList| <= |hexWhiteList|
      ensures hex == hexWhiteList[NearestIndex(RGBWhiteList, RGB(r, g, b))]
    {
      var c := RGB(r, g, b);
      var key := 0;
      var diffArray: seq<int> := [];
      var i := 0;
      while i < |RGBWhiteList|
        invariant 0 <= i <= |RGBWhiteList|
        invariant |diffArray| == i
        invariant forall j :: 0 <= j < i ==> diffArray[j] == Distance(c, RGBWhiteList[j])
        invariant i > 0 ==> key == NearestIndex(RGBWhiteList[..i], c)
      {
        var value := RGBWhiteList[i];
        diffArray := diffArray + [SimpleColorDiff(r, value.red, g, value.green, b, value.blue)];
        var smallest := Min(diffArray);
        key := Search(smallest, diffArray);
        i := i + 1;
        FirstOfLeastIsNearest(RGBWhiteList[..i], c, diffArray);
      }
      assert RGBWhiteList[..i] == RGBWhiteList;
      hex := hexWhiteList[key];
    }

    /**
     * The body of the inner loop of `readPixelsGD` for the pixel (x, y):
     * "transparent" when its alpha bits are all set, otherwise the nearest
     * whitelist hex of the channels `imagecolorsforindex` reports.
     */
    method LabelPixel(x: nat, y: nat) returns (entry: string)
      requires Valid()
      ensures entry == Classify(loadedImage, hexWhiteList, RGBWhiteList, x, y)
    {
      var index := loadedImage.colorAt(x, y);
      if DetectTransparency(index) {
        entry := TransparentLabel;
      } else {
        var rgb := loadedImage.colorsForIndex(index);
        entry := GetClosestColor(rgb.red, rgb.green, rgb.blue);
        assert RGB(rgb.red, rgb.green, rgb.blue) == rgb;
      }
    }

    /**
     * `readPixelsGD`: visit x = 0, p, 2p, … below the width and, for each,
     * y = 0, p, 2p, … below the height, appending "transparent" or the
     * nearest palette hex of each visited pixel.
     */
    method ReadPixelsGD()
      requires Valid()
      modifies this`loadedImageColors
      ensures Valid()
      ensures precision <= 0 ==> loadedImageColors == old(loadedImageColors)
      ensures precision > 0 ==>
        loadedImageColors == old(loadedImageColors) + Samples(loadedImage, hexWhiteList, RGBWhiteList, precision)
    {
      ghost var p: nat := if precision > 0 then precision else 1;
      ghost var rows := Rows(loadedImage, p);
      ghost var at := Labels(loadedImage, hexWhiteList, RGBWhiteList);
      var x := 0;
      ghost var i: nat := 0;
      while x < width
        invariant x == i * precision && x >= 0
        invariant i == 0 || precision > 0
        invariant i == 0 || x - precision < width
        invariant loadedImageColors == old(loadedImageColors) + Columns(at, p, rows, i)
        decreases width - x
      {
        ghost var before := loadedImageColors;
        var y := 0;
        ghost var j: nat := 0;
        while y < height
            invariant y == j * precision && y >= 0
          invariant j == 0 || y - precision < height
          invariant loadedImageColors == before + Column(at, p, x, j)
          decreases height - y
        {
          var tag := LabelPixel(x, y);
          loadedImageColors := loadedImageColors + [tag];
          assert at(x, j * p) == tag;
          assert Column(at, p, x, j + 1) == Column(at, p, x, j) + [at(x, j * p)];
          AppendAssoc(before, Column(at, p, x, j), [tag]);
          StrideStep(j, precision, y);
          y := y + precision;
          j := j + 1;
        }
        StrideExit(height, p, j, y);
        assert p == precision;
        ColumnsNext(at, p, rows, i, x);
        AppendAssoc(old(loadedImageColors), Columns(at, p, rows, i), Column(at, p, x, rows));
        StrideStep(i, precision, x);
        x := x + precision;
        i := i + 1;
      }
      if precision > 0 {
        StrideExit(width, p, i, x);
      }
    }

    /**
     * `getColors`: count the labels, drop "transparent", sort by count
     * highest first, and keep the leading colours as `TakeColors` does. The
     * result does not depend on anything but the recorded labels and the
     * limit, and no field changes.
     */
    method GetColors() returns (prominent: seq<string>)
      ensures IsRanking(prominent, loadedImageColors, numColorsOnPalette)
    {
      var countEachColor := CountValues(loadedImageColors);
      ghost var counted := countEachColor;
      if TransparentLabel in countEachColor {
        countEachColor := countEachColor - {TransparentLabel};
      }
      CountsOfColors(loadedImageColors, counted, countEachColor);
      var colors := SortByCount(countEachColor);
      prominent := TakeColors(colors, numColorsOnPalette);
      SortedPrefixIsRanking(colors, countEachColor, loadedImageColors, numColorsOnPalette, |prominent|);
    }
  }
}
