/**
 * The fixed reference palette of `ImagePalette` and nearest-colour
 * classification against it (`getSimpleColorDiff`, and the specification of
 * `getClosestColor`, whose loop lives in the class).
 */
module Palette {
  import opened Hex

  /** `$hexWhiteList`: the 33 reference colours, in declaration order. */
  const HexWhiteList: seq<string> := [
    "#660000", "#990000", "#cc0000", "#cc3333", "#ea4c88", "#993399",
    "#663399", "#333399", "#0066cc", "#0099cc", "#66cccc", "#77cc33",
    "#669900", "#336600", "#666600", "#999900", "#cccc33", "#ffff00",
    "#ffcc33", "#ff9900", "#ff6600", "#cc6633", "#996633", "#663300",
    "#000000", "#999999", "#cccccc", "#ffffff", "#E7D8B1", "#FDADC7",
    "#424153", "#ABBCDA", "#F5DD01"
  ]

  /** Every entry is a `#` and six characters. */
  lemma WhiteListShape(i: nat)
    requires i < |HexWhiteList|
    ensures |HexWhiteList[i]| == 7 && HexWhiteList[i][0] == '#'
  {
  }

  /** The triples `setRGBWhiteList` computes from `HexWhiteList`, written out. */
  const WhiteListRGB: seq<RGB> := [
    RGB(102, 0, 0), RGB(153, 0, 0), RGB(204, 0, 0), RGB(204, 51, 51),
    RGB(234, 76, 136), RGB(153, 51, 153), RGB(102, 51, 153), RGB(51, 51, 153),
    RGB(0, 102, 204), RGB(0, 153, 204), RGB(102, 204, 204), RGB(119, 204, 51),
    RGB(102, 153, 0), RGB(51, 102, 0), RGB(102, 102, 0), RGB(153, 153, 0),
    RGB(204, 204, 51), RGB(255, 255, 0), RGB(255, 204, 51), RGB(255, 153, 0),
    RGB(255, 102, 0), RGB(204, 102, 51), RGB(153, 102, 51), RGB(102, 51, 0),
    RGB(0, 0, 0), RGB(153, 153, 153), RGB(204, 204, 204), RGB(255, 255, 255),
    RGB(231, 216, 177), RGB(253, 173, 199), RGB(66, 65, 83), RGB(171, 188, 218),
    RGB(245, 221, 1)
  ]

  /** Black is whitelist entry 24 and white entry 27. */
  lemma BlackAndWhiteEntries()
    ensures HexWhiteList[24] == "#000000" && WhiteListRGB[24] == RGB(0, 0, 0)
    ensures HexWhiteList[27] == "#ffffff" && WhiteListRGB[27] == RGB(255, 255, 255)
  {
  }

  /** The value of `#abcdef`, stated over its characters. */
  lemma SevenCharHex(hex: string, a: char, b: char, c: char, d: char, e: char, f: char)
    requires hex == ['#', a, b, c, d, e, f]
    requires IsHexDigit(a) && IsHexDigit(b) && IsHexDigit(c)
    requires IsHexDigit(d) && IsHexDigit(e) && IsHexDigit(f)
    ensures HexToRGB(hex) == RGB(Pair(a, b), Pair(c, d), Pair(e, f))
  {
    SixDigitHex(hex, hex[1..]);
  }

  lemma EntryParses0()
    ensures HexToRGB(HexWhiteList[0]) == WhiteListRGB[0]
  {
    SevenCharHex(HexWhiteList[0], '6', '6', '0', '0', '0', '0');
  }

  lemma EntryParses1()
    ensures HexToRGB(HexWhiteList[1]) == WhiteListRGB[1]
  {
    SevenCharHex(HexWhiteList[1], '9', '9', '0', '0', '0', '0');
  }

  lemma EntryParses2()
    ensures HexToRGB(HexWhiteList[2]) == WhiteListRGB[2]
  {
    SevenCharHex(HexWhiteList[2], 'c', 'c', '0', '0', '0', '0');
  }

  lemma EntryParses3()
    ensures HexToRGB(HexWhiteList[3]) == WhiteListRGB[3]
  {
    SevenCharHex(HexWhiteList[3], 'c', 'c', '3', '3', '3', '3');
  }

  lemma EntryParses4()
    ensures HexToRGB(HexWhiteList[4]) == WhiteListRGB[4]
  {
    SevenCharHex(HexWhiteList[4], 'e', 'a', '4', 'c', '8', '8');
    assert Pair('e', 'a') == 234 && Pair('4', 'c') == 76 && Pair('8', '8') == 136;
  }

  lemma EntryParses5()
    ensures HexToRGB(HexWhiteList[5]) == WhiteListRGB[5]
  {
    SevenCharHex(HexWhiteList[5], '9', '9', '3', '3', '9', '9');
  }

  lemma EntryParses6()
    ensures HexToRGB(HexWhiteList[6]) == WhiteListRGB[6]
  {
    SevenCharHex(HexWhiteList[6], '6', '6', '3', '3', '9', '9');
  }

  lemma EntryParses7()
    ensures HexToRGB(HexWhiteList[7]) == WhiteListRGB[7]
  {
    SevenCharHex(HexWhiteList[7], '3', '3', '3', '3', '9', '9');
  }

  lemma EntryParses8()
    ensures HexToRGB(HexWhiteList[8]) == WhiteListRGB[8]
  {
    SevenCharHex(HexWhiteList[8], '0', '0', '6', '6', 'c', 'c');
  }

  lemma EntryParses9()
    ensures HexToRGB(HexWhiteList[9]) == WhiteListRGB[9]
  {
    SevenCharHex(HexWhiteList[9], '0', '0', '9', '9', 'c', 'c');
  }

  lemma EntryParses10()
    ensures HexToRGB(HexWhiteList[10]) == WhiteListRGB[10]
  {
    SevenCharHex(HexWhiteList[10], '6', '6', 'c', 'c', 'c', 'c');
  }

  lemma EntryParses11()
    ensures HexToRGB(HexWhiteList[11]) == WhiteListRGB[11]
  {
    SevenCharHex(HexWhiteList[11], '7', '7', 'c', 'c', '3', '3');
  }

  lemma EntryParses12()
    ensures HexToRGB(HexWhiteList[12]) == WhiteListRGB[12]
  {
    SevenCharHex(HexWhiteList[12], '6', '6', '9', '9', '0', '0');
  }

  lemma EntryParses13()
    ensures HexToRGB(HexWhiteList[13]) == WhiteListRGB[13]
  {
    SevenCharHex(HexWhiteList[13], '3', '3', '6', '6', '0', '0');
  }

  lemma EntryParses14()
    ensures HexToRGB(HexWhiteList[14]) == WhiteListRGB[14]
  {
    SevenCharHex(HexWhiteList[14], '6', '6', '6', '6', '0', '0');
  }

  lemma EntryParses15()
    ensures HexToRGB(HexWhiteList[15]) == WhiteListRGB[15]
  {
    SevenCharHex(HexWhiteList[15], '9', '9', '9', '9', '0', '0');
  }

  lemma EntryParses16()
    ensures HexToRGB(HexWhiteList[16]) == WhiteListRGB[16]
  {
    SevenCharHex(HexWhiteList[16], 'c', 'c', 'c', 'c', '3', '3');
  }

  lemma EntryParses17()
    ensures HexToRGB(HexWhiteList[17]) == WhiteListRGB[17]
  {
    SevenCharHex(HexWhiteList[17], 'f', 'f', 'f', 'f', '0', '0');
  }

  lemma EntryParses18()
    ensures HexToRGB(HexWhiteList[18]) == WhiteListRGB[18]
  {
    SevenCharHex(HexWhiteList[18], 'f', 'f', 'c', 'c', '3', '3');
  }

  lemma EntryParses19()
    ensures HexToRGB(HexWhiteList[19]) == WhiteListRGB[19]
  {
    SevenCharHex(HexWhiteList[19], 'f', 'f', '9', '9', '0', '0');
  }

  lemma EntryParses20()
    ensures HexToRGB(HexWhiteList[20]) == WhiteListRGB[20]
  {
    SevenCharHex(HexWhiteList[20], 'f', 'f', '6', '6', '0', '0');
  }

  lemma EntryParses21()
    ensures HexToRGB(HexWhiteList[21]) == WhiteListRGB[21]
  {
    SevenCharHex(HexWhiteList[21], 'c', 'c', '6', '6', '3', '3');
  }

  lemma EntryParses22()
    ensures HexToRGB(HexWhiteList[22]) == WhiteListRGB[22]
  {
    SevenCharHex(HexWhiteList[22], '9', '9', '6', '6', '3', '3');
  }

  lemma EntryParses23()
    ensures HexToRGB(HexWhiteList[23]) == WhiteListRGB[23]
  {
    SevenCharHex(HexWhiteList[23], '6', '6', '3', '3', '0', '0');
  }

  lemma EntryParses24()
    ensures HexToRGB(HexWhiteList[24]) == WhiteListRGB[24]
  {
    SevenCharHex(HexWhiteList[24], '0', '0', '0', '0', '0', '0');
  }

  lemma EntryParses25()
    ensures HexToRGB(HexWhiteList[25]) == WhiteListRGB[25]
  {
    SevenCharHex(HexWhiteList[25], '9', '9', '9', '9', '9', '9');
  }

  lemma EntryParses26()
    ensures HexToRGB(HexWhiteList[26]) == WhiteListRGB[26]
  {
    SevenCharHex(HexWhiteList[26], 'c', 'c', 'c', 'c', 'c', 'c');
  }

  lemma EntryParses27()
    ensures HexToRGB(HexWhiteList[27]) == WhiteListRGB[27]
  {
    SevenCharHex(HexWhiteList[27], 'f', 'f', 'f', 'f', 'f', 'f');
  }

  lemma EntryParses28()
    ensures HexToRGB(HexWhiteList[28]) == WhiteListRGB[28]
  {
    SevenCharHex(HexWhiteList[28], 'E', '7', 'D', '8', 'B', '1');
  }

  lemma EntryParses29()
    ensures HexToRGB(HexWhiteList[29]) == WhiteListRGB[29]
  {
    SevenCharHex(HexWhiteList[29], 'F', 'D', 'A', 'D', 'C', '7');
  }

  lemma EntryParses30()
    ensures HexToRGB(HexWhiteList[30]) == WhiteListRGB[30]
  {
    SevenCharHex(HexWhiteList[30], '4', '2', '4', '1', '5', '3');
  }

  lemma EntryParses31()
    ensures HexToRGB(HexWhiteList[31]) == WhiteListRGB[31]
  {
    SevenCharHex(HexWhiteList[31], 'A', 'B', 'B', 'C', 'D', 'A');
  }

  lemma EntryParses32()
    ensures HexToRGB(HexWhiteList[32]) == WhiteListRGB[32]
  {
    SevenCharHex(HexWhiteList[32], 'F', '5', 'D', 'D', '0', '1');
  }

  /** Entry `i` of `WhiteListRGB` is what `HexToRGB` makes of entry `i` of `HexWhiteList`. */
  lemma WhiteListEntryParses(i: nat)
    requires i < |HexWhiteList|
    ensures |WhiteListRGB| == |HexWhiteList|
    ensures HexToRGB(HexWhiteList[i]) == WhiteListRGB[i]
  {
    if i == 0 { EntryParses0(); }
    else if i == 1 { EntryParses1(); }
    else if i == 2 { EntryParses2(); }
    else if i == 3 { EntryParses3(); }
    else if i == 4 { EntryParses4(); }
    else if i == 5 { EntryParses5(); }
    else if i == 6 { EntryParses6(); }
    else if i == 7 { EntryParses7(); }
    else if i == 8 { EntryParses8(); }
    else if i == 9 { EntryParses9(); }
    else if i == 10 { EntryParses10(); }
    else if i == 11 { EntryParses11(); }
    else if i == 12 { EntryParses12(); }
    else if i == 13 { EntryParses13(); }
    else if i == 14 { EntryParses14(); }
    else if i == 15 { EntryParses15(); }
    else if i == 16 { EntryParses16(); }
    else if i == 17 { EntryParses17(); }
    else if i == 18 { EntryParses18(); }
    else if i == 19 { EntryParses19(); }
    else if i == 20 { EntryParses20(); }
    else if i == 21 { EntryParses21(); }
    else if i == 22 { EntryParses22(); }
    else if i == 23 { EntryParses23(); }
    else if i == 24 { EntryParses24(); }
    else if i == 25 { EntryParses25(); }
    else if i == 26 { EntryParses26(); }
    else if i == 27 { EntryParses27(); }
    else if i == 28 { EntryParses28(); }
    else if i == 29 { EntryParses29(); }
    else if i == 30 { EntryParses30(); }
    else if i == 31 { EntryParses31(); }
    else { EntryParses32(); }
  }

  /**
   * The 33 reference colours are pairwise different: each entry differs from
   * every earlier one, checked in four bands of entries.
   */
  lemma WhiteListRGBDistinct()
    ensures forall i, j :: 0 <= i < j < |WhiteListRGB| ==> WhiteListRGB[i] != WhiteListRGB[j]
  {
    DistinctBelow17();
    DistinctFrom17To24();
    DistinctFrom24To29();
    DistinctFrom29To33();
  }

  lemma DistinctBelow17()
    ensures forall i, j :: 0 <= i < j < 17 ==> WhiteListRGB[i] != WhiteListRGB[j]
  {
  }

  lemma DistinctFrom17To24()
    ensures forall i, j :: 0 <= i < j && 17 <= j < 24 ==> WhiteListRGB[i] != WhiteListRGB[j]
  {
  }

  lemma DistinctFrom24To29()
    ensures forall i, j :: 0 <= i < j && 24 <= j < 29 ==> WhiteListRGB[i] != WhiteListRGB[j]
  {
  }

  lemma DistinctFrom29To33()
    ensures forall i, j :: 0 <= i < j && 29 <= j < 33 ==> WhiteListRGB[i] != WhiteListRGB[j]
  {
  }

  /** `x * x` is positive unless `x` is zero. */
  lemma SquarePositive(x: int)
    ensures x * x >= 0
    ensures x * x == 0 <==> x == 0
  {
    if x < 0 { assert x * x == (-x) * (-x); }
  }

  /**
   * `getSimpleColorDiff` without its outer `sqrt`: the squared Euclidean
   * distance between two colours. `sqrt` is increasing, so comparing these
   * values orders the palette exactly as comparing the distances does.
   */
  function SimpleColorDiff(r: int, rVal: int, g: int, gVal: int, b: int, bVal: int): (d: int)
    ensures d >= 0
    ensures d == 0 <==> r == rVal && g == gVal && b == bVal
  {
    SquarePositive(r - rVal);
    SquarePositive(g - gVal);
    SquarePositive(b - bVal);
    (r - rVal) * (r - rVal) + (g - gVal) * (g - gVal) + (b - bVal) * (b - bVal)
  }

  /** The difference from the queried colour `c` to a palette colour `p`. */
  function Distance(c: RGB, p: RGB): (d: int)
    ensures d >= 0
    ensures d == 0 <==> c == p
  {
    SimpleColorDiff(c.red, p.red, c.green, p.green, c.blue, p.blue)
  }

  /** The square of a channel difference is at most 255². */
  lemma SquareBound(x: int)
    requires -255 <= x <= 255
    ensures x * x <= 255 * 255
  {
    var m := if x < 0 then -x else x;
    assert x * x == m * m;
    ProductMonotone(m, 255, m);
    ProductMonotone(m, 255, 255);
  }

  /** Multiplying by a non-negative factor keeps the order. */
  lemma ProductMonotone(a: int, b: int, c: int)
    requires 0 <= a <= b && 0 <= c
    ensures a * c <= b * c
  {
  }

  /**
   * Between channels in [0, 255] the squared distance is at most 3 * 255²,
   * an integer far below 2^53. Such sums are exact as doubles, and the
   * rounded square roots of two different ones stay different and in the
   * same order, so comparing squared distances orders the palette as
   * `getSimpleColorDiff`'s float results do.
   */
  lemma DistanceBound(c: RGB, e: RGB)
    requires ChannelsInRange(c) && ChannelsInRange(e)
    ensures Distance(c, e) <= 3 * 255 * 255
  {
    SquareBound(c.red - e.red);
    SquareBound(c.green - e.green);
    SquareBound(c.blue - e.blue);
  }

  /** `k` is the first index of `palette` at the least distance from `c`. */
  ghost predicate IsFirstNearest(palette: seq<RGB>, c: RGB, k: int)
  {
    && 0 <= k < |palette|
    && (forall j :: 0 <= j < |palette| ==> Distance(c, palette[k]) <= Distance(c, palette[j]))
    && (forall j :: 0 <= j < k ==> Distance(c, palette[j]) > Distance(c, palette[k]))
  }

  /**
   * The index `getClosestColor` settles on: the palette entry of least
   * distance, the earliest one among equals.
   */
  function NearestIndex(palette: seq<RGB>, c: RGB): (k: nat)
    requires |palette| > 0
    ensures k < |palette|
    ensures forall j :: 0 <= j < |palette| ==> Distance(c, palette[k]) <= Distance(c, palette[j])
    ensures forall j :: 0 <= j < k ==> Distance(c, palette[j]) > Distance(c, palette[k])
  {
    if |palette| == 1 then 0
    else
      var k := NearestIndex(palette[..|palette| - 1], c);
      if Distance(c, palette[|palette| - 1]) < Distance(c, palette[k]) then |palette| - 1 else k
  }

  /** Only one index is the first nearest one. */
  lemma FirstNearestUnique(palette: seq<RGB>, c: RGB, k: int)
    requires IsFirstNearest(palette, c, k)
    ensures k == NearestIndex(palette, c)
  {
  }

  /** The hex colour `getClosestColor` returns for `c` against the reference palette. */
  function ClosestColor(c: RGB): (hex: string)
    ensures hex in HexWhiteList
    ensures |hex| == 7 && hex[0] == '#'
  {
    var k := NearestIndex(WhiteListRGB, c);
    WhiteListShape(k);
    HexWhiteList[k]
  }

  /**
   * Round trip: the colour of a palette entry is nearest to that entry and
   * to no earlier one, because the 33 colours are distinct.
   */
  lemma NearestToOwnColour(i: nat)
    requires i < |HexWhiteList|
    ensures NearestIndex(WhiteListRGB, HexToRGB(HexWhiteList[i])) == i
  {
    WhiteListEntryParses(i);
    WhiteListRGBDistinct();
    var c := WhiteListRGB[i];
    var k := NearestIndex(WhiteListRGB, c);
    assert Distance(c, WhiteListRGB[k]) == 0;
  }

  /** Every palette hex survives `HexToRGB` followed by `getClosestColor`. */
  lemma ClosestColorRoundTrip(hex: string)
    requires hex in HexWhiteList
    ensures ClosestColor(HexToRGB(hex)) == hex
  {
    var i :| 0 <= i < |HexWhiteList| && HexWhiteList[i] == hex;
    NearestToOwnColour(i);
  }
}
