/**
 * Hexadecimal colour parsing: `ImagePalette::HexToRGB` together with the
 * three PHP string primitives it relies on (`str_replace`, `substr`,
 * `hexdec`), each modelled with the edge cases PHP gives them.
 */
module Hex {

  /** The triple `array($r, $g, $b)` that `HexToRGB` returns. */
  datatype RGB = RGB(red: int, green: int, blue: int)

  /** Every channel lies in [0, 255]. */
  predicate ChannelsInRange(c: RGB) {
    0 <= c.red <= 255 && 0 <= c.green <= 255 && 0 <= c.blue <= 255
  }

  /** A triple GD can report for a colour index: every channel in [0, 255]. */
  type Channels = c: RGB | ChannelsInRange(c) witness RGB(0, 0, 0)

  predicate IsHexDigit(c: char) {
    '0' <= c <= '9' || 'a' <= c <= 'f' || 'A' <= c <= 'F'
  }

  /** The value of one hexadecimal digit; upper and lower case agree. */
  function DigitValue(c: char): (v: nat)
    requires IsHexDigit(c)
    ensures v < 16
    ensures 'a' <= c <= 'f' ==> DigitValue(c - 'a' + 'A') == v
  {
    if '0' <= c <= '9' then c as int - '0' as int
    else if 'a' <= c <= 'f' then c as int - 'a' as int + 10
    else c as int - 'A' as int + 10
  }

  function Pow16(n: nat): (p: nat)
    ensures p >= 1
  {
    if n == 0 then 1 else 16 * Pow16(n - 1)
  }

  /**
   * PHP's `hexdec`: the digits of `s` read most significant first, every
   * character that is not a hexadecimal digit being skipped.
   */
  function HexDec(s: string): (v: nat)
    ensures v < Pow16(|s|)
  {
    if s == [] then 0
    else if IsHexDigit(s[|s| - 1]) then 16 * HexDec(s[..|s| - 1]) + DigitValue(s[|s| - 1])
    else HexDec(s[..|s| - 1])
  }

  /** A character that is not a hexadecimal digit does not change the value. */
  lemma {:induction false} HexDecSkips(a: string, c: char, b: string)
    requires !IsHexDigit(c)
    ensures HexDec(a + [c] + b) == HexDec(a + b)
    decreases |b|
  {
    var s, t := a + [c] + b, a + b;
    if b == [] {
      assert s[..|s| - 1] == a && t == a;
    } else {
      var b', d := b[..|b| - 1], b[|b| - 1];
      assert s[..|s| - 1] == a + [c] + b' && s[|s| - 1] == d;
      assert t[..|t| - 1] == a + b' && t[|t| - 1] == d;
      HexDecSkips(a, c, b');
    }
  }

  /** PHP's `str_replace("#", "", s)`: every `#` removed, the rest kept in order. */
  function RemoveHash(s: string): (r: string)
    ensures '#' !in r
    ensures '#' !in s ==> r == s
  {
    if s == [] then []
    else if s[0] == '#' then RemoveHash(s[1..])
    else [s[0]] + RemoveHash(s[1..])
  }

  /**
   * `str_replace` works piece by piece. With the two facts above and
   * `RemoveHashCount` this fixes the result: each `#` becomes nothing, every
   * other character is kept, in order.
   */
  lemma {:induction false} RemoveHashConcat(a: string, b: string)
    ensures RemoveHash(a + b) == RemoveHash(a) + RemoveHash(b)
  {
    if a == [] {
      assert a + b == b;
    } else {
      assert (a + b)[0] == a[0] && (a + b)[1..] == a[1..] + b;
      RemoveHashConcat(a[1..], b);
      if a[0] != '#' {
        assert [a[0]] + (RemoveHash(a[1..]) + RemoveHash(b)) == [a[0]] + RemoveHash(a[1..]) + RemoveHash(b);
      }
    }
  }

  /** Exactly the `#` characters are dropped: the length falls by their number. */
  lemma {:induction false} RemoveHashCount(s: string)
    ensures |RemoveHash(s)| + multiset(s)['#'] == |s|
  {
    if s != [] {
      assert s == [s[0]] + s[1..];
      RemoveHashCount(s[1..]);
    }
  }

  /**
   * PHP's `substr(s, start, len)` for non-negative arguments: the part of
   * `s` from `start` of at most `len` characters; empty once `start` is
   * past the end (PHP 7 returns `false` there, which `hexdec` also reads as 0).
   */
  function Substr(s: string, start: nat, len: nat): (r: string)
    ensures |r| <= len
    ensures start + len <= |s| ==> r == s[start..start + len]
    ensures start < |s| < start + len ==> r == s[start..]
    ensures start >= |s| ==> r == []
  {
    if start >= |s| then []
    else if start + len <= |s| then s[start..start + len]
    else s[start..]
  }

  /**
   * `HexToRGB`: drop every `#`; a three-character rest is read as three
   * doubled digits, anything else as the character pairs 0-1, 2-3 and 4-5.
   */
  function HexToRGB(hex: string): (c: RGB)
    ensures ChannelsInRange(c)
  {
    var h := RemoveHash(hex);
    if |h| == 3 then
      RGB(HexDec(Substr(h, 0, 1) + Substr(h, 0, 1)),
          HexDec(Substr(h, 1, 1) + Substr(h, 1, 1)),
          HexDec(Substr(h, 2, 1) + Substr(h, 2, 1)))
    else
      RGB(HexDec(Substr(h, 0, 2)), HexDec(Substr(h, 2, 2)), HexDec(Substr(h, 4, 2)))
  }

  /** The value of the two-digit number `hi lo`. */
  function Pair(hi: char, lo: char): nat
    requires IsHexDigit(hi) && IsHexDigit(lo)
  {
    16 * DigitValue(hi) + DigitValue(lo)
  }

  predicate AllHexDigits(s: string) {
    forall i :: 0 <= i < |s| ==> IsHexDigit(s[i])
  }

  lemma HexDecPair(hi: char, lo: char)
    requires IsHexDigit(hi) && IsHexDigit(lo)
    ensures HexDec([hi, lo]) == Pair(hi, lo)
  {
    assert [hi, lo][..1] == [hi];
    assert [hi][..0] == [];
  }

  lemma RemoveLeadingHash(s: string)
    requires '#' !in s
    ensures RemoveHash("#" + s) == s
  {
    assert ("#" + s)[1..] == s;
  }

  /**
   * A six-digit colour, with or without its leading `#`, yields the values
   * of digit pairs 0-1, 2-3 and 4-5.
   */
  lemma SixDigitHex(hex: string, s: string)
    requires |s| == 6 && AllHexDigits(s)
    requires hex == s || hex == "#" + s
    ensures HexToRGB(hex) == RGB(Pair(s[0], s[1]), Pair(s[2], s[3]), Pair(s[4], s[5]))
  {
    assert '#' !in s;
    if hex != s { RemoveLeadingHash(s); }
    assert RemoveHash(hex) == s;
    assert s[0..2] == [s[0], s[1]] && s[2..4] == [s[2], s[3]] && s[4..6] == [s[4], s[5]];
    HexDecPair(s[0], s[1]);
    HexDecPair(s[2], s[3]);
    HexDecPair(s[4], s[5]);
  }

  /**
   * A three-character colour doubles each character: `#f03` and `#ff0033`
   * give the same triple, and so do `f03` and `#f03`.
   */
  lemma ThreeDigitHexDoubles(s: string)
    requires |s| == 3 && '#' !in s
    ensures HexToRGB("#" + s) == HexToRGB(s)
    ensures HexToRGB(s) == HexToRGB([s[0], s[0], s[1], s[1], s[2], s[2]])
  {
    RemoveLeadingHash(s);
    var d := [s[0], s[0], s[1], s[1], s[2], s[2]];
    assert '#' !in d;
    assert Substr(s, 0, 1) + Substr(s, 0, 1) == d[0..2];
    assert Substr(s, 1, 1) + Substr(s, 1, 1) == d[2..4];
    assert Substr(s, 2, 1) + Substr(s, 2, 1) == d[4..6];
  }

  /** ASCII lower-casing, the only case difference hexadecimal digits have. */
  function LowerChar(c: char): (l: char)
    ensures 'A' <= c <= 'Z' ==> 'a' <= l <= 'z'
    ensures !('A' <= c <= 'Z') ==> l == c
  {
    if 'A' <= c <= 'Z' then c - 'A' + 'a' else c
  }

  function Lower(s: string): (l: string)
    ensures |l| == |s|
    ensures forall i :: 0 <= i < |s| ==> l[i] == LowerChar(s[i])
  {
    seq(|s|, i requires 0 <= i < |s| => LowerChar(s[i]))
  }

  lemma LowerConcat(a: string, b: string)
    ensures Lower(a + b) == Lower(a) + Lower(b)
  {
  }

  lemma {:induction false} RemoveHashLower(s: string)
    ensures RemoveHash(Lower(s)) == Lower(RemoveHash(s))
  {
    if s != [] {
      var l := Lower(s);
      assert l[1..] == Lower(s[1..]);
      assert (l[0] == '#') == (s[0] == '#');
      RemoveHashLower(s[1..]);
      if s[0] != '#' {
        LowerConcat([s[0]], RemoveHash(s[1..]));
      }
    }
  }

  lemma {:induction false} HexDecLower(s: string)
    ensures HexDec(Lower(s)) == HexDec(s)
  {
    if s != [] {
      assert Lower(s)[..|s| - 1] == Lower(s[..|s| - 1]);
      HexDecLower(s[..|s| - 1]);
      var c := s[|s| - 1];
      if 'A' <= c <= 'F' {
        assert DigitValue(LowerChar(c)) == DigitValue(c) by {
          assert LowerChar(c) - 'a' + 'A' == c;
        }
      }
    }
  }

  lemma SubstrLower(s: string, start: nat, len: nat)
    ensures Substr(Lower(s), start, len) == Lower(Substr(s, start, len))
  {
  }

  /** Hexadecimal parsing ignores letter case. */
  lemma HexToRGBCaseInsensitive(hex: string)
    ensures HexToRGB(Lower(hex)) == HexToRGB(hex)
  {
    RemoveHashLower(hex);
    var h := RemoveHash(hex);
    var l := Lower(h);
    if |h| == 3 {
      forall i | 0 <= i < 3
        ensures HexDec(Substr(l, i, 1) + Substr(l, i, 1)) == HexDec(Substr(h, i, 1) + Substr(h, i, 1))
      {
        SubstrLower(h, i, 1);
        LowerConcat(Substr(h, i, 1), Substr(h, i, 1));
        HexDecLower(Substr(h, i, 1) + Substr(h, i, 1));
      }
      assert HexDec(Substr(l, 0, 1) + Substr(l, 0, 1)) == HexDec(Substr(h, 0, 1) + Substr(h, 0, 1));
      assert HexDec(Substr(l, 1, 1) + Substr(l, 1, 1)) == HexDec(Substr(h, 1, 1) + Substr(h, 1, 1));
      assert HexDec(Substr(l, 2, 1) + Substr(l, 2, 1)) == HexDec(Substr(h, 2, 1) + Substr(h, 2, 1));
    } else {
      forall i | i == 0 || i == 2 || i == 4
        ensures HexDec(Substr(l, i, 2)) == HexDec(Substr(h, i, 2))
      {
        SubstrLower(h, i, 2);
        HexDecLower(Substr(h, i, 2));
      }
      assert HexDec(Substr(l, 0, 2)) == HexDec(Substr(h, 0, 2));
      assert HexDec(Substr(l, 2, 2)) == HexDec(Substr(h, 2, 2));
      assert HexDec(Substr(l, 4, 2)) == HexDec(Substr(h, 4, 2));
    }
  }
}
