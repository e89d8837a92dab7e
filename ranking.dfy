/**
 * What `ImagePalette::getColors` promises about its result, and the sort it
 * relies on (`asort` by count followed by `array_reverse`), for which only
 * "highest count first" is specified: the order among equal counts is left
 * open.
 */
module Ranking {
  import opened PhpArrays
  import opened Transparency

  /** The colours that occur in `s`, "transparent" left out. */
  function DistinctColors(s: seq<string>): (colors: set<string>)
    ensures TransparentLabel !in colors
    ensures forall c :: c in colors <==> c in s && c != TransparentLabel
  {
    set c | c in s && c != TransparentLabel
  }

  predicate Distinct(s: seq<string>)
  {
    forall i, j :: 0 <= i < j < |s| ==> s[i] != s[j]
  }

  /** `keys` are keys of `counts`, highest count first. */
  ghost predicate ByCountDescending(keys: seq<string>, counts: map<string, nat>)
  {
    && (forall i :: 0 <= i < |keys| ==> keys[i] in counts)
    && (forall i, j :: 0 <= i < j < |keys| ==> counts[keys[i]] >= counts[keys[j]])
  }

  /**
   * How many colours `getColors` returns when `distinct` colours were seen:
   * its loop pushes before it tests `$i >= numColorsOnPalette`, so a limit
   * below 1 still lets one colour through.
   */
  function PaletteSize(distinct: nat, limit: int): (size: nat)
    ensures limit >= 1 ==> size == if distinct <= limit then distinct else limit
    ensures limit < 1 ==> size == if distinct == 0 then 0 else 1
  {
    if distinct == 0 then 0
    else if limit <= 1 then 1
    else if distinct <= limit then distinct
    else limit
  }

  /**
   * `prominent` is a valid answer of `getColors` for the recorded labels
   * `s` and the limit `limit`: no "transparent", no repeats, only colours
   * that occur, as many as `PaletteSize` says, ordered by occurrence count
   * highest first, and no colour left out counts more than one kept.
   */
  ghost predicate IsRanking(prominent: seq<string>, s: seq<string>, limit: int)
  {
    && TransparentLabel !in prominent
    && Distinct(prominent)
    && (forall i :: 0 <= i < |prominent| ==> prominent[i] in s)
    && |prominent| == PaletteSize(|DistinctColors(s)|, limit)
    && (forall i, j :: 0 <= i < j < |prominent| ==>
          Occurrences(s, prominent[i]) >= Occurrences(s, prominent[j]))
    && (forall c, i :: c in DistinctColors(s) && c !in prominent && 0 <= i < |prominent| ==>
          Occurrences(s, c) <= Occurrences(s, prominent[i]))
  }

  /**
   * Insert `k` after every key whose count is at least that of `k`, keeping
   * the keys sorted by count.
   */
  function InsertByCount(keys: seq<string>, counts: map<string, nat>, k: string): (r: seq<string>)
    requires k in counts
    requires ByCountDescending(keys, counts)
    ensures ByCountDescending(r, counts)
    ensures |r| == |keys| + 1
    ensures forall x :: x in r <==> x in keys || x == k
    ensures Distinct(keys) && k !in keys ==> Distinct(r)
  {
    if keys == [] then [k]
    else if counts[keys[0]] < counts[k] then
      assert forall i :: 0 <= i < |keys| ==> counts[keys[i]] <= counts[keys[0]];
      [k] + keys
    else
      var rest := InsertByCount(keys[1..], counts, k);
      InsertBehindHead(keys, counts, k, rest);
      [keys[0]] + rest
  }

  /** Putting the first key back in front of the insertion into the others. */
  lemma InsertBehindHead(keys: seq<string>, counts: map<string, nat>, k: string, rest: seq<string>)
    requires keys != [] && k in counts
    requires ByCountDescending(keys, counts) && counts[keys[0]] >= counts[k]
    requires ByCountDescending(rest, counts)
    requires forall x :: x in rest <==> x in keys[1..] || x == k
    requires Distinct(keys) && k !in keys ==> Distinct(rest)
    ensures ByCountDescending([keys[0]] + rest, counts)
    ensures Distinct(keys) && k !in keys ==> Distinct([keys[0]] + rest)
  {
    forall i | 0 <= i < |rest|
      ensures counts[keys[0]] >= counts[rest[i]]
    {
      assert rest[i] in rest;
      if rest[i] != k {
        var j :| 0 <= j < |keys[1..]| && keys[1..][j] == rest[i];
        assert keys[j + 1] == rest[i];
      }
    }
    if Distinct(keys) && k !in keys {
      assert keys[0] !in keys[1..];
      assert keys[0] !in rest;
    }
  }

  lemma {:induction false} DistinctSize(s: seq<string>)
    requires Distinct(s)
    ensures |(set x | x in s)| == |s|
  {
    if s != [] {
      var init := s[..|s| - 1];
      var last := s[|s| - 1];
      assert s == init + [last];
      DistinctSize(init);
      assert (set x | x in s) == (set x | x in init) + {last};
      assert last !in (set x | x in init);
    }
  }

  /**
   * `asort($counts, SORT_NUMERIC)` then `array_reverse`: all keys of `counts`,
   * each once, highest count first. Keys are taken in an unspecified order,
   * so the order among equal counts is not fixed.
   */
  method SortByCount(counts: map<string, nat>) returns (keys: seq<string>)
    ensures Distinct(keys)
    ensures forall x :: x in keys <==> x in counts
    ensures |keys| == |counts|
    ensures ByCountDescending(keys, counts)
  {
    keys := [];
    var rest := counts.Keys;
    while rest != {}
      invariant rest <= counts.Keys
      invariant forall x :: x in keys <==> x in counts && x !in rest
      invariant Distinct(keys)
      invariant ByCountDescending(keys, counts)
      decreases |rest|
    {
      var k :| k in rest;
      keys := InsertByCount(keys, counts, k);
      rest := rest - {k};
    }
    DistinctSize(keys);
    assert (set x | x in keys) == counts.Keys;
  }

  /**
   * The `foreach` at the end of `getColors`: push each colour, count it, and
   * stop once the count reaches `limit`; the test follows the push.
   */
  method TakeColors(colors: seq<string>, limit: int) returns (prominent: seq<string>)
    ensures prominent == colors[..PaletteSize(|colors|, limit)]
  {
    var i := 0;
    prominent := [];
    while i < |colors|
      invariant 0 <= i <= |colors|
      invariant prominent == colors[..i]
      invariant i == 0 || i < limit
    {
      prominent := prominent + [colors[i]];
      i := i + 1;
      if i >= limit {
        break;
      }
    }
  }

  /** A prefix of count-sorted keys is ordered by occurrence count. */
  lemma PrefixOrdered(colors: seq<string>, counts: map<string, nat>, s: seq<string>, m: nat)
    requires m <= |colors|
    requires ByCountDescending(colors, counts)
    requires forall x :: x in counts ==> counts[x] == Occurrences(s, x)
    ensures forall i, j :: 0 <= i < j < m ==>
      Occurrences(s, colors[..m][i]) >= Occurrences(s, colors[..m][j])
  {
    forall i, j | 0 <= i < j < m
      ensures Occurrences(s, colors[..m][i]) >= Occurrences(s, colors[..m][j])
    {
      assert colors[..m][i] == colors[i] && colors[..m][j] == colors[j];
      assert counts[colors[i]] >= counts[colors[j]];
    }
  }

  /** No key after a prefix of count-sorted keys counts more than one in it. */
  lemma PrefixDominates(colors: seq<string>, counts: map<string, nat>, s: seq<string>, m: nat)
    requires m <= |colors|
    requires forall x :: x in colors <==> x in counts
    requires ByCountDescending(colors, counts)
    requires forall x :: x in counts <==> x in DistinctColors(s)
    requires forall x :: x in counts ==> counts[x] == Occurrences(s, x)
    ensures forall c, i :: c in DistinctColors(s) && c !in colors[..m] && 0 <= i < m ==>
      Occurrences(s, c) <= Occurrences(s, colors[..m][i])
  {
    forall c, i | c in DistinctColors(s) && c !in colors[..m] && 0 <= i < m
      ensures Occurrences(s, c) <= Occurrences(s, colors[..m][i])
    {
      assert c in colors;
      var j :| 0 <= j < |colors| && colors[j] == c;
      assert j >= m;
      assert colors[..m][i] == colors[i];
      assert counts[colors[i]] >= counts[colors[j]];
    }
  }

  /**
   * The first `PaletteSize` keys of a count-sorted list of all colours is a
   * valid `getColors` answer.
   */
  lemma SortedPrefixIsRanking(colors: seq<string>, counts: map<string, nat>, s: seq<string>, limit: int, m: nat)
    requires Distinct(colors)
    requires forall x :: x in colors <==> x in counts
    requires |colors| == |counts|
    requires ByCountDescending(colors, counts)
    requires forall x :: x in counts <==> x in DistinctColors(s)
    requires forall x :: x in counts ==> counts[x] == Occurrences(s, x)
    requires m == PaletteSize(|DistinctColors(s)|, limit)
    ensures m <= |colors|
    ensures IsRanking(colors[..m], s, limit)
  {
    assert counts.Keys == DistinctColors(s);
    assert m <= |colors|;
    var prominent := colors[..m];
    assert forall i :: 0 <= i < |prominent| ==> prominent[i] == colors[i];
    assert forall i :: 0 <= i < |prominent| ==> prominent[i] in DistinctColors(s);
    assert TransparentLabel !in prominent;
    PrefixOrdered(colors, counts, s, m);
    PrefixDominates(colors, counts, s, m);
  }

  /**
   * With room for every colour (a limit of at least the number of distinct
   * colours), every colour seen is returned.
   */
  lemma RankingCoversAll(prominent: seq<string>, s: seq<string>, limit: int)
    requires IsRanking(prominent, s, limit)
    requires limit >= |DistinctColors(s)|
    ensures forall c :: c in DistinctColors(s) <==> c in prominent
  {
    var kept := set x | x in prominent;
    DistinctSize(prominent);
    assert kept <= DistinctColors(s);
    assert |prominent| == |DistinctColors(s)|;
    SubsetOfSameSize(kept, DistinctColors(s));
  }

  lemma SubsetOfSameSize(a: set<string>, b: set<string>)
    requires a <= b && |a| == |b|
    ensures a == b
  {
    if a != b {
      var x :| x in b && x !in a;
      SubsetSize(a, b - {x});
    }
  }

  lemma {:induction false} SubsetSize(a: set<string>, b: set<string>)
    requires a <= b
    ensures |a| <= |b|
    decreases a
  {
    if a != {} {
      var y :| y in a;
      SubsetSize(a - {y}, b - {y});
    }
  }

  /** When every recorded label is "transparent", no colour is returned. */
  lemma AllTransparentRanksNothing(prominent: seq<string>, s: seq<string>, limit: int)
    requires forall i :: 0 <= i < |s| ==> s[i] == TransparentLabel
    requires IsRanking(prominent, s, limit)
    ensures prominent == []
  {
    assert DistinctColors(s) == {};
  }

  /**
   * When one colour `c` is all that was seen besides transparency, the
   * answer is exactly `[c]`, whatever the limit.
   */
  lemma SingleColourRanksAlone(prominent: seq<string>, s: seq<string>, limit: int, c: string)
    requires c != TransparentLabel && c in s
    requires forall i :: 0 <= i < |s| ==> s[i] == c || s[i] == TransparentLabel
    requires IsRanking(prominent, s, limit)
    ensures prominent == [c]
  {
    assert DistinctColors(s) == {c};
    assert prominent[0] in s;
  }

  /**
   * Two colours seen equally often, with room for both: both are returned,
   * in an order the sort leaves open.
   */
  lemma TiedPairRanksBoth(prominent: seq<string>, a: string, b: string, limit: int)
    requires a != b && a != TransparentLabel && b != TransparentLabel
    requires limit >= 2
    requires IsRanking(prominent, [a, a, b, b], limit)
    ensures prominent == [a, b] || prominent == [b, a]
  {
    var s := [a, a, b, b];
    assert s[0] in s && s[2] in s;
    assert DistinctColors(s) == {a, b};
    RankingCoversAll(prominent, s, limit);
    assert |prominent| == 2;
    assert a in prominent && b in prominent;
  }
}
