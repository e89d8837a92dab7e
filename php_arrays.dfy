/**
 * The PHP array built-ins the class calls: `min`, `array_search` and
 * `array_count_values`, restricted to the list arrays it passes them.
 */
module PhpArrays {

  /** `min($values)` of a non-empty list. */
  function Min(values: seq<int>): (m: int)
    requires |values| > 0
    ensures m in values
    ensures forall j :: 0 <= j < |values| ==> m <= values[j]
  {
    if |values| == 1 then values[0]
    else
      var rest := Min(values[1..]);
      if values[0] <= rest then values[0] else rest
  }

  /** `array_search($needle, $values)` on a list: the first key holding the needle. */
  function Search(needle: int, values: seq<int>): (k: nat)
    requires needle in values
    ensures k < |values| && values[k] == needle
    ensures forall j :: 0 <= j < k ==> values[j] != needle
  {
    if values[0] == needle then 0 else 1 + Search(needle, values[1..])
  }

  /** The number of times `x` occurs in `s`. */
  function Occurrences(s: seq<string>, x: string): nat
  {
    multiset(s)[x]
  }

  /**
   * `array_count_values($s)`: one key per distinct element, mapped to the
   * number of times it occurs.
   */
  function CountValues(s: seq<string>): (counts: map<string, nat>)
    ensures forall x :: x in counts <==> x in s
    ensures forall x :: x in counts ==> counts[x] == Occurrences(s, x)
  {
    if s == [] then map[]
    else
      var init := s[..|s| - 1];
      var last := s[|s| - 1];
      assert s == init + [last];
      var counts := CountValues(init);
      counts[last := if last in counts then counts[last] + 1 else 1]
  }
}
