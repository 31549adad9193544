/** String primitives the perl5 tool relies on: Python's `str.find`,
    `str.rfind` (for a single character) and `sep.join(list)`. */
module Text {

  /** `s.find(c)`: index of the first occurrence of `c`, or -1. */
  function IndexOf(s: string, c: char): (r: int)
    ensures -1 <= r < |s|
    ensures r >= 0 ==> s[r] == c
    ensures forall j :: 0 <= j < |s| && (r < 0 || j < r) ==> s[j] != c
    decreases |s|
  {
    if |s| == 0 then -1
    else if s[0] == c then 0
    else
      var k := IndexOf(s[1..], c);
      if k < 0 then -1 else k + 1
  }

  /** `s.rfind(c)`: index of the last occurrence of `c`, or -1. */
  function LastIndex(s: string, c: char): (r: int)
    ensures -1 <= r < |s|
    ensures r >= 0 ==> s[r] == c
    ensures forall j :: r < j < |s| ==> s[j] != c
    decreases |s|
  {
    if |s| == 0 then -1
    else if s[|s| - 1] == c then |s| - 1
    else LastIndex(s[..|s| - 1], c)
  }

  /** `sep.join(xs)`. */
  function Join(xs: seq<string>, sep: string): string
  {
    if |xs| == 0 then ""
    else if |xs| == 1 then xs[0]
    else xs[0] + sep + Join(xs[1..], sep)
  }

  /** The first occurrence of `c` in `a + [c] + t` is the one right after `a`
      when `a` does not contain `c`. */
  lemma IndexOfAfter(a: string, c: char, t: string)
    requires c !in a
    ensures IndexOf(a + [c] + t, c) == |a|
  {
    var s := a + [c] + t;
    assert s[|a|] == c;
  }

  /** The last occurrence of `c` in `a + t` is the last character of `a`
      when `a` ends with `c` and `t` does not contain `c`. */
  lemma LastIndexBefore(a: string, c: char, t: string)
    requires |a| > 0 && a[|a| - 1] == c
    requires c !in t
    ensures LastIndex(a + t, c) == |a| - 1
  {
    var s := a + t;
    assert s[|a| - 1] == c;
  }

  /** `LastIndex` is determined by its contract: a position holding `c`
      with no `c` after it is the last index. */
  lemma LastIndexAt(s: string, c: char, k: int)
    requires 0 <= k < |s| && s[k] == c
    requires forall j :: k < j < |s| ==> s[j] != c
    ensures LastIndex(s, c) == k
  {
  }

  lemma LastIndexAbsent(s: string, c: char)
    requires c !in s
    ensures LastIndex(s, c) == -1
  {
  }
}
