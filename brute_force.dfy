/** `brute_force_contains`: try every offset, compare left to right. */
module BruteForce {
  import opened Common

  /** Does `pattern` occur in `text`? Every byte comparison, including the
      one that fails, adds one to `charComparisons`, so the count is exactly
      the cost of a left-to-right scan that stops at the first occurrence. */
  method BruteForceContains(text: seq<byte>, pattern: seq<byte>, c: Counters)
    returns (found: bool, c': Counters)
    ensures found <==> pattern != [] && OccursIn(pattern, text)
    ensures OnlyCharsGrow(c, c')
    ensures c'.charComparisons == c.charComparisons + ScanCost(pattern, text, 0)
    ensures pattern == [] || |pattern| > |text| ==> c' == c
  {
    var n, m := |text|, |pattern|;
    c' := c;
    if m == 0 || m > n {
      ScanCostNone(pattern, text, 0);
      return false, c';
    }
    var i := 0;
    while i + m <= n
      invariant 0 <= i <= n - m + 1
      invariant forall s :: 0 <= s < i ==> !OccursAt(pattern, text, s)
      invariant OnlyCharsGrow(c, c')
      invariant c'.charComparisons + ScanCost(pattern, text, i) == c.charComparisons + ScanCost(pattern, text, 0)
    {
      var equal;
      ScanCostStep(pattern, text, i);
      equal, c' := CompareWindow(text, pattern, i, c');
      if equal {
        return true, c';
      }
      i := i + 1;
    }
    ScanCostNone(pattern, text, i);
    assert forall s :: !OccursAt(pattern, text, s);
    return false, c';
  }

  /** The bounds the exact count gives: without an occurrence, between one
      and `|pattern|` comparisons for each of the `n-m+1` offsets; with one,
      the whole pattern at the first occurrence `s` and between one and
      `|pattern|` for each offset before it. */
  lemma BruteForceCost(text: seq<byte>, pattern: seq<byte>)
    requires 0 < |pattern| <= |text|
    ensures !OccursIn(pattern, text) ==>
              |text| - |pattern| + 1 <= ScanCost(pattern, text, 0) <= (|text| - |pattern| + 1) * |pattern|
    ensures OccursIn(pattern, text) ==>
              exists s :: FirstOccursAt(pattern, text, s) && s + |pattern| <= ScanCost(pattern, text, 0) <= (s + 1) * |pattern|
  {
    if OccursIn(pattern, text) {
      var s := FirstOccurrence(pattern, text);
      ScanCostHit(pattern, text, 0, s);
    } else {
      ScanCostMiss(pattern, text, 0);
    }
  }

  /** The inner loop: compare the window at offset `i` left to right,
      stopping at the first mismatch; one comparison per byte compared. */
  method CompareWindow(text: seq<byte>, pattern: seq<byte>, i: nat, c: Counters)
    returns (equal: bool, c': Counters)
    requires i + |pattern| <= |text|
    ensures equal <==> OccursAt(pattern, text, i)
    ensures c' == c.(charComparisons := c.charComparisons + WindowCost(pattern, text, i))
  {
    c' := c;
    MatchedPrefixFacts(pattern, text, i);
    MatchedPrefixOccurs(pattern, text, i);
    var j := 0;
    while j < |pattern|
      invariant 0 <= j <= MatchedPrefix(pattern, text, i)
      invariant c' == c.(charComparisons := c.charComparisons + j)
    {
      c' := c'.(charComparisons := c'.charComparisons + 1);
      if text[i + j] != pattern[j] {
        break;
      }
      j := j + 1;
    }
    equal := j == |pattern|;
  }
}
