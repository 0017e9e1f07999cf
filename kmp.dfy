/** Knuth–Morris–Pratt: the failure function (`build_lps`) and the scan
    (`kmp_contains`). */
module Kmp {
  import opened Common

  /** `k` is a border of `p[..i]`: a proper prefix of it that is also a
      suffix of it. */
  ghost predicate IsBorderAt(p: seq<byte>, i: int, k: int) {
    0 <= k < i <= |p| && p[..k] == p[i - k..i]
  }

  /** `k` is the longest border of `p[..i]`. */
  ghost predicate LongestBorderAt(p: seq<byte>, i: int, k: int) {
    IsBorderAt(p, i, k) && forall k' :: IsBorderAt(p, i, k') ==> k' <= k
  }

  /** `lps` is the failure function of `p`: entry `i` is the length of the
      longest proper prefix of `p[..i + 1]` that is also its suffix. */
  ghost predicate IsFailureFunction(p: seq<byte>, lps: seq<int>) {
    |lps| == |p| && forall i :: 0 <= i < |p| ==> LongestBorderAt(p, i + 1, lps[i])
  }

  /** A prepared KMP pattern: the source's `KMPPattern`. */
  datatype KmpPattern = KmpPattern(pattern: seq<byte>, lps: seq<int>)

  /** Every border is read off element by element. */
  lemma BorderElements(p: seq<byte>, i: int, k: int)
    requires 0 <= k < i <= |p|
    ensures IsBorderAt(p, i, k) <==> forall t :: 0 <= t < k ==> p[t] == p[i - k + t]
  {
    if forall t :: 0 <= t < k ==> p[t] == p[i - k + t] {
      assert p[..k] == p[i - k..i];
    }
  }

  /** A shorter border of `p[..i]` is a border of every longer border. */
  lemma BorderOfBorder(p: seq<byte>, i: int, k: int, k2: int)
    requires IsBorderAt(p, i, k) && IsBorderAt(p, i, k2) && k2 < k
    ensures IsBorderAt(p, k, k2)
  {
    BorderElements(p, i, k);
    BorderElements(p, i, k2);
    BorderElements(p, k, k2);
    forall t | 0 <= t < k2 ensures p[t] == p[k - k2 + t] {
      assert p[t] == p[i - k2 + t];
      assert p[k - k2 + t] == p[i - k + (k - k2 + t)];
    }
  }

  /** A border of a border of `p[..i]` is a border of `p[..i]`. */
  lemma BorderTransitive(p: seq<byte>, i: int, k: int, k2: int)
    requires IsBorderAt(p, i, k) && IsBorderAt(p, k, k2)
    ensures IsBorderAt(p, i, k2)
  {
    BorderElements(p, i, k);
    BorderElements(p, k, k2);
    BorderElements(p, i, k2);
    forall t | 0 <= t < k2 ensures p[t] == p[i - k2 + t] {
      assert p[t] == p[k - k2 + t];
      assert p[k - k2 + t] == p[i - k + (k - k2 + t)];
    }
  }

  /** A border of `p[..i + 1]` other than the empty one is a border of
      `p[..i]` extended by a byte that agrees with `p[i]`. */
  lemma BorderExtend(p: seq<byte>, i: int, k: int)
    requires 0 <= k < i < |p|
    ensures IsBorderAt(p, i + 1, k + 1) <==> IsBorderAt(p, i, k) && p[k] == p[i]
  {
    BorderElements(p, i + 1, k + 1);
    BorderElements(p, i, k);
  }

  /** No border of `p[..i]` longer than `len` can be extended by `p[i]`. */
  ghost predicate NoLongerExtends(p: seq<byte>, i: int, len: int) {
    0 <= i < |p| && forall k :: IsBorderAt(p, i, k) && len < k ==> p[k] != p[i]
  }

  /** One backtracking step of `build_lps`: when `p[len]` disagrees with
      `p[i]`, the next candidate is the longest border of `p[..len]`, and no
      border between the two can be extended either. */
  lemma BacktrackStep(p: seq<byte>, i: int, len: int, shorter: int)
    requires IsBorderAt(p, i, len) && NoLongerExtends(p, i, len)
    requires 0 < len && p[i] != p[len]
    requires LongestBorderAt(p, len, shorter)
    ensures IsBorderAt(p, i, shorter) && NoLongerExtends(p, i, shorter)
  {
    forall k | IsBorderAt(p, i, k) && k < len ensures IsBorderAt(p, len, k) {
      BorderOfBorder(p, i, len, k);
    }
    BorderTransitive(p, i, len, shorter);
  }

  /** Where backtracking stops, `len + 1` (when `p[len]` agrees with `p[i]`)
      or 0 (when it does not and `len` is 0) is the longest border of
      `p[..i + 1]`. */
  lemma ExtendStep(p: seq<byte>, i: int, len: int)
    requires i < |p| && IsBorderAt(p, i, len) && NoLongerExtends(p, i, len)
    requires len == 0 || p[i] == p[len]
    ensures LongestBorderAt(p, i + 1, if p[i] == p[len] then len + 1 else 0)
  {
    forall k | 0 <= k < i ensures IsBorderAt(p, i + 1, k + 1) <==> IsBorderAt(p, i, k) && p[k] == p[i] {
      BorderExtend(p, i, k);
    }
    assert IsBorderAt(p, i + 1, 0);
  }

  /** `build_lps`: the failure function, computed with the backtracking
      inner loop of the source. Entries are written only when characters
      agree and otherwise keep their initial 0. */
  method BuildLps(p: seq<byte>) returns (lps: seq<int>)
    ensures IsFailureFunction(p, lps)
  {
    lps := seq(|p|, _ => 0);
    var len := 0;
    var i := 1;
    if |p| > 0 {
      assert LongestBorderAt(p, 1, 0);
    }
    while i < |p|
      invariant 1 <= i && (|p| > 0 ==> i <= |p|)
      invariant |lps| == |p|
      invariant forall k :: 0 <= k < i && k < |p| ==> LongestBorderAt(p, k + 1, lps[k])
      invariant forall k :: i <= k < |p| ==> lps[k] == 0
      invariant |p| > 0 ==> len == lps[i - 1]
    {
      assert LongestBorderAt(p, i, len);
      while len > 0 && p[i] != p[len]
        invariant IsBorderAt(p, i, len) && NoLongerExtends(p, i, len)
        decreases len
      {
        var shorter := lps[len - 1];
        assert 0 <= len - 1 < i;
        BacktrackStep(p, i, len, shorter);
        len := shorter;
      }
      ExtendStep(p, i, len);
      if p[i] == p[len] {
        len := len + 1;
        lps := lps[i := len];
      }
      i := i + 1;
    }
  }

  /** The failure function's shape: as long as the pattern, first entry 0,
      every entry at most its index. */
  lemma FailureFunctionBounds(p: seq<byte>, lps: seq<int>)
    requires IsFailureFunction(p, lps)
    ensures |lps| == |p|
    ensures |p| > 0 ==> lps[0] == 0
    ensures forall i :: 0 <= i < |p| ==> 0 <= lps[i] <= i
  {
    forall i | 0 <= i < |p| ensures 0 <= lps[i] <= i {
      assert LongestBorderAt(p, i + 1, lps[i]);
    }
  }

  /** An occurrence that starts inside the matched stretch `text[i - j..i]`
      turns the overlap into a border of `pattern[..j]`. */
  lemma OccurrenceOverlapsMatch(text: seq<byte>, pat: seq<byte>, i: int, j: int, s: int)
    requires 0 < j < |pat| && j <= i < |text|
    requires forall t :: 0 <= t < j ==> text[i - j + t] == pat[t]
    requires i - j < s < i
    ensures OccursAt(pat, text, s) ==> IsBorderAt(pat, j, i - s)
  {
    if OccursAt(pat, text, s) {
      var k := i - s;
      OccursAtElements(pat, text, s);
      BorderElements(pat, j, k);
      forall t | 0 <= t < k ensures pat[t] == pat[j - k + t] {
        assert text[s + t] == pat[t];
        assert text[i - j + (j - k + t)] == pat[j - k + t];
      }
    }
  }

  /** After a mismatch at `text[i]` with `j > 0` bytes matched, falling back
      to `lps[j - 1]` skips no occurrence. */
  lemma FallbackSafe(text: seq<byte>, kp: KmpPattern, i: int, j: int)
    requires IsFailureFunction(kp.pattern, kp.lps)
    requires 0 < j < |kp.pattern| && j <= i < |text|
    requires forall t :: 0 <= t < j ==> text[i - j + t] == kp.pattern[t]
    requires text[i] != kp.pattern[j]
    requires forall s :: 0 <= s < i - j ==> !OccursAt(kp.pattern, text, s)
    ensures 0 <= kp.lps[j - 1] < j
    ensures forall t :: 0 <= t < kp.lps[j - 1] ==> text[i - kp.lps[j - 1] + t] == kp.pattern[t]
    ensures forall s :: 0 <= s < i - kp.lps[j - 1] ==> !OccursAt(kp.pattern, text, s)
  {
    var pat, l := kp.pattern, kp.lps[j - 1];
    assert LongestBorderAt(pat, j, l);
    BorderElements(pat, j, l);
    forall t | 0 <= t < l ensures text[i - l + t] == pat[t] {
      assert text[i - j + (j - l + t)] == pat[j - l + t];
    }
    forall s | i - j <= s < i - kp.lps[j - 1] ensures !OccursAt(pat, text, s) {
      if s + |pat| <= |text| {
        OccursAtElements(pat, text, s);
        if s > i - j {
          OccurrenceOverlapsMatch(text, pat, i, j, s);
        }
      }
    }
  }

  /** After a mismatch at `text[i]` with nothing matched, moving on to
      `text[i + 1]` skips no occurrence. */
  lemma AdvanceSafe(text: seq<byte>, kp: KmpPattern, i: int)
    requires 0 < |kp.pattern| && 0 <= i < |text| && text[i] != kp.pattern[0]
    requires forall s :: 0 <= s < i ==> !OccursAt(kp.pattern, text, s)
    ensures forall s :: 0 <= s < i + 1 ==> !OccursAt(kp.pattern, text, s)
  {
    if i + |kp.pattern| <= |text| {
      OccursAtElements(kp.pattern, text, i);
    }
  }

  /** `kmp_contains`: one comparison per test of a text byte against the
      pattern, whether it succeeds or not. Every text byte up to the end of
      the first occurrence (or of the text) is compared at least once, and
      the classic linear bound holds: at most two comparisons per byte, less
      the pattern length on a hit. */
  method KmpContains(text: seq<byte>, kp: KmpPattern, c: Counters) returns (found: bool, c': Counters)
    requires IsFailureFunction(kp.pattern, kp.lps)
    ensures found <==> kp.pattern != [] && OccursIn(kp.pattern, text)
    ensures OnlyCharsGrow(c, c')
    ensures kp.pattern == [] || |kp.pattern| > |text| ==> c' == c
    ensures c'.charComparisons <= c.charComparisons + 2 * |text|
    ensures 0 < |kp.pattern| <= |text| && !found ==> c'.charComparisons >= c.charComparisons + |text|
    ensures found ==> exists s :: FirstOccursAt(kp.pattern, text, s)
                                  && c.charComparisons + s + |kp.pattern| <= c'.charComparisons
                                  && c'.charComparisons <= c.charComparisons + 2 * s + |kp.pattern|
  {
    var n, m := |text|, |kp.pattern|;
    c' := c;
    if m == 0 || m > n {
      return false, c';
    }
    var i, j := 0, 0;
    while i < n
      invariant 0 <= j < m && j <= i <= n
      invariant forall t :: 0 <= t < j ==> text[i - j + t] == kp.pattern[t]
      invariant forall s :: 0 <= s < i - j ==> !OccursAt(kp.pattern, text, s)
      invariant OnlyCharsGrow(c, c')
      invariant c'.charComparisons + j <= c.charComparisons + 2 * i
      invariant c'.charComparisons >= c.charComparisons + i
      decreases n - i, j
    {
      c' := c'.(charComparisons := c'.charComparisons + 1);
      if text[i] == kp.pattern[j] {
        i, j := i + 1, j + 1;
        if j == m {
          OccursAtElements(kp.pattern, text, i - j);
          ghost var s := i - m;
          assert FirstOccursAt(kp.pattern, text, s);
          return true, c';
        }
      } else if j != 0 {
        FallbackSafe(text, kp, i, j);
        j := kp.lps[j - 1];
      } else {
        AdvanceSafe(text, kp, i);
        i := i + 1;
      }
    }
    assert forall s :: !OccursAt(kp.pattern, text, s);
    return false, c';
  }

  /** The KMP index of a pattern list: one entry per non-empty pattern, in
      order, each with its failure function. */
  ghost predicate KmpIndex(kmp: seq<KmpPattern>, patterns: seq<seq<byte>>) {
    |kmp| == |NonEmpty(patterns)|
    && forall k :: 0 <= k < |kmp| ==>
         kmp[k].pattern == NonEmpty(patterns)[k] && IsFailureFunction(kmp[k].pattern, kmp[k].lps)
  }

  /** The KMP case of `prepare_matcher`. */
  method PrepareKmp(patterns: seq<seq<byte>>) returns (kmp: seq<KmpPattern>)
    ensures KmpIndex(kmp, patterns)
  {
    kmp := [];
    for i := 0 to |patterns|
      invariant KmpIndex(kmp, patterns[..i])
    {
      var pat := patterns[i];
      assert patterns[..i + 1][..i] == patterns[..i];
      if pat == [] {
        continue;
      }
      var lps := BuildLps(pat);
      kmp := kmp + [KmpPattern(pat, lps)];
    }
    assert patterns[..|patterns|] == patterns;
  }
}
