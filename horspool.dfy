/** Horspool: the bad-character shift table (built in `prepare_matcher`) and
    the right-to-left window scan (`horspool_contains`). */
module Horspool {
  import opened Common

  /** A prepared Horspool pattern: the source's `HorspoolPattern`, with the
      256-entry `shift` array as a sequence. */
  datatype HorspoolPattern = HorspoolPattern(pattern: seq<byte>, shift: seq<int>)

  /** The rightmost position before `end` at which `b` occurs in `p`, or -1
      when there is none. */
  function RightmostBefore(p: seq<byte>, b: byte, end: int): (r: int)
    requires 0 <= end <= |p|
    ensures -1 <= r < end
    ensures r >= 0 ==> p[r] == b
    ensures forall q :: r < q < end ==> p[q] != b
  {
    if end == 0 then -1
    else if p[end - 1] == b then end - 1
    else RightmostBefore(p, b, end - 1)
  }

  /** The shift the table must hold for byte `b`: `m - 1 - i` for the
      rightmost `i < m - 1` with `p[i] == b`, and `m` when `b` does not occur
      in `p[..m - 1]`. */
  function ShiftFor(p: seq<byte>, b: byte): int
    requires p != []
  {
    |p| - 1 - RightmostBefore(p, b, |p| - 1)
  }

  /** `shift` is the bad-character table of `p`, for all 256 bytes. */
  ghost predicate IsShiftTable(p: seq<byte>, shift: seq<int>) {
    p != [] && |shift| == 256 && forall b: byte :: shift[b] == ShiftFor(p, b)
  }

  /** The table's promises: every entry lies in `[1, m]`; bytes absent from
      `p[..m - 1]` shift by `m`; a byte whose rightmost occurrence before the
      last position is `i` shifts by `m - 1 - i`; and no shift jumps over a
      position where the byte occurs. */
  lemma ShiftTableFacts(p: seq<byte>, shift: seq<int>, b: byte)
    requires IsShiftTable(p, shift)
    ensures 1 <= shift[b] <= |p|
    ensures (forall q :: 0 <= q < |p| - 1 ==> p[q] != b) ==> shift[b] == |p|
    ensures forall i :: 0 <= i < |p| - 1 && p[i] == b && (forall q :: i < q < |p| - 1 ==> p[q] != b)
                        ==> shift[b] == |p| - 1 - i
    ensures forall q :: |p| - 1 - shift[b] < q < |p| - 1 ==> p[q] != b
  {
    var r := RightmostBefore(p, b, |p| - 1);
    assert shift[b] == |p| - 1 - r;
    if forall q :: 0 <= q < |p| - 1 ==> p[q] != b {
      assert r == -1;
    }
  }

  /** The loop at algorithms.cpp:307-310: fill with `m`, then let every
      position but the last overwrite the entry of its byte. */
  method BuildShiftTable(p: seq<byte>) returns (shift: seq<int>)
    requires p != []
    ensures IsShiftTable(p, shift)
  {
    var m := |p|;
    var table := new int[256](_ => m);
    var i := 0;
    while i + 1 < m
      invariant 0 <= i <= m - 1
      invariant forall b: byte :: table[b] == m - 1 - RightmostBefore(p, b, i)
    {
      table[p[i]] := m - 1 - i;
      i := i + 1;
    }
    shift := table[..];
  }

  /** After a mismatch in the window ending at `i`, shifting by the table
      entry of `text[i]` skips no occurrence. */
  lemma ShiftSafe(text: seq<byte>, hp: HorspoolPattern, i: int)
    requires IsShiftTable(hp.pattern, hp.shift)
    requires |hp.pattern| - 1 <= i < |text|
    ensures 1 <= hp.shift[text[i]] <= |hp.pattern|
    ensures forall s :: i - |hp.pattern| + 1 < s < i - |hp.pattern| + 1 + hp.shift[text[i]]
                        ==> !OccursAt(hp.pattern, text, s)
  {
    var p, m := hp.pattern, |hp.pattern|;
    ShiftTableFacts(p, hp.shift, text[i]);
    forall s | i - m + 1 < s < i - m + 1 + hp.shift[text[i]] ensures !OccursAt(p, text, s) {
      if s + m <= |text| {
        OccursAtElements(p, text, s);
        assert p[i - s] != text[i];
      }
    }
  }

  /** `horspool_contains`: windows are compared from their last byte
      backwards, one comparison per byte compared, and on a mismatch the
      window moves by the table entry of its own last byte. */
  method HorspoolContains(text: seq<byte>, hp: HorspoolPattern, c: Counters)
    returns (found: bool, c': Counters)
    requires hp.pattern != [] ==> IsShiftTable(hp.pattern, hp.shift)
    ensures found <==> hp.pattern != [] && OccursIn(hp.pattern, text)
    ensures OnlyCharsGrow(c, c')
    ensures hp.pattern == [] || |hp.pattern| > |text| ==> c' == c
    ensures 0 < |hp.pattern| <= |text| ==>
              c.charComparisons + 1 <= c'.charComparisons
              <= c.charComparisons + |hp.pattern| * (|text| - |hp.pattern| + 1)
  {
    var m, n := |hp.pattern|, |text|;
    c' := c;
    if m == 0 || m > n {
      return false, c';
    }
    var i := m - 1;
    ghost var windows := 0;
    while i < n
      invariant m - 1 <= i
      invariant forall s :: 0 <= s < i - m + 1 ==> !OccursAt(hp.pattern, text, s)
      invariant OnlyCharsGrow(c, c')
      invariant windows <= i - m + 1 && windows <= n - m + 1 && (windows >= 1 || i == m - 1)
      invariant c.charComparisons + windows <= c'.charComparisons <= c.charComparisons + windows * m
      decreases n - i
    {
      var equal;
      ghost var before := c'.charComparisons - c.charComparisons;
      equal, c' := CompareBackward(text, hp.pattern, i, c');
      PerWindowBound(BackCost(hp.pattern, text, i), before, windows, m);
      windows := windows + 1;
      if equal {
        WindowsBound(windows, n - m + 1, m);
        return true, c';
      }
      ShiftSafe(text, hp, i);
      var lastByte := text[i];
      i := i + hp.shift[lastByte];
    }
    assert forall s :: !OccursAt(hp.pattern, text, s);
    WindowsBound(windows, n - m + 1, m);
    return false, c';
  }

  /** At most `w` windows of at most `m` comparisons each. */
  lemma WindowsBound(v: nat, w: nat, m: nat)
    requires v <= w
    ensures v * m <= m * w
  {
  }

  /** How far `p` agrees with the window of `t` that ends at `i`, read from
      the window's last byte backwards. */
  function MatchedSuffix(p: seq<byte>, t: seq<byte>, i: int): (k: nat)
    requires |p| - 1 <= i < |t|
    ensures k <= |p|
    decreases |p|
  {
    if p == [] || t[i] != p[|p| - 1] then 0 else 1 + MatchedSuffix(p[..|p| - 1], t, i - 1)
  }

  /** `MatchedSuffix` is the length of the longest suffix of `p` that
      matches the window ending at `i`. */
  lemma {:induction false} MatchedSuffixFacts(p: seq<byte>, t: seq<byte>, i: int)
    requires |p| - 1 <= i < |t|
    ensures forall q :: |p| - MatchedSuffix(p, t, i) <= q < |p| ==> t[i - |p| + 1 + q] == p[q]
    ensures MatchedSuffix(p, t, i) < |p| ==> t[i - MatchedSuffix(p, t, i)] != p[|p| - 1 - MatchedSuffix(p, t, i)]
    decreases |p|
  {
    if p != [] && t[i] == p[|p| - 1] {
      var init := p[..|p| - 1];
      MatchedSuffixFacts(init, t, i - 1);
      assert MatchedSuffix(p, t, i) == 1 + MatchedSuffix(init, t, i - 1);
      assert forall q :: 0 <= q < |init| ==> init[q] == p[q];
    }
  }

  /** The whole pattern matches backwards exactly when it occurs there. */
  lemma MatchedSuffixOccurs(p: seq<byte>, t: seq<byte>, i: int)
    requires |p| - 1 <= i < |t|
    ensures MatchedSuffix(p, t, i) == |p| <==> OccursAt(p, t, i - |p| + 1)
  {
    var k := MatchedSuffix(p, t, i);
    MatchedSuffixFacts(p, t, i);
    OccursAtElements(p, t, i - |p| + 1);
    if k < |p| {
      assert t[i - |p| + 1 + (|p| - 1 - k)] != p[|p| - 1 - k];
    }
  }

  /** The comparisons the backward check of the window ending at `i` makes,
      the failing one included: the matched suffix plus the mismatch, or the
      whole pattern. */
  function BackCost(p: seq<byte>, t: seq<byte>, i: int): (r: nat)
    requires |p| - 1 <= i < |t|
    ensures r <= |p|
    ensures p != [] ==> 1 <= r
  {
    var k := MatchedSuffix(p, t, i);
    if k == |p| then |p| else k + 1
  }

  /** The inner loop: compare the window ending at `i` from its last byte
      backwards, stopping at the first mismatch; one comparison per byte
      compared. */
  method CompareBackward(text: seq<byte>, pattern: seq<byte>, i: nat, c: Counters)
    returns (equal: bool, c': Counters)
    requires |pattern| - 1 <= i < |text|
    ensures equal <==> OccursAt(pattern, text, i - |pattern| + 1)
    ensures c' == c.(charComparisons := c.charComparisons + BackCost(pattern, text, i))
  {
    var m := |pattern|;
    c' := c;
    MatchedSuffixFacts(pattern, text, i);
    MatchedSuffixOccurs(pattern, text, i);
    var k := 0;
    while k < m
      invariant 0 <= k <= MatchedSuffix(pattern, text, i)
      invariant c' == c.(charComparisons := c.charComparisons + k)
    {
      c' := c'.(charComparisons := c'.charComparisons + 1);
      var patternByte := pattern[m - 1 - k];
      var textByte := text[i - k];
      if patternByte != textByte {
        break;
      }
      k := k + 1;
    }
    equal := k == m;
  }

  /** The Horspool index of a pattern list: one entry per non-empty pattern,
      in order, each with its shift table. */
  ghost predicate HorspoolIndex(index: seq<HorspoolPattern>, patterns: seq<seq<byte>>) {
    |index| == |NonEmpty(patterns)|
    && forall k :: 0 <= k < |index| ==>
         index[k].pattern == NonEmpty(patterns)[k] && IsShiftTable(index[k].pattern, index[k].shift)
  }

  /** The Horspool case of `prepare_matcher`. */
  method PrepareHorspool(patterns: seq<seq<byte>>) returns (index: seq<HorspoolPattern>)
    ensures HorspoolIndex(index, patterns)
  {
    index := [];
    for i := 0 to |patterns|
      invariant HorspoolIndex(index, patterns[..i])
    {
      var pat := patterns[i];
      assert patterns[..i + 1][..i] == patterns[..i];
      if pat == [] {
        continue;
      }
      var shift := BuildShiftTable(pat);
      index := index + [HorspoolPattern(pat, shift)];
    }
    assert patterns[..|patterns|] == patterns;
  }
}
