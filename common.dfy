/** Shared vocabulary of the matching engine: bytes, the operation counters,
    and what it means for a pattern to occur in a text. */
module Common {

  /** One byte of a pattern or of a text row: the source reads every `char`
      as an `unsigned char`, so bytes are the values 0 to 255. */
  newtype byte = b: int | 0 <= b < 256

  datatype Option<T> = None | Some(value: T)

  /** The three operation accumulators of the source's `Counters` record.
      The source uses `long long`; the model uses unbounded naturals. */
  datatype Counters = Counters(charComparisons: nat, hashOperations: nat, tokenChecks: nat)

  /** The counters a scan starts from. */
  const Zero: Counters := Counters(0, 0, 0)

  /** `c'` differs from `c` at most by a larger byte-comparison count. */
  predicate OnlyCharsGrow(c: Counters, c': Counters) {
    c'.charComparisons >= c.charComparisons
    && c'.hashOperations == c.hashOperations
    && c'.tokenChecks == c.tokenChecks
  }

  /** `p` occurs in `t` starting at offset `s`. */
  predicate OccursAt<T(==)>(p: seq<T>, t: seq<T>, s: int) {
    0 <= s && s + |p| <= |t| && t[s..s + |p|] == p
  }

  /** `p` is a contiguous subsequence of `t`. */
  ghost predicate OccursIn<T>(p: seq<T>, t: seq<T>) {
    exists s :: OccursAt(p, t, s)
  }

  /** `s` is the leftmost offset at which `p` occurs in `t`. */
  ghost predicate FirstOccursAt<T>(p: seq<T>, t: seq<T>, s: int) {
    OccursAt(p, t, s) && forall s' :: 0 <= s' < s ==> !OccursAt(p, t, s')
  }

  /** The literal question every substring matcher answers: does some
      non-empty pattern of the list occur in the text? */
  ghost predicate AnyOccurs<T>(patterns: seq<seq<T>>, text: seq<T>) {
    exists k :: 0 <= k < |patterns| && patterns[k] != [] && OccursIn(patterns[k], text)
  }

  /** The patterns of the list that are not empty, in their original order:
      the patterns every algorithm indexes. */
  function NonEmpty<T>(patterns: seq<seq<T>>): (r: seq<seq<T>>)
    ensures |r| <= |patterns|
    ensures forall k :: 0 <= k < |r| ==> r[k] != []
  {
    if patterns == [] then []
    else
      var last := patterns[|patterns| - 1];
      NonEmpty(patterns[..|patterns| - 1]) + (if last == [] then [] else [last])
  }

  /** A pattern survives the filter exactly when it is in the list and not empty. */
  lemma {:induction false} NonEmptyMembers<T>(patterns: seq<seq<T>>, w: seq<T>)
    ensures w in NonEmpty(patterns) <==> w != [] && w in patterns
  {
    if patterns != [] {
      var init := patterns[..|patterns| - 1];
      NonEmptyMembers(init, w);
      assert patterns == init + [patterns[|patterns| - 1]];
    }
  }

  /** Asking the filtered list is asking the original list. */
  lemma AnyOccursNonEmpty<T>(patterns: seq<seq<T>>, text: seq<T>)
    ensures AnyOccurs(patterns, text)
            <==> exists k :: 0 <= k < |NonEmpty(patterns)| && OccursIn(NonEmpty(patterns)[k], text)
  {
    var ne := NonEmpty(patterns);
    if AnyOccurs(patterns, text) {
      var k :| 0 <= k < |patterns| && patterns[k] != [] && OccursIn(patterns[k], text);
      NonEmptyMembers(patterns, patterns[k]);
      var k' :| 0 <= k' < |ne| && ne[k'] == patterns[k];
      assert OccursIn(ne[k'], text);
    }
    if exists k :: 0 <= k < |ne| && OccursIn(ne[k], text) {
      var k :| 0 <= k < |ne| && OccursIn(ne[k], text);
      NonEmptyMembers(patterns, ne[k]);
      var k' :| 0 <= k' < |patterns| && patterns[k'] == ne[k];
      assert patterns[k'] != [] && OccursIn(patterns[k'], text);
    }
  }

  /** A pattern longer than the text occurs nowhere in it. */
  lemma TooLongNeverOccurs<T>(p: seq<T>, t: seq<T>)
    requires |p| > |t|
    ensures !OccursIn(p, t)
  {
  }

  /** An occurrence, read element by element. */
  lemma OccursAtElements<T>(p: seq<T>, t: seq<T>, s: int)
    requires 0 <= s && s + |p| <= |t|
    ensures OccursAt(p, t, s) <==> forall k :: 0 <= k < |p| ==> t[s + k] == p[k]
  {
    if forall k :: 0 <= k < |p| ==> t[s + k] == p[k] {
      assert t[s..s + |p|] == p;
    }
  }

  /** How far `p` agrees with `t` read from offset `i`. */
  function MatchedPrefix<T(==)>(p: seq<T>, t: seq<T>, i: nat): (k: nat)
    requires i + |p| <= |t|
    ensures k <= |p|
    decreases |p|
  {
    if p == [] || t[i] != p[0] then 0 else 1 + MatchedPrefix(p[1..], t, i + 1)
  }

  /** `MatchedPrefix` is the length of the longest prefix of `p` that
      matches at offset `i`. */
  lemma {:induction false} MatchedPrefixFacts<T>(p: seq<T>, t: seq<T>, i: nat)
    requires i + |p| <= |t|
    ensures forall q :: 0 <= q < MatchedPrefix(p, t, i) ==> t[i + q] == p[q]
    ensures MatchedPrefix(p, t, i) < |p| ==> t[i + MatchedPrefix(p, t, i)] != p[MatchedPrefix(p, t, i)]
    decreases |p|
  {
    if p != [] && t[i] == p[0] {
      MatchedPrefixFacts(p[1..], t, i + 1);
      assert MatchedPrefix(p, t, i) == 1 + MatchedPrefix(p[1..], t, i + 1);
      assert forall q :: 1 <= q < |p| ==> p[1..][q - 1] == p[q];
    }
  }

  /** The whole pattern matches exactly when it occurs there. */
  lemma MatchedPrefixOccurs<T>(p: seq<T>, t: seq<T>, i: nat)
    requires i + |p| <= |t|
    ensures MatchedPrefix(p, t, i) == |p| <==> OccursAt(p, t, i)
  {
    var k := MatchedPrefix(p, t, i);
    MatchedPrefixFacts(p, t, i);
    OccursAtElements(p, t, i);
    if k < |p| {
      assert t[i + k] != p[k];
    }
  }

  /** The comparisons a left-to-right check of the window at `i` makes when
      it counts every comparison, the failing one included: the matched
      prefix plus the mismatch, or the whole pattern. */
  function WindowCost<T(==)>(p: seq<T>, t: seq<T>, i: nat): (r: nat)
    requires i + |p| <= |t|
    ensures r <= |p|
    ensures p != [] ==> 1 <= r
    ensures OccursAt(p, t, i) ==> r == |p|
  {
    MatchedPrefixOccurs(p, t, i);
    var k := MatchedPrefix(p, t, i);
    if k == |p| then |p| else k + 1
  }

  /** The comparisons a left-to-right scan for `p` makes from offset `i`
      on: every window in turn, up to and including the first that
      matches. */
  function ScanCost<T(==)>(p: seq<T>, t: seq<T>, i: nat): nat
    decreases |t| + 1 - i
  {
    if i + |p| > |t| then 0
    else if MatchedPrefix(p, t, i) == |p| then |p|
    else WindowCost(p, t, i) + ScanCost(p, t, i + 1)
  }

  /** One window of the scan: its own comparisons, then the rest unless it
      matched. */
  lemma ScanCostStep<T>(p: seq<T>, t: seq<T>, i: nat)
    requires i + |p| <= |t|
    ensures ScanCost(p, t, i) == WindowCost(p, t, i) + (if OccursAt(p, t, i) then 0 else ScanCost(p, t, i + 1))
  {
    MatchedPrefixOccurs(p, t, i);
  }

  lemma ScanCostNone<T>(p: seq<T>, t: seq<T>, i: nat)
    requires p == [] || i + |p| > |t|
    ensures ScanCost(p, t, i) == 0
  {
    if p == [] && i <= |t| {
      assert MatchedPrefix(p, t, i) == 0;
    }
  }

  /** A scan with no hit costs between one and `|p|` comparisons per
      window. */
  lemma {:induction false} ScanCostMiss<T>(p: seq<T>, t: seq<T>, i: nat)
    requires p != [] && i + |p| <= |t| + 1
    requires forall s :: i <= s ==> !OccursAt(p, t, s)
    ensures |t| - |p| + 1 - i <= ScanCost(p, t, i) <= (|t| - |p| + 1 - i) * |p|
    decreases |t| + 1 - i
  {
    if i + |p| <= |t| {
      ScanCostStep(p, t, i);
      ScanCostMiss(p, t, i + 1);
      var w, rest, here := |t| - |p| + 1 - i, ScanCost(p, t, i + 1), WindowCost(p, t, i);
      assert ScanCost(p, t, i) == here + rest;
      PerWindowBound(here, rest, w - 1, |p|);
    } else {
      ScanCostNone(p, t, i);
    }
  }

  /** One more window of at most `m` comparisons after `k` windows of at
      most `m` each. */
  lemma PerWindowBound(here: int, rest: int, k: int, m: int)
    requires here <= m && rest <= k * m
    ensures here + rest <= (k + 1) * m
  {
  }

  /** A scan whose first hit is at `s` costs the whole pattern for that
      window and between one and `|p|` comparisons for each window before
      it. */
  lemma {:induction false} ScanCostHit<T>(p: seq<T>, t: seq<T>, i: nat, s: nat)
    requires p != [] && i <= s && OccursAt(p, t, s)
    requires forall s' :: i <= s' < s ==> !OccursAt(p, t, s')
    ensures s - i + |p| <= ScanCost(p, t, i) <= (s - i + 1) * |p|
    decreases s - i
  {
    ScanCostStep(p, t, i);
    if i < s {
      ScanCostHit(p, t, i + 1, s);
      var rest, here := ScanCost(p, t, i + 1), WindowCost(p, t, i);
      assert ScanCost(p, t, i) == here + rest;
      PerWindowBound(here, rest, s - i, |p|);
    }
  }

  /** A pattern that occurs has a first occurrence. */
  lemma FirstOccurrence<T>(p: seq<T>, t: seq<T>) returns (s: nat)
    requires OccursIn(p, t)
    ensures FirstOccursAt(p, t, s)
  {
    var k :| OccursAt(p, t, k);
    s := FirstUpTo(p, t, k);
  }

  lemma {:induction false} FirstUpTo<T>(p: seq<T>, t: seq<T>, k: nat) returns (s: nat)
    requires OccursAt(p, t, k)
    ensures s <= k && OccursAt(p, t, s) && forall s' :: 0 <= s' < s ==> !OccursAt(p, t, s')
    decreases k
  {
    if exists s' :: 0 <= s' < k && OccursAt(p, t, s') {
      var s' :| 0 <= s' < k && OccursAt(p, t, s');
      s := FirstUpTo(p, t, s');
    } else {
      s := k;
    }
  }
}
