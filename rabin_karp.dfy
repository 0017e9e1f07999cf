/** Rabin–Karp: modular arithmetic (`pow_mod`), the base-256 Horner hash,
    the length groups built in `prepare_matcher`, and the rolling scan
    (`rk_group_contains`, `rabin_karp_contains`). */
module RabinKarp {
  import opened Common
  import BruteForce

  /** `RK_MOD`, `RK_BASE`, and the range of `std::uint64_t`. */
  const P: int := 1_000_000_007
  const Base: int := 256
  const U64: int := 0x1_0000_0000_0000_0000
  const U32: int := 0x1_0000_0000

  function Pow(b: int, e: nat): int {
    if e == 0 then 1 else b * Pow(b, e - 1)
  }

  // ---------------------------------------------------------------------
  // Arithmetic modulo P

  lemma ModMultiple(k: int, r: int)
    ensures (k * P + r) % P == r % P
  {
  }

  lemma ModMul(x: int, y: int)
    ensures (x * y) % P == ((x % P) * (y % P)) % P
  {
    var qx, rx := x / P, x % P;
    var qy, ry := y / P, y % P;
    assert x * y == (qx * y) * P + rx * y by {
      assert x == qx * P + rx;
    }
    ModMultiple(qx * y, rx * y);
    assert rx * y == (rx * qy) * P + rx * ry by {
      assert y == qy * P + ry;
    }
    ModMultiple(rx * qy, rx * ry);
  }

  lemma ModAdd(x: int, y: int)
    ensures (x + y) % P == ((x % P) + y) % P
  {
    ModMultiple(x / P, x % P + y);
  }

  lemma ModSub(x: int, y: int)
    ensures (x - y) % P == ((x % P) + P - (y % P)) % P
  {
    ModMultiple(x / P - y / P - 1, x % P + P - y % P);
  }

  lemma MulBelow(x: int, y: int, xs: int, ys: int)
    requires 0 <= x < xs && 0 <= y < ys
    ensures x * y < xs * ys
  {
    assert x * y <= x * ys;
  }

  lemma {:induction false} PowOfResidue(x: int, k: nat)
    ensures Pow(x % P, k) % P == Pow(x, k) % P
  {
    if k > 0 {
      var y := x % P;
      var a, b := Pow(y, k - 1), Pow(x, k - 1);
      PowOfResidue(x, k - 1);
      assert a % P == b % P;
      assert Pow(y, k) == y * a && Pow(x, k) == x * b;
      ModMul(y, a);
      ModMul(x, b);
      assert y % P == x % P;
    }
  }

  lemma {:induction false} PowSquare(x: int, k: nat)
    ensures Pow(x * x, k) == Pow(x, 2 * k)
  {
    if k > 0 {
      PowSquare(x, k - 1);
      assert Pow(x, 2 * k) == x * (x * Pow(x, 2 * k - 2));
    }
  }

  /** One step of the square-and-multiply loop keeps
      `result * base^exp` congruent modulo P. */
  lemma PowModStep(result: int, base: int, exp: nat)
    requires exp > 0
    ensures var result' := if exp % 2 == 1 then (result * base) % P else result;
            (result' * Pow((base * base) % P, exp / 2)) % P == (result * Pow(base, exp)) % P
  {
    var q := exp / 2;
    var pq := Pow(base * base, q);
    var pqr := Pow((base * base) % P, q);
    PowSquare(base, q);
    PowOfResidue(base * base, q);
    if exp % 2 == 1 {
      assert exp - 1 == 2 * q;
      assert Pow(base, exp) == base * Pow(base, exp - 1);
      OddStep(result, base, pq, pqr);
    } else {
      assert exp == 2 * q;
      EvenStep(result, pq, pqr);
    }
  }

  /** An even exponent: only the squared base changes, and it is congruent. */
  lemma EvenStep(result: int, pq: int, pqr: int)
    requires pqr % P == pq % P
    ensures (result * pqr) % P == (result * pq) % P
  {
    ModMul(result, pqr);
    ModMul(result, pq);
  }

  /** An odd exponent: one factor of `base` moves into `result`. */
  lemma OddStep(result: int, base: int, pq: int, pqr: int)
    requires pqr % P == pq % P
    ensures (((result * base) % P) * pqr) % P == (result * (base * pq)) % P
  {
    var rb := result * base;
    var x := rb % P;
    assert x % P == rb % P;
    ModMul(x, pqr);
    ModMul(rb, pq);
    assert (x * pqr) % P == (rb * pq) % P;
    assert rb * pq == result * (base * pq);
  }

  /** `pow_mod`: square-and-multiply with every product taken in unsigned
      64-bit arithmetic (wrapping modulo 2^64) before the reduction modulo
      P. The bit tests `exp & 1` and `exp >>= 1` are `% 2` and `/ 2`. The
      result is always reduced; it is the true power modulo P whenever the
      first squaring cannot wrap, that is when `b < 2^32`. */
  method PowMod(b: nat, e: nat) returns (r: nat)
    requires b < U64
    ensures r < P
    ensures b < U32 ==> r == Pow(b, e) % P
  {
    var result: nat := 1;
    var base: nat := b;
    var exp: nat := e;
    while exp > 0
      invariant result < P && base < U64
      invariant b < U32 ==> base < U32 && (result * Pow(base, exp)) % P == Pow(b, e) % P
      decreases exp
    {
      ghost var result0, base0, exp0 := result, base, exp;
      if exp % 2 == 1 {
        result := (result * base) % U64 % P;
      }
      base := (base * base) % U64 % P;
      exp := exp / 2;
      if b < U32 {
        PowModKeeps(b, e, result0, base0, exp0, result, base);
      }
    }
    r := result;
  }

  /** The loop invariant of `pow_mod` survives one iteration, and no product
      wraps while `base < 2^32`. */
  lemma PowModKeeps(b: int, e: nat, result: int, base: int, exp: nat, result': int, base': int)
    requires exp > 0 && 0 <= result < P && 0 <= base < U32
    requires (result * Pow(base, exp)) % P == Pow(b, e) % P
    requires result' == if exp % 2 == 1 then (result * base) % U64 % P else result
    requires base' == (base * base) % U64 % P
    ensures base' < U32 && (result' * Pow(base', exp / 2)) % P == Pow(b, e) % P
  {
    NoWrap(result, base);
    NoWrap(base, base);
    PowModStep(result, base, exp);
  }

  /** Two factors below 2^32 multiply without wrapping in 64 bits. */
  lemma NoWrap(x: int, y: int)
    requires 0 <= x < U32 && 0 <= y < U32
    ensures (x * y) % U64 == x * y
  {
    MulBelow(x, y, U32, U32);
    var z := x * y;
    assert 0 <= z < U64;
    assert z % U64 == z;
  }

  // ---------------------------------------------------------------------
  // The Horner hash

  /** The exact base-256 value of `w`, most significant byte first. */
  function HornerValue(w: seq<byte>): nat {
    if w == [] then 0 else HornerValue(w[..|w| - 1]) * Base + w[|w| - 1] as int
  }

  /** The hash the source computes for a pattern or a window. */
  function Hash(w: seq<byte>): (h: nat)
    ensures h < P
  {
    HornerValue(w) % P
  }

  /** The source's incremental step `(hash * 256 + b) % P` extends the hash
      by one byte. */
  lemma HashSnoc(w: seq<byte>, b: byte)
    ensures Hash(w + [b]) == (Hash(w) * Base + b as int) % P
  {
    assert (w + [b])[..|w|] == w;
    var v := HornerValue(w);
    ModAdd(v * Base, b as int);
    ModMul(v, Base);
    ModMul(Hash(w), Base);
    ModAdd(Hash(w) * Base, b as int);
  }

  /** The leading byte of a window contributes `byte * 256^(m-1)`. */
  lemma {:induction false} HornerFront(a: byte, v: seq<byte>)
    ensures HornerValue([a] + v) == a as int * Pow(Base, |v|) + HornerValue(v)
    decreases |v|
  {
    if v == [] {
      assert [a] + v == [a];
      assert [a][..0] == [];
    } else {
      var init := v[..|v| - 1];
      HornerFront(a, init);
      assert ([a] + v)[..|v|] == [a] + init;
      assert ([a] + v)[|v|] == v[|v| - 1];
      calc {
        HornerValue([a] + v);
        HornerValue([a] + init) * Base + v[|v| - 1] as int;
        (a as int * Pow(Base, |init|) + HornerValue(init)) * Base + v[|v| - 1] as int;
        a as int * (Pow(Base, |init|) * Base) + (HornerValue(init) * Base + v[|v| - 1] as int);
        a as int * Pow(Base, |v|) + HornerValue(v);
      }
    }
  }

  /** Removing the outgoing byte: with the precomputed `256^(m-1) mod P`,
      the source's `(hash + P - outgoing) % P` is the hash of the window
      without its first byte. */
  lemma DropFront(w: seq<byte>, hash: int, highBase: int)
    requires |w| > 0 && hash == Hash(w) && highBase == Pow(Base, |w| - 1) % P
    ensures (hash + P - (w[0] as int * highBase) % P) % P == Hash(w[1..])
  {
    assert [w[0]] + w[1..] == w;
    HornerFront(w[0], w[1..]);
    SubtractLeading(HornerValue(w), HornerValue(w[1..]), w[0] as int, Pow(Base, |w| - 1), hash, highBase);
  }

  /** The arithmetic behind `DropFront`. */
  lemma SubtractLeading(hw: int, hv: int, a: int, pw: int, hash: int, highBase: int)
    requires hw == a * pw + hv && hash == hw % P && highBase == pw % P && 0 <= a < P
    ensures (hash + P - (a * highBase) % P) % P == hv % P
  {
    ModMul(a, pw);
    ModMul(a, highBase);
    assert (a * highBase) % P == (a * pw) % P;
    ModSub(hw, a * pw);
  }

  /** The source's roll: drop the outgoing byte, then append the incoming
      one; the result is the hash of the next window. */
  lemma RollHash(w: seq<byte>, b: byte, hash: int, highBase: int)
    requires |w| > 0 && hash == Hash(w) && highBase == Pow(Base, |w| - 1) % P
    ensures ((hash + P - (w[0] as int * highBase) % P) % P * Base + b as int) % P == Hash(w[1..] + [b])
  {
    DropFront(w, hash, highBase);
    HashSnoc(w[1..], b);
  }

  // ---------------------------------------------------------------------
  // Length groups

  /** The source's `RKGroup`: patterns of one length, the weight of a
      window's leading byte, and the pattern indices filed by hash. */
  datatype RKGroup = RKGroup(length: nat, highBase: nat, patterns: seq<seq<byte>>, bucket: map<nat, seq<nat>>)

  /** What a group promises its scan: every pattern has the group's length,
      `highBase` is `256^(length-1) mod P` (1 for the still-empty group),
      every bucket entry names a pattern whose hash is the bucket's key, and
      every pattern is filed under its hash. */
  ghost predicate ValidGroup(g: RKGroup) {
    g.highBase == (if g.length > 0 then Pow(Base, g.length - 1) % P else 1)
    && (forall k :: 0 <= k < |g.patterns| ==> |g.patterns[k]| == g.length)
    && (forall h, t :: h in g.bucket && 0 <= t < |g.bucket[h]| ==>
          g.bucket[h][t] < |g.patterns| && Hash(g.patterns[g.bucket[h][t]]) == h)
    && (forall k :: 0 <= k < |g.patterns| ==> Hash(g.patterns[k]) in g.bucket && k in g.bucket[Hash(g.patterns[k])])
  }

  /** Some pattern of the group occurs at offset `s`. */
  ghost predicate GroupHitAt(g: RKGroup, text: seq<byte>, s: int) {
    exists k :: 0 <= k < |g.patterns| && OccursAt(g.patterns[k], text, s)
  }

  /** Offset `s` is the first at which some pattern of the group occurs. */
  ghost predicate FirstGroupHit(g: RKGroup, text: seq<byte>, s: int) {
    GroupHitAt(g, text, s) && forall s' :: 0 <= s' < s ==> !GroupHitAt(g, text, s')
  }

  /** A pattern that occurs at `start` is filed under the hash of that
      window. */
  lemma FiledUnderWindowHash(g: RKGroup, text: seq<byte>, start: nat, k: int)
    requires ValidGroup(g) && start + g.length <= |text| && 0 <= k < |g.patterns|
    ensures OccursAt(g.patterns[k], text, start) ==>
              g.patterns[k] == text[start..start + g.length]
              && Hash(text[start..start + g.length]) in g.bucket
              && k in g.bucket[Hash(text[start..start + g.length])]
  {
  }

  /** The byte comparisons `check_bucket` makes against the patterns
      listed in `ids`, in order, until one equals the window at `start`
      (an id out of range, which a valid group never files, costs
      nothing). */
  function BucketCost(g: RKGroup, ids: seq<nat>, text: seq<byte>, start: nat): nat
  {
    if ids == [] then 0
    else if ids[0] >= |g.patterns| || start + |g.patterns[ids[0]]| > |text| then 0
    else
      var pattern := g.patterns[ids[0]];
      WindowCost(pattern, text, start)
      + (if MatchedPrefix(pattern, text, start) == |pattern| then 0 else BucketCost(g, ids[1..], text, start))
  }

  /** The byte comparisons `check_bucket` makes for the window at `start`
      whose hash is `hash`: none when no pattern is filed under it. */
  function CheckCost(g: RKGroup, hash: nat, text: seq<byte>, start: nat): nat
  {
    if hash in g.bucket then BucketCost(g, g.bucket[hash], text, start) else 0
  }

  /** The byte comparisons of the bucket checks for the windows starting at
      `s` and after, up to and including the first window that hits. */
  ghost function WindowsCost(g: RKGroup, text: seq<byte>, s: nat): nat
    decreases |text| + 1 - s
  {
    if s + g.length > |text| then 0
    else
      CheckCost(g, Hash(text[s..s + g.length]), text, s)
      + (if GroupHitAt(g, text, s) then 0 else WindowsCost(g, text, s + 1))
  }

  /** A bucket costs at most one full comparison per pattern it lists. */
  lemma {:induction false} BucketCostBound(g: RKGroup, ids: seq<nat>, text: seq<byte>, start: nat)
    requires forall t :: 0 <= t < |ids| ==> ids[t] < |g.patterns| && |g.patterns[ids[t]]| == g.length
    requires start + g.length <= |text|
    ensures BucketCost(g, ids, text, start) <= |ids| * g.length
    ensures ids != [] && g.length > 0 ==> BucketCost(g, ids, text, start) >= 1
  {
    if ids != [] {
      BucketCostBound(g, ids[1..], text, start);
      PerWindowBound(WindowCost(g.patterns[ids[0]], text, start), BucketCost(g, ids[1..], text, start), |ids| - 1, g.length);
    }
  }

  /** `check_bucket`, the lambda inside `rk_group_contains`: compare the
      window byte by byte with every pattern filed under its hash, one
      comparison per byte compared. Given the window's true hash it reports
      exactly whether some group pattern equals the window; a hash collision
      costs comparisons but never a false hit. */
  method CheckBucket(text: seq<byte>, g: RKGroup, hash: nat, start: nat, c: Counters)
    returns (found: bool, c': Counters)
    requires ValidGroup(g) && start + g.length <= |text|
    requires hash == Hash(text[start..start + g.length])
    ensures found <==> GroupHitAt(g, text, start)
    ensures c' == c.(charComparisons := c.charComparisons + CheckCost(g, hash, text, start))
  {
    c' := c;
    var m := g.length;
    ghost var window := text[start..start + m];
    if hash !in g.bucket {
      forall k | 0 <= k < |g.patterns| ensures !OccursAt(g.patterns[k], text, start) {
        FiledUnderWindowHash(g, text, start, k);
      }
      return false, c';
    }
    var ids := g.bucket[hash];
    var t := 0;
    while t < |ids|
      invariant 0 <= t <= |ids|
      invariant forall t' :: 0 <= t' < t ==> g.patterns[ids[t']] != window
      invariant c'.charComparisons + BucketCost(g, ids[t..], text, start) == c.charComparisons + BucketCost(g, ids, text, start)
      invariant c' == c.(charComparisons := c'.charComparisons)
    {
      var idx := ids[t];
      var pattern := g.patterns[idx];
      assert ids[t..][0] == idx && ids[t..][1..] == ids[t + 1..];
      MatchedPrefixOccurs(pattern, text, start);
      var equal;
      equal, c' := BruteForce.CompareWindow(text, pattern, start, c');
      if equal {
        assert OccursAt(g.patterns[idx], text, start);
        return true, c';
      }
      t := t + 1;
    }
    forall k | 0 <= k < |g.patterns| ensures !OccursAt(g.patterns[k], text, start) {
      FiledUnderWindowHash(g, text, start, k);
    }
    return false, c';
  }

  /** No window starts past `|text| - length`. */
  lemma NoHitPastEnd(g: RKGroup, text: seq<byte>, s: int)
    requires ValidGroup(g)
    ensures s > |text| - g.length ==> !GroupHitAt(g, text, s)
  {
  }

  /** The first loop of `rk_group_contains`: the hash of the first `m`
      bytes, one hash operation per byte. Every intermediate value stays
      below 2^64. */
  method HashPrefix(text: seq<byte>, m: nat, c: Counters) returns (hash: nat, c': Counters)
    requires m <= |text|
    ensures hash == Hash(text[..m])
    ensures c' == c.(hashOperations := c.hashOperations + m)
  {
    hash := 0;
    c' := c;
    var i := 0;
    while i < m
      invariant 0 <= i <= m
      invariant hash == Hash(text[..i])
      invariant c' == c.(hashOperations := c.hashOperations + i)
    {
      assert hash * Base + text[i] as int < U64;
      assert text[..i + 1] == text[..i] + [text[i]];
      HashSnoc(text[..i], text[i]);
      hash := (hash * Base + text[i] as int) % P;
      c' := c'.(hashOperations := c'.hashOperations + 1);
      i := i + 1;
    }
  }

  /** The roll from the window ending before `i` to the window ending at `i`,
      in the text's own indices; the product with `highBase` fits in 64
      bits. */
  lemma RollWindow(text: seq<byte>, i: int, m: int, hash: int, highBase: int)
    requires 0 < m <= i < |text| && hash == Hash(text[i - m..i]) && highBase == Pow(Base, m - 1) % P
    ensures text[i - m] as int * highBase < U64
    ensures ((hash + P - (text[i - m] as int * highBase) % P) % P * Base + text[i] as int) % P
            == Hash(text[i - m + 1..i + 1])
  {
    var w, b := text[i - m..i], text[i];
    assert w[0] == text[i - m];
    assert w[1..] + [b] == text[i - m + 1..i + 1];
    RollHash(w, b, hash, highBase);
    MulBelow(w[0] as int, highBase, 256, P);
  }

  /** `rk_group_contains`: hash the first window (one hash operation per
      byte) and check its bucket, then roll over the rest of the text. The
      result is exact, and the hash operations count `m`, plus 2 for every
      window after the first up to the one that hit (or the last one). */
  method RkGroupContains(text: seq<byte>, g: RKGroup, c: Counters) returns (found: bool, c': Counters)
    requires ValidGroup(g)
    ensures found <==> g.length > 0 && exists s :: GroupHitAt(g, text, s)
    ensures c'.tokenChecks == c.tokenChecks && c'.charComparisons >= c.charComparisons
    ensures g.length == 0 || g.length > |text| ==> c' == c
    ensures 0 < g.length <= |text| && !found ==>
              c'.hashOperations == c.hashOperations + g.length + 2 * (|text| - g.length)
    ensures found ==> exists s :: FirstGroupHit(g, text, s) && c'.hashOperations == c.hashOperations + g.length + 2 * s
    ensures 0 < g.length <= |text| ==> c'.charComparisons == c.charComparisons + WindowsCost(g, text, 0)
  {
    var m, n := g.length, |text|;
    c' := c;
    if m == 0 || m > n {
      if m > n {
        forall s ensures !GroupHitAt(g, text, s) {
          NoHitPastEnd(g, text, s);
        }
      }
      return false, c';
    }
    var hash;
    hash, c' := HashPrefix(text, m, c');
    assert text[..m] == text[0..m];
    found, c' := CheckBucket(text, g, hash, 0, c');
    assert WindowsCost(g, text, 0) == CheckCost(g, hash, text, 0) + (if found then 0 else WindowsCost(g, text, 1));
    if found {
      assert FirstGroupHit(g, text, 0);
      return true, c';
    }
    found, c' := RollingScan(text, g, hash, c');
  }

  /** The second loop of `rk_group_contains`, once the first window has
      missed: drop the byte leaving the window, take in the next one (two
      hash operations) and check the new window's bucket, until one hits
      or the text ends. */
  method RollingScan(text: seq<byte>, g: RKGroup, hash0: nat, c: Counters) returns (found: bool, c': Counters)
    requires ValidGroup(g) && 0 < g.length <= |text|
    requires hash0 == Hash(text[..g.length]) && !GroupHitAt(g, text, 0)
    ensures found <==> exists s :: GroupHitAt(g, text, s)
    ensures c'.tokenChecks == c.tokenChecks
    ensures c'.charComparisons == c.charComparisons + WindowsCost(g, text, 1)
    ensures !found ==> c'.hashOperations == c.hashOperations + 2 * (|text| - g.length)
    ensures found ==> exists s :: FirstGroupHit(g, text, s) && c'.hashOperations == c.hashOperations + 2 * s
  {
    var m, n := g.length, |text|;
    var hash := hash0;
    c' := c;
    assert text[..m] == text[m - m..m];
    var i := m;
    while i < n
      invariant m <= i <= n
      invariant hash == Hash(text[i - m..i])
      invariant forall s' :: 0 <= s' <= i - m ==> !GroupHitAt(g, text, s')
      invariant c'.hashOperations == c.hashOperations + 2 * (i - m)
      invariant c'.tokenChecks == c.tokenChecks
      invariant c'.charComparisons + WindowsCost(g, text, i - m + 1) == c.charComparisons + WindowsCost(g, text, 1)
    {
      hash, found, c' := NextWindow(text, g, i, hash, c');
      if found {
        assert FirstGroupHit(g, text, i - m + 1);
        return true, c';
      }
      NoGroupHitExtend(g, text, i - m + 1);
      i := i + 1;
    }
    forall s ensures !GroupHitAt(g, text, s) {
      NoHitPastEnd(g, text, s);
    }
    return false, c';
  }

  /** A miss at `k` after misses at every offset before it. */
  lemma NoGroupHitExtend(g: RKGroup, text: seq<byte>, k: int)
    requires forall s' :: 0 <= s' < k ==> !GroupHitAt(g, text, s')
    requires !GroupHitAt(g, text, k)
    ensures forall s' :: 0 <= s' <= k ==> !GroupHitAt(g, text, s')
  {
  }

  /** One pass of that loop, at `i`: roll the hash onto the window
      starting at `i - m + 1` and check the bucket of that window. */
  method NextWindow(text: seq<byte>, g: RKGroup, i: nat, hash: nat, c: Counters)
    returns (hash': nat, found: bool, c': Counters)
    requires ValidGroup(g) && 0 < g.length <= i < |text| && hash == Hash(text[i - g.length..i])
    ensures hash' == Hash(text[i - g.length + 1..i + 1])
    ensures found <==> GroupHitAt(g, text, i - g.length + 1)
    ensures c'.hashOperations == c.hashOperations + 2 && c'.tokenChecks == c.tokenChecks
    ensures c'.charComparisons + (if found then 0 else WindowsCost(g, text, i - g.length + 2))
            == c.charComparisons + WindowsCost(g, text, i - g.length + 1)
  {
    var m := g.length;
    RollWindow(text, i, m, hash, g.highBase);
    var outgoing := (text[i - m] as int * g.highBase) % P;
    hash' := (hash + P - outgoing) % P;
    hash' := (hash' * Base + text[i] as int) % P;
    c' := c.(hashOperations := c.hashOperations + 2);
    var start := i - m + 1;
    assert text[start..start + m] == text[i - m + 1..i + 1];
    found, c' := CheckBucket(text, g, hash', start, c');
    assert WindowsCost(g, text, start) == CheckCost(g, hash', text, start) + (if found then 0 else WindowsCost(g, text, start + 1));
  }

  /** Some group of the list finds one of its patterns in the text. */
  ghost predicate AnyGroupHit(groups: seq<RKGroup>, text: seq<byte>) {
    exists k :: 0 <= k < |groups| && groups[k].length > 0 && exists s :: GroupHitAt(groups[k], text, s)
  }

  /** `rabin_karp_contains`: the groups in turn, stopping at the first hit. */
  method RabinKarpContains(text: seq<byte>, groups: seq<RKGroup>, c: Counters) returns (found: bool, c': Counters)
    requires forall k :: 0 <= k < |groups| ==> ValidGroup(groups[k])
    ensures found <==> AnyGroupHit(groups, text)
    ensures c'.tokenChecks == c.tokenChecks
    ensures c'.charComparisons >= c.charComparisons && c'.hashOperations >= c.hashOperations
  {
    c' := c;
    var k := 0;
    while k < |groups|
      invariant 0 <= k <= |groups|
      invariant forall k' :: 0 <= k' < k && groups[k'].length > 0 ==> !exists s :: GroupHitAt(groups[k'], text, s)
      invariant c'.tokenChecks == c.tokenChecks
      invariant c'.charComparisons >= c.charComparisons && c'.hashOperations >= c.hashOperations
    {
      found, c' := RkGroupContains(text, groups[k], c');
      if found {
        return true, c';
      }
      k := k + 1;
    }
    return false, c';
  }

  // ---------------------------------------------------------------------
  // Building the groups (the Rabin–Karp case of `prepare_matcher`)

  /** The hash loop `prepare_matcher` runs over each pattern. */
  method PatternHash(w: seq<byte>) returns (h: nat)
    ensures h == Hash(w)
  {
    h := 0;
    for i := 0 to |w|
      invariant h == Hash(w[..i])
    {
      assert w[..i + 1] == w[..i] + [w[i]];
      HashSnoc(w[..i], w[i]);
      h := (h * Base + w[i] as int) % P;
    }
    assert w[..|w|] == w;
  }

  /** The patterns of the list that have length `len`, in list order. */
  function OfLength(ps: seq<seq<byte>>, len: nat): (r: seq<seq<byte>>)
    ensures |r| <= |ps|
    ensures forall k :: 0 <= k < |r| ==> |r[k]| == len
  {
    if ps == [] then []
    else
      var last := ps[|ps| - 1];
      OfLength(ps[..|ps| - 1], len) + (if |last| == len then [last] else [])
  }

  lemma {:induction false} OfLengthMembers(ps: seq<seq<byte>>, len: nat, w: seq<byte>)
    ensures w in OfLength(ps, len) <==> w in ps && |w| == len
  {
    if ps != [] {
      var init := ps[..|ps| - 1];
      OfLengthMembers(init, len, w);
      assert ps == init + [ps[|ps| - 1]];
    }
  }

  /** The group after `prepare_matcher` files one more pattern in it. */
  function WithPattern(g: RKGroup, pat: seq<byte>, h: nat): RKGroup {
    var ids := if h in g.bucket then g.bucket[h] else [];
    g.(patterns := g.patterns + [pat], bucket := g.bucket[h := ids + [|g.patterns|]])
  }

  /** Filing a pattern of the group's length under its own hash keeps the
      group valid. */
  lemma WithPatternValid(g: RKGroup, pat: seq<byte>)
    requires ValidGroup(g) && |pat| == g.length
    ensures ValidGroup(WithPattern(g, pat, Hash(pat)))
  {
    var g' := WithPattern(g, pat, Hash(pat));
    forall k | 0 <= k < |g'.patterns|
      ensures Hash(g'.patterns[k]) in g'.bucket && k in g'.bucket[Hash(g'.patterns[k])]
    {
      if k < |g.patterns| {
        assert g'.patterns[k] == g.patterns[k];
        var h := Hash(g.patterns[k]);
        assert k in g.bucket[h];
      }
    }
  }

  /** `grouped` is the length map after the patterns `ps`: a valid group
      under every length some non-empty pattern has, holding exactly the
      patterns of that length in list order, and nothing under any other
      length. */
  ghost predicate GroupedBy(grouped: map<nat, RKGroup>, ps: seq<seq<byte>>) {
    (forall len :: len in grouped ==>
       len > 0 && grouped[len].length == len && ValidGroup(grouped[len])
       && grouped[len].patterns == OfLength(ps, len))
    && (forall len :: len > 0 && len !in grouped ==> OfLength(ps, len) == [])
  }

  /** The group a non-empty pattern is filed in: its length's group, or a
      fresh one with that length and its `highBase`. */
  ghost function GroupFor(grouped: map<nat, RKGroup>, pat: seq<byte>): RKGroup
    requires pat != []
  {
    if |pat| in grouped then grouped[|pat|] else RKGroup(|pat|, Pow(Base, |pat| - 1) % P, [], map[])
  }

  /** One pattern more: an empty one changes nothing, a non-empty one is
      filed in the group of its length. */
  lemma GroupedStep(grouped: map<nat, RKGroup>, ps: seq<seq<byte>>, pat: seq<byte>)
    requires GroupedBy(grouped, ps)
    ensures pat == [] ==> GroupedBy(grouped, ps + [pat])
    ensures pat != [] ==>
              GroupedBy(grouped[|pat| := WithPattern(GroupFor(grouped, pat), pat, Hash(pat))], ps + [pat])
  {
    var ps' := ps + [pat];
    assert ps'[..|ps|] == ps;
    forall len ensures OfLength(ps', len) == OfLength(ps, len) + (if |pat| == len then [pat] else []) {
    }
    if pat != [] {
      var g := GroupFor(grouped, pat);
      WithPatternValid(g, pat);
      var grouped' := grouped[|pat| := WithPattern(g, pat, Hash(pat))];
      forall len | len in grouped'
        ensures len > 0 && grouped'[len].length == len && ValidGroup(grouped'[len])
        ensures grouped'[len].patterns == OfLength(ps', len)
      {
        if len != |pat| {
          assert grouped'[len] == grouped[len];
        }
      }
      forall len | len > 0 && len !in grouped' ensures OfLength(ps', len) == [] {
        assert len !in grouped;
      }
    }
  }

  /** The first loop of the Rabin–Karp case of `prepare_matcher`: group the
      non-empty patterns by length in a map, creating each group with its
      `highBase` on first use, and file each pattern's index under its hash. */
  method GroupByLength(patterns: seq<seq<byte>>) returns (grouped: map<nat, RKGroup>)
    ensures GroupedBy(grouped, patterns)
  {
    grouped := map[];
    for i := 0 to |patterns|
      invariant GroupedBy(grouped, patterns[..i])
    {
      var pat := patterns[i];
      assert patterns[..i + 1] == patterns[..i] + [pat];
      GroupedStep(grouped, patterns[..i], pat);
      if pat == [] {
        continue;
      }
      grouped := FilePattern(grouped, pat);
    }
    assert patterns[..|patterns|] == patterns;
  }

  /** The body of that loop for a non-empty pattern: find or create the
      group of its length (computing `highBase` on creation), append the
      pattern, and file its index under its hash. */
  method FilePattern(grouped: map<nat, RKGroup>, pat: seq<byte>) returns (grouped': map<nat, RKGroup>)
    requires pat != []
    requires forall len :: len in grouped ==> grouped[len].length == len > 0
    ensures grouped' == grouped[|pat| := WithPattern(GroupFor(grouped, pat), pat, Hash(pat))]
  {
    var len := |pat|;
    var group := if len in grouped then grouped[len] else RKGroup(0, 1, [], map[]);
    if group.length == 0 {
      var highBase := PowMod(Base, len - 1);
      group := group.(length := len, highBase := highBase);
    }
    assert group == GroupFor(grouped, pat);
    var index := |group.patterns|;
    group := group.(patterns := group.patterns + [pat]);
    var hash := PatternHash(pat);
    var ids := if hash in group.bucket then group.bucket[hash] else [];
    group := group.(bucket := group.bucket[hash := ids + [index]]);
    grouped' := grouped[len := group];
  }

  /** The groups cover the list of patterns: one group per length that some
      non-empty pattern has, each valid and holding exactly the patterns of
      its length in list order. */
  ghost predicate GroupsOf(groups: seq<RKGroup>, patterns: seq<seq<byte>>) {
    (forall k :: 0 <= k < |groups| ==>
       groups[k].length > 0 && ValidGroup(groups[k]) && groups[k].patterns == OfLength(patterns, groups[k].length))
    && (forall k1, k2 :: 0 <= k1 < k2 < |groups| ==> groups[k1].length != groups[k2].length)
    && (forall p :: p in patterns && p != [] ==> exists k :: 0 <= k < |groups| && groups[k].length == |p|)
  }

  /** `groups` lists every group of the map once, keyed by its length. */
  ghost predicate Lists(groups: seq<RKGroup>, grouped: map<nat, RKGroup>) {
    (forall k :: 0 <= k < |groups| ==> groups[k].length in grouped && groups[k] == grouped[groups[k].length])
    && (forall k1, k2 :: 0 <= k1 < k2 < |groups| ==> groups[k1].length != groups[k2].length)
    && (forall len :: len in grouped ==> exists k :: 0 <= k < |groups| && groups[k].length == len)
  }

  /** The second loop of the Rabin–Karp case of `prepare_matcher`: move the
      groups out of the map, in its iteration order, which is left
      unspecified. */
  method ListGroups(grouped: map<nat, RKGroup>) returns (groups: seq<RKGroup>)
    requires forall len :: len in grouped ==> grouped[len].length == len
    ensures Lists(groups, grouped)
  {
    groups := [];
    var remaining := grouped.Keys;
    while remaining != {}
      invariant remaining <= grouped.Keys
      invariant forall k :: 0 <= k < |groups| ==>
                  groups[k].length in grouped && groups[k].length !in remaining && groups[k] == grouped[groups[k].length]
      invariant forall k1, k2 :: 0 <= k1 < k2 < |groups| ==> groups[k1].length != groups[k2].length
      invariant forall len :: len in grouped && len !in remaining ==> exists k :: 0 <= k < |groups| && groups[k].length == len
      decreases |remaining|
    {
      var len :| len in remaining;
      ghost var listed := groups;
      groups := groups + [grouped[len]];
      remaining := remaining - {len};
      assert forall k :: 0 <= k < |listed| ==> groups[k] == listed[k];
      assert groups[|listed|].length == len;
    }
  }

  /** Listing a length map of the patterns yields groups that cover them. */
  lemma ListedGroupsCover(groups: seq<RKGroup>, grouped: map<nat, RKGroup>, patterns: seq<seq<byte>>)
    requires GroupedBy(grouped, patterns) && Lists(groups, grouped)
    ensures GroupsOf(groups, patterns)
  {
    forall p | p in patterns && p != [] ensures |p| in grouped {
      OfLengthMembers(patterns, |p|, p);
    }
  }

  /** The Rabin–Karp case of `prepare_matcher`. */
  method BuildGroups(patterns: seq<seq<byte>>) returns (groups: seq<RKGroup>)
    ensures GroupsOf(groups, patterns)
  {
    var grouped := GroupByLength(patterns);
    groups := ListGroups(grouped);
    ListedGroupsCover(groups, grouped, patterns);
  }

  /** A group hit is an occurrence of a non-empty pattern of the list. */
  lemma GroupHitIsOccurrence(groups: seq<RKGroup>, patterns: seq<seq<byte>>, text: seq<byte>)
    requires GroupsOf(groups, patterns)
    ensures AnyGroupHit(groups, text) ==> AnyOccurs(patterns, text)
  {
    if AnyGroupHit(groups, text) {
      var k :| 0 <= k < |groups| && groups[k].length > 0 && exists s :: GroupHitAt(groups[k], text, s);
      var g := groups[k];
      var s :| GroupHitAt(g, text, s);
      var j :| 0 <= j < |g.patterns| && OccursAt(g.patterns[j], text, s);
      var p := g.patterns[j];
      assert g.patterns == OfLength(patterns, g.length);
      assert |p| == g.length > 0;
      OfLengthMembers(patterns, g.length, p);
      var q :| 0 <= q < |patterns| && patterns[q] == p;
      assert patterns[q] != [] && OccursIn(patterns[q], text);
    }
  }

  /** An occurrence of a non-empty pattern of the list is a group hit. */
  lemma OccurrenceIsGroupHit(groups: seq<RKGroup>, patterns: seq<seq<byte>>, text: seq<byte>)
    requires GroupsOf(groups, patterns)
    ensures AnyOccurs(patterns, text) ==> AnyGroupHit(groups, text)
  {
    if AnyOccurs(patterns, text) {
      var q :| 0 <= q < |patterns| && patterns[q] != [] && OccursIn(patterns[q], text);
      var p := patterns[q];
      var s :| OccursAt(p, text, s);
      var k :| 0 <= k < |groups| && groups[k].length == |p|;
      var g := groups[k];
      OfLengthMembers(patterns, |p|, p);
      var j :| 0 <= j < |g.patterns| && g.patterns[j] == p;
      assert GroupHitAt(g, text, s);
    }
  }

  /** Whatever the order of the groups, asking them is asking whether some
      non-empty pattern of the list occurs in the text. */
  lemma GroupHitIffAnyOccurs(groups: seq<RKGroup>, patterns: seq<seq<byte>>, text: seq<byte>)
    requires GroupsOf(groups, patterns)
    ensures AnyGroupHit(groups, text) <==> AnyOccurs(patterns, text)
  {
    GroupHitIsOccurrence(groups, patterns, text);
    OccurrenceIsGroupHit(groups, patterns, text);
  }
}
