/** The dispatcher: the algorithm choice, the prepared matcher that holds
    one index shape (`prepare_matcher`), and the row scan (`match_row`). */
module Matcher {
  import opened Common
  import Text
  import B = BruteForce
  import K = Kmp
  import H = Horspool
  import L = Lexicon
  import T = Trie
  import R = RabinKarp

  /** The source's `AlgorithmType`. */
  datatype AlgorithmType = BruteForce | KMP | HashLexicon | Trie | Horspool | RabinKarp

  /** One data row: its scan text and its ground-truth label. */
  datatype RowSample = RowSample(text: seq<byte>, isMalicious: bool)

  /** The source's `PreparedMatcher`: the algorithm, the patterns as given,
      and one vector per index shape, of which only the algorithm's own is
      filled. */
  datatype PreparedMatcher = PreparedMatcher(
    algorithm: AlgorithmType,
    rawPatterns: seq<seq<byte>>,
    kmp: seq<K.KmpPattern>,
    horspool: seq<H.HorspoolPattern>,
    hashLexicon: seq<L.LexiconPattern>,
    rkGroups: seq<R.RKGroup>,
    trieNodes: seq<T.TrieNode>)

  /** The matcher holds its algorithm's index of `rawPatterns` and leaves
      every other index empty. */
  ghost predicate Prepared(m: PreparedMatcher) {
    (if m.algorithm == KMP then K.KmpIndex(m.kmp, m.rawPatterns) else m.kmp == [])
    && (if m.algorithm == Horspool then H.HorspoolIndex(m.horspool, m.rawPatterns) else m.horspool == [])
    && (if m.algorithm == HashLexicon then m.hashLexicon == L.LexiconOf(m.rawPatterns) else m.hashLexicon == [])
    && (if m.algorithm == RabinKarp then R.GroupsOf(m.rkGroups, m.rawPatterns) else m.rkGroups == [])
    && (if m.algorithm == Trie then T.TrieIndex(m.trieNodes, m.rawPatterns) else m.trieNodes == [])
  }

  /** `prepare_matcher`: keep the patterns as given and build the index of
      the chosen algorithm (none for BruteForce). */
  method PrepareMatcher(algorithm: AlgorithmType, patterns: seq<seq<byte>>) returns (m: PreparedMatcher)
    ensures m.algorithm == algorithm && m.rawPatterns == patterns
    ensures Prepared(m)
  {
    m := PreparedMatcher(algorithm, patterns, [], [], [], [], []);
    match algorithm {
      case BruteForce =>
      case KMP =>
        var kmp := K.PrepareKmp(patterns);
        m := m.(kmp := kmp);
      case HashLexicon =>
        var lexicon := L.PrepareLexicon(patterns);
        m := m.(hashLexicon := lexicon);
      case Trie =>
        var nodes := T.PrepareTrie(patterns);
        m := m.(trieNodes := nodes);
      case Horspool =>
        var horspool := H.PrepareHorspool(patterns);
        m := m.(horspool := horspool);
      case RabinKarp =>
        var groups := R.BuildGroups(patterns);
        m := m.(rkGroups := groups);
    }
  }

  /** Asking the non-empty patterns one by one is asking the list. */
  lemma IndexedAnswer(patterns: seq<seq<byte>>, indexed: seq<seq<byte>>, text: seq<byte>)
    requires indexed == NonEmpty(patterns)
    ensures (exists k :: 0 <= k < |indexed| && indexed[k] != [] && OccursIn(indexed[k], text))
            <==> AnyOccurs(patterns, text)
  {
    AnyOccursNonEmpty(patterns, text);
  }

  /** The comparisons of the BruteForce case over `patterns`: each
      pattern's scan in turn, up to and including the first pattern that
      occurs. An empty pattern is skipped and costs nothing. */
  ghost function ListCost(patterns: seq<seq<byte>>, text: seq<byte>): nat {
    if patterns == [] then 0
    else
      var p := patterns[0];
      (if p == [] then 0 else ScanCost(p, text, 0))
      + (if p != [] && OccursIn(p, text) then 0 else ListCost(patterns[1..], text))
  }

  /** The BruteForce case of `match_row`: every non-empty raw pattern in
      turn, stopping at the first that occurs. */
  method MatchBruteForce(text: seq<byte>, patterns: seq<seq<byte>>, c: Counters) returns (found: bool, c': Counters)
    ensures found <==> AnyOccurs(patterns, text)
    ensures OnlyCharsGrow(c, c')
    ensures c' == c.(charComparisons := c.charComparisons + ListCost(patterns, text))
  {
    c' := c;
    for k := 0 to |patterns|
      invariant forall k' :: 0 <= k' < k && patterns[k'] != [] ==> !OccursIn(patterns[k'], text)
      invariant c' == c.(charComparisons := c'.charComparisons)
      invariant c'.charComparisons + ListCost(patterns[k..], text) == c.charComparisons + ListCost(patterns, text)
    {
      assert patterns[k..][0] == patterns[k] && patterns[k..][1..] == patterns[k + 1..];
      if patterns[k] == [] {
        continue;
      }
      found, c' := B.BruteForceContains(text, patterns[k], c');
      if found {
        return true, c';
      }
    }
    assert patterns[|patterns|..] == [];
    return false, c';
  }

  /** The KMP case of `match_row`. */
  method MatchKmp(text: seq<byte>, kmp: seq<K.KmpPattern>, c: Counters) returns (found: bool, c': Counters)
    requires forall k :: 0 <= k < |kmp| ==> K.IsFailureFunction(kmp[k].pattern, kmp[k].lps)
    ensures found <==> exists k :: 0 <= k < |kmp| && kmp[k].pattern != [] && OccursIn(kmp[k].pattern, text)
    ensures OnlyCharsGrow(c, c')
  {
    c' := c;
    for k := 0 to |kmp|
      invariant forall k' :: 0 <= k' < k && kmp[k'].pattern != [] ==> !OccursIn(kmp[k'].pattern, text)
      invariant OnlyCharsGrow(c, c')
    {
      found, c' := K.KmpContains(text, kmp[k], c');
      if found {
        return true, c';
      }
    }
    return false, c';
  }

  /** The Horspool case of `match_row`. */
  method MatchHorspool(text: seq<byte>, horspool: seq<H.HorspoolPattern>, c: Counters) returns (found: bool, c': Counters)
    requires forall k :: 0 <= k < |horspool| ==> H.IsShiftTable(horspool[k].pattern, horspool[k].shift)
    ensures found <==> exists k :: 0 <= k < |horspool| && OccursIn(horspool[k].pattern, text)
    ensures OnlyCharsGrow(c, c')
  {
    c' := c;
    for k := 0 to |horspool|
      invariant forall k' :: 0 <= k' < k ==> !OccursIn(horspool[k'].pattern, text)
      invariant OnlyCharsGrow(c, c')
    {
      found, c' := H.HorspoolContains(text, horspool[k], c');
      if found {
        return true, c';
      }
    }
    return false, c';
  }

  /** The KMP index answers the literal question. */
  lemma KmpIndexAnswer(kmp: seq<K.KmpPattern>, patterns: seq<seq<byte>>, text: seq<byte>)
    requires K.KmpIndex(kmp, patterns)
    ensures (exists k :: 0 <= k < |kmp| && kmp[k].pattern != [] && OccursIn(kmp[k].pattern, text))
            <==> AnyOccurs(patterns, text)
  {
    var indexed := NonEmpty(patterns);
    IndexedAnswer(patterns, indexed, text);
    if exists k :: 0 <= k < |kmp| && kmp[k].pattern != [] && OccursIn(kmp[k].pattern, text) {
      var k :| 0 <= k < |kmp| && kmp[k].pattern != [] && OccursIn(kmp[k].pattern, text);
      assert indexed[k] == kmp[k].pattern;
    }
    if AnyOccurs(patterns, text) {
      var k :| 0 <= k < |indexed| && indexed[k] != [] && OccursIn(indexed[k], text);
      assert kmp[k].pattern == indexed[k];
    }
  }

  /** The Horspool index answers the literal question. */
  lemma HorspoolIndexAnswer(horspool: seq<H.HorspoolPattern>, patterns: seq<seq<byte>>, text: seq<byte>)
    requires H.HorspoolIndex(horspool, patterns)
    ensures (exists k :: 0 <= k < |horspool| && OccursIn(horspool[k].pattern, text))
            <==> AnyOccurs(patterns, text)
  {
    var indexed := NonEmpty(patterns);
    IndexedAnswer(patterns, indexed, text);
    if exists k :: 0 <= k < |horspool| && OccursIn(horspool[k].pattern, text) {
      var k :| 0 <= k < |horspool| && OccursIn(horspool[k].pattern, text);
      assert indexed[k] == horspool[k].pattern;
    }
    if AnyOccurs(patterns, text) {
      var k :| 0 <= k < |indexed| && indexed[k] != [] && OccursIn(indexed[k], text);
      assert horspool[k].pattern == indexed[k];
    }
  }

  /** `match_row`: dispatch on the algorithm. Five of the six answer whether
      some non-empty pattern occurs in the row's text; HashLexicon answers
      whether some pattern's token list is a run of the text's tokens. Each
      touches only its own counters, and BruteForce, HashLexicon and Trie
      add exactly what their scans count. */
  method MatchRow(row: RowSample, m: PreparedMatcher, c: Counters) returns (found: bool, c': Counters)
    requires Prepared(m)
    ensures m.algorithm != HashLexicon ==> (found <==> AnyOccurs(m.rawPatterns, row.text))
    ensures m.algorithm == HashLexicon ==> (found <==> L.TokenRunMatch(m.rawPatterns, row.text))
    ensures m.algorithm != HashLexicon && m.algorithm != RabinKarp ==> OnlyCharsGrow(c, c')
    ensures m.algorithm == BruteForce ==>
              c' == c.(charComparisons := c.charComparisons + ListCost(m.rawPatterns, row.text))
    ensures m.algorithm == HashLexicon ==>
              c' == c.(tokenChecks := c.tokenChecks + L.LexiconCost(m.hashLexicon, L.Tokens(row.text)))
    ensures m.algorithm == Trie && !found ==>
              c'.charComparisons == c.charComparisons + T.ScanSteps(m.trieNodes, row.text, |row.text|)
    ensures m.algorithm == Trie && found ==>
              exists i :: 0 <= i < |row.text| && T.FirstAcceptedStart(m.trieNodes, row.text, i)
                && c'.charComparisons == c.charComparisons + T.ScanSteps(m.trieNodes, row.text, i)
                                         + T.Steps(m.trieNodes, 0, row.text[i..])
    ensures m.algorithm == RabinKarp ==>
              c'.tokenChecks == c.tokenChecks && c'.charComparisons >= c.charComparisons
              && c'.hashOperations >= c.hashOperations
  {
    match m.algorithm {
      case BruteForce =>
        found, c' := MatchBruteForce(row.text, m.rawPatterns, c);
      case KMP =>
        found, c' := MatchKmp(row.text, m.kmp, c);
        KmpIndexAnswer(m.kmp, m.rawPatterns, row.text);
      case HashLexicon =>
        found, c' := L.HashLexiconContains(row.text, m.hashLexicon, c);
        L.LexiconOfHit(m.rawPatterns, row.text);
      case Trie =>
        found, c' := T.TrieContains(row.text, m.trieNodes, c);
        T.TrieHitIffAnyOccurs(m.trieNodes, m.rawPatterns, row.text);
      case Horspool =>
        found, c' := MatchHorspool(row.text, m.horspool, c);
        HorspoolIndexAnswer(m.horspool, m.rawPatterns, row.text);
      case RabinKarp =>
        found, c' := R.RabinKarpContains(row.text, m.rkGroups, c);
        R.GroupHitIffAnyOccurs(m.rkGroups, m.rawPatterns, row.text);
    }
  }

  /** The five substring algorithms agree: preparing the same patterns for
      any two of them and matching the same row gives the same verdict,
      whatever order the Rabin–Karp groups come in. */
  method SameVerdict(first: AlgorithmType, second: AlgorithmType, patterns: seq<seq<byte>>, row: RowSample)
    returns (found1: bool, found2: bool)
    requires first != HashLexicon && second != HashLexicon
    ensures found1 == found2
    ensures found1 <==> AnyOccurs(patterns, row.text)
  {
    var m1 := PrepareMatcher(first, patterns);
    var m2 := PrepareMatcher(second, patterns);
    var c1, c2;
    found1, c1 := MatchRow(row, m1, Zero);
    found2, c2 := MatchRow(row, m2, Zero);
  }

  /** HashLexicon answers a different question from the other five: the
      pattern `AB` occurs in the row text `XABY`, but its token is not one
      of the text's tokens. */
  lemma LexiconIsNotSubstring()
    ensures var pattern: seq<byte>, text: seq<byte> := [0x41, 0x42], [0x58, 0x41, 0x42, 0x59];
            AnyOccurs([pattern], text) && !L.TokenRunMatch([pattern], text)
  {
    var pattern: seq<byte>, text: seq<byte> := [0x41, 0x42], [0x58, 0x41, 0x42, 0x59];
    assert OccursAt(pattern, text, 1);
    assert [pattern][0] == pattern && OccursIn([pattern][0], text);
    assert L.RunLength(pattern[2..]) == 0;
    assert L.RunLength(pattern) == 2;
    assert pattern[..2] == pattern && pattern[2..] == [];
    assert L.Tokens(pattern) == [pattern];
    assert L.RunLength(text[4..]) == 0;
    assert L.RunLength(text[3..]) == 1;
    assert L.RunLength(text[2..]) == 2;
    assert L.RunLength(text[1..]) == 3;
    assert L.RunLength(text) == 4;
    assert text[..4] == text && text[4..] == [];
    assert L.Tokens(text) == [text];
    assert !OccursIn([pattern], [text]);
    assert [pattern][0] == pattern;
  }

  /** The upper-case spellings `parse_algorithm` accepts for each
      algorithm. */
  function Spellings(a: AlgorithmType): set<string> {
    match a
    case BruteForce => {"BRUTE", "BRUTEFORCE"}
    case KMP => {"KMP"}
    case HashLexicon => {"HASH", "HASHLEXICON", "LEXICON"}
    case Trie => {"TRIE"}
    case Horspool => {"HORSPOOL", "BOYERMOORE", "BM"}
    case RabinKarp => {"RABIN", "RABINKARP", "RK"}
  }

  /** `parse_algorithm`: the name, upper-cased, against the accepted
      spellings; `None` where the source returns false. A name parses to
      `a` exactly when, upper-cased, it is one of the spellings of `a`, so
      no spelling is claimed by two algorithms. */
  function ParseAlgorithm(name: seq<byte>): (r: Option<AlgorithmType>)
    ensures forall a :: r == Some(a) <==> Text.Chars(Text.ToUpper(name)) in Spellings(a)
  {
    var upper := Text.Chars(Text.ToUpper(name));
    if upper == "BRUTE" || upper == "BRUTEFORCE" then Some(BruteForce)
    else if upper == "KMP" then Some(KMP)
    else if upper == "HASH" || upper == "HASHLEXICON" || upper == "LEXICON" then Some(HashLexicon)
    else if upper == "TRIE" then Some(Trie)
    else if upper == "HORSPOOL" || upper == "BOYERMOORE" || upper == "BM" then Some(Horspool)
    else if upper == "RABIN" || upper == "RABINKARP" || upper == "RK" then Some(RabinKarp)
    else None
  }

  /** `algorithm_to_string`: the printed name, which upper-cased is one of
      the spellings `parse_algorithm` accepts for the same algorithm. */
  function AlgorithmName(a: AlgorithmType): (r: string)
    ensures forall i :: 0 <= i < |r| ==> r[i] as int < 256
    ensures Text.Chars(Text.ToUpper(Text.Ascii(r))) in Spellings(a)
  {
    match a
    case BruteForce => BruteForceUpper(); "BruteForce"
    case KMP => KmpUpper(); "KMP"
    case HashLexicon => HashLexiconUpper(); "HashLexicon"
    case Trie => TrieUpper(); "Trie"
    case Horspool => HorspoolUpper(); "Horspool"
    case RabinKarp => RabinKarpUpper(); "RabinKarp"
  }

  // The cases of `AlgorithmName`'s contract, one lemma per printed name:
  // upper-cased, it reads as a spelling of its own algorithm.

  lemma BruteForceUpper()
    ensures Text.Chars(Text.ToUpper(Text.Ascii("BruteForce"))) == "BRUTEFORCE"
  {
    assert Text.ToUpper(Text.Ascii("BruteForce")) == Text.Ascii("BRUTEFORCE");
    Text.CharsOfAscii("BRUTEFORCE");
  }

  lemma KmpUpper()
    ensures Text.Chars(Text.ToUpper(Text.Ascii("KMP"))) == "KMP"
  {
    assert Text.ToUpper(Text.Ascii("KMP")) == Text.Ascii("KMP");
    Text.CharsOfAscii("KMP");
  }

  lemma HashLexiconUpper()
    ensures Text.Chars(Text.ToUpper(Text.Ascii("HashLexicon"))) == "HASHLEXICON"
  {
    assert Text.ToUpper(Text.Ascii("HashLexicon")) == Text.Ascii("HASHLEXICON");
    Text.CharsOfAscii("HASHLEXICON");
  }

  lemma TrieUpper()
    ensures Text.Chars(Text.ToUpper(Text.Ascii("Trie"))) == "TRIE"
  {
    assert Text.ToUpper(Text.Ascii("Trie")) == Text.Ascii("TRIE");
    Text.CharsOfAscii("TRIE");
  }

  lemma HorspoolUpper()
    ensures Text.Chars(Text.ToUpper(Text.Ascii("Horspool"))) == "HORSPOOL"
  {
    assert Text.ToUpper(Text.Ascii("Horspool")) == Text.Ascii("HORSPOOL");
    Text.CharsOfAscii("HORSPOOL");
  }

  lemma RabinKarpUpper()
    ensures Text.Chars(Text.ToUpper(Text.Ascii("RabinKarp"))) == "RABINKARP"
  {
    assert Text.ToUpper(Text.Ascii("RabinKarp")) == Text.Ascii("RABINKARP");
    Text.CharsOfAscii("RABINKARP");
  }

  /** Parsing is blind to letter case. */
  lemma ParseIgnoresCase(name: seq<byte>)
    ensures ParseAlgorithm(Text.ToUpper(name)) == ParseAlgorithm(name)
  {
    Text.ToUpperIdempotent(name);
  }

  /** Every algorithm's printed name parses back to it. */
  lemma NameRoundTrip(a: AlgorithmType)
    ensures ParseAlgorithm(Text.Ascii(AlgorithmName(a))) == Some(a)
  {
    var upper := Text.Chars(Text.ToUpper(Text.Ascii(AlgorithmName(a))));
    assert upper in Spellings(a);
  }
}
