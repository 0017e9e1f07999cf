# Verified model of the signature-matching engine

The repository benchmarks six ways of asking one question of every row of
a network-flow CSV: does any signature pattern occur in the row's text?
Its engine lives in `algorithms.cpp`. The engine has two halves.

- **Preparation** (`prepare_matcher`) turns the ordered pattern list into
  one index. The six indexes are:
  - none, for BruteForce;
  - a KMP failure function per pattern;
  - a Horspool bad-character table per pattern;
  - a token lexicon;
  - a byte-indexed trie arena;
  - Rabin–Karp groups keyed by pattern length, each with its
    `256^(m-1) mod 1_000_000_007` and a hash-to-indices bucket map.
- **Scanning** (`match_row` and the `*_contains` functions) answers the
  question for one row. It adds to three operation counters as it goes.

This project models both halves in Dafny and proves what each scan
answers:
- BruteForce, KMP, Horspool, Trie and RabinKarp answer "some non-empty
  pattern is a contiguous substring of the text". Hash collisions and
  every group order are covered.
- HashLexicon answers "some pattern's token list is a contiguous run of
  the text's tokens".

It also models and proves the helpers around the engine:
- the string helpers `trim` and `to_upper_copy`;
- the row helpers `label_is_malicious` and `build_row_text`;
- the name conversions `parse_algorithm` and `algorithm_to_string`.

Each scan's counters follow the source's counting as well. Every counter
update in the source happens in the model at the same point and by the
same amount, so a failing comparison counts too.
- Every count is stated exactly except three: the KMP comparison total,
  the Horspool comparison total, and the totals over several Rabin–Karp
  groups.
- The exact counts are functions of the inputs.
  - `ScanCost`, `WindowCost`, `BackCost`, `BucketCost` and `CheckCost`
    are ordinary functions.
  - `ListCost`, `LexiconCost`, `Steps`, `ScanSteps` and `WindowsCost` are
    ghost functions, because they ask whether a pattern occurs.
- The same holds for `match_row`: its BruteForce, HashLexicon and Trie
  cases add exactly what their scans count.
- The bounds the algorithms promise are proved about those functions.
- For one KMP or Horspool pattern the total is bounded, and each Horspool
  window's count is exact. Over a pattern list, `match_row` states only
  that the comparisons are the one counter that changes.
- Across several Rabin–Karp groups only the direction of change is
  stated, because the group order is unspecified.

## Files

| File | Contents |
|---|---|
| `common.dfy` | Bytes, the `Counters` record, and occurrence predicates |
| `text.dfy` | The string helpers |
| `brute_force.dfy` | The brute-force scan |
| `kmp.dfy` | The failure function, the KMP scan and its index |
| `horspool.dfy` | The shift table, the Horspool scan and its index |
| `lexicon.dfy` | The tokenizer, the token-run scan and the lexicon |
| `trie.dfy` | The trie arena class, insertion, the scan and the index |
| `rabin_karp.dfy` | `pow_mod`, the Horner hash, the rolling scan and grouping |
| `matcher.dfy` | `AlgorithmType`, `prepare_matcher`, `match_row` and the agreement result |

## How the model is built

- Scanners are methods with loops and invariants.
  - The source's `Counters&` out-parameter is a `Counters` value passed in
    as `c` and returned as `c'`.
  - Each scan is proved against a ghost predicate on the text, such as
    `OccursIn`, `SubstringAccepted` or `LexiconHit`.
- `trie_insert` mutates the arena in place. It is the `Insert` method of
  the `TrieArena` class. Its ghost fields, `labels` and `words`, carry the
  tree shape and the set of accepted words.
- Inner loops are separate methods, each with its own contract:
  - `CompareWindow`, `CompareBackward` and `CompareTokens` for the
    innermost comparison loops;
  - `ScanTokens` for one lexicon entry;
  - `WalkFrom` for one trie walk;
  - `CheckBucket`, which mirrors the source's own `check_bucket` lambda;
  - `HashPrefix`, `RollingScan` and `NextWindow` for the two loops of
    `rk_group_contains`.
- The shift table is filled in place in an `array`, as in the source.
  `build_lps` fills a `seq` by pointwise update.
- `std::unordered_map` iteration order is unspecified. `ListGroups`
  therefore picks groups with `:|`, and every result about the groups
  holds for any order.

## Model

| member | source | states |
|---|---|---|
| Common.NonEmptyMembers | algorithms.cpp:277-283 | a pattern is kept by the `pat.empty()` filter exactly when it is in the list and not empty |
| Common.AnyOccursNonEmpty | algorithms.cpp:513-518 | asking only the non-empty patterns gives the same answer as asking the whole list |
| Common.TooLongNeverOccurs | algorithms.cpp:351 | a pattern longer than the text occurs nowhere in it, which justifies the `m > n` early return |
| Common.MatchedPrefixFacts | algorithms.cpp:355-359 | the bytes the inner loop gets past all agree with the pattern, and when it stops early the byte it stops at differs |
| Common.MatchedPrefixOccurs | algorithms.cpp:360 | the inner loop runs to `j == m` exactly when the pattern occurs at that offset |
| Common.WindowCost | algorithms.cpp:355-359 | one window costs at least one comparison and at most the pattern length, and exactly the pattern length when it matches |
| Common.ScanCostMiss | algorithms.cpp:353-362 | a scan with no hit costs between one and `m` comparisons for each of its `n-m+1` windows |
| Common.ScanCostHit | algorithms.cpp:353-360 | a scan whose first hit is at `s` costs `m` for that window and between one and `m` for each window before it |
| Text.ToUpper | algorithms.cpp:51-55 | the result has the input's length; each lower-case letter becomes the byte 32 below it, which is no longer lower case, and every other byte is kept |
| Text.ToUpperIdempotent | algorithms.cpp:51-55 | upper-casing leaves no lower-case letter, keeps every other byte, and a second pass changes nothing |
| Text.Trim | algorithms.cpp:29-34 | the result is empty exactly when every byte is a separator; otherwise it is the infix between separator-only margins, and it neither starts nor ends with a separator |
| Text.TrimIdempotent | algorithms.cpp:29-34 | trimming a trimmed string changes nothing |
| Text.LabelIsMalicious | algorithms.cpp:644-647 | a label is malicious exactly when it is non-empty and does not spell BENIGN in any letter case |
| Text.LabelIgnoresCase | algorithms.cpp:644-647 | a label's verdict does not depend on its letter case |
| Text.BuildRowText | algorithms.cpp:649-658 | the loop builds the upper-cased non-empty columns joined by single spaces |
| Text.ColumnInRowText | algorithms.cpp:649-658 | every non-empty column occurs, upper-cased, as a substring of the row text |
| BruteForce.BruteForceContains | algorithms.cpp:346-363 | true iff the pattern is non-empty and occurs; empty or too-long patterns leave the counters untouched; only `char_comparisons` changes, by exactly the cost of trying every offset from 0 up to the first match, each window counted up to and including its first mismatch |
| BruteForce.BruteForceCost | algorithms.cpp:346-363 | a miss costs between `n-m+1` and `(n-m+1)*m` comparisons; a hit whose first occurrence is at `s` costs between `s+m` and `(s+1)*m` |
| BruteForce.CompareWindow | algorithms.cpp:354-359 | true iff the window at offset `i` equals the pattern; only `char_comparisons` changes, by exactly the length of the matched prefix plus the mismatching byte, or `m` on a match, which is the count of a left-to-right comparison that stops at the first mismatch |
| Kmp.BuildLps | algorithms.cpp:211-224 | the result is the failure function: entry `i` is the length of the longest proper border of `p[0..i]` |
| Kmp.FailureFunctionBounds | algorithms.cpp:211-224 | the failure function has the pattern's length, entry 0 is 0, and every entry `i` lies in `[0, i]` |
| Kmp.FallbackSafe | algorithms.cpp:380-381 | after a mismatch with `j > 0` bytes matched, `lps[j-1]` is below `j`, the bytes it keeps still match, and no occurrence starts before the new window |
| Kmp.AdvanceSafe | algorithms.cpp:382-384 | after a mismatch with nothing matched, no occurrence starts at or before the current byte |
| Kmp.KmpContains | algorithms.cpp:365-387 | true iff the pattern is non-empty and occurs; early returns leave the counters untouched; only `char_comparisons` changes; a miss counts between `n` and `2n`; a hit with first occurrence `s` counts between `s+m` and `2s+m` |
| Kmp.PrepareKmp | algorithms.cpp:277-283 | one entry per non-empty pattern, in order, each with its failure function |
| Horspool.ShiftTableFacts | algorithms.cpp:305-310 | every entry lies in `[1, m]`; a byte absent from `p[0..m-1)` shifts by `m`; otherwise it shifts by `m-1-i` for its rightmost `i < m-1` |
| Horspool.BuildShiftTable | algorithms.cpp:307-310 | the array filled with `m` and then overwritten left to right is the shift table |
| Horspool.ShiftSafe | algorithms.cpp:407-408 | the shift by the window's last byte jumps over no occurrence |
| Horspool.MatchedSuffixFacts | algorithms.cpp:399-405 | the bytes the backward loop gets past all agree with the pattern's tail, and when it stops early the byte it stops at differs |
| Horspool.MatchedSuffixOccurs | algorithms.cpp:406 | the backward loop runs to `k == m` exactly when the pattern occurs in the window ending at `i` |
| Horspool.CompareBackward | algorithms.cpp:398-405 | true iff the window ending at `i` equals the pattern; only `char_comparisons` changes, by exactly the length of the matched suffix plus the mismatching byte, or `m` on a match, which is the count of a comparison from the last byte backwards that stops at the first mismatch |
| Horspool.HorspoolContains | algorithms.cpp:389-411 | true iff the pattern is non-empty and occurs; early returns leave the counters untouched; only `char_comparisons` changes, by at least 1 and at most `m*(n-m+1)` |
| Horspool.PrepareHorspool | algorithms.cpp:302-314 | one entry per non-empty pattern, in order, each with its shift table |
| Lexicon.Tokenize | algorithms.cpp:236-251 | the push-and-clear loop yields, in order, the maximal alphanumeric runs of the text |
| Lexicon.TokensAreAlnumRuns | algorithms.cpp:236-251 | every token is non-empty and made only of alphanumeric bytes |
| Lexicon.NoTokensIffNoAlnum | algorithms.cpp:236-251 | a text yields no token exactly when it has no alphanumeric byte |
| Lexicon.TokensKeepAlnums | algorithms.cpp:236-251 | the tokens, concatenated, are the text's alphanumeric bytes in order |
| Lexicon.LexiconCostNoTokens | algorithms.cpp:437 | a text without tokens costs no token check, whatever the lexicon |
| Lexicon.HashLexiconContains | algorithms.cpp:432-455 | true iff some non-empty lexicon entry occurs as a contiguous run of the text's tokens; only `token_checks` changes, by exactly the cost of scanning each entry in turn up to the first that hits |
| Lexicon.ScanTokens | algorithms.cpp:440-452 | one entry hits iff it is non-empty and occurs among the tokens; an empty or too-long entry costs nothing, and otherwise the cost is that of trying every offset up to the first match |
| Lexicon.CompareTokens | algorithms.cpp:443-451 | true iff the entry occurs at offset `i`; only `token_checks` changes, by exactly the matched prefix plus the mismatching token, or the entry's length on a match |
| Lexicon.PrepareLexicon | algorithms.cpp:285-291 | the lexicon is the list of non-empty token lists of the patterns, in order |
| Lexicon.LexiconOfHit | algorithms.cpp:285-291 | the prepared lexicon hits exactly when some pattern with at least one token has its token list occur among the text's tokens |
| Trie.EmptyNode | algorithms.cpp:194-198 | a fresh node has 256 slots, all -1, and is not terminal |
| Trie.TrieArena.constructor | algorithms.cpp:294 | the arena starts as the root alone and accepts no word |
| Trie.TrieArena.Insert | algorithms.cpp:253-266 | afterwards the arena accepts exactly the old words plus the pattern; it gains at most as many nodes as the pattern has bytes; every existing edge and every terminal flag is kept; the root stays the root |
| Trie.StepsBounds | algorithms.cpp:420-427 | a walk over a non-empty rest makes between 1 and as many comparisons as the rest has bytes |
| Trie.ScanStepsBounds | algorithms.cpp:418-428 | a failed scan makes between `n` and `n*n` comparisons |
| Trie.WalkFrom | algorithms.cpp:419-427 | the walk from offset `i` is true iff some stretch starting at `i` is an accepted word, and it makes exactly the comparisons that `Steps` counts |
| Trie.TrieContains | algorithms.cpp:413-430 | true iff some non-empty stretch of the text is an accepted word; only `char_comparisons` changes; a miss counts one comparison per byte looked up from every offset; a hit stops at the leftmost offset from which a word is accepted and counts the walks up to and including that one |
| Trie.TrieHitIffAnyOccurs | algorithms.cpp:413-430 | for a trie accepting exactly the non-empty patterns, the scan's question equals "some non-empty pattern occurs" |
| Trie.PrepareTrie | algorithms.cpp:293-300 | the arena is well formed and accepts exactly the non-empty patterns; the root is not terminal |
| RabinKarp.PowMod | algorithms.cpp:226-234 | the result is below P, and it equals `b^e mod P` when the 64-bit products cannot wrap |
| RabinKarp.HashSnoc | algorithms.cpp:329-331 | one Horner step extends the hash of a word by one byte |
| RabinKarp.RollHash | algorithms.cpp:490-493 | removing the outgoing byte and appending the incoming one gives the hash of the next window |
| RabinKarp.HashPrefix | algorithms.cpp:482-486 | the first loop computes the hash of `text[0..m)` and adds `m` hash operations |
| RabinKarp.RollWindow | algorithms.cpp:489-495 | each roll yields the hash of `text[i-m+1..i+1)`, and the product with `high_base` does not overflow 64 bits |
| RabinKarp.BucketCostBound | algorithms.cpp:467-477 | a bucket of valid indices costs at most one full comparison of `m` bytes per listed pattern, and at least one comparison when it lists any |
| RabinKarp.CheckBucket | algorithms.cpp:464-479 | given the window's true hash, true iff some group pattern equals the window, so a hash collision is never reported as a match; only `char_comparisons` changes, by exactly the comparisons against the listed patterns in order up to the first equal one, and by none when no pattern has that hash |
| RabinKarp.RkGroupContains | algorithms.cpp:457-499 | true iff some group pattern occurs; early returns leave the counters untouched; a miss costs `m + 2(n-m)` hash operations and a hit at first offset `s` costs `m + 2s`; the comparisons are exactly those of the bucket checks of every window up to the first hit |
| RabinKarp.RollingScan | algorithms.cpp:489-497 | once the first window has missed, true iff some window hits; a miss adds `2(n-m)` hash operations and a first hit at `s` adds `2s`; the comparisons are those of the bucket checks from window 1 on |
| RabinKarp.NextWindow | algorithms.cpp:490-496 | one roll yields the hash of the window starting at `i-m+1`, adds 2 hash operations, and reports exactly whether that window is a group hit |
| RabinKarp.RabinKarpContains | algorithms.cpp:501-508 | true iff some group has a pattern that occurs; `token_checks` is unchanged |
| RabinKarp.PatternHash | algorithms.cpp:328-331 | the pattern hashing loop computes the Horner hash of the pattern |
| RabinKarp.OfLengthMembers | algorithms.cpp:318-327 | a group of length `len` holds exactly the listed patterns of that length |
| RabinKarp.WithPatternValid | algorithms.cpp:326-332 | appending a pattern of the group's length and filing its index under its hash keeps the group valid |
| RabinKarp.FilePattern | algorithms.cpp:319-332 | filing a non-empty pattern replaces its length's group, found or freshly created with its `high_base`, by that group with the pattern appended and filed under its hash |
| RabinKarp.GroupByLength | algorithms.cpp:317-333 | the map has one valid group per length of a non-empty pattern, holding exactly those patterns in list order, with `high_base = 256^(len-1) mod P` |
| RabinKarp.ListGroups | algorithms.cpp:334 | the vector holds every group of the map once, in some order |
| RabinKarp.BuildGroups | algorithms.cpp:316-336 | the groups cover the patterns: one per length, each valid and exact |
| RabinKarp.GroupHitIffAnyOccurs | algorithms.cpp:501-508 | for groups built from a pattern list, a group hit happens exactly when some non-empty pattern occurs |
| Matcher.PrepareMatcher | algorithms.cpp:268-340 | the matcher keeps the algorithm and the raw patterns, builds the chosen algorithm's index, and leaves every other index empty |
| Matcher.MatchBruteForce | algorithms.cpp:514-518 | true iff some non-empty raw pattern occurs; only `char_comparisons` changes, by exactly each non-empty pattern's scan cost in turn up to and including the first pattern that occurs |
| Matcher.MatchKmp | algorithms.cpp:521-524 | true iff some indexed pattern occurs; only `char_comparisons` grows |
| Matcher.MatchHorspool | algorithms.cpp:533-536 | true iff some indexed pattern occurs; only `char_comparisons` grows |
| Matcher.MatchRow | algorithms.cpp:510-543 | on a prepared matcher, five algorithms answer "some non-empty pattern occurs" and HashLexicon answers "some token list is a run of the text's tokens"; each changes only its own counters; BruteForce adds exactly `ListCost`, HashLexicon exactly `LexiconCost` of the text's tokens, and Trie exactly the walks up to the leftmost accepted start, or every walk on a miss |
| Matcher.SameVerdict | algorithms.cpp:510-543 | preparing the same patterns for any two of BruteForce, KMP, Trie, Horspool and RabinKarp and matching the same row gives the same verdict |
| Matcher.LexiconIsNotSubstring | algorithms.cpp:527-528 | HashLexicon and substring matching differ: `AB` occurs in `XABY`, yet the lexicon does not hit |
| Matcher.ParseAlgorithm | algorithms.cpp:96-123 | a name parses to an algorithm exactly when, upper-cased, it is one of that algorithm's accepted spellings; no spelling belongs to two algorithms, and any other name gives `None` |
| Matcher.AlgorithmName | algorithms.cpp:125-135 | every printed name is ASCII, and upper-cased it is one of the spellings accepted for its own algorithm |
| Matcher.ParseIgnoresCase | algorithms.cpp:96-123 | parsing an algorithm name does not depend on its letter case |
| Matcher.NameRoundTrip | algorithms.cpp:125-135 | every algorithm's printed name parses back to that algorithm |

## Left out

- `main`, `parse_arguments`, `print_usage`, `load_patterns`, `load_rows`, `write_csv`: file streams, standard output and the argument loop are I/O and are not modelled.
- Timing and averaging of trials: wall-clock time and `double` arithmetic are not modelled.
- `parse_size_argument`: it relies on `std::stoll` prefix parsing, exceptions and unchecked `size_t` multiplication. It is not part of this model.
- `split_row`: its field splitting follows `std::getline` and `stringstream` behaviour, and it is not part of this model. `trim`, which it calls, is modelled.
- `add_intrusions.py` and `create_graphs.py`: randomised CSV rewriting and plotting, outside the engine.
- `std::isalnum` and `std::toupper` are taken in the C locale: ASCII digits and letters, and `a`–`z` mapped to `A`–`Z`.
- The `long long` counters are unbounded naturals, and `size_t` indices are unbounded too. Overflow of either would need more than 2^63 operations.
- The 32-bit `int` fields are unbounded `int`s in the model. These are the `lps` entries (algorithms.cpp:175, 220), the shift entries (algorithms.cpp:180, 307-309) and the trie child indices, including `static_cast<int>(nodes.size())` (algorithms.cpp:195, 259). They would wrap only for a pattern longer than 2^31 - 1 bytes or a trie with more nodes than that, and the model does not cover that case.
- Rabin–Karp group order follows `std::unordered_map` iteration and is unspecified. `ListGroups` picks an arbitrary order.
- RabinKarp.RabinKarpContains: states the boolean result and that `token_checks` is unchanged, but not exact counter totals across groups. Those totals depend on the unspecified group order.
- RabinKarp.PowMod: states `b^e mod P` exactly only when `b < 2^32`. The 64-bit wrap of `result * base` and `base * base` is modelled for every `b < 2^64`, and the engine only calls it with `b = 256`.
- RabinKarp.PowMod: `exp & 1` and `exp >>= 1` are written as `exp % 2` and `exp / 2`, which agree on unsigned values.
- Horspool.HorspoolContains: when the pattern is non-empty it requires the shift table to be the one built from that pattern, as every prepared entry has.
- Horspool.HorspoolContains: states bounds on the comparison count: at least 1 and at most `m` per window. It does not state the exact total, which depends on the sequence of shifts. Each window's count is exact in `CompareBackward`.
- Kmp.KmpContains: states lower and upper bounds on the comparison count, not the exact total, which depends on the path of fallbacks through `lps`.
- Trie nodes: the `std::array<int, 256>` of a node is a 256-element `seq<int>`, and the arena vector is a `seq` field of `TrieArena`.
- `build_lps` fills a `seq` by pointwise update where the source writes into a `std::vector`.
- Matcher.MatchRow: for the KMP and Horspool cases it states only that `char_comparisons` is the one counter that changes. Their single-pattern scans state bounds, not exact totals, and the sum of those bounds over the list is not stated. For the RabinKarp case it states only the direction of change, because the group order is unspecified.
- Matcher.MatchKmp: states that only `char_comparisons` grows, not the total over the list, for the reason given for `Matcher.MatchRow`.
- Matcher.MatchHorspool: states that only `char_comparisons` grows, not the total over the list, for the same reason.
- `parse_algorithm` compares a `std::string` with string literals. The model reads the upper-cased bytes back as characters (`Text.Chars`) and compares those with the literals.
