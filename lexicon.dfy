/** The tokenizer (`tokenize`) and the token-run matcher
    (`hash_lexicon_contains`). */
module Lexicon {
  import opened Common

  /** `std::isalnum` in the C locale: the ASCII digits and letters. */
  predicate IsAlnum(b: byte) {
    '0' as byte <= b <= '9' as byte || 'A' as byte <= b <= 'Z' as byte || 'a' as byte <= b <= 'z' as byte
  }

  /** Length of the longest alphanumeric prefix of `s`. */
  function RunLength(s: seq<byte>): (k: nat)
    ensures k <= |s|
    ensures forall i :: 0 <= i < k ==> IsAlnum(s[i])
    ensures k < |s| ==> !IsAlnum(s[k])
  {
    if s == [] || !IsAlnum(s[0]) then 0 else 1 + RunLength(s[1..])
  }

  /** The maximal runs of alphanumeric bytes of `s`, in order: skip a
      separator, or take the longest run that starts here. */
  function Tokens(s: seq<byte>): seq<seq<byte>>
    decreases |s|
  {
    if s == [] then []
    else if !IsAlnum(s[0]) then Tokens(s[1..])
    else
      var k := RunLength(s);
      [s[..k]] + Tokens(s[k..])
  }

  /** A prepared lexicon pattern: the source's `HashLexiconPattern`. */
  datatype LexiconPattern = LexiconPattern(tokens: seq<seq<byte>>)

  /** Appending a byte: a separator changes nothing, and an alphanumeric byte
      either extends the last token or starts a new one. */
  lemma {:induction false} RunLengthSnoc(s: seq<byte>, b: byte)
    ensures RunLength(s) < |s| ==> RunLength(s + [b]) == RunLength(s)
    ensures RunLength(s) == |s| ==> RunLength(s + [b]) == |s| + (if IsAlnum(b) then 1 else 0)
  {
    if s != [] && IsAlnum(s[0]) {
      assert (s + [b])[1..] == s[1..] + [b];
      RunLengthSnoc(s[1..], b);
    }
  }

  lemma {:induction false} TokensSnoc(s: seq<byte>, b: byte)
    ensures !IsAlnum(b) ==> Tokens(s + [b]) == Tokens(s)
    ensures IsAlnum(b) && (s == [] || !IsAlnum(s[|s| - 1])) ==> Tokens(s + [b]) == Tokens(s) + [[b]]
    ensures IsAlnum(b) && s != [] && IsAlnum(s[|s| - 1]) ==>
              Tokens(s) != [] &&
              Tokens(s + [b]) == Tokens(s)[..|Tokens(s)| - 1] + [Tokens(s)[|Tokens(s)| - 1] + [b]]
    decreases |s|
  {
    if s == [] {
      assert RunLength([b]) == (if IsAlnum(b) then 1 else 0);
      assert [b][..1] == [b] && [b][1..] == [];
    } else if !IsAlnum(s[0]) {
      assert (s + [b])[1..] == s[1..] + [b];
      TokensSnoc(s[1..], b);
    } else {
      var k := RunLength(s);
      RunLengthSnoc(s, b);
      if k == |s| {
        TokensSnocWholeRun(s, b);
      } else {
        var rest := s[k..];
        assert (s + [b])[..k] == s[..k];
        assert (s + [b])[k..] == rest + [b];
        assert rest[|rest| - 1] == s[|s| - 1];
        TokensSnoc(rest, b);
        assert Tokens(s) == [s[..k]] + Tokens(rest);
        if IsAlnum(b) && IsAlnum(s[|s| - 1]) {
          var tr := Tokens(rest);
          assert ([s[..k]] + tr)[..|tr|] == [s[..k]] + tr[..|tr| - 1];
        }
      }
    }
  }

  /** A text that is one alphanumeric run is its own only token. */
  lemma TokensOfRun(s: seq<byte>)
    requires s != [] && RunLength(s) == |s|
    ensures Tokens(s) == [s]
  {
    assert IsAlnum(s[0]);
    assert s[..|s|] == s && s[|s|..] == [];
  }

  /** A lone separator yields no token. */
  lemma TokensOfSeparator(b: byte)
    requires !IsAlnum(b)
    ensures Tokens([b]) == []
  {
    assert [b][1..] == [];
  }

  /** A byte appended to a text that is one alphanumeric run either extends
      that token or is dropped. */
  lemma TokensSnocWholeRun(s: seq<byte>, b: byte)
    requires s != [] && RunLength(s) == |s|
    ensures Tokens(s) == [s]
    ensures !IsAlnum(b) ==> Tokens(s + [b]) == [s]
    ensures IsAlnum(b) ==> Tokens(s + [b]) == [s + [b]]
  {
    var k := |s|;
    var t := s + [b];
    RunLengthSnoc(s, b);
    TokensOfRun(s);
    if IsAlnum(b) {
      TokensOfRun(t);
    } else {
      assert IsAlnum(t[0]);
      assert t[..k] == s && t[k..] == [b];
      TokensOfSeparator(b);
      assert Tokens(t) == [t[..k]] + Tokens(t[k..]);
    }
  }

  /** `tokenize`: bytes accumulate in `current` while they are alphanumeric,
      and `current` is pushed and cleared at every separator and at the end. */
  method Tokenize(text: seq<byte>) returns (tokens: seq<seq<byte>>)
    ensures tokens == Tokens(text)
  {
    tokens := [];
    var current: seq<byte> := [];
    for i := 0 to |text|
      invariant Tokens(text[..i]) == tokens + (if current == [] then [] else [current])
      invariant current != [] <==> i > 0 && IsAlnum(text[i - 1])
    {
      var b := text[i];
      assert text[..i + 1] == text[..i] + [b];
      assert i > 0 ==> text[..i][i - 1] == text[i - 1];
      TokensSnoc(text[..i], b);
      if IsAlnum(b) {
        if current != [] {
          var ts := tokens + [current];
          assert ts[..|ts| - 1] == tokens && ts[|ts| - 1] == current;
          assert Tokens(text[..i + 1]) == tokens + [current + [b]];
        } else {
          assert current + [b] == [b];
        }
        current := current + [b];
      } else {
        if current != [] {
          tokens := tokens + [current];
          current := [];
        }
      }
    }
    assert text[..|text|] == text;
    if current != [] {
      tokens := tokens + [current];
    }
  }

  /** Every token is a non-empty run of alphanumeric bytes. */
  lemma {:induction false} TokensAreAlnumRuns(s: seq<byte>)
    ensures forall t :: t in Tokens(s) ==> t != [] && forall i :: 0 <= i < |t| ==> IsAlnum(t[i])
    decreases |s|
  {
    if s != [] {
      if !IsAlnum(s[0]) {
        TokensAreAlnumRuns(s[1..]);
      } else {
        TokensAreAlnumRuns(s[RunLength(s)..]);
      }
    }
  }

  /** A text yields no token exactly when it has no alphanumeric byte. */
  lemma {:induction false} NoTokensIffNoAlnum(s: seq<byte>)
    ensures Tokens(s) == [] <==> forall i :: 0 <= i < |s| ==> !IsAlnum(s[i])
    decreases |s|
  {
    if s != [] && !IsAlnum(s[0]) {
      NoTokensIffNoAlnum(s[1..]);
      assert forall i :: 1 <= i < |s| ==> s[i] == s[1..][i - 1];
    }
  }

  /** Tokens keep every alphanumeric byte, in order, and drop every other. */
  function Alnums(s: seq<byte>): seq<byte> {
    if s == [] then [] else (if IsAlnum(s[0]) then [s[0]] else []) + Alnums(s[1..])
  }

  function Concat(ts: seq<seq<byte>>): seq<byte> {
    if ts == [] then [] else ts[0] + Concat(ts[1..])
  }

  lemma {:induction false} AlnumsOfRun(s: seq<byte>, k: nat)
    requires k <= |s| && forall i :: 0 <= i < k ==> IsAlnum(s[i])
    ensures Alnums(s) == s[..k] + Alnums(s[k..])
  {
    if k > 0 {
      AlnumsOfRun(s[1..], k - 1);
      assert s[1..][k - 1..] == s[k..];
      assert s[..k] == [s[0]] + s[1..][..k - 1];
    }
  }

  lemma {:induction false} TokensKeepAlnums(s: seq<byte>)
    ensures Concat(Tokens(s)) == Alnums(s)
    decreases |s|
  {
    if s != [] {
      if !IsAlnum(s[0]) {
        TokensKeepAlnums(s[1..]);
      } else {
        var k := RunLength(s);
        TokensKeepAlnums(s[k..]);
        AlnumsOfRun(s, k);
        assert ([s[..k]] + Tokens(s[k..]))[1..] == Tokens(s[k..]);
      }
    }
  }

  /** The question the lexicon answers: some non-empty token list of the
      lexicon occurs as a contiguous run of `tokens`. */
  ghost predicate LexiconHit(lexicon: seq<LexiconPattern>, tokens: seq<seq<byte>>) {
    exists k :: 0 <= k < |lexicon| && lexicon[k].tokens != [] && OccursIn(lexicon[k].tokens, tokens)
  }

  /** The token checks `hash_lexicon_contains` makes over `tokens`: each
      entry's left-to-right scan in turn, up to and including the first
      entry that hits. An empty entry, or one longer than the token list,
      costs nothing. */
  ghost function LexiconCost(lexicon: seq<LexiconPattern>, tokens: seq<seq<byte>>): nat {
    if lexicon == [] then 0
    else
      var ptoks := lexicon[0].tokens;
      ScanCost(ptoks, tokens, 0) + (if ptoks != [] && OccursIn(ptoks, tokens) then 0 else LexiconCost(lexicon[1..], tokens))
  }

  /** Without tokens no entry is checked. */
  lemma {:induction false} LexiconCostNoTokens(lexicon: seq<LexiconPattern>)
    ensures LexiconCost(lexicon, []) == 0
  {
    if lexicon != [] {
      var ptoks := lexicon[0].tokens;
      if ptoks == [] {
        assert OccursAt(ptoks, [], 0);
      }
      assert ScanCost(ptoks, [], 0) == 0;
      LexiconCostNoTokens(lexicon[1..]);
    }
  }

  /** `hash_lexicon_contains`: tokenize the text once, then slide each
      pattern's token list over it; one check per token comparison, the
      failing one included. */
  method HashLexiconContains(text: seq<byte>, lexicon: seq<LexiconPattern>, c: Counters)
    returns (found: bool, c': Counters)
    ensures found <==> LexiconHit(lexicon, Tokens(text))
    ensures c' == c.(tokenChecks := c.tokenChecks + LexiconCost(lexicon, Tokens(text)))
  {
    c' := c;
    if |lexicon| == 0 {
      return false, c';
    }
    var tokens := Tokenize(text);
    if |tokens| == 0 {
      LexiconCostNoTokens(lexicon);
      return false, c';
    }
    var p := 0;
    while p < |lexicon|
      invariant 0 <= p <= |lexicon|
      invariant forall k :: 0 <= k < p && lexicon[k].tokens != [] ==> !OccursIn(lexicon[k].tokens, tokens)
      invariant c'.tokenChecks + LexiconCost(lexicon[p..], tokens) == c.tokenChecks + LexiconCost(lexicon, tokens)
      invariant c' == c.(tokenChecks := c'.tokenChecks)
    {
      var ptoks := lexicon[p].tokens;
      assert lexicon[p..][0] == lexicon[p] && lexicon[p..][1..] == lexicon[p + 1..];
      var hit;
      hit, c' := ScanTokens(tokens, ptoks, c');
      if hit {
        return true, c';
      }
      p := p + 1;
    }
    return false, c';
  }

  /** One lexicon entry against the token list: every offset in turn, as
      long as the entry is not empty and fits. */
  method ScanTokens(tokens: seq<seq<byte>>, ptoks: seq<seq<byte>>, c: Counters)
    returns (hit: bool, c': Counters)
    ensures hit <==> ptoks != [] && OccursIn(ptoks, tokens)
    ensures c' == c.(tokenChecks := c.tokenChecks + ScanCost(ptoks, tokens, 0))
  {
    c' := c;
    if ptoks == [] || |ptoks| > |tokens| {
      ScanCostNone(ptoks, tokens, 0);
      return false, c';
    }
    var i := 0;
    while i + |ptoks| <= |tokens|
      invariant 0 <= i <= |tokens| - |ptoks| + 1
      invariant forall s :: 0 <= s < i ==> !OccursAt(ptoks, tokens, s)
      invariant c'.tokenChecks + ScanCost(ptoks, tokens, i) == c.tokenChecks + ScanCost(ptoks, tokens, 0)
      invariant c' == c.(tokenChecks := c'.tokenChecks)
    {
      ScanCostStep(ptoks, tokens, i);
      var equal;
      equal, c' := CompareTokens(tokens, ptoks, i, c');
      if equal {
        return true, c';
      }
      i := i + 1;
    }
    ScanCostNone(ptoks, tokens, i);
    assert forall s :: !OccursAt(ptoks, tokens, s);
    return false, c';
  }

  /** The innermost loop: compare the entry's tokens with the text's tokens
      from offset `i`, stopping at the first mismatch; one check per token
      pair compared. */
  method CompareTokens(tokens: seq<seq<byte>>, ptoks: seq<seq<byte>>, i: nat, c: Counters)
    returns (equal: bool, c': Counters)
    requires i + |ptoks| <= |tokens|
    ensures equal <==> OccursAt(ptoks, tokens, i)
    ensures c' == c.(tokenChecks := c.tokenChecks + WindowCost(ptoks, tokens, i))
  {
    c' := c;
    MatchedPrefixFacts(ptoks, tokens, i);
    MatchedPrefixOccurs(ptoks, tokens, i);
    equal := true;
    var j := 0;
    while j < |ptoks|
      invariant 0 <= j <= MatchedPrefix(ptoks, tokens, i)
      invariant equal
      invariant c' == c.(tokenChecks := c.tokenChecks + j)
    {
      c' := c'.(tokenChecks := c'.tokenChecks + 1);
      if tokens[i + j] != ptoks[j] {
        equal := false;
        break;
      }
      j := j + 1;
    }
  }

  /** The lexicon of a pattern list: the token lists of the patterns that
      have at least one token, in order. */
  function LexiconOf(patterns: seq<seq<byte>>): seq<LexiconPattern> {
    if patterns == [] then []
    else
      var toks := Tokens(patterns[|patterns| - 1]);
      LexiconOf(patterns[..|patterns| - 1]) + (if toks == [] then [] else [LexiconPattern(toks)])
  }

  /** The HashLexicon case of `prepare_matcher`. */
  method PrepareLexicon(patterns: seq<seq<byte>>) returns (lexicon: seq<LexiconPattern>)
    ensures lexicon == LexiconOf(patterns)
    ensures forall k :: 0 <= k < |lexicon| ==> lexicon[k].tokens != []
  {
    lexicon := [];
    for i := 0 to |patterns|
      invariant lexicon == LexiconOf(patterns[..i])
      invariant forall k :: 0 <= k < |lexicon| ==> lexicon[k].tokens != []
    {
      assert patterns[..i + 1][..i] == patterns[..i];
      var tokens := Tokenize(patterns[i]);
      if tokens != [] {
        lexicon := lexicon + [LexiconPattern(tokens)];
      }
    }
    assert patterns[..|patterns|] == patterns;
  }

  /** What the lexicon of a pattern list answers: some pattern with at least
      one token has its token list occur as a run of the text's tokens. */
  ghost predicate TokenRunMatch(patterns: seq<seq<byte>>, text: seq<byte>) {
    exists k :: 0 <= k < |patterns| && Tokens(patterns[k]) != [] && OccursIn(Tokens(patterns[k]), Tokens(text))
  }

  lemma {:induction false} LexiconOfHit(patterns: seq<seq<byte>>, text: seq<byte>)
    ensures LexiconHit(LexiconOf(patterns), Tokens(text)) <==> TokenRunMatch(patterns, text)
  {
    if patterns != [] {
      var init, last := patterns[..|patterns| - 1], patterns[|patterns| - 1];
      LexiconOfHit(init, text);
      var lex := LexiconOf(init);
      var lex' := LexiconOf(patterns);
      assert forall k :: 0 <= k < |lex| ==> lex'[k] == lex[k];
      assert forall k :: 0 <= k < |init| ==> patterns[k] == init[k];
      if TokenRunMatch(patterns, text) {
        var k :| 0 <= k < |patterns| && Tokens(patterns[k]) != [] && OccursIn(Tokens(patterns[k]), Tokens(text));
        if k == |patterns| - 1 {
          assert lex'[|lex|].tokens == Tokens(last);
        } else {
          assert TokenRunMatch(init, text);
        }
      }
      if LexiconHit(lex', Tokens(text)) {
        var k :| 0 <= k < |lex'| && lex'[k].tokens != [] && OccursIn(lex'[k].tokens, Tokens(text));
        if k < |lex| {
          assert LexiconHit(lex, Tokens(text));
        } else {
          assert Tokens(patterns[|patterns| - 1]) == lex'[k].tokens;
        }
      }
    }
  }
}
