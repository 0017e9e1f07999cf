/** The byte trie: its node arena, insertion (`trie_insert`) and the scan that
    walks the trie from every offset of the text (`trie_contains`). */
module Trie {
  import opened Common

  /** One node of the arena: a child index per byte, -1 where there is no
      child, and whether some inserted pattern ends here. */
  datatype TrieNode = TrieNode(next: seq<int>, terminal: bool)

  /** A fresh node, as the source's `TrieNode()` constructor fills it. */
  function EmptyNode(): (r: TrieNode)
    ensures |r.next| == 256 && !r.terminal
    ensures forall b: byte :: r.next[b] == -1
  {
    TrieNode(seq(256, _ => -1), false)
  }

  /** Every node has 256 child slots, each empty (-1) or the index of a node
      of the arena. */
  ghost predicate WellFormed(nodes: seq<TrieNode>) {
    forall n :: 0 <= n < |nodes| ==>
      |nodes[n].next| == 256 && forall b: byte :: -1 <= nodes[n].next[b] < |nodes|
  }

  /** The node reached from `n` by following the bytes of `w`, or `None`
      when an edge is missing. */
  ghost function Walk(nodes: seq<TrieNode>, n: int, w: seq<byte>): (r: Option<int>)
    requires WellFormed(nodes) && 0 <= n < |nodes|
    ensures r.Some? ==> 0 <= r.value < |nodes|
    decreases |w|
  {
    if w == [] then Some(n)
    else
      var child := nodes[n].next[w[0]];
      if child == -1 then None else Walk(nodes, child, w[1..])
  }

  /** The walk of `w` from the root ends on a terminal node. */
  ghost predicate Accepts(nodes: seq<TrieNode>, w: seq<byte>) {
    WellFormed(nodes) && |nodes| > 0 && Walk(nodes, 0, w).Some? && nodes[Walk(nodes, 0, w).value].terminal
  }

  /** Walking `u + v` is walking `u`, then `v` from where `u` ended. */
  lemma {:induction false} WalkAppend(nodes: seq<TrieNode>, n: int, u: seq<byte>, v: seq<byte>)
    requires WellFormed(nodes) && 0 <= n < |nodes|
    ensures Walk(nodes, n, u + v)
            == if Walk(nodes, n, u).None? then None else Walk(nodes, Walk(nodes, n, u).value, v)
    decreases |u|
  {
    if u == [] {
      assert u + v == v;
    } else {
      assert (u + v)[0] == u[0] && (u + v)[1..] == u[1..] + v;
      var child := nodes[n].next[u[0]];
      if child != -1 {
        WalkAppend(nodes, child, u[1..], v);
      }
    }
  }

  /** Once a walk falls off the trie, no extension of the word gets back on. */
  lemma DeadEnd(nodes: seq<TrieNode>, u: seq<byte>, w: seq<byte>)
    requires WellFormed(nodes) && |nodes| > 0 && Walk(nodes, 0, u).None?
    requires |u| <= |w| && w[..|u|] == u
    ensures !Accepts(nodes, w)
  {
    var v := w[|u|..];
    assert w == u + v;
    WalkAppend(nodes, 0, u, v);
  }

  /** `labels[n]` is the word that leads from the root to node `n`: the root
      is reached by the empty word and every edge appends its byte. The
      labels make the arena a tree. */
  ghost predicate Labelled(nodes: seq<TrieNode>, labels: seq<seq<byte>>) {
    WellFormed(nodes) && |nodes| > 0 && |labels| == |nodes| && labels[0] == []
    && forall n, b: byte :: 0 <= n < |nodes| && nodes[n].next[b] != -1 ==>
         labels[nodes[n].next[b]] == labels[n] + [b]
  }

  /** A walk from `n` by `w` ends at the node labelled `labels[n] + w`. */
  lemma {:induction false} WalkLabel(nodes: seq<TrieNode>, labels: seq<seq<byte>>, n: int, w: seq<byte>)
    requires Labelled(nodes, labels) && 0 <= n < |nodes|
    ensures Walk(nodes, n, w).Some? ==> labels[Walk(nodes, n, w).value] == labels[n] + w
    decreases |w|
  {
    if w != [] {
      var child := nodes[n].next[w[0]];
      if child != -1 {
        WalkLabel(nodes, labels, child, w[1..]);
        assert labels[n] + [w[0]] + w[1..] == labels[n] + w;
      }
    }
  }

  /** The arena after `trie_insert` hangs a new leaf under node `n` for byte `b`. */
  ghost function WithLeaf(nodes: seq<TrieNode>, n: int, b: byte): seq<TrieNode>
    requires WellFormed(nodes) && 0 <= n < |nodes|
  {
    nodes[n := nodes[n].(next := nodes[n].next[b := |nodes|])] + [EmptyNode()]
  }

  /** Hanging a leaf on an empty slot keeps every walk that existed, and every
      walk of the new arena that ends on an old node existed before. */
  lemma {:induction false} WalkWithLeaf(nodes: seq<TrieNode>, n: int, b: byte, s: int, w: seq<byte>)
    requires WellFormed(nodes) && 0 <= n < |nodes| && nodes[n].next[b] == -1
    requires 0 <= s < |nodes|
    ensures WellFormed(WithLeaf(nodes, n, b))
    ensures Walk(nodes, s, w).Some? ==> Walk(WithLeaf(nodes, n, b), s, w) == Walk(nodes, s, w)
    ensures Walk(WithLeaf(nodes, n, b), s, w).Some? && Walk(WithLeaf(nodes, n, b), s, w).value < |nodes|
            ==> Walk(nodes, s, w) == Walk(WithLeaf(nodes, n, b), s, w)
    decreases |w|
  {
    var grown := WithLeaf(nodes, n, b);
    assert WellFormed(grown) by {
      forall k | 0 <= k < |grown| ensures |grown[k].next| == 256 && forall b': byte :: -1 <= grown[k].next[b'] < |grown| {
        if k < |nodes| {
          assert forall b': byte :: -1 <= nodes[k].next[b'] < |nodes|;
        }
      }
    }
    if w != [] {
      var child := nodes[s].next[w[0]];
      var child' := grown[s].next[w[0]];
      if s == n && w[0] == b {
        assert child == -1 && child' == |nodes|;
        if w[1..] != [] {
          assert grown[|nodes|].next[w[1..][0]] == -1;
        }
      } else {
        assert child' == child;
        if child != -1 {
          WalkWithLeaf(nodes, n, b, child, w[1..]);
        }
      }
    }
  }

  /** Adding a leaf keeps the labelling (the leaf is labelled by its parent's
      word and its byte) and accepts exactly the words accepted before. */
  lemma AddLeafFacts(nodes: seq<TrieNode>, labels: seq<seq<byte>>, n: int, b: byte)
    requires Labelled(nodes, labels) && 0 <= n < |nodes| && nodes[n].next[b] == -1
    ensures Labelled(WithLeaf(nodes, n, b), labels + [labels[n] + [b]])
    ensures forall w :: Accepts(WithLeaf(nodes, n, b), w) <==> Accepts(nodes, w)
    ensures |WithLeaf(nodes, n, b)| == |nodes| + 1
    ensures forall k, b': byte :: 0 <= k < |nodes| && nodes[k].next[b'] != -1
              ==> WithLeaf(nodes, n, b)[k].next[b'] == nodes[k].next[b']
    ensures forall k :: 0 <= k < |nodes| ==> WithLeaf(nodes, n, b)[k].terminal == nodes[k].terminal
  {
    var grown := WithLeaf(nodes, n, b);
    var labels' := labels + [labels[n] + [b]];
    WalkWithLeaf(nodes, n, b, 0, []);
    forall k, b': byte | 0 <= k < |grown| && grown[k].next[b'] != -1
      ensures labels'[grown[k].next[b']] == labels'[k] + [b']
    {
      if k < |nodes| && !(k == n && b' == b) {
        assert grown[k].next[b'] == nodes[k].next[b'];
      }
    }
    forall w ensures Accepts(grown, w) <==> Accepts(nodes, w) {
      WalkWithLeaf(nodes, n, b, 0, w);
      if Walk(grown, 0, w).Some? {
        var t := Walk(grown, 0, w).value;
        assert t < |nodes| ==> grown[t].terminal == nodes[t].terminal;
      }
      if Walk(nodes, 0, w).Some? {
        var t := Walk(nodes, 0, w).value;
        assert grown[t].terminal == nodes[t].terminal;
      }
    }
  }

  /** Two arenas with the same edges have the same walks. */
  lemma {:induction false} SameEdgesSameWalk(nodes: seq<TrieNode>, nodes': seq<TrieNode>, s: int, w: seq<byte>)
    requires WellFormed(nodes) && |nodes'| == |nodes| && 0 <= s < |nodes|
    requires forall k :: 0 <= k < |nodes| ==> nodes'[k].next == nodes[k].next
    ensures WellFormed(nodes') && Walk(nodes', s, w) == Walk(nodes, s, w)
    decreases |w|
  {
    if w != [] {
      var child := nodes[s].next[w[0]];
      if child != -1 {
        SameEdgesSameWalk(nodes, nodes', child, w[1..]);
      }
    }
  }

  /** The arena after `trie_insert` marks node `t` terminal. */
  ghost function WithTerminal(nodes: seq<TrieNode>, t: int): seq<TrieNode>
    requires 0 <= t < |nodes|
  {
    nodes[t := nodes[t].(terminal := true)]
  }

  /** Marking the end of `pattern`'s walk terminal adds `pattern`, and only
      `pattern`, to the accepted words. */
  lemma MarkTerminalFacts(nodes: seq<TrieNode>, labels: seq<seq<byte>>, pattern: seq<byte>)
    requires Labelled(nodes, labels) && Walk(nodes, 0, pattern).Some?
    ensures Labelled(WithTerminal(nodes, Walk(nodes, 0, pattern).value), labels)
    ensures forall w :: Accepts(WithTerminal(nodes, Walk(nodes, 0, pattern).value), w)
                        <==> Accepts(nodes, w) || w == pattern
    ensures var marked := WithTerminal(nodes, Walk(nodes, 0, pattern).value);
            |marked| == |nodes|
            && (forall k :: 0 <= k < |nodes| ==> marked[k].next == nodes[k].next)
            && (forall k :: 0 <= k < |nodes| && nodes[k].terminal ==> marked[k].terminal)
  {
    var t := Walk(nodes, 0, pattern).value;
    var marked := WithTerminal(nodes, t);
    SameEdgesSameWalk(nodes, marked, 0, []);
    WalkLabel(nodes, labels, 0, pattern);
    forall k, b': byte | 0 <= k < |marked| && marked[k].next[b'] != -1
      ensures labels[marked[k].next[b']] == labels[k] + [b']
    {
      assert marked[k].next == nodes[k].next;
    }
    forall w ensures Accepts(marked, w) <==> Accepts(nodes, w) || w == pattern {
      SameEdgesSameWalk(nodes, marked, 0, w);
      WalkLabel(nodes, labels, 0, w);
      assert [] + w == w && [] + pattern == pattern;
    }
  }

  /** The source's `std::vector<TrieNode>` together with the ghost words it
      stores: (0) is the root, `labels` gives every node's word and `words`
      is the set of inserted patterns. */
  class TrieArena {
    var nodes: seq<TrieNode>
    ghost var labels: seq<seq<byte>>
    ghost var words: set<seq<byte>>

    /** The arena is a labelled tree whose terminal nodes are exactly the
        ends of the inserted words. */
    ghost predicate Valid()
      reads this
    {
      Labelled(nodes, labels) && forall w :: Accepts(nodes, w) <==> w in words
    }

    /** An arena holding only the root, as `prepare_matcher` starts it. */
    constructor()
      ensures Valid() && nodes == [EmptyNode()] && words == {}
    {
      nodes := [EmptyNode()];
      labels := [[]];
      words := {};
      new;
      forall w ensures !Accepts(nodes, w) {
        if w != [] {
          assert nodes[0].next[w[0]] == -1;
        }
      }
    }

    /** `trie_insert`: follow the pattern's bytes from the root, appending a
        fresh node wherever an edge is missing, and mark the last node
        terminal. */
    method Insert(pattern: seq<byte>)
      requires Valid()
      modifies this
      ensures Valid()
      ensures words == old(words) + {pattern}
      ensures Accepts(nodes, pattern)
      ensures old(|nodes|) <= |nodes| <= old(|nodes|) + |pattern|
      ensures forall k, b: byte :: 0 <= k < old(|nodes|) && old(nodes)[k].next[b] != -1
                ==> nodes[k].next[b] == old(nodes)[k].next[b]
      ensures forall k :: 0 <= k < old(|nodes|) && old(nodes)[k].terminal ==> nodes[k].terminal
    {
      var node := 0;
      var i := 0;
      while i < |pattern|
        invariant 0 <= i <= |pattern|
        invariant Labelled(nodes, labels)
        invariant words == old(words)
        invariant forall w :: Accepts(nodes, w) <==> w in words
        invariant 0 <= node < |nodes| && Walk(nodes, 0, pattern[..i]) == Some(node)
        invariant old(|nodes|) <= |nodes| <= old(|nodes|) + i
        invariant forall k, b: byte :: 0 <= k < old(|nodes|) && old(nodes)[k].next[b] != -1
                    ==> nodes[k].next[b] == old(nodes)[k].next[b]
        invariant forall k :: 0 <= k < old(|nodes|) && old(nodes)[k].terminal ==> nodes[k].terminal
      {
        var idx := pattern[i];
        var next := nodes[node].next[idx];
        if next == -1 {
          AddLeafFacts(nodes, labels, node, idx);
          WalkWithLeaf(nodes, node, idx, 0, pattern[..i]);
          ghost var before := nodes;
          labels := labels + [labels[node] + [idx]];
          nodes := nodes[node := nodes[node].(next := nodes[node].next[idx := |nodes|])];
          nodes := nodes + [EmptyNode()];
          assert nodes == WithLeaf(before, node, idx);
          next := nodes[node].next[idx];
        }
        WalkAppend(nodes, 0, pattern[..i], [idx]);
        assert pattern[..i + 1] == pattern[..i] + [idx];
        node := next;
        i := i + 1;
      }
      assert pattern[..i] == pattern;
      MarkTerminalFacts(nodes, labels, pattern);
      ghost var before := nodes;
      nodes := nodes[node := nodes[node].(terminal := true)];
      assert nodes == WithTerminal(before, node);
      words := words + {pattern};
    }
  }

  /** Some non-empty stretch of the text is a word the trie accepts. */
  ghost predicate SubstringAccepted(nodes: seq<TrieNode>, text: seq<byte>) {
    exists i, j :: 0 <= i < j <= |text| && Accepts(nodes, text[i..j])
  }

  /** `i` is the leftmost offset from which some non-empty stretch of the
      text is accepted. */
  ghost predicate FirstAcceptedStart(nodes: seq<TrieNode>, text: seq<byte>, i: int) {
    (exists j :: 0 <= i < j <= |text| && Accepts(nodes, text[i..j]))
    && forall i', j' :: 0 <= i' < i && i' < j' <= |text| ==> !Accepts(nodes, text[i'..j'])
  }

  /** The byte comparisons the inner walk makes from node `n` over `rest`:
      one per byte read, the byte that leads nowhere or into a terminal
      node being the last one. */
  ghost function Steps(nodes: seq<TrieNode>, n: int, rest: seq<byte>): nat
    requires WellFormed(nodes) && 0 <= n < |nodes|
    decreases |rest|
  {
    if rest == [] then 0
    else
      var child := nodes[n].next[rest[0]];
      if child == -1 || nodes[child].terminal then 1 else 1 + Steps(nodes, child, rest[1..])
  }

  /** The comparisons of the walks started at the offsets before `i`. */
  ghost function ScanSteps(nodes: seq<TrieNode>, text: seq<byte>, i: nat): nat
    requires WellFormed(nodes) && |nodes| > 0 && i <= |text|
  {
    if i == 0 then 0 else ScanSteps(nodes, text, i - 1) + Steps(nodes, 0, text[i - 1..])
  }

  /** A walk over a non-empty rest reads at least one and at most all of its bytes. */
  lemma {:induction false} StepsBounds(nodes: seq<TrieNode>, n: int, rest: seq<byte>)
    requires WellFormed(nodes) && 0 <= n < |nodes|
    ensures rest != [] ==> 1 <= Steps(nodes, n, rest) <= |rest|
    ensures rest == [] ==> Steps(nodes, n, rest) == 0
    decreases |rest|
  {
    if rest != [] {
      var child := nodes[n].next[rest[0]];
      if child != -1 && !nodes[child].terminal {
        StepsBounds(nodes, child, rest[1..]);
      }
    }
  }

  /** A failed scan makes at least one comparison per offset and at most
      one per (offset, later byte) pair. */
  lemma {:induction false} ScanStepsBounds(nodes: seq<TrieNode>, text: seq<byte>, i: nat)
    requires WellFormed(nodes) && |nodes| > 0 && i <= |text|
    ensures i <= ScanSteps(nodes, text, i) <= i * |text|
  {
    if i > 0 {
      ScanStepsBounds(nodes, text, i - 1);
      StepsBounds(nodes, 0, text[i - 1..]);
      var n := |text|;
      assert (i - 1) * n + n == i * n;
    }
  }

  /** `trie_contains`: the walk from every offset stops at the first missing
      edge and succeeds at the first terminal node; each byte read counts
      one comparison. */
  method TrieContains(text: seq<byte>, nodes: seq<TrieNode>, c: Counters) returns (found: bool, c': Counters)
    requires WellFormed(nodes)
    ensures found <==> SubstringAccepted(nodes, text)
    ensures OnlyCharsGrow(c, c')
    ensures |nodes| == 0 ==> c' == c
    ensures |nodes| > 0 && !found ==> c'.charComparisons == c.charComparisons + ScanSteps(nodes, text, |text|)
    ensures |nodes| > 0 && found ==>
              exists i :: 0 <= i < |text| && FirstAcceptedStart(nodes, text, i)
                && c'.charComparisons == c.charComparisons + ScanSteps(nodes, text, i) + Steps(nodes, 0, text[i..])
  {
    c' := c;
    if |nodes| == 0 {
      return false, c';
    }
    var n := |text|;
    var i := 0;
    while i < n
      invariant 0 <= i <= n
      invariant forall i', j' :: 0 <= i' < i && i' < j' <= n ==> !Accepts(nodes, text[i'..j'])
      invariant OnlyCharsGrow(c, c')
      invariant c'.charComparisons == c.charComparisons + ScanSteps(nodes, text, i)
    {
      var hit;
      hit, c' := WalkFrom(text, nodes, i, c');
      if hit {
        assert FirstAcceptedStart(nodes, text, i);
        return true, c';
      }
      assert text[i..] == text[(i + 1) - 1..];
      i := i + 1;
    }
    return false, c';
  }

  /** Once the walk of `text[i..j + 1]` hits a missing edge, no longer
      stretch from `i` is accepted. */
  lemma DeadEndAfter(nodes: seq<TrieNode>, text: seq<byte>, i: int, j: int, j': int)
    requires WellFormed(nodes) && |nodes| > 0 && 0 <= i <= j < j' <= |text|
    requires Walk(nodes, 0, text[i..j + 1]) == None
    ensures !Accepts(nodes, text[i..j'])
  {
    var u, w := text[i..j + 1], text[i..j'];
    assert w[..|u|] == u;
    DeadEnd(nodes, u, w);
  }

  /** The inner loop of `trie_contains`: follow the text from offset `i`,
      stopping at the first missing edge or at the first terminal node. */
  method WalkFrom(text: seq<byte>, nodes: seq<TrieNode>, i: nat, c: Counters) returns (hit: bool, c': Counters)
    requires WellFormed(nodes) && |nodes| > 0 && i <= |text|
    ensures hit <==> exists j :: i < j <= |text| && Accepts(nodes, text[i..j])
    ensures OnlyCharsGrow(c, c')
    ensures c'.charComparisons == c.charComparisons + Steps(nodes, 0, text[i..])
  {
    c' := c;
    var n := |text|;
    var node := 0;
    var j := i;
    while j < n
      invariant i <= j <= n
      invariant 0 <= node < |nodes| && Walk(nodes, 0, text[i..j]) == Some(node)
      invariant forall j' :: i < j' <= j ==> !Accepts(nodes, text[i..j'])
      invariant OnlyCharsGrow(c, c')
      invariant c'.charComparisons + Steps(nodes, node, text[j..]) == c.charComparisons + Steps(nodes, 0, text[i..])
    {
      c' := c'.(charComparisons := c'.charComparisons + 1);
      var idx := text[j];
      var next := nodes[node].next[idx];
      assert text[j..][0] == idx && text[j..][1..] == text[j + 1..];
      assert text[i..j + 1] == text[i..j] + [idx];
      WalkAppend(nodes, 0, text[i..j], [idx]);
      if next == -1 {
        forall j' | j < j' <= n ensures !Accepts(nodes, text[i..j']) {
          DeadEndAfter(nodes, text, i, j, j');
        }
        return false, c';
      }
      node := next;
      if nodes[node].terminal {
        assert Accepts(nodes, text[i..j + 1]);
        return true, c';
      }
      j := j + 1;
    }
    return false, c';
  }

  /** A trie that accepts exactly the non-empty patterns of a list finds a
      substring exactly when one of those patterns occurs in the text. */
  lemma TrieHitIffAnyOccurs(nodes: seq<TrieNode>, patterns: seq<seq<byte>>, text: seq<byte>)
    requires forall w :: Accepts(nodes, w) <==> w != [] && w in patterns
    ensures SubstringAccepted(nodes, text) <==> AnyOccurs(patterns, text)
  {
    if SubstringAccepted(nodes, text) {
      var i, j :| 0 <= i < j <= |text| && Accepts(nodes, text[i..j]);
      var k :| 0 <= k < |patterns| && patterns[k] == text[i..j];
      assert OccursAt(patterns[k], text, i);
    }
    if AnyOccurs(patterns, text) {
      var k :| 0 <= k < |patterns| && patterns[k] != [] && OccursIn(patterns[k], text);
      var s :| OccursAt(patterns[k], text, s);
      assert Accepts(nodes, text[s..s + |patterns[k]|]);
    }
  }

  /** The trie index of a pattern list: a well-formed arena with a root that
      accepts exactly the non-empty patterns of the list. */
  ghost predicate TrieIndex(nodes: seq<TrieNode>, patterns: seq<seq<byte>>) {
    WellFormed(nodes) && |nodes| > 0 && forall w :: Accepts(nodes, w) <==> w != [] && w in patterns
  }

  /** The Trie case of `prepare_matcher`: a root, then every non-empty
      pattern inserted in order. The root is never terminal. */
  method PrepareTrie(patterns: seq<seq<byte>>) returns (nodes: seq<TrieNode>)
    ensures TrieIndex(nodes, patterns)
    ensures !nodes[0].terminal
  {
    var arena := new TrieArena();
    for i := 0 to |patterns|
      invariant arena.Valid()
      invariant forall w :: w in arena.words <==> w != [] && w in patterns[..i]
    {
      assert patterns[..i + 1] == patterns[..i] + [patterns[i]];
      if patterns[i] == [] {
        continue;
      }
      arena.Insert(patterns[i]);
    }
    assert patterns[..|patterns|] == patterns;
    nodes := arena.nodes;
    assert TrieIndex(nodes, patterns);
    assert Walk(nodes, 0, []) == Some(0);
    assert !Accepts(nodes, []);
  }
}
