/**
 The multi-pattern matcher: an Aho-Corasick automaton kept in a flat node list and one
 linked edge list. `words` (ghost) is the string each node spells.
 */
module Trie {
  import opened Octets
  import opened MaskText

  datatype Node = Node(firstEdge: int, fail: int, terminal: int, maxMatched: int)
  datatype Edge = Edge(to: int, next: int, value: byte)

  /**
   The linked representation spells the words: edge e creates node e + 1 below node owner[e],
   and the edges of one node form a list of strictly decreasing indices that skips none.
   */
  ghost predicate Shape(nodes: seq<Node>, edges: seq<Edge>, words: seq<seq<byte>>, owner: seq<int>) {
    && |nodes| == |words| == |edges| + 1
    && |owner| == |edges|
    && words[0] == []
    && (forall e | 0 <= e < |edges| :: EdgeOk(nodes, edges, words, owner, e))
    && (forall n | 0 <= n < |nodes| :: NodeOk(nodes, owner, n))
    && Distinct(words)
  }

  ghost predicate EdgeOk(nodes: seq<Node>, edges: seq<Edge>, words: seq<seq<byte>>, owner: seq<int>, e: int)
    requires |nodes| == |words| == |edges| + 1 && |owner| == |edges| && 0 <= e < |edges|
  {
    && 0 <= owner[e] <= e
    && edges[e].to == e + 1
    && words[e + 1] == words[owner[e]] + [edges[e].value]
    && -1 <= edges[e].next < e
    && (edges[e].next >= 0 ==> owner[edges[e].next] == owner[e])
    && (forall d | edges[e].next < d < e :: owner[d] != owner[e])
  }

  ghost predicate NodeOk(nodes: seq<Node>, owner: seq<int>, n: int)
    requires 0 <= n < |nodes|
  {
    && -1 <= nodes[n].firstEdge < |owner|
    && (nodes[n].firstEdge >= 0 ==> owner[nodes[n].firstEdge] == n)
    && (forall e | nodes[n].firstEdge < e < |owner| :: owner[e] != n)
  }

  ghost predicate Distinct(words: seq<seq<byte>>) {
    forall m, n | 0 <= m < |words| && 0 <= n < |words| :: Differ(words, m, n)
  }

  ghost predicate Differ(words: seq<seq<byte>>, m: int, n: int)
    requires 0 <= m < |words| && 0 <= n < |words|
  {
    words[m] == words[n] ==> m == n
  }

  /** Node s spells the longest suffix of t that the trie contains. */
  ghost predicate Spells(words: seq<seq<byte>>, t: seq<byte>, s: int) {
    && 0 <= s < |words|
    && IsSuffix(words[s], t)
    && (forall m {:trigger IsSuffix(words[m], t)} | 0 <= m < |words| && IsSuffix(words[m], t) :: |words[m]| <= |words[s]|)
  }

  /** While following failure links from a state of t on byte c, no longer candidate is left. */
  ghost predicate Candidate(words: seq<seq<byte>>, t: seq<byte>, c: byte, q: int) {
    && 0 <= q < |words|
    && IsSuffix(words[q], t)
    && (forall m {:trigger IsSuffix(words[m], t)} | 0 <= m < |words| && IsSuffix(words[m], t) && HasWord(words, words[m] + [c]) :: |words[m]| <= |words[q]|)
  }

  /** The failure link and the longest match recorded for node n are the right ones. */
  ghost predicate Finished(nodes: seq<Node>, words: seq<seq<byte>>, patterns: set<seq<byte>>, n: int)
    requires 0 < n < |nodes| == |words|
  {
    && words[n] != []
    && Spells(words, words[n][1..], nodes[n].fail)
    && nodes[n].maxMatched == Longest(patterns, words[n])
  }

  /** Every trie word is a prefix of a pattern, every pattern is a trie word. */
  ghost predicate HasWord(words: seq<seq<byte>>, w: seq<byte>) {
    w in words
  }

  /** Every pattern is a trie word, every trie word is a prefix of a pattern, pattern ends are terminal. */
  ghost predicate Contents(nodes: seq<Node>, words: seq<seq<byte>>, patterns: set<seq<byte>>)
    requires |nodes| == |words|
  {
    && HasAll(words, patterns)
    && (forall n | 0 < n < |words| :: FromPattern(words, patterns, n))
    && (forall n | 0 <= n < |words| :: TerminalOk(nodes, words, patterns, n))
  }

  ghost predicate HasAll(words: seq<seq<byte>>, patterns: set<seq<byte>>) {
    forall p | p in patterns :: p != [] && HasWord(words, p)
  }

  ghost predicate FromPattern(words: seq<seq<byte>>, patterns: set<seq<byte>>, n: int)
    requires 0 <= n < |words|
  {
    exists p :: p in patterns && words[n] <= p
  }

  ghost predicate TerminalOk(nodes: seq<Node>, words: seq<seq<byte>>, patterns: set<seq<byte>>, n: int)
    requires 0 <= n < |nodes| == |words|
  {
    nodes[n].terminal == if words[n] in patterns then |words[n]| else 0
  }

  ghost predicate PrefixClosed(words: seq<seq<byte>>) {
    forall n | 0 <= n < |words| :: ParentKnown(words, n)
  }

  ghost predicate ParentKnown(words: seq<seq<byte>>, n: int)
    requires 0 <= n < |words|
  {
    words[n] != [] ==> HasWord(words, words[n][..|words[n]| - 1])
  }

  lemma SameWord(words: seq<seq<byte>>, m: int, n: int)
    requires Distinct(words) && 0 <= m < |words| && 0 <= n < |words|
    requires words[m] == words[n]
    ensures m == n
  {
    assert Differ(words, m, n);
  }

  /** Failure links, terminal lengths and matches are no part of the trie's shape. */
  lemma ShapeKept(nodes: seq<Node>, nodes': seq<Node>, edges: seq<Edge>, words: seq<seq<byte>>, owner: seq<int>)
    requires Shape(nodes, edges, words, owner) && |nodes'| == |nodes|
    requires forall n | 0 <= n < |nodes| :: nodes'[n].firstEdge == nodes[n].firstEdge
    ensures Shape(nodes', edges, words, owner)
  {
    forall e | 0 <= e < |edges|
      ensures EdgeOk(nodes', edges, words, owner, e)
    {
      assert EdgeOk(nodes, edges, words, owner, e);
    }
    forall n | 0 <= n < |nodes|
      ensures NodeOk(nodes', owner, n)
    {
      assert NodeOk(nodes, owner, n);
    }
  }

  lemma ContentsKept(nodes: seq<Node>, nodes': seq<Node>, words: seq<seq<byte>>, patterns: set<seq<byte>>)
    requires |nodes| == |words| == |nodes'| && Contents(nodes, words, patterns)
    requires forall n | 0 <= n < |nodes| :: nodes'[n].terminal == nodes[n].terminal
    ensures Contents(nodes', words, patterns)
  {
    forall n | 0 <= n < |words|
      ensures TerminalOk(nodes', words, patterns, n)
    {
      assert TerminalOk(nodes, words, patterns, n);
    }
  }

  /** Appending a node whose edge becomes the head of its owner's list keeps the shape. */
  lemma ShapeGrows(nodes: seq<Node>, edges: seq<Edge>, words: seq<seq<byte>>, owner: seq<int>, state: int, value: byte)
    requires Shape(nodes, edges, words, owner) && 0 <= state < |nodes|
    requires !HasWord(words, words[state] + [value])
    ensures Shape(
              (nodes + [Node(-1, 0, 0, 0)])[state := nodes[state].(firstEdge := |edges|)],
              edges + [Edge(|nodes|, nodes[state].firstEdge, value)],
              words + [words[state] + [value]],
              owner + [state])
  {
    var nodes' := (nodes + [Node(-1, 0, 0, 0)])[state := nodes[state].(firstEdge := |edges|)];
    var edges' := edges + [Edge(|nodes|, nodes[state].firstEdge, value)];
    var words' := words + [words[state] + [value]];
    var owner' := owner + [state];
    assert NodeOk(nodes, owner, state);
    forall e | 0 <= e < |edges'|
      ensures EdgeOk(nodes', edges', words', owner', e)
    {
      if e < |edges| {
        assert EdgeOk(nodes, edges, words, owner, e);
      }
    }
    forall n | 0 <= n < |nodes'|
      ensures NodeOk(nodes', owner', n)
    {
      if n < |nodes| {
        assert NodeOk(nodes, owner, n);
      } else {
        forall e | 0 <= e < |owner|
          ensures owner[e] != n
        {
          assert EdgeOk(nodes, edges, words, owner, e);
        }
      }
    }
    forall m, n | 0 <= m < |words'| && 0 <= n < |words'|
      ensures Differ(words', m, n)
    {
      if m < |words| && n < |words| {
        assert Differ(words, m, n);
      }
    }
  }

  lemma ShapePrefixClosed(nodes: seq<Node>, edges: seq<Edge>, words: seq<seq<byte>>, owner: seq<int>)
    requires Shape(nodes, edges, words, owner)
    ensures PrefixClosed(words)
    ensures forall n | 0 < n < |words| :: words[n] != []
  {
    forall n | 0 < n < |words|
      ensures words[n] != [] && ParentKnown(words, n)
    {
      assert EdgeOk(nodes, edges, words, owner, n - 1);
      assert words[n][..|words[n]| - 1] == words[owner[n - 1]];
    }
  }

  /** A failed transition at q moves the search to the failure link of q. */
  lemma StepDown(words: seq<seq<byte>>, t: seq<byte>, c: byte, q: int, f: int)
    requires Candidate(words, t, c, q) && words[q] != [] && !HasWord(words, words[q] + [c])
    requires Distinct(words)
    requires Spells(words, words[q][1..], f)
    ensures Candidate(words, t, c, f)
    ensures |words[f]| < |words[q]|
  {
    SuffixTransitive(words[q][1..], words[q], t);
    SuffixTransitive(words[f], words[q][1..], t);
    forall m | 0 <= m < |words| && IsSuffix(words[m], t) && HasWord(words, words[m] + [c])
      ensures |words[m]| <= |words[f]|
    {
      SuffixLinear(words[m], words[q], t);
      if |words[m]| == |words[q]| {
        SameWord(words, m, q);
      } else {
        SuffixLinear(words[m], words[q][1..], t);
      }
    }
  }

  /** A non-empty trie word ending t + [c] is a trie word ending t, extended by c. */
  lemma ParentOf(words: seq<seq<byte>>, t: seq<byte>, c: byte, m: int) returns (k: int)
    requires PrefixClosed(words) && 0 <= m < |words|
    requires words[m] != [] && IsSuffix(words[m], t + [c])
    ensures 0 <= k < |words| && IsSuffix(words[k], t) && |words[m]| == |words[k]| + 1
    ensures HasWord(words, words[k] + [c])
    ensures words[k] == [] ==> HasWord(words, [c])
  {
    SuffixSnocInverse(words[m], t, c);
    assert ParentKnown(words, m);
    k :| 0 <= k < |words| && words[k] == words[m][..|words[m]| - 1];
    assert words[k] == [] ==> words[m] == [c];
  }

  /** Where a transition succeeds, its target spells the longest suffix of the longer text. */
  lemma Land(words: seq<seq<byte>>, t: seq<byte>, c: byte, q: int, r: int)
    requires Candidate(words, t, c, q) && PrefixClosed(words)
    requires 0 <= r < |words| && words[r] == words[q] + [c]
    ensures Spells(words, t + [c], r)
  {
    SuffixSnoc(words[q], t, c);
    forall m | 0 <= m < |words| && IsSuffix(words[m], t + [c])
      ensures |words[m]| <= |words[r]|
    {
      if words[m] != [] {
        var k := ParentOf(words, t, c, m);
      }
    }
  }

  /** When even the root has no transition, the root is the answer. */
  lemma LandAtRoot(words: seq<seq<byte>>, t: seq<byte>, c: byte)
    requires |words| > 0 && words[0] == [] && Candidate(words, t, c, 0) && PrefixClosed(words)
    requires !HasWord(words, [c])
    ensures Spells(words, t + [c], 0)
  {
    forall m | 0 <= m < |words| && IsSuffix(words[m], t + [c])
      ensures words[m] == []
    {
      if words[m] != [] {
        var k := ParentOf(words, t, c, m);
        assert false;
      }
    }
  }

  /** The longest pattern ending a text is the longest one ending the word of its state. */
  lemma MatchOfState(words: seq<seq<byte>>, patterns: set<seq<byte>>, t: seq<byte>, s: int)
    requires Spells(words, t, s)
    requires HasAll(words, patterns)
    ensures Longest(patterns, t) == Longest(patterns, words[s])
  {
    var w := words[s];
    LongestBounds(patterns, w);
    var n := Longest(patterns, w);
    assert t[|t| - n..] == w[|w| - n..] by {
      assert w[|w| - n..] == t[|t| - |w|..][|w| - n..];
    }
    forall p | p in patterns && IsSuffix(p, t)
      ensures |p| <= n
    {
      assert HasWord(words, p);
      SuffixLinear(p, w, t);
    }
    LongestUnique(patterns, t, n);
  }

  /** The longest match at a node: the node itself if it is a pattern, else that of its failure link. */
  lemma MatchOfNode(words: seq<seq<byte>>, patterns: set<seq<byte>>, w: seq<byte>, f: int)
    requires w != [] && Spells(words, w[1..], f)
    requires HasAll(words, patterns)
    ensures Longest(patterns, w) == if w in patterns then |w| else Longest(patterns, words[f])
    ensures Longest(patterns, words[f]) < |w|
  {
    LongestBounds(patterns, words[f]);
    MatchOfState(words, patterns, w[1..], f);
    LongestBounds(patterns, w[1..]);
    if w in patterns {
      assert w[|w| - |w|..] == w;
      LongestUnique(patterns, w, |w|);
    } else {
      var n := Longest(patterns, w[1..]);
      assert w[1..][|w[1..]| - n..] == w[|w| - n..];
      forall p | p in patterns && IsSuffix(p, w)
        ensures |p| <= n
      {
        assert p != w;
        assert IsSuffix(w[1..], w);
        SuffixLinear(p, w[1..], w);
      }
      LongestUnique(patterns, w, n);
    }
  }

  /** In breadth-first order node n is due once its parent has been expanded up to edge n - 1. */
  ghost predicate Due(owner: seq<int>, queue: seq<int>, head: nat, edge: int, n: int)
    requires head <= |queue| && 0 < n <= |owner|
  {
    var p := owner[n - 1];
    p == 0 || p in queue[..head] || (head < |queue| && p == queue[head] && n - 1 > edge)
  }

  ghost predicate InOrder(words: seq<seq<byte>>, queue: seq<int>, j: int, k: int)
    requires 0 <= j < |queue| && 0 <= k < |queue|
    requires 0 <= queue[j] < |words| && 0 <= queue[k] < |words|
  {
    queue[j] != queue[k] && |words[queue[j]]| <= |words[queue[k]]|
  }

  /**
   The breadth-first queue when its first `head` nodes have been expanded and, of the children
   of queue[head], those whose edge index is above `edge` have been appended.
   */
  ghost predicate Expanding(words: seq<seq<byte>>, owner: seq<int>, queue: seq<int>, head: nat, edge: int)
    requires |words| == |owner| + 1
  {
    && head <= |queue|
    && (forall k | 0 <= k < |queue| :: 0 < queue[k] < |words|)
    && (forall j, k {:trigger InOrder(words, queue, j, k)} | 0 <= j < k < |queue| :: InOrder(words, queue, j, k))
    && (forall k {:trigger Due(owner, queue, head, edge, queue[k])} | 0 <= k < |queue| :: Due(owner, queue, head, edge, queue[k]))
    && (forall n {:trigger Due(owner, queue, head, edge, n)} | 0 < n < |words| && Due(owner, queue, head, edge, n) :: n in queue)
  }

  ghost predicate Frontier(words: seq<seq<byte>>, owner: seq<int>, queue: seq<int>, head: nat)
    requires |words| == |owner| + 1
  {
    Expanding(words, owner, queue, head, |owner|)
  }

  ghost predicate Depths(words: seq<seq<byte>>, owner: seq<int>) {
    && |words| == |owner| + 1
    && words[0] == []
    && (forall e {:trigger owner[e]} | 0 <= e < |owner| :: 0 <= owner[e] <= e && |words[e + 1]| == |words[owner[e]]| + 1)
  }

  /** Every node no deeper than the head of the queue has already been queued. */
  lemma {:induction false} Queued(words: seq<seq<byte>>, owner: seq<int>, queue: seq<int>, head: nat, n: nat)
    requires Depths(words, owner) && Frontier(words, owner, queue, head)
    requires 0 < n < |words|
    requires head < |queue| ==> |words[n]| <= |words[queue[head]]|
    ensures n in queue
    decreases n
  {
    var p := owner[n - 1];
    forall k | head < k < |queue|
      ensures |words[queue[head]]| <= |words[queue[k]]|
    {
      assert InOrder(words, queue, head, k);
    }
    if p != 0 {
      Queued(words, owner, queue, head, p);
      var j :| 0 <= j < |queue| && queue[j] == p;
      assert j < head;
      assert queue[..head][j] == p;
    }
    assert Due(owner, queue, head, |owner|, n);
  }

  /** Moving over edges that do not belong to the node being expanded changes nothing. */
  lemma SkipEdges(words: seq<seq<byte>>, owner: seq<int>, queue: seq<int>, head: nat, edge: int, next: int)
    requires Depths(words, owner) && Expanding(words, owner, queue, head, edge) && head < |queue|
    requires -1 <= next <= edge <= |owner|
    requires forall e | next < e <= edge && e < |owner| :: owner[e] != queue[head]
    ensures Expanding(words, owner, queue, head, next)
  {
    forall n | 0 < n < |words|
      ensures Due(owner, queue, head, next, n) <==> Due(owner, queue, head, edge, n)
    {
    }
  }

  lemma DoneExpanding(words: seq<seq<byte>>, owner: seq<int>, queue: seq<int>, head: nat)
    requires Depths(words, owner) && Expanding(words, owner, queue, head, -1) && head < |queue|
    ensures Frontier(words, owner, queue, head + 1)
  {
    assert queue[..head + 1] == queue[..head] + [queue[head]];
    forall n | 0 < n < |words|
      ensures Due(owner, queue, head + 1, |owner|, n) <==> Due(owner, queue, head, -1, n)
    {
    }
    forall k | 0 <= k < |queue|
      ensures Due(owner, queue, head + 1, |owner|, queue[k])
    {
      assert Due(owner, queue, head, -1, queue[k]);
    }
    forall n | 0 < n < |words| && Due(owner, queue, head + 1, |owner|, n)
      ensures n in queue
    {
      assert Due(owner, queue, head, -1, n);
    }
  }

  /** Appending the child on edge `edge` keeps the queue in order. */
  lemma Expand(words: seq<seq<byte>>, owner: seq<int>, queue: seq<int>, head: nat, edge: int)
    requires Depths(words, owner) && Expanding(words, owner, queue, head, edge) && head < |queue|
    requires 0 <= edge < |owner| && owner[edge] == queue[head]
    ensures edge + 1 !in queue
    ensures Expanding(words, owner, queue + [edge + 1], head, edge - 1)
  {
    var queue' := queue + [edge + 1];
    assert queue'[..head] == queue[..head];
    HeadNotExpanded(words, owner, queue, head, edge);
    assert !Due(owner, queue, head, edge, edge + 1);
    assert edge + 1 !in queue by {
      assert forall k | 0 <= k < |queue| :: Due(owner, queue, head, edge, queue[k]);
    }
    forall n | 0 < n < |words|
      ensures Due(owner, queue', head, edge - 1, n) <==> Due(owner, queue, head, edge, n) || n == edge + 1
    {
    }
    forall j, k | 0 <= j < k < |queue'|
      ensures InOrder(words, queue', j, k)
    {
      if k < |queue| {
        assert InOrder(words, queue, j, k);
      } else {
        NoDeeper(words, owner, queue, head, edge, j);
      }
    }
    assert forall k | 0 <= k < |queue| :: Due(owner, queue, head, edge, queue[k]) && queue'[k] == queue[k];
    forall n | 0 < n < |words| && Due(owner, queue', head, edge - 1, n)
      ensures n in queue'
    {
      if n == edge + 1 {
        assert queue'[|queue|] == n;
      } else {
        assert Due(owner, queue, head, edge, n);
      }
    }
  }

  lemma HeadNotExpanded(words: seq<seq<byte>>, owner: seq<int>, queue: seq<int>, head: nat, edge: int)
    requires |words| == |owner| + 1 && Expanding(words, owner, queue, head, edge) && head < |queue|
    ensures 0 < queue[head] < |words| && queue[head] !in queue[..head]
  {
    forall j | 0 <= j < head
      ensures queue[j] != queue[head]
    {
      assert InOrder(words, queue, j, head);
    }
  }

  /** The queue never holds a node more than one level below the node being expanded. */
  lemma NoDeeper(words: seq<seq<byte>>, owner: seq<int>, queue: seq<int>, head: nat, edge: int, k: nat)
    requires Depths(words, owner) && Expanding(words, owner, queue, head, edge)
    requires head < |queue| && k < |queue|
    ensures |words[queue[k]]| <= |words[queue[head]]| + 1
  {
    assert Due(owner, queue, head, edge, queue[k]);
    var p := owner[queue[k] - 1];
    if p != 0 && p in queue[..head] {
      var j :| 0 <= j < head && queue[j] == p;
      assert InOrder(words, queue, j, head);
    }
  }

  /** When a walk over a whole edge list finds no edge for a byte, no trie word extends the node by it. */
  lemma NoChild(nodes: seq<Node>, edges: seq<Edge>, words: seq<seq<byte>>, owner: seq<int>, state: int, value: byte)
    requires Shape(nodes, edges, words, owner) && 0 <= state < |nodes|
    requires forall e | 0 <= e < |edges| && owner[e] == state :: edges[e].value != value
    ensures !HasWord(words, words[state] + [value])
  {
    forall n | 0 <= n < |words|
      ensures words[n] != words[state] + [value]
    {
      if n > 0 && words[n] == words[state] + [value] {
        assert EdgeOk(nodes, edges, words, owner, n - 1);
        var p := owner[n - 1];
        assert words[p] == words[n][..|words[n]| - 1];
        SameWord(words, p, state);
      }
    }
  }

  lemma ShapeDepths(nodes: seq<Node>, edges: seq<Edge>, words: seq<seq<byte>>, owner: seq<int>)
    requires Shape(nodes, edges, words, owner)
    ensures Depths(words, owner) && |nodes| == |words|
  {
    forall e | 0 <= e < |owner|
      ensures 0 <= owner[e] <= e && |words[e + 1]| == |words[owner[e]]| + 1
    {
      assert EdgeOk(nodes, edges, words, owner, e);
    }
  }

  lemma ListHead(nodes: seq<Node>, edges: seq<Edge>, words: seq<seq<byte>>, owner: seq<int>, n: int)
    requires Shape(nodes, edges, words, owner) && 0 <= n < |nodes|
    ensures -1 <= nodes[n].firstEdge < |edges|
    ensures nodes[n].firstEdge >= 0 ==> owner[nodes[n].firstEdge] == n
    ensures forall e | nodes[n].firstEdge < e < |edges| :: owner[e] != n
    ensures n > 0 ==> words[n] != []
  {
    assert NodeOk(nodes, owner, n);
    assert n > 0 ==> EdgeOk(nodes, edges, words, owner, n - 1);
  }

  lemma ListNext(nodes: seq<Node>, edges: seq<Edge>, words: seq<seq<byte>>, owner: seq<int>, e: int)
    requires Shape(nodes, edges, words, owner) && 0 <= e < |edges|
    ensures edges[e].to == e + 1 && 0 <= owner[e] < |nodes|
    ensures words[e + 1] == words[owner[e]] + [edges[e].value]
    ensures -1 <= edges[e].next < e
    ensures edges[e].next >= 0 ==> owner[edges[e].next] == owner[e]
    ensures forall d | edges[e].next < d < e :: owner[d] != owner[e]
  {
    assert EdgeOk(nodes, edges, words, owner, e);
  }

  /** Every queued node is finished; the others still have the root as failure link. */
  ghost predicate AllFinished(nodes: seq<Node>, words: seq<seq<byte>>, patterns: set<seq<byte>>, queue: seq<int>)
    requires |nodes| == |words|
  {
    && (forall k | 0 <= k < |queue| :: 0 < queue[k] < |nodes| && Finished(nodes, words, patterns, queue[k]))
    && (forall n {:trigger Untouched(nodes, n)} | 0 < n < |nodes| && n !in queue :: Untouched(nodes, n))
  }

  ghost predicate Untouched(nodes: seq<Node>, n: int)
    requires 0 <= n < |nodes|
  {
    nodes[n].fail == 0
  }

  ghost predicate UpToDepth(nodes: seq<Node>, words: seq<seq<byte>>, patterns: set<seq<byte>>, depth: int)
    requires |nodes| == |words|
  {
    forall n {:trigger Finished(nodes, words, patterns, n)} | 0 < n < |nodes| && |words[n]| <= depth :: Finished(nodes, words, patterns, n)
  }

  lemma ShallowFinished(nodes: seq<Node>, words: seq<seq<byte>>, owner: seq<int>, patterns: set<seq<byte>>, queue: seq<int>, head: nat)
    requires |nodes| == |words| && Depths(words, owner)
    requires Frontier(words, owner, queue, head) && head < |queue|
    requires AllFinished(nodes, words, patterns, queue)
    ensures UpToDepth(nodes, words, patterns, |words[queue[head]]|)
  {
    forall n | 0 < n < |nodes| && |words[n]| <= |words[queue[head]]|
      ensures Finished(nodes, words, patterns, n)
    {
      Queued(words, owner, queue, head, n);
    }
  }

  /** Setting the link and the match of one unqueued node finishes it and undoes nothing else. */
  lemma LinkSet(nodes: seq<Node>, nodes': seq<Node>, edges: seq<Edge>, words: seq<seq<byte>>, owner: seq<int>, patterns: set<seq<byte>>, queue: seq<int>, child: int, f: int, m: int)
    requires Shape(nodes, edges, words, owner) && Contents(nodes, words, patterns)
    requires AllFinished(nodes, words, patterns, queue) && child !in queue
    requires 0 < child < |nodes| && nodes' == nodes[child := nodes[child].(fail := f, maxMatched := m)]
    requires words[child] != [] && Spells(words, words[child][1..], f) && m == Longest(patterns, words[child])
    ensures Shape(nodes', edges, words, owner) && Contents(nodes', words, patterns)
    ensures AllFinished(nodes', words, patterns, queue + [child])
    ensures forall n {:trigger Finished(nodes', words, patterns, n)} | 0 < n < |nodes| && Finished(nodes, words, patterns, n) ::
              Finished(nodes', words, patterns, n)
  {
    ShapeKept(nodes, nodes', edges, words, owner);
    ContentsKept(nodes, nodes', words, patterns);
    var queue' := queue + [child];
    forall k | 0 <= k < |queue'|
      ensures 0 < queue'[k] < |nodes| && Finished(nodes', words, patterns, queue'[k])
    {
      if k < |queue| {
        assert Finished(nodes, words, patterns, queue[k]);
      }
    }
    forall n | 0 < n < |nodes| && n !in queue'
      ensures Untouched(nodes', n)
    {
      assert queue'[|queue|] == child;
      assert Untouched(nodes, n);
    }
  }

  /** The link of a child of the root is the root. */
  lemma RootChild(nodes: seq<Node>, words: seq<seq<byte>>, patterns: set<seq<byte>>, child: int, value: byte)
    requires |nodes| == |words| && Contents(nodes, words, patterns)
    requires 0 < child < |nodes| && words[child] == [value] && words[0] == []
    ensures Spells(words, words[child][1..], 0)
    ensures nodes[child].terminal == Longest(patterns, words[child]) >= 0
  {
    MatchOfNode(words, patterns, words[child], 0);
    LongestBounds(patterns, words[0]);
    assert TerminalOk(nodes, words, patterns, child);
  }

  lemma RootIsNoPattern(nodes: seq<Node>, words: seq<seq<byte>>, patterns: set<seq<byte>>)
    requires |nodes| == |words| > 0 && words[0] == [] && Contents(nodes, words, patterns)
    ensures nodes[0].terminal == 0 == Longest(patterns, words[0])
  {
    assert TerminalOk(nodes, words, patterns, 0);
  }

  /** With its failure link known, a child's longest match is the larger of two recorded lengths. */
  lemma MatchOfChild(nodes: seq<Node>, words: seq<seq<byte>>, patterns: set<seq<byte>>, child: int, f: int, depth: int)
    requires |nodes| == |words| > 0 && words[0] == [] && Contents(nodes, words, patterns)
    requires nodes[0].maxMatched == 0 && UpToDepth(nodes, words, patterns, depth)
    requires 0 < child < |nodes| && |words[child]| == depth + 1 > 0
    requires Spells(words, words[child][1..], f)
    ensures 0 <= f < |nodes| && f != child
    ensures Longest(patterns, words[child]) ==
            if nodes[child].terminal < nodes[f].maxMatched then nodes[f].maxMatched else nodes[child].terminal
  {
    MatchOfNode(words, patterns, words[child], f);
    RootIsNoPattern(nodes, words, patterns);
    assert TerminalOk(nodes, words, patterns, child);
    assert f > 0 ==> Finished(nodes, words, patterns, f);
  }

  /** The queue while it is filled with the children of the root, latest edge first. */
  ghost predicate RootQueue(owner: seq<int>, queue: seq<int>, edge: int) {
    && -1 <= edge
    && (forall k | 0 <= k < |queue| :: edge < queue[k] - 1 < |owner| && owner[queue[k] - 1] == 0)
    && (forall j, k | 0 <= j < k < |queue| :: queue[j] > queue[k])
    && (forall e | edge < e < |owner| && owner[e] == 0 :: e + 1 in queue)
  }

  lemma QueueRootChild(owner: seq<int>, queue: seq<int>, edge: int, next: int)
    requires RootQueue(owner, queue, edge)
    requires -1 <= next < edge < |owner| && owner[edge] == 0
    requires forall e | next < e < edge :: owner[e] != 0
    ensures edge + 1 !in queue
    ensures RootQueue(owner, queue + [edge + 1], next)
  {
    var queue' := queue + [edge + 1];
    assert queue'[|queue|] == edge + 1;
    forall e | next < e < |owner| && owner[e] == 0
      ensures e + 1 in queue'
    {
      if e != edge {
        assert e + 1 in queue;
      }
    }
  }

  lemma RootQueueIsFrontier(words: seq<seq<byte>>, owner: seq<int>, queue: seq<int>)
    requires Depths(words, owner) && RootQueue(owner, queue, -1)
    ensures Frontier(words, owner, queue, 0)
  {
    forall k | 0 <= k < |queue|
      ensures |words[queue[k]]| == 1
    {
      assert owner[queue[k] - 1] == 0;
    }
  }

  lemma EmptyQueue(nodes: seq<Node>, words: seq<seq<byte>>, patterns: set<seq<byte>>, owner: seq<int>)
    requires |nodes| == |words| == |owner| + 1
    requires forall n | 0 <= n < |nodes| :: nodes[n].fail == 0
    ensures AllFinished(nodes, words, patterns, [])
    ensures forall edge | -1 <= edge && (forall e | edge < e < |owner| :: owner[e] != 0) :: RootQueue(owner, [], edge)
  {
  }

  lemma FrontierWithin(words: seq<seq<byte>>, owner: seq<int>, queue: seq<int>, head: nat)
    requires |words| == |owner| + 1 && Frontier(words, owner, queue, head)
    ensures head <= |queue|
  {
  }

  lemma FinishedWhenQueued(nodes: seq<Node>, words: seq<seq<byte>>, patterns: set<seq<byte>>, queue: seq<int>, n: int)
    requires |nodes| == |words| && AllFinished(nodes, words, patterns, queue) && n in queue
    ensures 0 < n < |nodes| && Finished(nodes, words, patterns, n)
  {
  }
}
