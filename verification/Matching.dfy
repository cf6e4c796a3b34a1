/**
 Building the automaton and scanning with it.
 */
module Matching {
  import opened Octets
  import opened MaskText
  import opened Marks
  import opened Trie

  /** Number of marks that scanning the first n bytes of value puts on position i of the buffer. */
  ghost function Hits(patterns: set<seq<byte>>, before: seq<byte>, value: seq<byte>, base: int, n: nat, i: int): nat
    requires n <= |value|
  {
    if n == 0 then 0
    else
      var length := Longest(patterns, before + value[..n]);
      Hits(patterns, before, value, base, n - 1, i)
      + if length > 0 && InMark(base + n - length, base + n, i) then 1 else 0
  }

  /** Pattern p ends at byte k of value and, drawn at base, covers buffer position i. */
  ghost predicate EndsAt(patterns: set<seq<byte>>, before: seq<byte>, value: seq<byte>, base: int, i: int, p: seq<byte>, k: int) {
    p in patterns && 0 < k <= |value| && IsSuffix(p, before + value[..k]) && InMark(base + k - |p|, base + k, i)
  }

  /** The longest match at one end covers a position exactly when some pattern ending there does. */
  lemma LongestSuffices(patterns: set<seq<byte>>, before: seq<byte>, value: seq<byte>, base: int, i: int, k: int)
    requires 0 < k <= |value| && [] !in patterns
    ensures var length := Longest(patterns, before + value[..k]);
            length > 0 && InMark(base + k - length, base + k, i) <==> exists p :: EndsAt(patterns, before, value, base, i, p, k)
  {
    var t := before + value[..k];
    LongestBounds(patterns, t);
    var length := Longest(patterns, t);
    if length > 0 && InMark(base + k - length, base + k, i) {
      assert EndsAt(patterns, before, value, base, i, t[|t| - length..], k);
    }
  }

  /**
   Marking only the longest match at each end is enough: a position is marked exactly when
   some occurrence that ends in the scanned bytes covers it.
   */
  lemma {:induction false} HitsAreOccurrences(patterns: set<seq<byte>>, before: seq<byte>, value: seq<byte>, base: int, n: nat, i: int)
    requires n <= |value| && [] !in patterns
    ensures Hits(patterns, before, value, base, n, i) > 0 <==>
            exists p, k :: k <= n && EndsAt(patterns, before, value, base, i, p, k)
  {
    hide EndsAt, Longest, InMark;
    if n > 0 {
      HitsAreOccurrences(patterns, before, value, base, n - 1, i);
      LongestSuffices(patterns, before, value, base, i, n);
    } else {
      NothingEndsAtStart(patterns, before, value, base, i);
    }
  }

  lemma NothingEndsAtStart(patterns: set<seq<byte>>, before: seq<byte>, value: seq<byte>, base: int, i: int)
    ensures forall p, k | EndsAt(patterns, before, value, base, i, p, k) :: k > 0
  {
  }

  class Matcher {
    var nodes: seq<Node>
    var edges: seq<Edge>
    ghost var words: seq<seq<byte>>
    ghost var owner: seq<int>
    ghost var patterns: set<seq<byte>>

    ghost predicate Built()
      reads this
    {
      && Shape(nodes, edges, words, owner)
      && Contents(nodes, words, patterns)
      && nodes[0].fail == 0 && nodes[0].maxMatched == 0
    }

    ghost predicate Valid()
      reads this
    {
      && Built()
      && (forall n | 0 < n < |nodes| :: Finished(nodes, words, patterns, n))
    }

    /** Builds the automaton for all non-empty patterns, in whatever order the map yields them. */
    constructor (source: map<seq<byte>, seq<byte>>)
      ensures Valid()
      ensures patterns == source.Values - {[]}
    {
      nodes := [Node(-1, 0, 0, 0)];
      edges := [];
      words := [[]];
      owner := [];
      patterns := {};
      new;
      var remaining := source.Keys;
      while remaining != {}
        invariant remaining <= source.Keys
        invariant Built()
        invariant forall n | 0 <= n < |nodes| :: nodes[n].fail == 0 && nodes[n].maxMatched == 0
        invariant patterns == (set k | k in source.Keys - remaining :: source[k]) - {[]}
      {
        var key :| key in remaining;
        remaining := remaining - {key};
        var pattern := source[key];
        if |pattern| > 0 {
          Insert(pattern);
        }
      }
      BuildFailureLinks();
    }

    /** Adds the nodes of one pattern that are not there yet and marks its last node terminal. */
    method Insert(pattern: seq<byte>)
      requires Built() && pattern != []
      requires forall n | 0 <= n < |nodes| :: nodes[n].fail == 0 && nodes[n].maxMatched == 0
      modifies this
      ensures Built() && patterns == old(patterns) + {pattern}
      ensures forall n | 0 <= n < |nodes| :: nodes[n].fail == 0 && nodes[n].maxMatched == 0
    {
      var state := 0;
      forall n | 0 < n < |words|
        ensures FromPattern(words, patterns + {pattern}, n)
      {
        assert FromPattern(words, patterns, n);
      }
      for index := 0 to |pattern|
        invariant Shape(nodes, edges, words, owner)
        invariant 0 <= state < |nodes| && words[state] == pattern[..index]
        invariant patterns == old(patterns) && HasAll(words, patterns)
        invariant forall n | 0 < n < |words| :: FromPattern(words, patterns + {pattern}, n)
        invariant forall n | 0 <= n < |words| :: TerminalOk(nodes, words, patterns, n)
        invariant forall n | 0 <= n < |nodes| :: nodes[n].fail == 0 && nodes[n].maxMatched == 0
      {
        var value := pattern[index];
        var next := Transition(state, value);
        assert pattern[..index + 1] == words[state] + [value];
        if next < 0 {
          next := |nodes|;
          AddChild(state, value);
          assert words[next] <= pattern;
        }
        state := next;
      }
      assert pattern[..|pattern|] == pattern;
      var length := |pattern|;
      assert TerminalOk(nodes, words, patterns, state);
      ghost var nodes0 := nodes;
      if length > nodes[state].terminal {
        nodes := nodes[state := nodes[state].(terminal := length)];
      }
      ShapeKept(nodes0, nodes, edges, words, owner);
      forall n | 0 <= n < |words|
        ensures TerminalOk(nodes, words, patterns + {pattern}, n)
      {
        assert TerminalOk(nodes0, words, patterns, n);
        if words[n] == pattern {
          SameWord(words, n, state);
        }
      }
      assert HasWord(words, pattern);
      patterns := patterns + {pattern};
    }

    /** Appends one node and puts its edge in front of the edge list of `state`. */
    method AddChild(state: int, value: byte)
      requires Shape(nodes, edges, words, owner)
      requires 0 <= state < |nodes| && !HasWord(words, words[state] + [value])
      requires HasAll(words, patterns)
      requires forall n | 0 <= n < |words| :: TerminalOk(nodes, words, patterns, n)
      requires forall n | 0 <= n < |nodes| :: nodes[n].fail == 0 && nodes[n].maxMatched == 0
      modifies this
      ensures Shape(nodes, edges, words, owner)
      ensures patterns == old(patterns) && words == old(words) + [old(words[state]) + [value]]
      ensures HasAll(words, patterns)
      ensures forall n | 0 <= n < |words| :: TerminalOk(nodes, words, patterns, n)
      ensures forall n | 0 <= n < |nodes| :: nodes[n].fail == 0 && nodes[n].maxMatched == 0
      ensures forall ps, n | 0 < n < |words| - 1 && FromPattern(old(words), ps, n) :: FromPattern(words, ps, n)
    {
      ShapeGrows(nodes, edges, words, owner, state, value);
      ghost var nodes0, words0 := nodes, words;
      var next := |nodes|;
      nodes := nodes + [Node(-1, 0, 0, 0)];
      edges := edges + [Edge(next, nodes[state].firstEdge, value)];
      nodes := nodes[state := nodes[state].(firstEdge := |edges| - 1)];
      words := words + [words[state] + [value]];
      owner := owner + [state];
      forall p | p in patterns
        ensures p != [] && HasWord(words, p)
      {
        assert HasWord(words0, p);
        var k :| 0 <= k < |words0| && words0[k] == p;
        assert words[k] == p;
      }
      forall n | 0 <= n < |words|
        ensures TerminalOk(nodes, words, patterns, n)
      {
        if n < |words0| {
          assert TerminalOk(nodes0, words0, patterns, n);
        } else {
          assert words[n] !in patterns;
        }
      }
    }

    /** Walks the edge list of a node: the child for `value`, or -1 when there is none. */
    method Transition(state: int, value: byte) returns (r: int)
      requires Shape(nodes, edges, words, owner)
      ensures r == -1 || 0 < r < |nodes|
      ensures 0 <= state < |nodes| ==> (r >= 0 <==> HasWord(words, words[state] + [value]))
      ensures 0 <= state < |nodes| && r >= 0 ==> words[r] == words[state] + [value]
      ensures !(0 <= state < |nodes|) ==> r == -1
    {
      if state < 0 || state >= |nodes| {
        return -1;
      }
      var edge := nodes[state].firstEdge;
      assert NodeOk(nodes, owner, state);
      while edge >= 0
        invariant -1 <= edge < |edges|
        invariant edge >= 0 ==> owner[edge] == state
        invariant forall e | edge < e < |edges| && owner[e] == state :: edges[e].value != value
        decreases edge
      {
        assert EdgeOk(nodes, edges, words, owner, edge);
        if edges[edge].value == value {
          return edges[edge].to;
        }
        edge := edges[edge].next;
      }
      NoChild(nodes, edges, words, owner, state, value);
      return -1;
    }

    /** Sets the failure link and the longest match of every node, in breadth-first order. */
    method BuildFailureLinks()
      requires Built()
      requires forall n | 0 <= n < |nodes| :: nodes[n].fail == 0 && nodes[n].maxMatched == 0
      modifies this`nodes
      ensures Valid()
    {
      hide Contents, Finished, Depths, Expanding, EdgeOk, NodeOk, Distinct, AllFinished;
      var queue := FinishRootChildren();
      var head := 0;
      ShapeDepths(nodes, edges, words, owner);
      ghost var pending := set n | 0 < n < |nodes| && n !in queue[..0];
      FrontierWithin(words, owner, queue, head);
      while head < |queue|
        invariant Built()
        invariant 0 <= head <= |queue| && Frontier(words, owner, queue, head)
        invariant pending == set n | 0 < n < |nodes| && n !in queue[..head]
        invariant AllFinished(nodes, words, patterns, queue)
        decreases pending
      {
        var parent := queue[head];
        HeadNotExpanded(words, owner, queue, head, |owner|);
        queue := ExpandNode(queue, head);
        assert queue[..head + 1] == queue[..head] + [parent];
        head := head + 1;
        assert parent in pending;
        pending := pending - {parent};
      }
      forall n | 0 < n < |nodes|
        ensures Finished(nodes, words, patterns, n)
      {
        ShapeDepths(nodes, edges, words, owner);
        Queued(words, owner, queue, head, n);
        FinishedWhenQueued(nodes, words, patterns, queue, n);
      }
    }

    /** The children of the root come first: their failure link is the root. */
    method FinishRootChildren() returns (queue: seq<int>)
      requires Built()
      requires forall n | 0 <= n < |nodes| :: nodes[n].fail == 0 && nodes[n].maxMatched == 0
      modifies this`nodes
      ensures Built() && |nodes| == old(|nodes|)
      ensures Frontier(words, owner, queue, 0)
      ensures AllFinished(nodes, words, patterns, queue)
    {
      hide Contents, Finished, AllFinished, RootQueue, Depths, EdgeOk, NodeOk, Distinct;
      queue := [];
      EmptyQueue(nodes, words, patterns, owner);
      ghost var nodes0 := nodes;
      RootIsNoPattern(nodes, words, patterns);
      nodes := nodes[0 := nodes[0].(maxMatched := nodes[0].terminal)];
      assert nodes == nodes0;
      var edge := nodes[0].firstEdge;
      ShapeDepths(nodes, edges, words, owner);
      ListHead(nodes, edges, words, owner, 0);
      hide Shape;
      while edge >= 0
        invariant -1 <= edge < |edges| && (edge >= 0 ==> owner[edge] == 0)
        invariant Built() && |nodes| == |nodes0|
        invariant RootQueue(owner, queue, edge)
        invariant AllFinished(nodes, words, patterns, queue)
        decreases edge
      {
        var child := edges[edge].to;
        ListNext(nodes, edges, words, owner, edge);
        assert words[child] == [edges[edge].value];
        RootChild(nodes, words, patterns, child, edges[edge].value);
        QueueRootChild(owner, queue, edge, edges[edge].next);
        LinkSet(nodes, nodes[child := nodes[child].(fail := 0, maxMatched := nodes[child].terminal)],
                edges, words, owner, patterns, queue, child, 0, nodes[child].terminal);
        ghost var linked := nodes[child := nodes[child].(fail := 0, maxMatched := nodes[child].terminal)];
        nodes := nodes[child := nodes[child].(fail := 0)];
        nodes := nodes[child := nodes[child].(maxMatched := Max(nodes[child].terminal, nodes[0].maxMatched))];
        assert nodes == linked;
        queue := queue + [child];
        edge := edges[edge].next;
      }
      RootQueueIsFrontier(words, owner, queue);
    }

    /** Expands the head of the queue: finishes and queues each of its children. */
    method ExpandNode(before: seq<int>, head: nat) returns (queue: seq<int>)
      requires Built() && Frontier(words, owner, before, head) && head < |before|
      requires AllFinished(nodes, words, patterns, before)
      modifies this`nodes
      ensures Built() && |nodes| == old(|nodes|)
      ensures Frontier(words, owner, queue, head + 1) && before <= queue
      ensures AllFinished(nodes, words, patterns, queue)
    {
      queue := before;
      var parent := queue[head];
      ShapeDepths(nodes, edges, words, owner);
      HeadNotExpanded(words, owner, queue, head, |owner|);
      ShallowFinished(nodes, words, owner, patterns, before, head);
      var edge := nodes[parent].firstEdge;
      ListHead(nodes, edges, words, owner, parent);
      SkipEdges(words, owner, queue, head, |owner|, edge);
      hide Contents, Finished, Depths, Expanding, AllFinished, UpToDepth, EdgeOk, NodeOk, Distinct;
      while edge >= 0
        invariant Built() && |nodes| == old(|nodes|)
        invariant before <= queue && queue[head] == parent
        invariant HalfExpanded(queue, head, edge)
        decreases edge
      {
        queue, edge := ExpandEdge(queue, head, edge);
      }
      DoneExpanding(words, owner, queue, head);
    }

    /** The state of the loop over the edge list of queue[head], with `edge` next. */
    ghost predicate HalfExpanded(queue: seq<int>, head: nat, edge: int)
      requires Built()
      reads this
    {
      && head < |queue| && -1 <= edge < |edges| && 0 < queue[head] < |nodes|
      && words[queue[head]] != []
      && (edge >= 0 ==> owner[edge] == queue[head])
      && Depths(words, owner)
      && Expanding(words, owner, queue, head, edge)
      && AllFinished(nodes, words, patterns, queue)
      && UpToDepth(nodes, words, patterns, |words[queue[head]]|)
    }

    /** One edge of the node being expanded: finishes its child, queues it, and moves on. */
    method ExpandEdge(before: seq<int>, head: nat, edge: int) returns (queue: seq<int>, next: int)
      requires Built() && 0 <= edge && HalfExpanded(before, head, edge)
      modifies this`nodes
      ensures Built() && |nodes| == old(|nodes|)
      ensures |queue| == |before| + 1 && before <= queue
      ensures next < edge && HalfExpanded(queue, head, next)
    {
      hide Contents, Finished, Depths, Expanding, AllFinished, UpToDepth, EdgeOk, NodeOk, Distinct;
      var child, value := edges[edge].to, edges[edge].value;
      next := edges[edge].next;
      ListNext(nodes, edges, words, owner, edge);
      Expand(words, owner, before, head, edge);
      SkipEdges(words, owner, before + [child], head, edge - 1, next);
      FinishChild(before[head], child, value, before);
      queue := before + [child];
    }

    /** Follows the failure links of `parent` until one has a transition on the byte of `child`. */
    method FinishChild(parent: int, child: int, value: byte, ghost queue: seq<int>)
      requires Built()
      requires 0 < parent < |nodes| && 0 < child < |nodes| && words[parent] != []
      requires words[child] == words[parent] + [value]
      requires child !in queue && AllFinished(nodes, words, patterns, queue)
      requires UpToDepth(nodes, words, patterns, |words[parent]|)
      modifies this`nodes
      ensures Built()
      ensures |nodes| == old(|nodes|)
      ensures AllFinished(nodes, words, patterns, queue + [child])
      ensures UpToDepth(nodes, words, patterns, |words[parent]|)
    {
      ghost var t := words[parent][1..];
      ghost var nodes0 := nodes;
      assert words[child][1..] == t + [value];
      ShapePrefixClosed(nodes, edges, words, owner);
      assert |nodes| == |words| && words[0] == [];
      hide Shape, Contents, IsSuffix;
      assert Finished(nodes, words, patterns, parent);
      var fallback := nodes[parent].fail;
      assert Candidate(words, t, value, fallback);
      assert Untouched(nodes, child);
      var next := Transition(fallback, value);
      while next < 0 && fallback != 0
        invariant nodes == nodes0 && 0 <= fallback < |nodes|
        invariant |words[fallback]| < |words[parent]|
        invariant Candidate(words, t, value, fallback)
        invariant -1 <= next < |nodes|
        invariant next >= 0 <==> HasWord(words, words[fallback] + [value])
        invariant next >= 0 ==> words[next] == words[fallback] + [value]
        decreases |words[fallback]|
      {
        assert Finished(nodes, words, patterns, fallback);
        StepDown(words, t, value, fallback, nodes[fallback].fail);
        fallback := nodes[fallback].fail;
        next := Transition(fallback, value);
      }
      if next >= 0 {
        Land(words, t, value, fallback, next);
      } else {
        assert words[fallback] + [value] == [value];
        LandAtRoot(words, t, value);
      }
      if next >= 0 && next != child {
        nodes := nodes[child := nodes[child].(fail := next)];
      }
      assert Spells(words, words[child][1..], nodes[child].fail);
      ghost var f := nodes[child].fail;
      MatchOfChild(nodes0, words, patterns, child, f, |words[parent]|);
      var failureMatch := nodes[nodes[child].fail].maxMatched;
      nodes := nodes[child := nodes[child].(maxMatched := Max(nodes[child].terminal, failureMatch))];
      ghost var m := Longest(patterns, words[child]);
      assert nodes == nodes0[child := nodes0[child].(fail := f, maxMatched := m)];
      LinkSet(nodes0, nodes, edges, words, owner, patterns, queue, child, f, m);
    }

    /** One byte of a scan: follows failure links until a transition is found, else back to the root. */
    method Advance(start: int, current: byte, ghost t: seq<byte>) returns (state: int, ghost hops: nat)
      requires Valid() && Spells(words, t, start)
      ensures Spells(words, t + [current], state)
      ensures nodes[state].maxMatched == Longest(patterns, t + [current])
      ensures hops + |words[state]| <= 1 + |words[start]|
    {
      state := start;
      hops := 0;
      var next := Transition(state, current);
      while next < 0 && state != 0
        invariant Candidate(words, t, current, state)
        invariant -1 <= next < |nodes|
        invariant next >= 0 <==> HasWord(words, words[state] + [current])
        invariant next >= 0 ==> words[next] == words[state] + [current]
        invariant hops + |words[state]| <= |words[start]|
        decreases |words[state]|
      {
        assert Finished(nodes, words, patterns, state);
        StepDown(words, t, current, state, nodes[state].fail);
        state := nodes[state].fail;
        hops := hops + 1;
        next := Transition(state, current);
      }
      ShapePrefixClosed(nodes, edges, words, owner);
      if next >= 0 {
        Land(words, t, current, state, next);
        state := next;
      } else {
        assert words[state] + [current] == [current];
        LandAtRoot(words, t, current);
        state := 0;
      }
      MatchOfState(words, patterns, t + [current], state);
      assert state > 0 ==> Finished(nodes, words, patterns, state);
    }

    /**
     Scans `value`, which continues a text `before` whose state is given, and marks the longest
     match at every end. Positions in `deltas` are offsets in a buffer that holds value at base.
     `hops` counts the failure links followed.
     */
    method Scan(value: seq<byte>, start: int, base: int, deltas: array<int>, ghost before: seq<byte>)
      returns (state: int, ghost hops: nat)
      requires Valid() && Spells(words, before, start)
      modifies deltas
      ensures Spells(words, before + value, state)
      ensures forall i | 0 <= i < deltas.Length - 1 ::
                Level(deltas[..], i) == old(Level(deltas[..], i)) + Hits(patterns, before, value, base, |value|, i)
      ensures Sum(deltas[..]) == old(Sum(deltas[..]))
      ensures hops + |words[state]| <= |value| + |words[start]|
    {
      state := start;
      hops := 0;
      assert before + value[..0] == before;
      hide Shape, Contents, Finished, IsSuffix, Level;
      for index := 0 to |value|
        invariant Spells(words, before + value[..index], state)
        invariant forall i | 0 <= i < deltas.Length - 1 ::
                    Level(deltas[..], i) == old(Level(deltas[..], i)) + Hits(patterns, before, value, base, index, i)
        invariant Sum(deltas[..]) == old(Sum(deltas[..]))
        invariant hops + |words[state]| <= index + |words[start]|
      {
        ghost var t := before + value[..index];
        var current := value[index];
        assert before + value[..index + 1] == t + [current];
        ghost var more;
        state, more := Advance(state, current, t);
        hops := hops + more;
        var length := nodes[state].maxMatched;
        if length > 0 {
          var end := base + index + 1;
          MarkRange(deltas, end - length, end);
        }
      }
      assert value[..|value|] == value;
    }
  }

  function Max(a: int, b: int): int { if a < b then b else a }
}
