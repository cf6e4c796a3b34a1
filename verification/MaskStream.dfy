/**
 The streaming masker over a registry that may learn secrets while the stream runs.
 */
module MaskStream {
  import opened Octets
  import opened MaskText
  import opened Marks
  import opened Trie
  import opened Matching
  import opened SecretRegistry
  import opened MaskLog

  class Stream {
    const registry: Registry
    var raw: seq<byte>
    var deltas: array<int>
    var state: int
    var scanned: nat
    var generation: nat
    /** Everything handed to the emit callback so far. */
    var emitted: seq<byte>

    /** All bytes written. */
    ghost var input: seq<byte>
    /** Which of them are, or will be, replaced. */
    ghost var hit: seq<bool>
    ghost var first: First
    /** Number of bytes emitted at the last reset of the scan, and at the last flush. */
    ghost var resetAt: nat
    ghost var lastFlush: nat
    /** The words of the automaton the scan state refers to. */
    ghost var words: seq<seq<byte>>

    ghost predicate Split()
      reads this, deltas
    {
      SplitOf(emitted, raw, deltas[..], input, hit)
    }

    /** The scan state belongs to the text since the last reset. */
    ghost predicate Synced()
      reads this
    {
      && scanned <= |raw|
      && resetAt <= |emitted| && |emitted| + |raw| == |input|
      && SyncedOf(words, input, resetAt, |emitted| + scanned, state, first)
    }

    ghost predicate Valid()
      reads this, deltas
    {
      && Split()
      && Synced() && scanned == |raw|
      && lastFlush <= |emitted|
      && Sound(first, input, hit)
      && Complete(first, lastFlush, input, hit, |input|)
      && Retained(first, lastFlush, |emitted|, |raw|)
    }

    /** The stream lags behind its registry by whole registrations only. */
    ghost predicate Follows()
      reads this, registry, registry.matcher
    {
      && generation <= registry.generation
      && first.Keys <= registry.patterns.Keys
      && (generation == registry.generation ==> words == registry.matcher.words && first.Keys == registry.patterns.Keys)
    }

    constructor (registry: Registry)
      requires registry.Valid()
      ensures Valid() && Follows() && fresh(deltas) && this.registry == registry
      ensures input == [] && emitted == [] && raw == [] && first == map[] && lastFlush == 0
    {
      this.registry := registry;
      raw := [];
      deltas := new int[0];
      state, scanned, generation := 0, 0, 0;
      emitted := [];
      input, hit, first, resetAt, lastFlush, words := [], [], map[], 0, 0, [[]];
    }

    /** Appends a chunk to the buffer and zero cells to the difference array. */
    method Append(chunk: seq<byte>)
      requires Split() && Synced() && chunk != []
      modifies this`raw, this`deltas, this`input, this`hit
      ensures Split() && Synced() && fresh(deltas) && deltas.Length == |raw| + 1
      ensures raw == old(raw) + chunk && input == old(input) + chunk
      ensures hit == old(hit) + seq(|chunk|, i => false)
    {
      hide SplitOf, Sum, Level, Spells, Matcher.Valid;
      ghost var cells := deltas[..];
      var size := |raw| + |chunk| + 1;
      SplitAppend(emitted, raw, cells, input, hit, chunk);
      raw := raw + chunk;
      if deltas.Length == 0 {
        deltas := new int[size](i => 0);
        assert deltas[..] == seq(size, i => 0);
      } else {
        var longer := deltas[..] + seq(|chunk|, i => 0);
        deltas := new int[|longer|](i requires 0 <= i < |longer| => longer[i]);
        assert deltas[..] == cells + seq(|chunk|, i => 0);
      }
      SameWindow(input, chunk, resetAt, |emitted| + scanned);
      input := input + chunk;
      hit := hit + seq(|chunk|, i => false);
    }

    /** Takes a registry snapshot; a newer generation restarts the scan at the start of the buffer. */
    method Snapshot()
      requires Synced() && registry.Valid() && Follows()
      modifies this`state, this`scanned, this`generation, this`first, this`resetAt, this`words
      ensures Synced() && Follows() && generation == registry.generation
      ensures scanned <= old(scanned)
      ensures first == Seen(old(first), registry.patterns.Keys, |emitted|)
      ensures SeenSince(old(first), first, resetAt, |emitted| + scanned, |emitted|)
    {
      hide Spells, Matcher.Valid, Tally, Seen;
      ghost var first0 := first;
      NoEmptyPattern(registry);
      first := Seen(first, registry.patterns.Keys, |emitted|);
      SeenKeys(first0, registry.patterns.Keys, |emitted|);
      if registry.generation != generation {
        state, scanned, generation := 0, 0, registry.generation;
        resetAt := |emitted|;
        words := registry.matcher.words;
        RootSpellsNothing(registry.matcher);
        assert input[resetAt..|emitted| + scanned] == [];
      }
    }

    /** Takes a snapshot and scans the buffered bytes that the snapshot's automaton has not read. */
    method ScanPending(ghost before: nat)
      requires Split() && Synced() && registry.Valid() && Follows()
      requires |emitted| <= before <= |input| && scanned == before - |emitted|
      requires Sound(first, input, hit) && Complete(first, lastFlush, input, hit, before)
      requires Retained(first, lastFlush, |emitted|, before - |emitted|)
      modifies this`state, this`scanned, this`generation, this`hit, this`first, this`resetAt, this`words, deltas
      ensures Split() && Synced() && scanned == |raw| && Follows()
      ensures generation == registry.generation
      ensures first == Seen(old(first), registry.patterns.Keys, |emitted|)
      ensures Sound(first, input, hit) && Complete(first, lastFlush, input, hit, |input|)
    {
      hide Sound, Complete, Retained, Spells, Matcher.Valid, Tally, Seen, Hits, Scanned, Marked, SplitOf, SyncedOf, Leveled, SeenSince, Level, Sum;
      ghost var first0, cells := first, deltas[..];
      SplitSizes(emitted, raw, cells, input, hit);
      NoEmptyPattern(registry);
      hide Registry.Valid;
      Snapshot();
      ghost var from := |emitted| + scanned;
      ghost var context := input[resetAt..from];
      var pending := raw[scanned..];
      assert pending == input[from..];
      SyncedSpells(words, input, resetAt, from, state, first);
      ReadPending(pending, context);
      SyncedLater(words, input, resetAt, from, state, first, pending);
      ScanStep(first0, first, lastFlush, emitted, raw, input, resetAt, scanned, before, hit, cells, deltas[..]);
      hit := Marked(hit, |emitted|, deltas[..]);
      scanned := |raw|;
    }

    /** Runs the registry's automaton over the pending bytes. */
    method ReadPending(pending: seq<byte>, ghost context: seq<byte>)
      requires registry.Valid() && Spells(registry.matcher.words, context, state)
      modifies this`state, deltas
      ensures Spells(registry.matcher.words, context + pending, state)
      ensures Leveled(registry.matcher.patterns, context, pending, scanned, old(deltas[..]), deltas[..])
    {
      hide Spells, Matcher.Valid, Tally, Hits, Level, Sum;
      ghost var hops;
      state, hops := registry.matcher.Scan(pending, state, scanned, deltas, context);
    }

    /** Masks and emits the first `size` buffered bytes; the rest keeps its levels. */
    method EmitPrefix(size: nat)
      requires Split() && size <= |raw|
      requires Synced() && scanned == |raw|
      modifies this`raw, this`deltas, this`scanned, this`emitted
      ensures Split() && Synced() && scanned == |raw|
      ensures raw == old(raw)[size..] && old(emitted) <= emitted
      ensures |emitted| == |old(emitted)| + size
      ensures fresh(deltas) || deltas == old(deltas)
    {
      if size <= 0 {
        return;
      }
      SplitSizes(emitted, raw, deltas[..], input, hit);
      hide SplitOf, SyncedOf, Rendered, Level, Sum, Spells;
      var output, active := RenderPrefix(size);
      SplitEmit(emitted, raw, deltas[..], input, hit, output);
      emitted := emitted + output;
      raw := raw[size..];
      DropCells(size, active);
      scanned := scanned - size;
    }

    /** Drops the cells of the emitted bytes, folding their sum into the first cell that stays. */
    method DropCells(size: nat, active: int)
      requires size < deltas.Length
      modifies this`deltas
      ensures fresh(deltas)
      ensures deltas[..] == old(deltas[size..])[0 := active + old(deltas[size])]
    {
      var rest := deltas[size..];
      deltas := new int[|rest|](i requires 0 <= i < |rest| => rest[i]);
      deltas[0] := active + deltas[0];
    }

    /** A masked copy of the first `size` buffered bytes. */
    method RenderPrefix(size: nat) returns (output: seq<byte>, active: int)
      requires size <= |raw| < deltas.Length
      ensures active == Sum(deltas[..size])
      ensures Rendered(raw, deltas[..], output) && |output| == size
    {
      var prefix := raw[..size];
      var copy := new byte[size](i requires 0 <= i < size => prefix[i]);
      var cells := deltas[..size + 1];
      active := ApplyRangeMarks(copy, cells);
      output := copy[..];
      assert cells[..size] == deltas[..size];
      forall i | 0 <= i < size
        ensures output[i] == if Level(deltas[..], i) > 0 then REPLACEMENT else raw[i]
      {
        assert cells[..i + 1] == deltas[..][..i + 1];
      }
    }

    /** Buffers a chunk and marks every match it completes; nothing is emitted yet. */
    method Absorb(chunk: seq<byte>)
      requires Valid() && registry.Valid() && Follows() && chunk != []
      modifies this, deltas
      ensures Valid() && Follows() && fresh(deltas)
      ensures raw == old(raw) + chunk && input == old(input) + chunk
      ensures lastFlush == old(lastFlush) && emitted == old(emitted)
      ensures first == Seen(old(first), registry.patterns.Keys, |emitted|)
    {
      hide Sound, Complete, Retained, SplitOf, SyncedOf, Sum, Level, Spells, Matcher.Valid, Tally, Seen;
      SplitSizes(emitted, raw, deltas[..], input, hit);
      SeenExtends(first, registry.patterns.Keys, |emitted|);
      ghost var before := |input|;
      Extend(first, lastFlush, input, chunk, hit);
      Append(chunk);
      ScanPending(before);
      StillRetained(old(first), first, lastFlush, |emitted|, before - |emitted|, |raw|);
    }

    /**
     Buffers a chunk, marks every match it completes, and emits all but the bytes that may still
     begin a secret: at most the longest pattern's length minus one byte is withheld.
     */
    method Write(chunk: seq<byte>)
      requires Valid() && registry.Valid() && Follows()
      modifies this, deltas
      ensures Valid() && Follows() && (fresh(deltas) || deltas == old(deltas))
      ensures input == old(input) + chunk && lastFlush == old(lastFlush)
      ensures old(emitted) <= emitted
      ensures chunk == [] ==> first == old(first) && emitted == old(emitted)
      ensures chunk != [] ==> first == Seen(old(first), registry.patterns.Keys, |old(emitted)|)
      ensures chunk != [] ==> |raw| == Min(|old(raw)| + |chunk|, registry.maxLen - 1)
    {
      hide Sound, Complete, Retained, SplitOf, SyncedOf, Sum, Level, Spells, Matcher.Valid, Tally, Seen;
      if |chunk| == 0 {
        assert input + chunk == input;
        return;
      }
      Absorb(chunk);
      RegistryBounds(registry);
      var keep := registry.maxLen - 1;
      if |raw| <= keep {
        return;
      }
      EmitPrefix(|raw| - keep);
      FreshlyRetained(registry, first, lastFlush, |emitted|);
    }

    /** Scans with the latest patterns and emits everything that is buffered. */
    method Flush()
      requires Valid() && registry.Valid() && Follows()
      modifies this, deltas
      ensures Valid() && Follows() && (fresh(deltas) || deltas == old(deltas))
      ensures input == old(input) && raw == [] && old(emitted) <= emitted
      ensures first == Seen(old(first), registry.patterns.Keys, |old(emitted)|)
      ensures Complete(first, old(lastFlush), input, hit, |input|)
      ensures lastFlush == |emitted|
      ensures old(lastFlush) == 0 ==> emitted == MaskedSince(first, input)
    {
      hide Sound, Complete, Retained, SplitOf, SyncedOf, Sum, Level, Spells, Matcher.Valid, Tally, Seen;
      SplitSizes(emitted, raw, deltas[..], input, hit);
      ScanPending(|input|);
      EmitPrefix(|raw|);
      NothingToRetain(first, |emitted|, |raw|);
      CompleteAfterFlush(first, lastFlush, |emitted|, input, hit);
      FlushedIsMasked(first, emitted, raw, deltas[..], input, hit);
      lastFlush := |emitted|;
    }
  }

  ghost predicate SyncedOf(words: seq<seq<byte>>, input: seq<byte>, resetAt: nat, pos: nat, state: int, first: First)
    requires resetAt <= pos <= |input|
  {
    && Spells(words, input[resetAt..pos], state)
    && (forall p | p in first :: p != [] && first[p] <= resetAt)
  }

  /** Buffer and output are the two parts of the input, and the replaced bytes are known in both. */
  ghost predicate SplitOf(emitted: seq<byte>, raw: seq<byte>, cells: seq<int>, input: seq<byte>, hit: seq<bool>) {
    && |emitted| + |raw| == |input| == |hit|
    && raw == input[|emitted|..]
    && (|cells| == |raw| + 1 || (cells == [] && raw == []))
    && Sum(cells) == 0
    && (forall i | 0 <= i < |emitted| :: emitted[i] == if hit[i] then REPLACEMENT else input[i])
    && (forall i | 0 <= i < |raw| ::
          Level(cells, i) >= 0 && (hit[|emitted| + i] <==> Level(cells, i) > 0))
  }

  lemma SplitSizes(emitted: seq<byte>, raw: seq<byte>, cells: seq<int>, input: seq<byte>, hit: seq<bool>)
    requires SplitOf(emitted, raw, cells, input, hit)
    ensures |emitted| + |raw| == |input| == |hit| && raw == input[|emitted|..]
    ensures |cells| == |raw| + 1 || (cells == [] && raw == [])
  {
  }

  lemma SplitAppend(emitted: seq<byte>, raw: seq<byte>, cells: seq<int>, input: seq<byte>, hit: seq<bool>, chunk: seq<byte>)
    requires SplitOf(emitted, raw, cells, input, hit) && chunk != []
    ensures var cells' := if cells == [] then seq(|raw| + |chunk| + 1, i => 0) else cells + seq(|chunk|, i => 0);
            && |cells'| == |raw| + |chunk| + 1
            && SplitOf(emitted, raw + chunk, cells', input + chunk, hit + seq(|chunk|, i => false))
  {
    var cells' := if cells == [] then seq(|raw| + |chunk| + 1, i => 0) else cells + seq(|chunk|, i => 0);
    if cells == [] {
      ZeroLevels(cells');
    } else {
      SumZeros(|chunk|);
      SumAppend(cells, seq(|chunk|, i => 0));
      forall i | 0 <= i < |raw| + |chunk|
        ensures Level(cells', i) == if i < |raw| then Level(cells, i) else 0
      {
        LevelExtend(cells, |chunk|, i);
        if i == |raw| {
          assert cells[..i + 1] == cells;
        }
      }
    }
  }

  ghost predicate Rendered(raw: seq<byte>, cells: seq<int>, output: seq<byte>) {
    && |output| <= |raw| < |cells|
    && (forall i | 0 <= i < |output| :: output[i] == if Level(cells, i) > 0 then REPLACEMENT else raw[i])
  }

  lemma SplitEmit(emitted: seq<byte>, raw: seq<byte>, cells: seq<int>, input: seq<byte>, hit: seq<bool>, output: seq<byte>)
    requires SplitOf(emitted, raw, cells, input, hit)
    requires Rendered(raw, cells, output)
    ensures var size := |output|;
            SplitOf(emitted + output, raw[size..], cells[size..][0 := Sum(cells[..size]) + cells[size]], input, hit)
  {
    var size := |output|;
    var rest := cells[size..];
    var cells' := rest[0 := Sum(cells[..size]) + cells[size]];
    assert cells == cells[..size] + rest;
    SumAppend(cells[..size], rest);
    SumUpdate(rest, 0, Sum(cells[..size]));
    forall i | 0 <= i < |raw| - size
      ensures Level(cells', i) == Level(cells, size + i)
    {
      LevelShift(cells, size, i);
    }
    var emitted' := emitted + output;
    forall i | 0 <= i < |emitted'|
      ensures emitted'[i] == if hit[i] then REPLACEMENT else input[i]
    {
      if i >= |emitted| {
        assert raw[i - |emitted|] == input[i];
        assert hit[|emitted| + (i - |emitted|)] == hit[i];
      }
    }
  }

  lemma SameWindow(input: seq<byte>, chunk: seq<byte>, lo: nat, hi: nat)
    requires lo <= hi <= |input|
    ensures (input + chunk)[lo..hi] == input[lo..hi]
  {
  }

  function Min(a: int, b: int): int { if a < b then a else b }

  /** Patterns not seen before are now seen, with `emitted` bytes already gone. */
  ghost function Seen(first: First, patterns: set<seq<byte>>, emitted: nat): First {
    map p | p in first.Keys + patterns :: if p in first then first[p] else emitted
  }

  lemma SeenKeys(first: First, patterns: set<seq<byte>>, emitted: nat)
    requires first.Keys <= patterns
    ensures Seen(first, patterns, emitted).Keys == patterns
    ensures forall p | p in patterns :: Seen(first, patterns, emitted)[p] == if p in first then first[p] else emitted
    ensures first.Keys == patterns ==> Seen(first, patterns, emitted) == first
  {
  }

  lemma SeenExtends(first: First, patterns: set<seq<byte>>, emitted: nat)
    ensures forall p | p in Seen(first, patterns, emitted) ::
              Seen(first, patterns, emitted)[p] == if p in first then first[p] else emitted
  {
  }

  lemma NothingToRetain(first: First, emitted: nat, held: nat)
    ensures Retained(first, emitted, emitted, held)
  {
  }

  lemma RegistryBounds(registry: Registry)
    requires registry.Valid()
    ensures registry.maxLen >= 1
  {
  }

  /** A later flush point only weakens completeness. */
  lemma CompleteAfterFlush(first: First, lastFlush: nat, flush: nat, input: seq<byte>, hit: seq<bool>)
    requires Complete(first, lastFlush, input, hit, |input|) && lastFlush <= flush
    ensures Complete(first, flush, input, hit, |input|)
  {
  }

  /** When the buffer is empty and no flush came before, the output is the reference output. */
  lemma FlushedIsMasked(first: First, emitted: seq<byte>, raw: seq<byte>, cells: seq<int>, input: seq<byte>, hit: seq<bool>)
    requires SplitOf(emitted, raw, cells, input, hit) && raw == []
    requires Sound(first, input, hit)
    ensures Complete(first, 0, input, hit, |input|) ==> emitted == MaskedSince(first, input)
  {
    if Complete(first, 0, input, hit, |input|) {
      forall i | 0 <= i < |input|
        ensures emitted[i] == MaskedSince(first, input)[i]
      {
        HitIsCoveredSince(first, input, hit, i);
      }
    }
  }

  lemma NoEmptyPattern(registry: Registry)
    requires registry.Valid()
    ensures [] !in registry.patterns && registry.matcher.patterns == registry.patterns.Keys
    ensures forall p | p in registry.patterns :: |p| <= registry.maxLen
  {
  }

  lemma RootSpellsNothing(matcher: Matcher)
    requires matcher.Valid()
    ensures Spells(matcher.words, [], 0)
  {
  }

  /** The hidden positions after marking: those emitted keep their status, buffered ones follow their level. */
  ghost function Marked(hit: seq<bool>, emitted: nat, deltas: seq<int>): seq<bool>
    requires emitted <= |hit| && (|hit| - emitted <= |deltas|)
  {
    seq(|hit|, i requires 0 <= i < |hit| => if i < emitted then hit[i] else Level(deltas, i - emitted) > 0)
  }

  /** The levels before and after a scan differ by the hits of the scan. */
  ghost predicate Leveled(patterns: set<seq<byte>>, context: seq<byte>, pending: seq<byte>, base: int, before: seq<int>, after: seq<int>) {
    && |before| == |after| && Sum(before) == Sum(after)
    && (forall i | 0 <= i < |before| - 1 ::
          Level(after, i) == Level(before, i) + Hits(patterns, context, pending, base, |pending|, i))
  }

  /** Newly seen patterns come with a scan that restarts at the start of the buffer. */
  ghost predicate SeenSince(first0: First, first: First, resetAt: nat, from: nat, emitted: nat) {
    forall p | p in first :: if p in first0 then first[p] == first0[p] else first[p] == resetAt == from == emitted
  }

  /** One scan keeps buffer and output consistent, hides nothing needlessly and misses nothing. */
  lemma ScanStep(first0: First, first: First, lastFlush: nat, emitted: seq<byte>, raw: seq<byte>, input: seq<byte>,
                 resetAt: nat, scanned: nat, before: nat, hit: seq<bool>, cells: seq<int>, cells': seq<int>)
    requires SplitOf(emitted, raw, cells, input, hit)
    requires resetAt <= |emitted| && |emitted| + scanned <= before <= |input|
    requires Leveled(first.Keys, input[resetAt..|emitted| + scanned], raw[scanned..], scanned, cells, cells')
    requires SeenSince(first0, first, resetAt, |emitted| + scanned, |emitted|)
    requires first0.Keys <= first.Keys
    requires forall p | p in first :: p != [] && first[p] <= resetAt
    requires Sound(first0, input, hit) && Complete(first0, lastFlush, input, hit, before)
    requires Retained(first0, lastFlush, |emitted|, before - |emitted|)
    ensures |hit| - |emitted| <= |cells'|
    ensures var hit' := Marked(hit, |emitted|, cells');
            && SplitOf(emitted, raw, cells', input, hit')
            && Sound(first, input, hit') && Complete(first, lastFlush, input, hit', |input|)
  {
    var from := |emitted| + scanned;
    assert raw[scanned..] == input[from..] by {
      assert raw == input[|emitted|..];
    }
    ScanLevels(first.Keys, emitted, raw, input, resetAt, scanned, hit, cells, cells');
    var hit' := Marked(hit, |emitted|, cells');
    SoundLater(first0, first, input, hit);
    ScanIsSound(first, input, resetAt, from, |emitted|, hit, hit');
    ScanIsComplete(first0, first, lastFlush, input, resetAt, from, |emitted|, before, hit, hit');
  }

  lemma ScanLevels(patterns: set<seq<byte>>, emitted: seq<byte>, raw: seq<byte>, input: seq<byte>,
                   resetAt: nat, scanned: nat, hit: seq<bool>, cells: seq<int>, cells': seq<int>)
    requires SplitOf(emitted, raw, cells, input, hit)
    requires resetAt <= |emitted| && |emitted| + scanned <= |input|
    requires Leveled(patterns, input[resetAt..|emitted| + scanned], input[|emitted| + scanned..], scanned, cells, cells')
    ensures |hit| - |emitted| <= |cells'|
    ensures var hit' := Marked(hit, |emitted|, cells');
            && SplitOf(emitted, raw, cells', input, hit')
            && Scanned(patterns, input, resetAt, |emitted| + scanned, |emitted|, hit, hit')
  {
    hide Sum, Level, Hits;
    var hit' := Marked(hit, |emitted|, cells');
    var from := |emitted| + scanned;
    forall i | |emitted| <= i < |input|
      ensures hit'[i] <==> hit[i] || Hits(patterns, input[resetAt..from], input[from..], from - |emitted|, |input| - from, i - |emitted|) > 0
    {
      var k := i - |emitted|;
      assert hit[|emitted| + k] <==> Level(cells, k) > 0;
    }
    forall k | 0 <= k < |raw|
      ensures Level(cells', k) >= 0 && (hit'[|emitted| + k] <==> Level(cells', k) > 0)
    {
    }
  }

  lemma SyncedSpells(words: seq<seq<byte>>, input: seq<byte>, resetAt: nat, pos: nat, state: int, first: First)
    requires resetAt <= pos <= |input| && SyncedOf(words, input, resetAt, pos, state, first)
    ensures Spells(words, input[resetAt..pos], state)
    ensures forall p | p in first :: p != [] && first[p] <= resetAt
  {
  }

  lemma SyncedLater(words: seq<seq<byte>>, input: seq<byte>, resetAt: nat, pos: nat, state: int, first: First, pending: seq<byte>)
    requires resetAt <= pos <= |input| && pending == input[pos..]
    requires Spells(words, input[resetAt..pos] + pending, state)
    requires forall p | p in first :: p != [] && first[p] <= resetAt
    ensures SyncedOf(words, input, resetAt, |input|, state, first)
  {
    assert input[resetAt..pos] + pending == input[resetAt..|input|];
  }

  lemma SoundLater(first0: First, first: First, text: seq<byte>, hit: seq<bool>)
    requires Sound(first0, text, hit) && first0.Keys <= first.Keys
    requires forall p | p in first0 :: first[p] == first0[p]
    ensures Sound(first, text, hit)
  {
    forall i | 0 <= i < |hit| && hit[i]
      ensures CoveredSince(first, text, i)
    {
      assert CoveredSince(first0, text, i);
    }
  }

  lemma StillRetained(first0: First, first: First, lastFlush: nat, emitted: nat, before: nat, held: nat)
    requires Retained(first0, lastFlush, emitted, before) && before <= held
    requires forall p | p in first :: if p in first0 then first[p] == first0[p] else first[p] == emitted
    ensures Retained(first, lastFlush, emitted, held)
  {
  }

  lemma FreshlyRetained(registry: Registry, first: First, lastFlush: nat, emitted: nat)
    requires registry.Valid() && first.Keys <= registry.patterns.Keys
    ensures Retained(first, lastFlush, emitted, registry.maxLen - 1)
  {
  }
}
