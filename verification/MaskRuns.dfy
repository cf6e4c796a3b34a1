/**
 Whole runs of a masked log: any interleaving of chunks and secret registrations, one final flush.
 */
module MaskRuns {
  import opened Octets
  import opened MaskText
  import opened SecretRegistry
  import opened MaskLog
  import opened MaskStream

  datatype Event = Chunk(bytes: seq<byte>) | Secret(value: seq<byte>)

  /** The bytes a run writes. */
  ghost function Written(events: seq<Event>): seq<byte> {
    if events == [] then []
    else Written(events[..|events| - 1]) + match events[|events| - 1] case Chunk(b) => b case Secret(_) => []
  }

  /** What decides a run: known patterns, when each was first seen, bytes emitted and bytes held. */
  datatype Gauge = Gauge(patterns: set<seq<byte>>, first: First, emitted: nat, held: nat)

  ghost function MaxLength(patterns: set<seq<byte>>): (n: nat)
    ensures IsMaxLength(patterns, n)
  {
    MaxLengthExists(patterns);
    var n: nat :| IsMaxLength(patterns, n);
    n
  }

  lemma {:induction false} MaxLengthExists(patterns: set<seq<byte>>)
    ensures exists n: nat :: IsMaxLength(patterns, n)
  {
    if patterns == {} {
      assert IsMaxLength(patterns, 1);
    } else {
      var p :| p in patterns;
      MaxLengthExists(patterns - {p});
      var n: nat :| IsMaxLength(patterns - {p}, n);
      assert patterns == patterns - {p} + {p};
      assert IsMaxLength(patterns, if |p| > n then |p| else n);
    }
  }

  ghost function Step(codec: Codec, g: Gauge, event: Event): Gauge {
    match event
    case Secret(value) => g.(patterns := Registered(codec, g.patterns, value))
    case Chunk(bytes) =>
      if bytes == [] then g
      else
        var total := g.held + |bytes|;
        var keep := Min(total, MaxLength(g.patterns) - 1);
        Gauge(g.patterns, Seen(g.first, g.patterns, g.emitted), g.emitted + total - keep, keep)
  }

  /** The gauge after a whole run that starts with the given patterns. */
  ghost function Run(codec: Codec, initial: set<seq<byte>>, events: seq<Event>): Gauge {
    if events == [] then Gauge(initial, map[], 0, 0)
    else Step(codec, Run(codec, initial, events[..|events| - 1]), events[|events| - 1])
  }

  /** First sightings at the end of the run, the final flush included. */
  ghost function FirstSeen(codec: Codec, initial: set<seq<byte>>, events: seq<Event>): First {
    var g := Run(codec, initial, events);
    Seen(g.first, g.patterns, g.emitted)
  }

  /**
   Streams the chunks of a run through one masker while secrets are registered in between. For
   every run, the emitted bytes are the reference output for its first sightings.
   */
  method MaskRun(codec: Codec, initial: seq<seq<byte>>, events: seq<Event>) returns (output: seq<byte>)
    ensures output == MaskedSince(FirstSeen(codec, Spellings(codec, initial), events), Written(events))
  {
    hide Registry.Valid, Stream.Valid, Step, Registered, MaskedSince, Spellings, Stream.Follows, Gauges, Seen;
    var registry := new Registry(codec, initial);
    var stream := new Stream(registry);
    StartGauge(registry, stream, codec, Spellings(codec, initial));
    Feed(registry, stream, events, Spellings(codec, initial));
    assert [] + Written(events) == Written(events);
    LastSightings(registry, stream, codec, Spellings(codec, initial), events);
    stream.Flush();
    output := stream.emitted;
  }

  /** Handles the events of a run in order. */
  method Feed(registry: Registry, stream: Stream, events: seq<Event>, ghost initial: set<seq<byte>>)
    requires registry.Valid() && stream.Valid() && stream.Follows() && stream.registry == registry
    requires Gauges(registry, stream, Run(registry.codec, initial, []))
    modifies registry, stream, stream.deltas
    ensures registry.Valid() && stream.Valid() && stream.Follows()
    ensures fresh(stream.deltas) || stream.deltas == old(stream.deltas)
    ensures stream.input == old(stream.input) + Written(events)
    ensures stream.lastFlush == old(stream.lastFlush)
    ensures Gauges(registry, stream, Run(registry.codec, initial, events))
  {
    hide Registry.Valid, Stream.Valid, Step, Stream.Follows, Gauges;
    ghost var input0 := stream.input;
    for i := 0 to |events|
      invariant registry.Valid() && stream.Valid() && stream.Follows()
      invariant fresh(stream.deltas) || stream.deltas == old(stream.deltas)
      invariant stream.input == input0 + Written(events[..i]) && stream.lastFlush == old(stream.lastFlush)
      invariant Gauges(registry, stream, Run(registry.codec, initial, events[..i]))
    {
      ghost var event := events[i];
      assert events[..i + 1][..i] == events[..i];
      Handle(registry, stream, events[i], Run(registry.codec, initial, events[..i]));
      ghost var bytes := match event case Chunk(b) => b case Secret(_) => [];
      assert input0 + Written(events[..i]) + bytes == input0 + (Written(events[..i]) + bytes);
    }
    assert events[..|events|] == events;
  }

  /** One event of a run, seen through its gauge. */
  method Handle(registry: Registry, stream: Stream, event: Event, ghost g: Gauge)
    requires registry.Valid() && stream.Valid() && stream.Follows() && stream.registry == registry
    requires Gauges(registry, stream, g)
    modifies registry, stream, stream.deltas
    ensures registry.Valid() && stream.Valid() && stream.Follows()
    ensures fresh(stream.deltas) || stream.deltas == old(stream.deltas)
    ensures stream.input == old(stream.input) + match event case Chunk(b) => b case Secret(_) => []
    ensures stream.lastFlush == old(stream.lastFlush)
    ensures Gauges(registry, stream, Step(registry.codec, g, event))
  {
    hide Registry.Valid, Stream.Valid, Registered, Step, Seen;
    match event
    case Chunk(bytes) =>
      BufferSizes(stream);
      stream.Write(bytes);
      BufferSizes(stream);
      ChunkStep(registry.codec, registry, g, bytes);
    case Secret(value) =>
      RegisteredGrows(registry.codec, registry.patterns.Keys, value);
      var ok := registry.RegisterSecret(value);
      SecretStep(registry.codec, g, value);
      assert stream.input + [] == stream.input;
  }

  /** The gauge of a run so far describes the registry and the stream. */
  ghost predicate Gauges(registry: Registry, stream: Stream, g: Gauge)
    reads registry, stream
  {
    && g.patterns == registry.patterns.Keys
    && g.first == stream.first
    && g.emitted == |stream.emitted|
    && g.held == |stream.raw|
  }

  lemma StartGauge(registry: Registry, stream: Stream, codec: Codec, initial: set<seq<byte>>)
    requires registry.patterns.Keys == initial
    requires stream.first == map[] && stream.emitted == [] && stream.raw == []
    ensures Gauges(registry, stream, Run(codec, initial, []))
  {
  }

  lemma LastSightings(registry: Registry, stream: Stream, codec: Codec, initial: set<seq<byte>>, events: seq<Event>)
    requires Gauges(registry, stream, Run(codec, initial, events))
    ensures Seen(stream.first, registry.patterns.Keys, |stream.emitted|) == FirstSeen(codec, initial, events)
  {
  }

  lemma BufferSizes(stream: Stream)
    requires stream.Valid()
    ensures |stream.emitted| + |stream.raw| == |stream.input|
  {
  }

  lemma MaxLengthUnique(patterns: set<seq<byte>>, m: nat, n: nat)
    requires IsMaxLength(patterns, m) && IsMaxLength(patterns, n)
    ensures m == n
  {
  }

  lemma ChunkStep(codec: Codec, registry: Registry, g: Gauge, bytes: seq<byte>)
    requires registry.Valid() && g.patterns == registry.patterns.Keys
    ensures Step(codec, g, Chunk(bytes)) ==
            if bytes == [] then g
            else
              var total := g.held + |bytes|;
              var keep := Min(total, registry.maxLen - 1);
              Gauge(g.patterns, Seen(g.first, g.patterns, g.emitted), g.emitted + total - keep, keep)
  {
    MaxLengthUnique(g.patterns, MaxLength(g.patterns), registry.maxLen);
  }

  lemma RegisteredGrows(codec: Codec, patterns: set<seq<byte>>, value: seq<byte>)
    ensures patterns <= Registered(codec, patterns, value)
  {
  }

  lemma SecretStep(codec: Codec, g: Gauge, value: seq<byte>)
    ensures Step(codec, g, Secret(value)) == g.(patterns := Registered(codec, g.patterns, value))
  {
  }

  /** A run that registers nothing new sees every pattern from the start. */
  ghost predicate OnlyChunks(events: seq<Event>) {
    forall i | 0 <= i < |events| :: events[i].Chunk?
  }

  lemma {:induction false} NothingNew(codec: Codec, initial: set<seq<byte>>, events: seq<Event>)
    requires OnlyChunks(events)
    ensures var g := Run(codec, initial, events);
            && g.patterns == initial
            && (forall p | p in g.first :: g.first[p] == 0 && p in initial)
            && (g.emitted > 0 ==> g.first.Keys == initial)
  {
    if events != [] {
      NothingNew(codec, initial, events[..|events| - 1]);
    }
  }

  /**
   For every split of an input into chunks, streaming with a fixed registry and one final flush
   emits exactly what masking the whole input at once gives.
   */
  lemma StreamEqualsBatch(codec: Codec, initial: set<seq<byte>>, events: seq<Event>)
    requires OnlyChunks(events)
    ensures MaskedSince(FirstSeen(codec, initial, events), Written(events)) == Masked(initial, Written(events))
  {
    NothingNew(codec, initial, events);
    assert FirstSeen(codec, initial, events).Keys == initial;
    FromTheStart(FirstSeen(codec, initial, events), Written(events));
  }

  /** Sightings come no later than the bytes written so far, and every byte is emitted or held. */
  lemma {:induction false} SightedInTime(codec: Codec, initial: set<seq<byte>>, events: seq<Event>)
    ensures var g := Run(codec, initial, events);
            && g.emitted + g.held == |Written(events)|
            && g.first.Keys <= g.patterns
            && (forall p | p in g.first :: g.first[p] <= g.emitted)
  {
    if events != [] {
      SightedInTime(codec, initial, events[..|events| - 1]);
    }
  }

  /** Sightings of a run are kept by every longer run; later ones start at what was emitted then. */
  lemma {:induction false} SightingsKept(codec: Codec, initial: set<seq<byte>>, before: seq<Event>, after: seq<Event>)
    ensures var g, g' := Run(codec, initial, before), Run(codec, initial, before + after);
            && g.patterns <= g'.patterns && g.emitted <= g'.emitted
            && (forall p | p in g.first :: p in g'.first && g'.first[p] == g.first[p])
            && (g'.emitted > g.emitted ==> g.patterns <= g'.first.Keys)
            && (forall p | p in g.patterns && p in g'.first && p !in g.first :: g'.first[p] == g.emitted)
    decreases after
  {
    if after == [] {
      assert before + after == before;
    } else {
      var rest := after[..|after| - 1];
      assert (before + after)[..|before + after| - 1] == before + rest;
      SightingsKept(codec, initial, before, rest);
      SightedInTime(codec, initial, before + rest);
    }
  }

  /**
   Once a pattern is registered, every occurrence of it that starts in bytes written later, or in
   bytes the stream still holds, is hidden completely, however the chunks are cut.
   */
  lemma RegisteredIsHidden(codec: Codec, initial: set<seq<byte>>, before: seq<Event>, after: seq<Event>, p: seq<byte>, at: nat, i: nat)
    requires p in Run(codec, initial, before).patterns
    requires OccursAt(p, Written(before + after), at) && at <= i < at + |p|
    requires Run(codec, initial, before).emitted <= at
    ensures MaskedSince(FirstSeen(codec, initial, before + after), Written(before + after))[i] == REPLACEMENT
  {
    SightingsKept(codec, initial, before, after);
    SightedInTime(codec, initial, before);
    var g := Run(codec, initial, before + after);
    var first := FirstSeen(codec, initial, before + after);
    assert p in first && first[p] <= at;
    assert CoveredSince(first, Written(before + after), i);
  }

  /**
   So a secret whose registration was accepted is hidden from then on: itself, unless it is too long
   to be a pattern, and every string in it, wherever it occurs in bytes not yet emitted.
   */
  lemma SecretIsHidden(codec: Codec, initial: set<seq<byte>>, before: seq<Event>, secret: seq<byte>, after: seq<Event>,
                       all: set<seq<byte>>, text: seq<byte>, at: nat, i: nat)
    requires var g := Run(codec, initial, before);
             && (forall p :: p in all <==> p in g.patterns || Owed(codec, secret, p))
             && WithinLimits(codec, secret, all) && g.emitted <= at
    requires secret != [] && Hidden(codec, secret, text)
    requires var input := Written(before + [Secret(secret)] + after);
             (OccursAt(text, input, at) && at <= i < at + |text|)
             || (OccursAt(codec.escape(text), input, at) && at <= i < at + |codec.escape(text)|)
    ensures var events := before + [Secret(secret)] + after;
            MaskedSince(FirstSeen(codec, initial, events), Written(events))[i] == REPLACEMENT
  {
    hide Owed, Hidden, WithinLimits, Registered, Written, MaskedSince, FirstSeen, Seen;
    var with := before + [Secret(secret)];
    assert with[..|with| - 1] == before;
    RegisteredExactly(codec, Run(codec, initial, before).patterns, secret, all);
    assert Run(codec, initial, with) == Run(codec, initial, before).(patterns := all);
    HiddenIsOwed(codec, secret, text);
    if OccursAt(text, Written(with + after), at) && at <= i < at + |text| {
      RegisteredIsHidden(codec, initial, with, after, text, at, i);
    } else {
      RegisteredIsHidden(codec, initial, with, after, codec.escape(text), at, i);
    }
  }

  lemma HiddenIsOwed(codec: Codec, secret: seq<byte>, text: seq<byte>)
    requires Hidden(codec, secret, text)
    ensures Owed(codec, secret, text)
    ensures codec.escape(text) != [] ==> Owed(codec, secret, codec.escape(text))
  {
  }
}
