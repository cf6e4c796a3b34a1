/**
 Admission's closure of an access list: a depth-first search over mutable sets that collects
 everything the input, and every workspace resource it reaches, refers to.
 */
module RuntimeClosure {
  import opened Options
  import opened RuntimeReferences

  datatype VariableLookup =
    | VariableFound(value: string, secret: bool)
    | SecretSealed
    | VariableMissing
    | VariableFault

  datatype ResourceLookup =
    | Document(value: Json)
    | Garbled
    | ResourceMissing
    | ResourceFault

  /** The configuration store as one workspace and one app see it. */
  datatype Store = Store(variable: Target -> VariableLookup, resource: Target -> ResourceLookup)

  datatype Failure =
    | InvalidAccess | Undecodable | BadReference | TooManyReferences | TooDeep | Cycle | Fault | NotFound

  datatype Result<T> = Ok(value: T) | Err(error: Failure)

  // ----- Collected references

  /** The references of one kind: legacy paths, as targets, and explicit targets. */
  datatype Listing = Listing(legacy: set<Target>, targets: set<Target>) {
    ghost predicate Separate() { legacy !! targets }
  }

  /** Adding the references spelled in some texts: the legacy spelling of a target wins. */
  ghost function Grow(l: Listing, texts: set<string>, kind: Kind): Listing {
    var legacy := l.legacy + Spelled(texts, kind, false);
    Listing(legacy, (l.targets + Spelled(texts, kind, true)) - legacy)
  }

  lemma SpelledJoin(a: set<string>, b: set<string>, kind: Kind, explicit: bool)
    ensures Spelled(a + b, kind, explicit) == Spelled(a, kind, explicit) + Spelled(b, kind, explicit)
  {
    hide RefersTo, ParseReference;
    forall t
      ensures t in Spelled(a + b, kind, explicit) <==> t in Spelled(a, kind, explicit) + Spelled(b, kind, explicit)
    {
    }
  }

  /** Growth adds up, so the order in which a document is traversed does not matter. */
  lemma GrowTwice(l: Listing, a: set<string>, b: set<string>, kind: Kind)
    ensures Grow(Grow(l, a, kind), b, kind) == Grow(l, a + b, kind)
  {
    SpelledJoin(a, b, kind, false);
    SpelledJoin(a, b, kind, true);
    hide Spelled;
  }

  lemma GrowNothing(l: Listing, kind: Kind)
    requires l.Separate()
    ensures Grow(l, {}, kind) == l
  {
    assert Spelled({}, kind, false) == {} && Spelled({}, kind, true) == {};
  }

  /** One entry of the collected lists: a target in its legacy or in its explicit spelling. */
  datatype Entry = Entry(kind: Kind, explicit: bool, target: Target)

  ghost function EntriesOf(kind: Kind, l: Listing): set<Entry> {
    (set t | t in l.legacy :: Entry(kind, false, t)) + (set t | t in l.targets :: Entry(kind, true, t))
  }

  /** The texts spell this entry; an explicit spelling gives way to a legacy one of the same document. */
  ghost predicate Spells(texts: set<string>, e: Entry) {
    e.target in Spelled(texts, e.kind, e.explicit) && (e.explicit ==> e.target !in Spelled(texts, e.kind, false))
  }

  lemma {:induction false} TaggedSize(kind: Kind, explicit: bool, targets: set<Target>, entries: set<Entry>)
    requires entries == set t | t in targets :: Entry(kind, explicit, t)
    ensures |entries| == |targets|
  {
    if targets != {} {
      var t :| t in targets;
      assert entries - {Entry(kind, explicit, t)} == set u | u in targets - {t} :: Entry(kind, explicit, u);
      TaggedSize(kind, explicit, targets - {t}, entries - {Entry(kind, explicit, t)});
    }
  }

  lemma EntriesJoin(kind: Kind, l: Listing, m: Listing)
    ensures EntriesOf(kind, Listing(l.legacy + m.legacy, l.targets + m.targets)) == EntriesOf(kind, l) + EntriesOf(kind, m)
  {
  }

  lemma EntriesSize(kind: Kind, l: Listing)
    ensures |EntriesOf(kind, l)| == |l.legacy| + |l.targets|
  {
    var legacy, targets := (set t | t in l.legacy :: Entry(kind, false, t)), set t | t in l.targets :: Entry(kind, true, t);
    TaggedSize(kind, false, l.legacy, legacy);
    TaggedSize(kind, true, l.targets, targets);
    assert legacy !! targets;
  }

  /** The four maps that references are collected in. */
  class References {
    var legacyVariables: set<string>
    var legacyResources: set<string>
    var variableTargets: set<Target>
    var resourceTargets: set<Target>

    constructor (access: Access)
      ensures Lists(Variable) == Listing(Legacy(access.variables), access.variableTargets)
      ensures Lists(Resource) == Listing(Legacy(access.resources), access.resourceTargets)
      ensures forall kind :: All(kind) == Allowed(access, kind)
    {
      legacyVariables, legacyResources := access.variables, access.resources;
      variableTargets, resourceTargets := access.variableTargets, access.resourceTargets;
    }

    ghost function Lists(kind: Kind): Listing
      reads this
    {
      if kind == Variable then Listing(Legacy(legacyVariables), variableTargets)
      else Listing(Legacy(legacyResources), resourceTargets)
    }

    ghost predicate Separate()
      reads this
    {
      Lists(Variable).Separate() && Lists(Resource).Separate()
    }

    ghost function Entries(): set<Entry>
      reads this
    {
      EntriesOf(Variable, Lists(Variable)) + EntriesOf(Resource, Lists(Resource))
    }

    lemma CountIsEntries()
      ensures Count() == |Entries()|
    {
      LegacySize(legacyVariables);
      LegacySize(legacyResources);
      EntriesSize(Variable, Lists(Variable));
      EntriesSize(Resource, Lists(Resource));
      assert EntriesOf(Variable, Lists(Variable)) !! EntriesOf(Resource, Lists(Resource));
    }

    function All(kind: Kind): (r: set<Target>)
      reads this
      ensures r == Lists(kind).legacy + Lists(kind).targets
    {
      if kind == Variable then Legacy(legacyVariables) + variableTargets
      else Legacy(legacyResources) + resourceTargets
    }

    /** The maps as an access list. */
    function Pinned(writeVariables: set<WriteTarget>, writeResources: set<Target>): (access: Access)
      reads this
      ensures forall kind :: Allowed(access, kind) == All(kind)
      ensures access.writeVariables == writeVariables && access.writeResources == writeResources
      ensures Reads(access) == Count()
    {
      Access(legacyVariables, legacyResources, variableTargets, resourceTargets, writeVariables, writeResources)
    }

    function Count(): nat
      reads this
    {
      |legacyVariables| + |legacyResources| + |variableTargets| + |resourceTargets|
    }

    method Add(text: string)
      requires Separate() && ParseReference(text).Refers?
      modifies this
      ensures Separate()
      ensures forall kind :: Lists(kind) == Grow(old(Lists(kind)), {text}, kind)
    {
      hide ParseReference, Grow;
      LegacyIsWorkspace(text);
      var r := ParseReference(text).reference;
      ghost var before := Lists(r.kind);
      assert r.target == Target(r.target.scope, r.target.path);
      if r.kind == Variable {
        if r.target.scope == Workspace && !r.explicit {
          legacyVariables := legacyVariables + {r.target.path};
          variableTargets := variableTargets - {r.target};
        } else if r.target.scope == Workspace && r.target.path in legacyVariables {
        } else {
          variableTargets := variableTargets + {r.target};
        }
      } else {
        if r.target.scope == Workspace && !r.explicit {
          legacyResources := legacyResources + {r.target.path};
          resourceTargets := resourceTargets - {r.target};
        } else if r.target.scope == Workspace && r.target.path in legacyResources {
        } else {
          resourceTargets := resourceTargets + {r.target};
        }
      }
      Added(before, Lists(r.kind), text);
      Untouched(text, if r.kind == Variable then Resource else Variable, old(Lists(if r.kind == Variable then Resource else Variable)));
    }

    method Collect(value: Json) returns (ok: bool)
      requires Separate()
      modifies this
      ensures ok <==> WellFormed(value)
      ensures ok ==> Separate() && forall kind :: Lists(kind) == Grow(old(Lists(kind)), Texts(value), kind)
      decreases value
    {
      hide Grow, Spelled, ParseReference;
      GrowNothing(Lists(Variable), Variable);
      GrowNothing(Lists(Resource), Resource);
      match value
      case Scalar(_) =>
        return true;
      case Text(text) =>
        match ParseReference(text) {
          case BadPath =>
            return false;
          case Refers(_) =>
            Add(text);
            return true;
          case Ordinary =>
            NothingSpelled(text, Lists(Variable), Variable);
            NothingSpelled(text, Lists(Resource), Resource);
            return true;
        }
      case Array(items) =>
        ok := CollectItems(items);
      case Object(_, items) =>
        ok := CollectItems(items);
    }

    method CollectItems(items: seq<Json>) returns (ok: bool)
      requires Separate()
      modifies this
      ensures ok <==> AllParse(TextsOf(items, |items|))
      ensures ok ==> Separate() && forall kind :: Lists(kind) == Grow(old(Lists(kind)), TextsOf(items, |items|), kind)
      decreases items
    {
      hide Grow, ParseReference;
      GrowNothing(Lists(Variable), Variable);
      GrowNothing(Lists(Resource), Resource);
      for i := 0 to |items|
        invariant Separate() && AllParse(TextsOf(items, i))
        invariant forall kind :: Lists(kind) == Grow(old(Lists(kind)), TextsOf(items, i), kind)
      {
        ok := Collect(items[i]);
        if !ok {
          TextsOfEach(items, |items|, i);
          return false;
        }
        GrowTwice(old(Lists(Variable)), TextsOf(items, i), Texts(items[i]), Variable);
        GrowTwice(old(Lists(Resource)), TextsOf(items, i), Texts(items[i]), Resource);
      }
      return true;
    }

    method Merge(other: References)
      modifies this
      requires other != this
      ensures forall kind :: Lists(kind) == Listing(old(Lists(kind)).legacy + other.Lists(kind).legacy, old(Lists(kind)).targets + other.Lists(kind).targets)
      ensures forall kind :: All(kind) == old(All(kind)) + other.All(kind)
      ensures Entries() == old(Entries()) + other.Entries()
    {
      hide EntriesOf;
      EntriesJoin(Variable, Lists(Variable), other.Lists(Variable));
      EntriesJoin(Resource, Lists(Resource), other.Lists(Resource));
      legacyVariables := legacyVariables + other.legacyVariables;
      legacyResources := legacyResources + other.legacyResources;
      variableTargets := variableTargets + other.variableTargets;
      resourceTargets := resourceTargets + other.resourceTargets;
    }
  }

  lemma LegacyIsWorkspace(text: string)
    requires ParseReference(text).Refers?
    ensures var r := ParseReference(text).reference; r.explicit || r.target.scope == Workspace
  {
    ParsedIsWritable(text);
    hide ParseReference, NormalPath;
  }

  lemma Added(before: Listing, after: Listing, text: string)
    requires ParseReference(text).Refers? && before.Separate()
    requires var r := ParseReference(text).reference;
             after == (if !r.explicit then Listing(before.legacy + {r.target}, before.targets - {r.target})
                       else if r.target in before.legacy then before
                       else Listing(before.legacy, before.targets + {r.target}))
    ensures after == Grow(before, {text}, ParseReference(text).reference.kind) && after.Separate()
  {
    hide ParseReference;
    var r := ParseReference(text).reference;
    assert RefersTo(text, r.kind, r.explicit) && !RefersTo(text, r.kind, !r.explicit);
    assert Spelled({text}, r.kind, r.explicit) == {r.target};
    assert Spelled({text}, r.kind, !r.explicit) == {};
  }

  lemma Untouched(text: string, kind: Kind, l: Listing)
    requires ParseReference(text).Refers? && ParseReference(text).reference.kind != kind && l.Separate()
    ensures Grow(l, {text}, kind) == l
  {
    hide ParseReference;
    assert Spelled({text}, kind, false) == {} && Spelled({text}, kind, true) == {};
  }

  lemma NothingSpelled(text: string, l: Listing, kind: Kind)
    requires ParseReference(text).Ordinary? && l.Separate()
    ensures Grow(l, {text}, kind) == l
  {
    hide ParseReference;
    assert Spelled({text}, kind, false) == {} && Spelled({text}, kind, true) == {};
  }

  // ----- The reference graph

  /** Only workspace resources are expanded: app- and actor-scoped ones are data. */
  ghost predicate Expandable(store: Store, t: Target) { t.scope == Workspace && store.resource(t).Document? }

  ghost function Nested(store: Store, t: Target, kind: Kind): set<Target> {
    if Expandable(store, t) then Mentions(store.resource(t).value, kind) else {}
  }

  ghost predicate ClosedAt(store: Store, variables: set<Target>, resources: set<Target>, t: Target) {
    && (Expandable(store, t) ==> WellFormed(store.resource(t).value))
    && Nested(store, t, Variable) <= variables && Nested(store, t, Resource) <= resources
  }

  /** Everything a workspace resource of the list refers to is in the list. */
  ghost predicate Closed(store: Store, variables: set<Target>, resources: set<Target>) {
    forall t | t in resources :: ClosedAt(store, variables, resources, t)
  }

  ghost predicate RankedAt(store: Store, rank: map<Target, nat>, t: Target)
    requires t in rank
  {
    rank[t] < |rank| && forall n | n in Nested(store, t, Resource) :: n in rank && rank[n] < rank[t]
  }

  /** A numbering in which references only go down. */
  ghost predicate Ranked(store: Store, rank: map<Target, nat>) {
    forall t | t in rank :: RankedAt(store, rank, t)
  }

  ghost predicate Acyclic(store: Store, resources: set<Target>) {
    exists rank: map<Target, nat> :: resources <= rank.Keys && Ranked(store, rank)
  }

  ghost predicate IsPath(store: Store, path: seq<Target>) {
    forall i | 0 <= i < |path| - 1 :: path[i + 1] in Nested(store, path[i], Resource)
  }

  lemma {:induction false} RanksFall(store: Store, rank: map<Target, nat>, path: seq<Target>)
    requires Ranked(store, rank) && IsPath(store, path) && |path| > 1 && path[0] in rank
    ensures path[|path| - 1] in rank && rank[path[|path| - 1]] < rank[path[0]]
  {
    hide Nested;
    assert RankedAt(store, rank, path[0]);
    assert path[0 + 1] in Nested(store, path[0], Resource);
    if |path| > 2 {
      forall i | 0 <= i < |path[1..]| - 1
        ensures path[1..][i + 1] in Nested(store, path[1..][i], Resource)
      {
        var j := i + 1;
        assert path[j + 1] in Nested(store, path[j], Resource);
      }
      RanksFall(store, rank, path[1..]);
    }
  }

  /** In an acyclic list no chain of references leads from a resource back to itself. */
  lemma NoCycle(store: Store, resources: set<Target>, path: seq<Target>)
    requires Acyclic(store, resources) && IsPath(store, path) && |path| > 1 && path[0] in resources
    ensures path[0] != path[|path| - 1]
  {
    var rank: map<Target, nat> :| resources <= rank.Keys && Ranked(store, rank);
    RanksFall(store, rank, path);
  }

  // ----- The state of the search

  datatype Progress = Progress(
    variables: set<Target>,
    resources: set<Target>,
    requiredVariables: set<Target>,
    visited: set<Target>,
    visiting: set<Target>,
    ghost rank: map<Target, nat>)

  /** Where the search starts: declared and mentioned targets, which of them the input mentions, and their entries. */
  datatype Seeds = Seeds(
    variables: set<Target>,
    resources: set<Target>,
    mentionedVariables: set<Target>,
    mentionedResources: set<Target>,
    entries: set<Entry>)
  {
    /** Resources that are declared but not mentioned by the input. */
    ghost function Optional(): set<Target> { resources - mentionedResources }

    ghost function Mentioned(kind: Kind): set<Target> { if kind == Variable then mentionedVariables else mentionedResources }
  }

  /** A chain of n references leads from a seed to the resource. */
  ghost predicate Chain(store: Store, seeds: Seeds, t: Target, n: nat)
    decreases n
  {
    if n == 0 then t in seeds.resources else exists r :: Chain(store, seeds, r, n - 1) && t in Nested(store, r, Resource)
  }

  ghost predicate Reached(store: Store, seeds: Seeds, t: Target) { exists n: nat :: Chain(store, seeds, t, n) }

  ghost predicate NestedIn(store: Store, seeds: Seeds, kind: Kind, t: Target) {
    exists r :: Reached(store, seeds, r) && t in Nested(store, r, kind)
  }

  /** The input or a reached workspace resource refers to the target; a mere declaration does not count. */
  ghost predicate Wanted(store: Store, seeds: Seeds, kind: Kind, t: Target) {
    t in seeds.Mentioned(kind) || NestedIn(store, seeds, kind, t)
  }

  /** An entry that the search starts with, or that a reached workspace resource spells. */
  ghost predicate Collected(store: Store, seeds: Seeds, e: Entry) {
    e in seeds.entries || exists r :: Reached(store, seeds, r) && Expandable(store, r) && Spells(Texts(store.resource(r).value), e)
  }

  ghost predicate AllCollected(store: Store, seeds: Seeds, entries: set<Entry>) {
    forall e | e in entries :: Collected(store, seeds, e)
  }

  /** Everything known is a seed, or is named by a resource the search has entered. */
  ghost predicate Sprung(store: Store, seeds: Seeds, known: set<Target>, entered: set<Target>) {
    forall t | t in known :: t in seeds.resources || exists q :: q in entered && t in Nested(store, q, Resource)
  }

  ghost predicate AllExpandable(store: Store, resources: set<Target>) { forall r | r in resources :: Expandable(store, r) }

  /** Everything known is reached from the seeds, and everything required is wanted. */
  ghost predicate Grounded(store: Store, seeds: Seeds, p: Progress, requiredResources: set<Target>) {
    && (forall t | t in p.resources :: Reached(store, seeds, t))
    && (forall v | v in p.variables :: v in seeds.variables || NestedIn(store, seeds, Variable, v))
    && (forall v | v in p.requiredVariables :: Wanted(store, seeds, Variable, v))
    && forall t | t in requiredResources :: Wanted(store, seeds, Resource, t)
  }

  lemma {:induction false} ChainIsClosed(store: Store, seeds: Seeds, t: Target, n: nat, variables: set<Target>, resources: set<Target>)
    requires Chain(store, seeds, t, n) && Closed(store, variables, resources) && seeds.resources <= resources
    ensures t in resources
    decreases n
  {
    hide Nested;
    if n > 0 {
      var r :| Chain(store, seeds, r, n - 1) && t in Nested(store, r, Resource);
      ChainIsClosed(store, seeds, r, n - 1, variables, resources);
      assert ClosedAt(store, variables, resources, r);
    }
  }

  /** What is reached is in every closed list that contains the seeds. */
  lemma GroundedIsLeast(store: Store, seeds: Seeds, p: Progress, required: set<Target>, variables: set<Target>, resources: set<Target>)
    requires Grounded(store, seeds, p, required) && Closed(store, variables, resources)
    requires seeds.variables <= variables && seeds.resources <= resources
    ensures p.variables <= variables && p.resources <= resources
  {
    hide Nested;
    forall t | Reached(store, seeds, t)
      ensures t in resources
    {
      var n: nat :| Chain(store, seeds, t, n);
      ChainIsClosed(store, seeds, t, n, variables, resources);
    }
    forall v | v in p.variables
      ensures v in variables
    {
      if v !in seeds.variables {
        var r :| Reached(store, seeds, r) && v in Nested(store, r, Variable);
        assert ClosedAt(store, variables, resources, r);
      }
    }
  }

  lemma NestedIsReached(store: Store, seeds: Seeds, r: Target, t: Target)
    requires Reached(store, seeds, r) && t in Nested(store, r, Resource)
    ensures Reached(store, seeds, t)
  {
    hide Nested;
    var n: nat :| Chain(store, seeds, r, n);
    assert Chain(store, seeds, t, n + 1);
  }

  lemma ExpandIsGrounded(store: Store, seeds: Seeds, p: Progress, required: set<Target>, t: Target)
    requires Grounded(store, seeds, p, required) && t in p.resources
    ensures Grounded(store, seeds, Expand(store, p, t), required + Nested(store, t, Resource))
  {
    hide Nested, Chain;
    forall n | n in Nested(store, t, Resource)
      ensures Reached(store, seeds, n)
    {
      NestedIsReached(store, seeds, t, n);
    }
    hide Reached;
    assert forall v | v in Nested(store, t, Variable) :: NestedIn(store, seeds, Variable, v);
    assert forall n | n in Nested(store, t, Resource) :: NestedIn(store, seeds, Resource, n);
  }

  ghost predicate Sound(store: Store, p: Progress) {
    && p.visited !! p.visiting && p.visited + p.visiting <= p.resources
    && p.requiredVariables <= p.variables
    && p.visited == p.rank.Keys && Ranked(store, p.rank)
    && forall t | t in p.visited :: ClosedAt(store, p.requiredVariables, p.resources, t)
  }

  /** What one visit may do: know more, and finish every resource it got to know. */
  ghost predicate Advances(p: Progress, q: Progress) {
    && p.variables <= q.variables && p.resources <= q.resources
    && p.requiredVariables <= q.requiredVariables
    && p.visited <= q.visited && p.visiting == q.visiting
    && q.resources - p.resources <= q.visited
  }

  ghost function Finish(p: Progress, t: Target): Progress {
    p.(visiting := p.visiting - {t}, visited := p.visited + {t}, rank := p.rank[t := |p.rank|])
  }

  ghost function Expand(store: Store, p: Progress, t: Target): Progress {
    p.(variables := p.variables + Nested(store, t, Variable),
       resources := p.resources + Nested(store, t, Resource),
       requiredVariables := p.requiredVariables + Nested(store, t, Variable))
  }

  lemma RankLast(store: Store, rank: map<Target, nat>, t: Target)
    requires Ranked(store, rank) && t !in rank && Nested(store, t, Resource) <= rank.Keys
    ensures var q := rank[t := |rank|]; Ranked(store, q) && q.Keys == rank.Keys + {t}
  {
    hide Nested;
    var q := rank[t := |rank|];
    assert q.Keys == rank.Keys + {t};
    assert |q| == |rank| + 1;
    forall s | s in q
      ensures RankedAt(store, q, s)
    {
      if s == t {
        forall n | n in Nested(store, t, Resource)
          ensures n in q && q[n] < q[t]
        {
          assert RankedAt(store, rank, n);
        }
      } else {
        assert RankedAt(store, rank, s);
      }
    }
  }

  lemma FinishIsSound(store: Store, p: Progress, t: Target)
    requires Sound(store, p) && t in p.visiting
    requires ClosedAt(store, p.requiredVariables, p.resources, t) && Nested(store, t, Resource) <= p.visited
    ensures Sound(store, Finish(p, t))
  {
    hide Nested, Ranked, ClosedAt;
    RankLast(store, p.rank, t);
  }

  lemma ExpandIsSound(store: Store, p: Progress, t: Target)
    requires Sound(store, p) && t in p.resources
    ensures Sound(store, Expand(store, p, t))
  {
    hide Nested;
    var q := Expand(store, p, t);
    forall s | s in q.visited
      ensures ClosedAt(store, q.requiredVariables, q.resources, s)
    {
      assert ClosedAt(store, p.requiredVariables, p.resources, s);
    }
  }

  datatype Limits = Limits(depth: nat, references: nat)

  /**
   A reached resource names a workspace document that the search may have come across before: one that
   it started from, or that another reached resource names too.
   */
  ghost predicate NamedTwice(store: Store, seeds: Seeds, r: Target, n: Target) {
    && Reached(store, seeds, r) && n in Nested(store, r, Resource) && Expandable(store, n)
    && (n in seeds.resources || exists q :: q != r && Reached(store, seeds, q) && n in Nested(store, q, Resource))
  }

  /** Reached workspace documents, and one more reached resource. */
  ghost predicate Piled(store: Store, seeds: Seeds, documents: set<Target>, t: Target) {
    && AllExpandable(store, documents) && (forall r | r in documents :: Reached(store, seeds, r))
    && t !in documents && Reached(store, seeds, t)
  }

  /**
   An error of the search has its cause in what it reached: a missing resource is one that is wanted,
   a cycle is suspected at a document named twice, and a limit is exceeded by what was collected.
   */
  ghost predicate Blames(store: Store, seeds: Seeds, limits: Limits, failure: Failure) {
    match failure
    case Fault => exists t :: Reached(store, seeds, t) && t.scope != Actor && store.resource(t).ResourceFault?
    case NotFound => exists t :: Reached(store, seeds, t) && Wanted(store, seeds, Resource, t) && t.scope != Actor && store.resource(t).ResourceMissing?
    case Undecodable => exists t :: Reached(store, seeds, t) && t.scope == Workspace && store.resource(t).Garbled?
    case BadReference => exists t :: Reached(store, seeds, t) && Expandable(store, t) && !WellFormed(store.resource(t).value)
    case Cycle => exists r, n :: NamedTwice(store, seeds, r, n)
    case TooDeep => exists documents, t :: Piled(store, seeds, documents, t) && |documents| >= limits.depth
    case TooManyReferences => exists entries :: AllCollected(store, seeds, entries) && |entries| > limits.references
    case InvalidAccess => false
  }

  /** Actor targets are looked up at execution only; an app resource need not even decode. */
  ghost predicate Present(store: Store, t: Target) {
    t.scope == Actor || store.resource(t).Document? || (t.scope == App && store.resource(t).Garbled?)
  }

  ghost predicate SettledAt(store: Store, optional: set<Target>, t: Target) {
    Present(store, t) || (store.resource(t).ResourceMissing? && t in optional)
  }

  /** What is known is required unless it is optional, and only something optional was passed over as missing. */
  ghost predicate Accounted(store: Store, optional: set<Target>, known: set<Target>, required: set<Target>, visited: set<Target>) {
    known <= required + optional && forall t | t in visited :: SettledAt(store, optional, t)
  }

  class Search {
    const store: Store
    const maxDepth: nat
    const maxReferences: nat
    const known: References
    ghost const seeds: Seeds
    var requiredVariables: set<Target>
    var requiredResources: set<Target>
    var visited: set<Target>
    var visiting: set<Target>
    ghost var rank: map<Target, nat>

    constructor (store: Store, maxDepth: nat, maxReferences: nat, known: References, variables: set<Target>, resources: set<Target>)
      requires variables <= known.All(Variable) && known.Count() <= maxReferences
      ensures this.store == store && this.known == known && this.maxDepth == maxDepth && this.maxReferences == maxReferences
      ensures requiredVariables == variables && requiredResources == resources
      ensures visited == {} && visiting == {}
      ensures seeds == Seeds(known.All(Variable), known.All(Resource), variables, resources, known.Entries())
      ensures Valid()
    {
      this.store, this.maxDepth, this.maxReferences, this.known := store, maxDepth, maxReferences, known;
      ghost var start := Seeds(known.All(Variable), known.All(Resource), variables, resources, known.Entries());
      seeds := start;
      requiredVariables, requiredResources := variables, resources;
      visited, visiting, rank := {}, {}, map[];
      SeedsAreReached(store, start);
    }

    ghost function Now(): Progress
      reads this, known
    {
      Progress(known.All(Variable), known.All(Resource), requiredVariables, visited, visiting, rank)
    }

    ghost predicate Valid()
      reads this, known
    {
      && Sound(store, Now()) && Grounded(store, seeds, Now(), requiredResources) && known.Count() <= maxReferences
      && Accounted(store, seeds.Optional(), known.All(Resource), requiredResources, visited)
      && Sprung(store, seeds, known.All(Resource), visited + visiting) && AllCollected(store, seeds, known.Entries())
    }

    ghost function Bounds(): Limits { Limits(maxDepth, maxReferences) }

    /** The resources being visited are workspace documents, as many as the visits are deep. */
    ghost predicate Busy(depth: nat)
      reads this
    {
      AllExpandable(store, visiting) && |visiting| + 1 == depth
    }

    method Settle(target: Target)
      requires Valid() && target in visiting
      requires ClosedAt(store, requiredVariables, known.All(Resource), target)
      requires Nested(store, target, Resource) <= visited && SettledAt(store, seeds.Optional(), target)
      modifies this
      ensures Now() == Finish(old(Now()), target) && Valid() && target in visited
      ensures requiredResources == old(requiredResources)
    {
      hide Sound, Grounded, ClosedAt, Nested, References.All, References.Entries, Sprung, AllCollected;
      FinishIsSound(store, Now(), target);
      FinishIsSprung(store, seeds, known.All(Resource), visited, visiting, target);
      visiting := visiting - {target};
      visited := visited + {target};
      rank := rank[target := |rank|];
      GroundedFrames(store, seeds, old(Now()), Now(), requiredResources);
    }

    /** Merges the references of a decoded workspace resource; None when the search may go on. */
    method Enter(target: Target) returns (failure: Option<Failure>)
      requires Valid() && target in visiting && Expandable(store, target) && AllExpandable(store, visiting)
      requires Sprung(store, seeds, known.All(Resource), visited + visiting - {target})
      modifies this, known
      ensures failure.None? ==>
                && Valid() && Now() == Expand(store, old(Now()), target) && visiting == old(visiting)
                && WellFormed(store.resource(target).value)
                && Nested(store, target, Resource) !! visiting
      ensures failure.Some? ==> Blames(store, seeds, Bounds(), failure.value)
    {
      hide Grounded, WellFormed, Mentions, References.All, References.Lists, References.Entries, Blames, Sound, Reached, Sprung, AllCollected, AllExpandable;
      VisitingIsKnown(store, Now(), target);
      KnownIsReached(store, seeds, Now(), requiredResources, target);
      ExpandIsSound(store, Now(), target);
      ExpandIsGrounded(store, seeds, Now(), requiredResources, target);
      var ok, nested := Gather(store.resource(target).value);
      if !ok {
        BlameAt(store, seeds, Bounds(), target, BadReference);
        return Some(BadReference);
      }
      var resources := nested.All(Resource);
      assert resources == Nested(store, target, Resource);
      ExpandIsSprung(store, seeds, known.All(Resource), visited + visiting, target);
      MoreCollected(store, seeds, known.Entries(), nested.Entries(), target);
      requiredVariables := requiredVariables + nested.All(Variable);
      requiredResources := requiredResources + nested.All(Resource);
      if exists n | n in resources :: n in visiting {
        ghost var n :| n in resources && n in visiting;
        CycleIsBlamed(store, seeds, Bounds(), old(Now()), old(requiredResources), target, n);
        return Some(Cycle);
      }
      known.Merge(nested);
      if known.Count() > maxReferences {
        known.CountIsEntries();
        TooManyIsBlamed(store, seeds, Bounds(), known.Entries());
        return Some(TooManyReferences);
      }
      assert Now() == Expand(store, old(Now()), target);
      return None;
    }

    method VisitResource(target: Target, depth: nat) returns (failure: Option<Failure>)
      requires Valid() && target in known.All(Resource) && Busy(depth)
      modifies this, known
      ensures failure.None? ==> Valid() && Advances(old(Now()), Now()) && target in visited
      ensures failure.Some? ==> target in old(visiting) || Blames(store, seeds, Bounds(), failure.value)
      decreases maxDepth + 1 - depth, 1
    {
      hide Grounded, Sound, Advances, References.All, References.Entries, ClosedAt, Nested, Blames, Expand, Finish, Reached, Wanted, Sprung, AllCollected, AllExpandable;
      KnownIsReached(store, seeds, Now(), requiredResources, target);
      if depth > maxDepth {
        if target !in visiting {
          DeepIsBlamed(store, seeds, Bounds(), Now(), requiredResources, target);
        }
        return Some(TooDeep);
      }
      if target in visiting {
        return Some(Cycle);
      }
      if target in visited {
        AdvancesItself(Now());
        return None;
      }
      BeginIsSound(store, Now(), target);
      BeginIsSprung(store, seeds, known.All(Resource), visited, visiting, target);
      visiting := visiting + {target};
      GroundedFrames(store, seeds, old(Now()), Now(), requiredResources);
      if target.scope == Actor {
        NothingNested(store, Now(), target);
        Settle(target);
        return None;
      }
      var found := store.resource(target);
      if found.ResourceFault? {
        BlameAt(store, seeds, Bounds(), target, Fault);
        return Some(Fault);
      }
      if found.ResourceMissing? {
        NothingNested(store, Now(), target);
        if target !in requiredResources {
          Settle(target);
          return None;
        }
        BlameAt(store, seeds, Bounds(), target, NotFound);
        return Some(NotFound);
      }
      if target.scope == App {
        NothingNested(store, Now(), target);
        Settle(target);
        return None;
      }
      if found.Garbled? {
        BlameAt(store, seeds, Bounds(), target, Undecodable);
        return Some(Undecodable);
      }
      OneMoreExpandable(store, old(visiting), target);
      failure := Enter(target);
      if failure.Some? {
        return;
      }
      failure := VisitKnown(depth + 1);
      if failure.Some? {
        return;
      }
      VisitedAreDone(store, Now());
      NestedDone(store, old(Now()), Now(), target);
      Settle(target);
    }

    /** Visits every known resource that is neither visited nor being visited, in whatever order. */
    method VisitKnown(depth: nat) returns (failure: Option<Failure>)
      requires Valid() && depth <= maxDepth + 1 && Busy(depth)
      modifies this, known
      ensures failure.None? ==> Valid() && Advances(old(Now()), Now()) && old(known.All(Resource)) <= visited + visiting
      ensures failure.Some? ==> Blames(store, seeds, Bounds(), failure.value)
      decreases maxDepth + 1 - depth, 2
    {
      hide Sound, Grounded, References.All, References.Entries, Blames, Sprung, AllCollected, AllExpandable;
      var pending := known.All(Resource);
      while pending != {}
        invariant Valid() && Advances(old(Now()), Now()) && Busy(depth)
        invariant pending <= old(known.All(Resource)) <= pending + visited + visiting
        decreases |pending|
      {
        var nested :| nested in pending;
        pending := pending - {nested};
        if nested !in visited && nested !in visiting {
          failure := VisitResource(nested, depth);
          if failure.Some? {
            return;
          }
        }
      }
      return None;
    }
  }

  lemma BlameAt(store: Store, seeds: Seeds, limits: Limits, t: Target, failure: Failure)
    requires Reached(store, seeds, t)
    requires match failure
             case Fault => t.scope != Actor && store.resource(t).ResourceFault?
             case NotFound => Wanted(store, seeds, Resource, t) && t.scope != Actor && store.resource(t).ResourceMissing?
             case Undecodable => t.scope == Workspace && store.resource(t).Garbled?
             case BadReference => Expandable(store, t) && !WellFormed(store.resource(t).value)
             case _ => false
    ensures Blames(store, seeds, limits, failure)
  {
    hide WellFormed, Reached, Wanted;
  }

  /** A document that is being visited was known before the target was entered. */
  lemma CycleIsBlamed(store: Store, seeds: Seeds, limits: Limits, p: Progress, required: set<Target>, target: Target, n: Target)
    requires Sound(store, p) && Grounded(store, seeds, p, required) && target in p.visiting && AllExpandable(store, p.visiting)
    requires Sprung(store, seeds, p.resources, p.visited + p.visiting - {target})
    requires n in Nested(store, target, Resource) && n in p.visiting
    ensures Blames(store, seeds, limits, Cycle)
  {
    hide Reached, Nested, Expandable;
    if n !in seeds.resources {
      var q :| q in p.visited + p.visiting - {target} && n in Nested(store, q, Resource);
      assert q in p.resources;
    }
    assert NamedTwice(store, seeds, target, n);
  }

  lemma DeepIsBlamed(store: Store, seeds: Seeds, limits: Limits, p: Progress, required: set<Target>, target: Target)
    requires Sound(store, p) && Grounded(store, seeds, p, required) && AllExpandable(store, p.visiting)
    requires target in p.resources && target !in p.visiting && |p.visiting| >= limits.depth
    ensures Blames(store, seeds, limits, TooDeep)
  {
    hide Reached, Nested, Expandable;
    assert Piled(store, seeds, p.visiting, target);
  }

  lemma TooManyIsBlamed(store: Store, seeds: Seeds, limits: Limits, entries: set<Entry>)
    requires AllCollected(store, seeds, entries) && |entries| > limits.references
    ensures Blames(store, seeds, limits, TooManyReferences)
  {
    hide AllCollected;
  }

  lemma OneMoreExpandable(store: Store, visiting: set<Target>, t: Target)
    requires AllExpandable(store, visiting) && Expandable(store, t)
    ensures AllExpandable(store, visiting + {t})
  {
    hide Expandable;
  }

  lemma BeginIsSprung(store: Store, seeds: Seeds, known: set<Target>, visited: set<Target>, visiting: set<Target>, t: Target)
    requires Sprung(store, seeds, known, visited + visiting) && t !in visited && t !in visiting
    ensures Sprung(store, seeds, known, visited + (visiting + {t}))
    ensures Sprung(store, seeds, known, visited + (visiting + {t}) - {t})
  {
    hide Nested;
    assert visited + (visiting + {t}) - {t} == visited + visiting;
  }

  lemma ExpandIsSprung(store: Store, seeds: Seeds, known: set<Target>, entered: set<Target>, t: Target)
    requires Sprung(store, seeds, known, entered) && t in entered
    ensures Sprung(store, seeds, known + Nested(store, t, Resource), entered)
  {
    hide Nested;
  }

  lemma FinishIsSprung(store: Store, seeds: Seeds, known: set<Target>, visited: set<Target>, visiting: set<Target>, t: Target)
    requires Sprung(store, seeds, known, visited + visiting) && t in visiting
    ensures Sprung(store, seeds, known, (visited + {t}) + (visiting - {t}))
  {
    assert (visited + {t}) + (visiting - {t}) == visited + visiting;
    hide Sprung;
  }

  lemma MoreCollected(store: Store, seeds: Seeds, entries: set<Entry>, more: set<Entry>, r: Target)
    requires AllCollected(store, seeds, entries) && Reached(store, seeds, r) && Expandable(store, r)
    requires forall e | e in more :: Spells(Texts(store.resource(r).value), e)
    ensures AllCollected(store, seeds, entries + more)
  {
    hide Reached, Spells, Expandable;
  }

  lemma SeedsAreReached(store: Store, seeds: Seeds)
    ensures forall t | t in seeds.resources :: Reached(store, seeds, t)
  {
    assert forall t | t in seeds.resources :: Chain(store, seeds, t, 0);
  }

  lemma KnownIsReached(store: Store, seeds: Seeds, p: Progress, required: set<Target>, t: Target)
    requires Grounded(store, seeds, p, required) && t in p.resources
    ensures Reached(store, seeds, t) && (t in required ==> Wanted(store, seeds, Resource, t))
  {
    hide Reached, Wanted;
  }

  lemma VisitingIsKnown(store: Store, p: Progress, t: Target)
    requires Sound(store, p) && t in p.visiting
    ensures t in p.resources
  {
  }

  lemma VisitedAreDone(store: Store, p: Progress)
    requires Sound(store, p)
    ensures p.visited !! p.visiting
  {
  }

  ghost function Begin(p: Progress, t: Target): Progress { p.(visiting := p.visiting + {t}) }

  lemma AdvancesItself(p: Progress)
    ensures Advances(p, p)
  {
  }

  /** Starting a visit is sound, and finishing it at once is an advance. */
  lemma BeginIsSound(store: Store, p: Progress, t: Target)
    requires Sound(store, p) && t in p.resources && t !in p.visited && t !in p.visiting
    ensures Sound(store, Begin(p, t)) && Advances(p, Finish(Begin(p, t), t))
  {
    hide ClosedAt, Ranked;
    AddRemove(p.visiting, t);
  }

  lemma AddRemove<T>(s: set<T>, t: T)
    requires t !in s
    ensures (s + {t}) - {t} == s
  {
  }

  lemma NothingNested(store: Store, p: Progress, t: Target)
    requires !Expandable(store, t)
    ensures ClosedAt(store, p.requiredVariables, p.resources, t) && Nested(store, t, Resource) <= p.visited
  {
  }

  /** After all known resources have been visited, everything the entered one refers to is done. */
  lemma NestedDone(store: Store, p: Progress, q: Progress, t: Target)
    requires t in p.resources && t !in p.visiting && q.visited !! q.visiting
    requires Expandable(store, t) && WellFormed(store.resource(t).value)
    requires var entered := Expand(store, Begin(p, t), t);
             && Advances(entered, q) && entered.resources <= q.visited + q.visiting
             && Nested(store, t, Resource) !! entered.visiting
    ensures ClosedAt(store, q.requiredVariables, q.resources, t)
    ensures Nested(store, t, Resource) <= q.visited && t in q.visiting
    ensures Advances(p, Finish(q, t))
  {
    hide Nested, WellFormed, Sound, Expandable;
    AddRemove(p.visiting, t);
  }

  lemma GroundedFrames(store: Store, seeds: Seeds, p: Progress, q: Progress, required: set<Target>)
    requires Grounded(store, seeds, p, required)
    requires p.variables == q.variables && p.resources == q.resources && p.requiredVariables == q.requiredVariables
    ensures Grounded(store, seeds, q, required)
  {
    hide Reached, Wanted, NestedIn;
  }

  lemma CollectedFromEmpty(value: Json, kind: Kind)
    ensures var l := Grow(Listing({}, {}), Texts(value), kind); l.legacy + l.targets == Mentions(value, kind)
  {
    hide Spelled;
  }

  /** Collects the references of one document into fresh maps. */
  method Gather(value: Json) returns (ok: bool, found: References)
    ensures fresh(found)
    ensures ok <==> WellFormed(value)
    ensures ok ==> found.Separate() && forall kind :: found.All(kind) == Mentions(value, kind)
    ensures ok ==> forall e :: e in found.Entries() <==> Spells(Texts(value), e)
  {
    hide Grow, WellFormed, Spells, EntriesOf;
    found := new References(Access({}, {}, {}, {}, {}, {}));
    assert found.Lists(Variable) == Listing({}, {}) && found.Lists(Resource) == Listing({}, {});
    ok := found.Collect(value);
    CollectedFromEmpty(value, Variable);
    CollectedFromEmpty(value, Resource);
    if ok {
      forall e
        ensures e in found.Entries() <==> Spells(Texts(value), e)
      {
        SpelledEntries(value, Variable, e);
        SpelledEntries(value, Resource, e);
      }
    }
  }

  lemma SpelledEntries(value: Json, kind: Kind, e: Entry)
    ensures e in EntriesOf(kind, Grow(Listing({}, {}), Texts(value), kind)) <==> e.kind == kind && Spells(Texts(value), e)
  {
    hide Spelled;
  }

  // ----- Admission

  const DEFAULT_MAX_DEPTH := 16
  const DEFAULT_MAX_REFERENCES := 256

  /** A limit that is not positive means the default. */
  function Limit(configured: int, default: nat): nat { if configured > 0 then configured else default }

  /** The least list that contains the seeds and everything its workspace resources refer to. */
  ghost predicate LeastClosed(store: Store, seedVariables: set<Target>, seedResources: set<Target>, variables: set<Target>, resources: set<Target>) {
    && seedVariables <= variables && seedResources <= resources
    && Closed(store, variables, resources)
    && forall vs: set<Target>, rs: set<Target>
         | Closed(store, vs, rs) && seedVariables <= vs && seedResources <= rs
         :: variables <= vs && resources <= rs
  }

  /** So the order in which the search visits targets has no influence on what it allows. */
  lemma ClosureIsUnique(store: Store, sv: set<Target>, sr: set<Target>, v: set<Target>, r: set<Target>, w: set<Target>, s: set<Target>)
    requires LeastClosed(store, sv, sr, v, r) && LeastClosed(store, sv, sr, w, s)
    ensures v == w && r == s
  {
    hide Closed;
  }

  ghost predicate Readable(store: Store, t: Target) {
    !store.variable(t).VariableMissing? && !store.variable(t).VariableFault?
  }

  /** Every variable that the input or a listed workspace resource refers to exists. */
  ghost predicate VariablesExist(store: Store, input: Json, resources: set<Target>) {
    && (forall v | v in Mentions(input, Variable) :: Readable(store, v))
    && (forall t, v | t in resources && v in Nested(store, t, Variable) :: Readable(store, v))
  }

  /** The number of entries that may be read. */
  function Reads(a: Access): nat {
    |a.variables| + |a.resources| + |a.variableTargets| + |a.resourceTargets|
  }

  lemma NormalizeShrinks(access: Access)
    requires NormalAccess(access) && NormalizeAccess(access).Some?
    ensures Reads(NormalizeAccess(access).value) <= Reads(access)
  {
    NormalPathsStay(access.variables);
    NormalPathsStay(access.resources);
    NormalTargetsStay(access.variableTargets, false);
    NormalTargetsStay(access.resourceTargets, false);
    hide NormalPath, NormalizePaths, NormalizeTargets, NormalizeWrites;
    SubsetIsSmaller(RemoveLegacy(access.variables, access.variableTargets), access.variableTargets);
    SubsetIsSmaller(RemoveLegacy(access.resources, access.resourceTargets), access.resourceTargets);
  }

  lemma {:induction false} SubsetIsSmaller<T>(a: set<T>, b: set<T>)
    requires a <= b
    ensures |a| <= |b|
  {
    if a != {} {
      var x :| x in a;
      SubsetIsSmaller(a - {x}, b - {x});
    }
  }

  /** What admission promises about the access list it pins on a job. */
  ghost predicate Admitted(store: Store, declared: Access, input: Json, access: Access) {
    var variables, resources := Allowed(access, Variable), Allowed(access, Resource);
    && WellFormed(input)
    && LeastClosed(store,
                   Allowed(declared, Variable) + Mentions(input, Variable),
                   Allowed(declared, Resource) + Mentions(input, Resource), variables, resources)
    && Acyclic(store, resources)
    && VariablesExist(store, input, resources)
    && (forall t | t in resources :: SettledAt(store, Allowed(declared, Resource) - Mentions(input, Resource), t))
    && access.writeVariables == declared.writeVariables && access.writeResources == declared.writeResources
    && NormalAccess(access) && Size(access) <= MAX_ACCESS_PATHS
  }

  ghost function SeedsOf(declared: Access, input: Json): Seeds {
    Seeds(Allowed(declared, Variable) + Mentions(input, Variable), Allowed(declared, Resource) + Mentions(input, Resource),
          Mentions(input, Variable), Mentions(input, Resource), SeedEntries(declared, input))
  }

  ghost function Declared(declared: Access, kind: Kind): Listing {
    if kind == Variable then Listing(Legacy(declared.variables), declared.variableTargets)
    else Listing(Legacy(declared.resources), declared.resourceTargets)
  }

  /** The entries that the search starts with: the declared ones and those that the input spells; see SeedEntriesAre. */
  ghost function SeedEntries(declared: Access, input: Json): set<Entry> {
    EntriesOf(Variable, Declared(declared, Variable)) + EntriesOf(Resource, Declared(declared, Resource))
    + (EntriesOf(Variable, Grow(Listing({}, {}), Texts(input), Variable)) + EntriesOf(Resource, Grow(Listing({}, {}), Texts(input), Resource)))
  }

  lemma SeedEntriesAre(declared: Access, input: Json, e: Entry)
    ensures e in SeedEntries(declared, input) <==> e in EntriesOf(e.kind, Declared(declared, e.kind)) || Spells(Texts(input), e)
  {
    hide Spells, EntriesOf, Grow, Texts, Declared;
    SpelledEntries(input, Variable, e);
    SpelledEntries(input, Resource, e);
    EntriesAreOfKind(Variable, Declared(declared, Variable), e);
    EntriesAreOfKind(Resource, Declared(declared, Resource), e);
  }

  lemma EntriesAreOfKind(kind: Kind, l: Listing, e: Entry)
    ensures e in EntriesOf(kind, l) ==> e.kind == kind
  {
  }

  /** The same for the check of the variables: a missing one is wanted, a faulty one is at least declared. */
  ghost predicate BlamesVariable(store: Store, seeds: Seeds, failure: Failure) {
    match failure
    case Fault => exists v :: (v in seeds.variables || NestedIn(store, seeds, Variable, v)) && store.variable(v).VariableFault?
    case NotFound => exists v :: Wanted(store, seeds, Variable, v) && store.variable(v).VariableMissing?
    case _ => false
  }

  /** The least closed list and the declared write targets are more than an access list may hold. */
  ghost predicate Overfull(store: Store, seeds: Seeds, declared: Access, variables: set<Target>, resources: set<Target>) {
    && LeastClosed(store, seeds.variables, seeds.resources, variables, resources)
    && |variables| + |resources| + |declared.writeVariables| + |declared.writeResources| > MAX_ACCESS_PATHS
  }

  /** What a failed admission says: the cause is in the input, or in what is reached from it and the declared list. */
  ghost predicate Explains(store: Store, limits: Limits, declared: Access, input: Option<Json>, failure: Failure) {
    match input
    case None => failure.Undecodable?
    case Some(value) =>
      var seeds := SeedsOf(declared, value);
      || (failure.BadReference? && !WellFormed(value))
      || Blames(store, seeds, limits, failure) || BlamesVariable(store, seeds, failure)
      || (failure.InvalidAccess? && exists variables, resources :: Overfull(store, seeds, declared, variables, resources))
  }

  // ----- When admission must succeed

  ghost predicate SoundResource(store: Store, seeds: Seeds, t: Target) {
    t.scope == Actor || match store.resource(t)
                        case ResourceFault => false
                        case ResourceMissing => !Wanted(store, seeds, Resource, t)
                        case Garbled => t.scope == App
                        case Document(value) => t.scope == Workspace ==> WellFormed(value)
  }

  ghost predicate SoundVariable(store: Store, seeds: Seeds, v: Target) {
    !store.variable(v).VariableFault? && (store.variable(v).VariableMissing? ==> !Wanted(store, seeds, Variable, v))
  }

  /**
   What is reached is in order, the references among workspace documents form a forest below the
   seeds, and every limit is kept.
   */
  ghost predicate Unobjectionable(store: Store, limits: Limits, declared: Access, input: Json) {
    var seeds := SeedsOf(declared, input);
    && WellFormed(input)
    && (forall t | Reached(store, seeds, t) :: SoundResource(store, seeds, t))
    && (forall v | v in seeds.variables || NestedIn(store, seeds, Variable, v) :: SoundVariable(store, seeds, v))
    && (forall r, n :: !NamedTwice(store, seeds, r, n))
    && (forall documents, t | Piled(store, seeds, documents, t) :: |documents| < limits.depth)
    && (forall entries | AllCollected(store, seeds, entries) :: |entries| <= limits.references)
    && (forall variables, resources :: !Overfull(store, seeds, declared, variables, resources))
  }

  /** Then there is nothing that an error could be about. */
  lemma NothingToExplain(store: Store, limits: Limits, declared: Access, input: Json, failure: Failure)
    requires Unobjectionable(store, limits, declared, input)
    ensures !Explains(store, limits, declared, Some(input), failure)
  {
    hide Reached, NestedIn, NamedTwice, Piled, AllCollected, Overfull, WellFormed, Mentions, Allowed, SeedEntries;
  }

  ghost predicate MustSucceed(store: Store, limits: Limits, declared: Option<Access>, input: Option<Json>) {
    declared.Some? && input.Some? && Unobjectionable(store, limits, declared.value, input.value)
  }

  lemma NothingIsExplained(store: Store, limits: Limits, declared: Option<Access>, input: Option<Json>)
    ensures MustSucceed(store, limits, declared, input) ==>
              forall failure :: !Explains(store, limits, declared.value, input, failure)
  {
    hide Explains, Unobjectionable;
    if MustSucceed(store, limits, declared, input) {
      forall failure
        ensures !Explains(store, limits, declared.value, input, failure)
      {
        NothingToExplain(store, limits, declared.value, input.value, failure);
      }
    }
  }

  lemma MentionsAreNormal(value: Json, kind: Kind, t: Target)
    requires t in Mentions(value, kind)
    ensures t.scope != Actor && NormalPath(t.path)
  {
    var s :| s in Texts(value) && ParseReference(s).Refers? && ParseReference(s).reference.target == t;
    ParsedIsWritable(s);
    hide ParseReference, NormalPath;
  }

  ghost function OnlyNormal(targets: set<Target>): set<Target> {
    set t | t in targets && NormalPath(t.path)
  }

  /** A least closed list over normal seeds holds normal paths only. */
  lemma LeastIsNormal(store: Store, sv: set<Target>, sr: set<Target>, v: set<Target>, r: set<Target>)
    requires LeastClosed(store, sv, sr, v, r) && NormalTargets(sv) && NormalTargets(sr)
    ensures NormalTargets(v) && NormalTargets(r)
  {
    hide NormalPath, Mentions, WellFormed;
    var vs, rs := OnlyNormal(v), OnlyNormal(r);
    forall t | t in rs
      ensures ClosedAt(store, vs, rs, t)
    {
      assert ClosedAt(store, v, r, t);
      forall n, kind | n in Nested(store, t, kind)
        ensures NormalPath(n.path)
      {
        MentionsAreNormal(store.resource(t).value, kind, n);
      }
    }
    assert Closed(store, vs, rs);
  }

  /** A finished search has computed the least closed list, and an order of its references. */
  lemma SearchIsDone(store: Store, seeds: Seeds, p: Progress, required: set<Target>)
    requires Sound(store, p) && Grounded(store, seeds, p, required) && p.resources <= p.visited
    requires seeds.variables <= p.variables && seeds.resources <= p.resources
    ensures LeastClosed(store, seeds.variables, seeds.resources, p.variables, p.resources)
    ensures Acyclic(store, p.resources)
    ensures forall t | t in p.resources :: Nested(store, t, Variable) <= p.requiredVariables
    ensures p.requiredVariables <= p.variables
  {
    hide Nested, Ranked, Grounded;
    forall t | t in p.resources
      ensures ClosedAt(store, p.variables, p.resources, t) && Nested(store, t, Variable) <= p.requiredVariables
    {
      assert ClosedAt(store, p.requiredVariables, p.resources, t);
    }
    forall vs: set<Target>, rs: set<Target> | Closed(store, vs, rs) && seeds.variables <= vs && seeds.resources <= rs
      ensures p.variables <= vs && p.resources <= rs
    {
      GroundedIsLeast(store, seeds, p, required, vs, rs);
    }
    assert p.resources <= p.rank.Keys && Ranked(store, p.rank);
  }

  method CheckVariables(store: Store, variables: set<Target>, required: set<Target>) returns (failure: Option<Failure>)
    ensures failure.None? ==> forall v | v in variables && v in required && v.scope != Actor :: Readable(store, v)
    ensures failure.Some? ==> match failure.value
                              case Fault => exists v :: v in variables && store.variable(v).VariableFault?
                              case NotFound => exists v :: v in variables && v in required && store.variable(v).VariableMissing?
                              case _ => false
  {
    var pending := variables;
    while pending != {}
      invariant pending <= variables
      invariant forall v | v in variables - pending && v in required && v.scope != Actor :: Readable(store, v)
      decreases |pending|
    {
      var target :| target in pending;
      pending := pending - {target};
      if target.scope == Actor {
        continue;
      }
      var found := store.variable(target);
      if found.VariableFault? {
        return Some(Fault);
      }
      if found.VariableMissing? && target in required {
        return Some(NotFound);
      }
    }
    return None;
  }

  lemma VariableIsBlamed(store: Store, seeds: Seeds, p: Progress, requiredResources: set<Target>, failure: Failure)
    requires Grounded(store, seeds, p, requiredResources)
    requires match failure
             case Fault => exists v :: v in p.variables && store.variable(v).VariableFault?
             case NotFound => exists v :: v in p.variables && v in p.requiredVariables && store.variable(v).VariableMissing?
             case _ => false
    ensures BlamesVariable(store, seeds, failure)
  {
    hide Reached, Wanted, NestedIn;
  }

  function LimitsOf(maxDepth: int, maxReferences: int): Limits {
    Limits(Limit(maxDepth, DEFAULT_MAX_DEPTH), Limit(maxReferences, DEFAULT_MAX_REFERENCES))
  }

  /** A limit that is configured holds; the defaults are 16 levels and 256 entries. */
  lemma LimitsExactly(maxDepth: int, maxReferences: int)
    ensures LimitsOf(maxDepth, maxReferences).depth == if maxDepth > 0 then maxDepth else 16
    ensures LimitsOf(maxDepth, maxReferences).references == if maxReferences > 0 then maxReferences else 256
  {
  }

  method BuildAccess(store: Store, maxDepth: int, maxReferences: int, declared: Access, input: Option<Json>)
    returns (r: Result<Access>)
    ensures NormalizeAccess(declared).None? ==> r == Err(InvalidAccess)
    ensures r.Ok? ==> NormalizeAccess(declared).Some? && input.Some? && Admitted(store, NormalizeAccess(declared).value, input.value, r.value)
    ensures r.Ok? ==> Reads(r.value) <= LimitsOf(maxDepth, maxReferences).references
    ensures r.Err? && NormalizeAccess(declared).Some? ==>
              Explains(store, LimitsOf(maxDepth, maxReferences), NormalizeAccess(declared).value, input, r.error)
    ensures MustSucceed(store, LimitsOf(maxDepth, maxReferences), NormalizeAccess(declared), input) ==> r.Ok?
  {
    hide WellFormed, Mentions, NormalizeAccess, LeastClosed, Acyclic, Sound, Grounded, Blames, BlamesVariable, References.All, References.Lists, References.Entries, Nested, Allowed, NormalAccess, Admitted, VariablesExist, Reads, Sprung, AllCollected, SeedEntries, Overfull, EntriesOf, Unobjectionable;
    var normal := NormalizeAccess(declared);
    NothingIsExplained(store, LimitsOf(maxDepth, maxReferences), normal, input);
    if normal.None? {
      return Err(InvalidAccess);
    }
    if input.None? {
      return Err(Undecodable);
    }
    var ok, referenced := Gather(input.value);
    if !ok {
      return Err(BadReference);
    }
    var limits := LimitsOf(maxDepth, maxReferences);
    var known := new References(normal.value);
    SeedsAreDeclared(known, referenced, normal.value, input.value);
    known.Merge(referenced);
    ghost var seeds := SeedsOf(normal.value, input.value);
    if known.Count() > limits.references {
      known.CountIsEntries();
      SeedsAreCollected(store, seeds);
      TooManyIsBlamed(store, seeds, limits, known.Entries());
      return Err(TooManyReferences);
    }
    var search := new Search(store, limits.depth, limits.references, known, referenced.All(Variable), referenced.All(Resource));
    assert search.seeds == seeds;
    assert search.seeds.Optional() == Allowed(normal.value, Resource) - Mentions(input.value, Resource);
    // A target that an earlier visit finished returns at once, so skipping it makes no difference.
    var failure := search.VisitKnown(1);
    if failure.Some? {
      return Err(failure.value);
    }
    SearchIsDone(store, search.seeds, search.Now(), search.requiredResources);
    failure := CheckVariables(store, known.All(Variable), search.requiredVariables);
    if failure.Some? {
      VariableIsBlamed(store, search.seeds, search.Now(), search.requiredResources, failure.value);
      return Err(failure.value);
    }
    var access := known.Pinned(normal.value.writeVariables, normal.value.writeResources);
    NormalizeAccessTwice(declared);
    FinishedIsNormal(store, normal.value, input.value, access);
    var result := NormalizeAccess(access);
    if result.None? {
      TooLargeIsOverfull(access);
      RejectedIsOverfull(store, seeds, normal.value, access);
      return Err(InvalidAccess);
    }
    RequiredAreReadable(store, input.value, search.requiredVariables, known.All(Variable), Allowed(access, Resource));
    FinishedIsAdmitted(store, normal.value, input.value, access);
    return Ok(result.value);
  }

  lemma SeedsAreDeclared(known: References, referenced: References, declared: Access, input: Json)
    requires known.Lists(Variable) == Declared(declared, Variable) && known.Lists(Resource) == Declared(declared, Resource)
    requires forall e :: e in referenced.Entries() <==> Spells(Texts(input), e)
    ensures known.Entries() + referenced.Entries() == SeedEntries(declared, input)
  {
    hide EntriesOf, Spells, Declared, SeedEntries;
    forall e
      ensures e in known.Entries() + referenced.Entries() <==> e in SeedEntries(declared, input)
    {
      SeedEntriesAre(declared, input, e);
      EntriesAreOfKind(Variable, Declared(declared, Variable), e);
      EntriesAreOfKind(Resource, Declared(declared, Resource), e);
      if e.kind == Variable {
        assert Declared(declared, e.kind) == known.Lists(Variable);
      } else {
        assert Declared(declared, e.kind) == known.Lists(Resource);
      }
    }
  }

  lemma SeedsAreCollected(store: Store, seeds: Seeds)
    ensures AllCollected(store, seeds, seeds.entries)
  {
  }

  /** A list of normal paths is rejected for its size only, which counts each target once. */
  lemma TooLargeIsOverfull(access: Access)
    requires NormalAccess(access)
    ensures NormalizeAccess(access).None? <==>
              |Allowed(access, Variable)| + |Allowed(access, Resource)| + |access.writeVariables| + |access.writeResources| > MAX_ACCESS_PATHS
  {
    NormalIsShortened(access);
    hide NormalAccess, NormalizeAccess, RemoveLegacy, Legacy;
    AllowedSize(access.variables, access.variableTargets);
    AllowedSize(access.resources, access.resourceTargets);
  }

  lemma RejectedIsOverfull(store: Store, seeds: Seeds, declared: Access, access: Access)
    requires LeastClosed(store, seeds.variables, seeds.resources, Allowed(access, Variable), Allowed(access, Resource))
    requires access.writeVariables == declared.writeVariables && access.writeResources == declared.writeResources
    requires |Allowed(access, Variable)| + |Allowed(access, Resource)| + |access.writeVariables| + |access.writeResources| > MAX_ACCESS_PATHS
    ensures exists variables, resources :: Overfull(store, seeds, declared, variables, resources)
  {
    hide LeastClosed, Allowed;
    assert Overfull(store, seeds, declared, Allowed(access, Variable), Allowed(access, Resource));
  }

  lemma RequiredAreReadable(store: Store, input: Json, required: set<Target>, variables: set<Target>, resources: set<Target>)
    requires Mentions(input, Variable) <= required <= variables
    requires forall t | t in resources :: Nested(store, t, Variable) <= required
    requires forall v | v in variables && v in required && v.scope != Actor :: Readable(store, v)
    ensures VariablesExist(store, input, resources)
  {
    hide Mentions, Readable, NormalPath;
    forall v | v in Mentions(input, Variable)
      ensures Readable(store, v)
    {
      MentionsAreNormal(input, Variable, v);
    }
    forall t, v | t in resources && v in Nested(store, t, Variable)
      ensures Readable(store, v)
    {
      MentionsAreNormal(store.resource(t).value, Variable, v);
    }
  }

  lemma FinishedIsNormal(store: Store, declared: Access, input: Json, access: Access)
    requires NormalAccess(declared)
    requires access.writeVariables == declared.writeVariables && access.writeResources == declared.writeResources
    requires LeastClosed(store,
                         Allowed(declared, Variable) + Mentions(input, Variable),
                         Allowed(declared, Resource) + Mentions(input, Resource),
                         Allowed(access, Variable), Allowed(access, Resource))
    ensures NormalAccess(access)
  {
    SeedsAreNormal(declared, input, Variable);
    SeedsAreNormal(declared, input, Resource);
    hide Mentions;
    LeastIsNormal(store, Allowed(declared, Variable) + Mentions(input, Variable), Allowed(declared, Resource) + Mentions(input, Resource),
                  Allowed(access, Variable), Allowed(access, Resource));
    hide LeastClosed;
    AllowedIsNormal(declared, access);
  }

  lemma FinishedIsAdmitted(store: Store, declared: Access, input: Json, access: Access)
    requires NormalAccess(access) && WellFormed(input) && NormalizeAccess(access).Some?
    requires access.writeVariables == declared.writeVariables && access.writeResources == declared.writeResources
    requires LeastClosed(store,
                         Allowed(declared, Variable) + Mentions(input, Variable),
                         Allowed(declared, Resource) + Mentions(input, Resource),
                         Allowed(access, Variable), Allowed(access, Resource))
    requires Acyclic(store, Allowed(access, Resource)) && VariablesExist(store, input, Allowed(access, Resource))
    requires forall t | t in Allowed(access, Resource) :: SettledAt(store, Allowed(declared, Resource) - Mentions(input, Resource), t)
    ensures Admitted(store, declared, input, NormalizeAccess(access).value)
    ensures Reads(NormalizeAccess(access).value) <= Reads(access)
  {
    hide Mentions, WellFormed, VariablesExist, Acyclic, LeastClosed;
    NormalizeKeepsAllowed(access);
    NormalizeShrinks(access);
    NormalizeAccessTwice(access);
    hide Allowed, NormalAccess, Reads;
  }

  lemma SeedsAreNormal(declared: Access, input: Json, kind: Kind)
    requires NormalAccess(declared)
    ensures NormalTargets(Allowed(declared, kind) + Mentions(input, kind))
  {
    hide NormalPath, Mentions, NormalizeWrites;
    forall t | t in Mentions(input, kind)
      ensures NormalPath(t.path)
    {
      MentionsAreNormal(input, kind, t);
    }
  }

  lemma AllowedIsNormal(declared: Access, access: Access)
    requires NormalAccess(declared) && NormalTargets(Allowed(access, Variable)) && NormalTargets(Allowed(access, Resource))
    requires access.writeVariables == declared.writeVariables && access.writeResources == declared.writeResources
    ensures NormalAccess(access)
  {
    hide NormalPath, NormalizeWrites;
    forall p | p in access.variables
      ensures NormalPath(p)
    {
      assert Target(Workspace, p) in Allowed(access, Variable);
    }
    forall p | p in access.resources
      ensures NormalPath(p)
    {
      assert Target(Workspace, p) in Allowed(access, Resource);
    }
  }
}
