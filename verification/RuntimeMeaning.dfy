/**
 What a resolution means: which targets it reaches, when exactly it succeeds, which secrets it
 reports, that it sees pinned targets only, and how far admission rules failures out.
 */
module RuntimeMeaning {
  import opened Options
  import opened RuntimeReferences
  import opened RuntimeClosure
  import opened RuntimeResolution

  ghost function Named(texts: set<string>, kind: Kind): set<Target> {
    Spelled(texts, kind, false) + Spelled(texts, kind, true)
  }

  /** Some text refers to the target, directly or through at most `fuel` nested resources of any scope. */
  ghost predicate Reaches(store: Store, texts: set<string>, kind: Kind, t: Target, fuel: nat)
    decreases fuel, 0
  {
    || t in Named(texts, kind)
    || (fuel > 0 && exists r :: r in Named(texts, Resource) && Through(store, r, kind, t, fuel - 1))
  }

  ghost predicate Through(store: Store, r: Target, kind: Kind, t: Target, fuel: nat)
    decreases fuel, 1
  {
    store.resource(r).Document? && Reaches(store, Texts(store.resource(r).value), kind, t, fuel)
  }

  ghost predicate Circles(store: Store, r: Target) { exists fuel: nat :: Through(store, r, Resource, r, fuel) }

  ghost predicate Pinned(c: Setting, kind: Kind, t: Target) {
    if kind == Variable then t in c.variables else t in c.resources
  }

  lemma ReachesVia(store: Store, texts: set<string>, kind: Kind, t: Target, fuel: nat) returns (r: Target)
    requires Reaches(store, texts, kind, t, fuel) && t !in Named(texts, kind)
    ensures fuel > 0 && r in Named(texts, Resource) && store.resource(r).Document?
    ensures Reaches(store, Texts(store.resource(r).value), kind, t, fuel - 1)
  {
    hide Named;
    r :| r in Named(texts, Resource) && Through(store, r, kind, t, fuel - 1);
  }

  // ----- From a document to its texts

  /** In a resolved document every text has been resolved, with its secrets. */
  lemma {:induction false} EveryTextResolved(c: Setting, value: Json, depth: nat, stack: set<Target>, s: string) returns (d: nat)
    requires Outcomes(c, value, depth, stack).Resolved? && s in Texts(value)
    ensures depth <= d && Outcomes(c, Text(s), d, stack).Resolved?
    ensures Outcomes(c, Text(s), d, stack).secrets <= Outcomes(c, value, depth, stack).secrets
    decreases c.maxDepth + 1 - depth, 2
  {
    hide ItemOutcomes, TextsOf, ResourceOutcome, ParseReference, ReadVariable;
    if value.Text? {
      d := depth;
    } else if !value.Scalar? {
      d := EveryItemResolved(c, value.items, |value.items|, depth, stack, s);
    }
  }

  lemma {:induction false} EveryItemResolved(c: Setting, items: seq<Json>, n: nat, depth: nat, stack: set<Target>, s: string) returns (d: nat)
    requires n <= |items| && depth <= c.maxDepth && ItemOutcomes(c, items, n, depth, stack).Resolved? && s in TextsOf(items, n)
    ensures depth <= d && Outcomes(c, Text(s), d, stack).Resolved?
    ensures Outcomes(c, Text(s), d, stack).secrets <= ItemOutcomes(c, items, n, depth, stack).secrets
    decreases c.maxDepth + 1 - depth, 1, n
  {
    hide Outcomes, Texts;
    if s in TextsOf(items, n - 1) {
      d := EveryItemResolved(c, items, n - 1, depth, stack, s);
    } else {
      d := EveryTextResolved(c, items[n - 1], depth + 1, stack, s);
    }
  }

  /** A refused document has a refused text, unless it was too deep. */
  lemma {:induction false} SomeTextRefused(c: Setting, value: Json, depth: nat, stack: set<Target>) returns (s: string, d: nat)
    requires Outcomes(c, value, depth, stack).Refused? && Outcomes(c, value, depth, stack) != Refused(Deep)
    ensures depth <= d && s in Texts(value) && Outcomes(c, Text(s), d, stack) == Outcomes(c, value, depth, stack)
    decreases c.maxDepth + 1 - depth, 2
  {
    hide ItemOutcomes, TextsOf, ResourceOutcome, ParseReference, ReadVariable;
    if value.Text? {
      s, d := value.text, depth;
    } else {
      s, d := SomeItemRefused(c, value.items, |value.items|, depth, stack);
    }
  }

  lemma {:induction false} SomeItemRefused(c: Setting, items: seq<Json>, n: nat, depth: nat, stack: set<Target>) returns (s: string, d: nat)
    requires n <= |items| && depth <= c.maxDepth
    requires ItemOutcomes(c, items, n, depth, stack).Refused? && ItemOutcomes(c, items, n, depth, stack) != Refused(Deep)
    ensures depth <= d && s in TextsOf(items, n)
    ensures Outcomes(c, Text(s), d, stack) == Refused(ItemOutcomes(c, items, n, depth, stack).refusal)
    decreases c.maxDepth + 1 - depth, 1, n
  {
    hide Outcomes, Texts;
    if ItemOutcomes(c, items, n - 1, depth, stack).Refused? {
      s, d := SomeItemRefused(c, items, n - 1, depth, stack);
    } else {
      s, d := SomeTextRefused(c, items[n - 1], depth + 1, stack);
    }
  }

  /** A reported secret was reported by some text. */
  lemma {:induction false} SomeTextLeaks(c: Setting, value: Json, depth: nat, stack: set<Target>, p: string) returns (s: string, d: nat)
    requires Outcomes(c, value, depth, stack).Resolved? && p in Outcomes(c, value, depth, stack).secrets
    ensures depth <= d && s in Texts(value)
    ensures Outcomes(c, Text(s), d, stack).Resolved? && p in Outcomes(c, Text(s), d, stack).secrets
    decreases c.maxDepth + 1 - depth, 2
  {
    hide ItemOutcomes, TextsOf, ResourceOutcome, ParseReference, ReadVariable;
    if value.Text? {
      s, d := value.text, depth;
    } else {
      s, d := SomeItemLeaks(c, value.items, |value.items|, depth, stack, p);
    }
  }

  lemma {:induction false} SomeItemLeaks(c: Setting, items: seq<Json>, n: nat, depth: nat, stack: set<Target>, p: string) returns (s: string, d: nat)
    requires n <= |items| && depth <= c.maxDepth && ItemOutcomes(c, items, n, depth, stack).Resolved?
    requires p in ItemOutcomes(c, items, n, depth, stack).secrets
    ensures depth <= d && s in TextsOf(items, n)
    ensures Outcomes(c, Text(s), d, stack).Resolved? && p in Outcomes(c, Text(s), d, stack).secrets
    decreases c.maxDepth + 1 - depth, 1, n
  {
    hide Outcomes, Texts;
    if p in ItemOutcomes(c, items, n - 1, depth, stack).secrets {
      s, d := SomeItemLeaks(c, items, n - 1, depth, stack, p);
    } else {
      s, d := SomeTextLeaks(c, items[n - 1], depth + 1, stack, p);
    }
  }

  // ----- From a text to its reference

  ghost predicate Names(text: string, kind: Kind, t: Target) {
    var parsed := ParseReference(text);
    parsed.Refers? && parsed.reference.kind == kind && parsed.reference.target == t
  }

  lemma NamedByText(texts: set<string>, kind: Kind, t: Target) returns (s: string)
    requires t in Named(texts, kind)
    ensures s in texts && Names(s, kind, t)
  {
    hide ParseReference;
    s :| s in texts && (RefersTo(s, kind, false) || RefersTo(s, kind, true)) && ParseReference(s).reference.target == t;
  }

  lemma TextNames(texts: set<string>, s: string, kind: Kind, t: Target)
    requires s in texts && Names(s, kind, t)
    ensures t in Named(texts, kind)
  {
    hide ParseReference;
    assert RefersTo(s, kind, ParseReference(s).reference.explicit);
  }

  /** What a resolved reference to a variable was. */
  lemma VariableResolved(c: Setting, s: string, t: Target, d: nat, stack: set<Target>)
    requires Names(s, Variable, t) && Outcomes(c, Text(s), d, stack).Resolved?
    ensures t in c.variables && c.store.variable(t).VariableFound?
    ensures Outcomes(c, Text(s), d, stack).secrets == Secret(c.store.variable(t).value, c.store.variable(t).secret)
  {
    ParsedIsNormal(s);
    ReadOfNormal(c, t);
    hide ParseReference, NormalPath, ReadVariable;
  }

  /** What a resolved reference to a resource was. */
  lemma ResourceResolved(c: Setting, s: string, t: Target, d: nat, stack: set<Target>)
    requires Names(s, Resource, t) && Outcomes(c, Text(s), d, stack).Resolved?
    ensures d < c.maxDepth && t in c.resources && t !in stack && c.store.resource(t).Document?
    ensures Outcomes(c, Text(s), d, stack) == Outcomes(c, c.store.resource(t).value, d + 1, stack + {t})
  {
    hide ParseReference, ReadVariable, ItemOutcomes;
  }

  lemma NoBadText(c: Setting, s: string, d: nat, stack: set<Target>)
    requires Outcomes(c, Text(s), d, stack).Resolved?
    ensures !ParseReference(s).BadPath?
  {
    hide ParseReference, ReadVariable, ItemOutcomes, ResourceOutcome;
  }

  // ----- Success

  ghost predicate Good(c: Setting, kind: Kind, t: Target) {
    && Pinned(c, kind, t)
    && (kind == Variable ==> c.store.variable(t).VariableFound?)
    && (kind == Resource ==> c.store.resource(t).Document? && AllParse(Texts(c.store.resource(t).value)) && !Circles(c.store, t))
  }

  /** Everything reached is pinned, present and well spelled, and no reached resource reaches itself. */
  ghost predicate Resolvable(c: Setting, texts: set<string>) {
    && AllParse(texts)
    && forall kind, t, fuel: nat :: Reaches(c.store, texts, kind, t, fuel) ==> Good(c, kind, t)
  }

  /** What a successful walk reaches is pinned, present, and not being resolved already. */
  lemma {:induction false} ReachedIsUsable(c: Setting, value: Json, depth: nat, stack: set<Target>, kind: Kind, t: Target, fuel: nat)
    requires Outcomes(c, value, depth, stack).Resolved? && Reaches(c.store, Texts(value), kind, t, fuel)
    ensures Pinned(c, kind, t)
    ensures kind == Variable ==> c.store.variable(t).VariableFound?
    ensures kind == Variable ==>
              Secret(c.store.variable(t).value, c.store.variable(t).secret) <= Outcomes(c, value, depth, stack).secrets
    ensures kind == Resource ==> t !in stack && c.store.resource(t).Document?
    decreases fuel
  {
    hide Outcomes, Names, Secret, Reaches, Named;
    if t in Named(Texts(value), kind) {
      var s := NamedByText(Texts(value), kind, t);
      var d := EveryTextResolved(c, value, depth, stack, s);
      if kind == Variable {
        VariableResolved(c, s, t, d, stack);
      } else {
        ResourceResolved(c, s, t, d, stack);
      }
    } else {
      var r := ReachesVia(c.store, Texts(value), kind, t, fuel);
      var s := NamedByText(Texts(value), Resource, r);
      var d := EveryTextResolved(c, value, depth, stack, s);
      ResourceResolved(c, s, r, d, stack);
      ReachedIsUsable(c, c.store.resource(r).value, d + 1, stack + {r}, kind, t, fuel - 1);
    }
  }

  /** The document of a reached resource was itself resolved, with that resource on the stack. */
  lemma {:induction false} ReachedIsResolved(c: Setting, value: Json, depth: nat, stack: set<Target>, t: Target, fuel: nat)
    returns (d: nat, above: set<Target>)
    requires Outcomes(c, value, depth, stack).Resolved? && Reaches(c.store, Texts(value), Resource, t, fuel)
    ensures c.store.resource(t).Document? && t in above
    ensures Outcomes(c, c.store.resource(t).value, d, above).Resolved?
    decreases fuel
  {
    hide Outcomes, Names, Reaches, Named;
    if t in Named(Texts(value), Resource) {
      var s := NamedByText(Texts(value), Resource, t);
      d := EveryTextResolved(c, value, depth, stack, s);
      ResourceResolved(c, s, t, d, stack);
      d, above := d + 1, stack + {t};
    } else {
      var r := ReachesVia(c.store, Texts(value), Resource, t, fuel);
      var s := NamedByText(Texts(value), Resource, r);
      d := EveryTextResolved(c, value, depth, stack, s);
      ResourceResolved(c, s, r, d, stack);
      d, above := ReachedIsResolved(c, c.store.resource(r).value, d + 1, stack + {r}, t, fuel - 1);
    }
  }

  lemma ResolvedParses(c: Setting, value: Json, depth: nat, stack: set<Target>)
    requires Outcomes(c, value, depth, stack).Resolved?
    ensures AllParse(Texts(value))
  {
    hide Outcomes, ParseReference;
    forall s | s in Texts(value)
      ensures !ParseReference(s).BadPath?
    {
      var d := EveryTextResolved(c, value, depth, stack, s);
      NoBadText(c, s, d, stack);
    }
  }

  lemma ReachedIsGood(c: Setting, value: Json, depth: nat, stack: set<Target>, kind: Kind, t: Target, fuel: nat)
    requires Outcomes(c, value, depth, stack).Resolved? && Reaches(c.store, Texts(value), kind, t, fuel)
    ensures Good(c, kind, t)
  {
    hide Outcomes, Reaches, AllParse, Secret;
    ReachedIsUsable(c, value, depth, stack, kind, t, fuel);
    if kind == Resource {
      var d, above := ReachedIsResolved(c, value, depth, stack, t, fuel);
      ResolvedParses(c, c.store.resource(t).value, d, above);
      if Circles(c.store, t) {
        var k: nat :| Through(c.store, t, Resource, t, k);
        ReachedIsUsable(c, c.store.resource(t).value, d, above, Resource, t, k);
        assert false;
      }
    }
  }

  // ----- Refusal

  /** The target to blame for a refusal. */
  ghost predicate Guilty(c: Setting, stack: set<Target>, kind: Kind, t: Target, refusal: Refusal) {
    match refusal
    case Forbidden => !Pinned(c, kind, t)
    case Circular => kind == Resource && t in c.resources && (t in stack || Circles(c.store, t))
    case Absent => if kind == Variable then c.store.variable(t).VariableMissing? else c.store.resource(t).ResourceMissing?
    case Faulty => if kind == Variable then c.store.variable(t).VariableFault? else c.store.resource(t).ResourceFault?
    case Sealed => kind == Variable && c.store.variable(t).SecretSealed?
    case Malformed => kind == Resource && c.store.resource(t).Garbled?
    case BadSpelling => kind == Resource && c.store.resource(t).Document? && !AllParse(Texts(c.store.resource(t).value))
    case Deep => false
    case TooLarge => false
  }

  ghost predicate Blamed(c: Setting, stack: set<Target>, texts: set<string>, kind: Kind, t: Target, fuel: nat, refusal: Refusal) {
    Reaches(c.store, texts, kind, t, fuel) && Guilty(c, stack, kind, t, refusal)
  }

  /** Every refusal but the depth limit is caused by something reached. */
  ghost predicate Caused(c: Setting, stack: set<Target>, texts: set<string>, refusal: Refusal) {
    || refusal == Deep // see DeepIsDeeper
    || (refusal == BadSpelling && !AllParse(texts))
    || exists kind, t, fuel: nat :: Blamed(c, stack, texts, kind, t, fuel, refusal)
  }

  lemma {:induction false} RefusalIsCaused(c: Setting, value: Json, depth: nat, stack: set<Target>)
    requires Outcomes(c, value, depth, stack).Refused?
    ensures Caused(c, stack, Texts(value), Outcomes(c, value, depth, stack).refusal)
    decreases c.maxDepth + 1 - depth
  {
    hide Outcomes, ParseReference, Guilty, AllParse, Reaches, Names;
    var refusal := Outcomes(c, value, depth, stack).refusal;
    if refusal != Deep {
      var s, d := SomeTextRefused(c, value, depth, stack);
      if ParseReference(s).BadPath? {
        BadTextRefused(c, s, d, stack);
        BadTextIsBad(Texts(value), s);
      } else {
        TextIsReference(c, s, d, stack);
        var r := ParseReference(s).reference;
        assert Names(s, r.kind, r.target) by { NamesItself(s); }
        TextNames(Texts(value), s, r.kind, r.target);
        if r.kind == Resource && Enters(c, r.target, d, stack) {
          EnteredOutcome(c, s, r.target, d, stack);
          RefusalIsCaused(c, c.store.resource(r.target).value, d + 1, stack + {r.target});
          CauseLifts(c, stack, Texts(value), r.target, refusal);
        } else {
          RefusedAtOnce(c, s, r.kind, r.target, d, stack);
          ReachesNamed(c.store, Texts(value), r.kind, r.target, 0);
          assert Blamed(c, stack, Texts(value), r.kind, r.target, 0, refusal);
        }
      }
    }
  }

  /** The walk goes on into this resource. */
  ghost predicate Enters(c: Setting, t: Target, d: nat, stack: set<Target>) {
    d < c.maxDepth && t in c.resources && t !in stack && c.store.resource(t).Document?
  }

  lemma BadTextRefused(c: Setting, s: string, d: nat, stack: set<Target>)
    requires ParseReference(s).BadPath? && Outcomes(c, Text(s), d, stack) != Refused(Deep)
    ensures Outcomes(c, Text(s), d, stack) == Refused(BadSpelling)
  {
    hide ParseReference;
  }

  lemma BadTextIsBad(texts: set<string>, s: string)
    requires s in texts && ParseReference(s).BadPath?
    ensures !AllParse(texts)
  {
    hide ParseReference;
  }

  lemma TextIsReference(c: Setting, s: string, d: nat, stack: set<Target>)
    requires Outcomes(c, Text(s), d, stack).Refused? && Outcomes(c, Text(s), d, stack) != Refused(Deep)
    requires !ParseReference(s).BadPath?
    ensures ParseReference(s).Refers?
  {
    hide ParseReference;
  }

  lemma NamesItself(s: string)
    requires ParseReference(s).Refers?
    ensures var r := ParseReference(s).reference; Names(s, r.kind, r.target)
  {
    hide ParseReference;
  }

  lemma EnteredOutcome(c: Setting, s: string, t: Target, d: nat, stack: set<Target>)
    requires Names(s, Resource, t) && Enters(c, t, d, stack)
    ensures Outcomes(c, Text(s), d, stack) == Outcomes(c, c.store.resource(t).value, d + 1, stack + {t})
  {
    hide ParseReference, ReadVariable, ItemOutcomes;
  }

  lemma RefusedAtOnce(c: Setting, s: string, kind: Kind, t: Target, d: nat, stack: set<Target>)
    requires Names(s, kind, t) && (kind == Resource ==> !Enters(c, t, d, stack))
    requires Outcomes(c, Text(s), d, stack).Refused? && Outcomes(c, Text(s), d, stack) != Refused(Deep)
    ensures Guilty(c, stack, kind, t, Outcomes(c, Text(s), d, stack).refusal)
  {
    hide Names, Outcomes, Guilty, Enters;
    if kind == Variable {
      VariableRefused(c, s, t, d, stack);
    } else {
      ResourceRefused(c, s, t, d, stack);
    }
  }

  lemma VariableRefused(c: Setting, s: string, t: Target, d: nat, stack: set<Target>)
    requires Names(s, Variable, t)
    requires Outcomes(c, Text(s), d, stack).Refused? && Outcomes(c, Text(s), d, stack) != Refused(Deep)
    ensures Guilty(c, stack, Variable, t, Outcomes(c, Text(s), d, stack).refusal)
  {
    ParsedIsNormal(s);
    RefusedReading(c, t);
    hide ParseReference, NormalPath, ReadVariable;
    if t in c.variables {
      hide Guilty;
    }
  }

  lemma ResourceRefused(c: Setting, s: string, t: Target, d: nat, stack: set<Target>)
    requires Names(s, Resource, t) && !Enters(c, t, d, stack)
    requires Outcomes(c, Text(s), d, stack).Refused? && Outcomes(c, Text(s), d, stack) != Refused(Deep)
    ensures Guilty(c, stack, Resource, t, Outcomes(c, Text(s), d, stack).refusal)
  {
    hide ParseReference, AllParse, Circles;
    if t in c.resources {
      EntryRefused(c, t, d + 1, stack);
      hide ResourceOutcome, Guilty;
    }
  }

  lemma EntryRefused(c: Setting, t: Target, depth: nat, stack: set<Target>)
    requires t in c.resources && (depth > c.maxDepth || t in stack || !c.store.resource(t).Document?)
    requires ResourceOutcome(c, t, depth, stack) != Refused(Deep)
    ensures ResourceOutcome(c, t, depth, stack).Refused?
    ensures Guilty(c, stack, Resource, t, ResourceOutcome(c, t, depth, stack).refusal)
  {
    hide Outcomes, AllParse, Circles;
  }

  lemma RefusedReading(c: Setting, t: Target)
    requires NormalPath(t.path)
    ensures var reading := ReadVariable(c.store, c.variables, t.scope, t.path);
            reading.NotRead? ==> reading.refusal != Deep && forall stack :: Guilty(c, stack, Variable, t, reading.refusal)
  {
    hide NormalizePath;
    assert t == Target(t.scope, t.path);
  }

  lemma ReachesNamed(store: Store, texts: set<string>, kind: Kind, t: Target, fuel: nat)
    requires t in Named(texts, kind)
    ensures Reaches(store, texts, kind, t, fuel)
  {
  }

  lemma ReachesThrough(store: Store, texts: set<string>, r: Target, kind: Kind, t: Target, fuel: nat)
    requires r in Named(texts, Resource) && store.resource(r).Document?
    requires Reaches(store, Texts(store.resource(r).value), kind, t, fuel)
    ensures Reaches(store, texts, kind, t, fuel + 1)
  {
    assert Through(store, r, kind, t, fuel);
  }

  /** A cause inside the document of a named resource is a cause outside. */
  lemma CauseLifts(c: Setting, stack: set<Target>, texts: set<string>, r: Target, refusal: Refusal)
    requires r in Named(texts, Resource) && c.store.resource(r).Document?
    requires Caused(c, stack + {r}, Texts(c.store.resource(r).value), refusal)
    ensures Caused(c, stack, texts, refusal)
  {
    hide Reaches, AllParse, Named;
    if refusal == Deep {
    } else if refusal == BadSpelling && !AllParse(Texts(c.store.resource(r).value)) {
      ReachesNamed(c.store, texts, Resource, r, 0);
      assert Blamed(c, stack, texts, Resource, r, 0, refusal);
    } else {
      var kind, t, fuel: nat :| Blamed(c, stack + {r}, Texts(c.store.resource(r).value), kind, t, fuel, refusal);
      ReachesThrough(c.store, texts, r, kind, t, fuel);
      if refusal == Circular && t == r {
        assert Through(c.store, r, Resource, r, fuel);
      }
      assert Blamed(c, stack, texts, kind, t, fuel + 1, refusal);
    }
  }

  // ----- Depth

  /** A chain of n steps leads down from the document: into an item of a container, or through a reference to a resource. */
  ghost predicate Deeper(store: Store, value: Json, n: nat)
    decreases n, 0
  {
    if n == 0 then true
    else
      match value
      case Scalar(_) => false
      case Text(text) => exists t :: Names(text, Resource, t) && (n == 1 || DeeperThrough(store, t, n - 1))
      case Array(items) => exists i :: 0 <= i < |items| && Deeper(store, items[i], n - 1)
      case Object(_, items) => exists i :: 0 <= i < |items| && Deeper(store, items[i], n - 1)
  }

  ghost predicate DeeperThrough(store: Store, t: Target, n: nat)
    decreases n, 1
  {
    store.resource(t).Document? && Deeper(store, store.resource(t).value, n)
  }

  /** Resolution calls a document too deep only if a chain goes beyond the limit. */
  lemma {:induction false} DeepIsDeeper(c: Setting, value: Json, depth: nat, stack: set<Target>)
    requires depth <= c.maxDepth + 1 && Outcomes(c, value, depth, stack) == Refused(Deep)
    ensures Deeper(c.store, value, c.maxDepth + 1 - depth)
    decreases c.maxDepth + 1 - depth, 2
  {
    hide ItemOutcomes, ResourceOutcome, ParseReference, ReadVariable;
    if depth <= c.maxDepth {
      match value
      case Text(text) =>
        DeepReference(c, text, depth, stack);
      case Array(items) =>
        var i := DeepItem(c, items, |items|, depth, stack);
      case Object(_, items) =>
        var i := DeepItem(c, items, |items|, depth, stack);
    }
  }

  lemma {:induction false} DeepItem(c: Setting, items: seq<Json>, n: nat, depth: nat, stack: set<Target>) returns (i: nat)
    requires n <= |items| && depth <= c.maxDepth && ItemOutcomes(c, items, n, depth, stack) == Refused(Deep)
    ensures i < n && Deeper(c.store, items[i], c.maxDepth - depth)
    decreases c.maxDepth + 1 - depth, 1, n
  {
    hide Outcomes, Deeper;
    if ItemOutcomes(c, items, n - 1, depth, stack).Refused? {
      i := DeepItem(c, items, n - 1, depth, stack);
    } else {
      i := n - 1;
      DeepIsDeeper(c, items[i], depth + 1, stack);
    }
  }

  lemma {:induction false} DeepReference(c: Setting, text: string, depth: nat, stack: set<Target>)
    requires depth <= c.maxDepth && Outcomes(c, Text(text), depth, stack) == Refused(Deep)
    ensures Deeper(c.store, Text(text), c.maxDepth + 1 - depth)
    decreases c.maxDepth + 1 - depth, 1
  {
    hide ParseReference, ReadVariable, ItemOutcomes, Guilty;
    var t := DeepNames(c, text, depth, stack);
    if depth < c.maxDepth {
      assert c.store.resource(t).Document? && Outcomes(c, c.store.resource(t).value, depth + 1, stack + {t}) == Refused(Deep);
      hide Outcomes, ResourceOutcome;
      DeepIsDeeper(c, c.store.resource(t).value, depth + 1, stack + {t});
      assert DeeperThrough(c.store, t, c.maxDepth - depth);
    }
  }

  lemma DeepNames(c: Setting, text: string, depth: nat, stack: set<Target>) returns (t: Target)
    requires depth <= c.maxDepth && Outcomes(c, Text(text), depth, stack) == Refused(Deep)
    ensures Names(text, Resource, t) && ResourceOutcome(c, t, depth + 1, stack) == Refused(Deep)
  {
    var r := ParseReference(text).reference;
    t := r.target;
    if r.kind == Variable {
      ParsedIsNormal(text);
      RefusedReading(c, t);
    }
    hide ParseReference, ReadVariable, ResourceOutcome, NormalPath, Guilty;
  }

  /** A document that resolves has no such chain. */
  lemma {:induction false} ResolvedIsShallow(c: Setting, value: Json, depth: nat, stack: set<Target>)
    requires Outcomes(c, value, depth, stack).Resolved?
    ensures depth <= c.maxDepth && !Deeper(c.store, value, c.maxDepth + 1 - depth)
    decreases c.maxDepth + 1 - depth, 2
  {
    hide ItemOutcomes, ResourceOutcome, ParseReference, ReadVariable;
    match value
    case Scalar(_) =>
    case Text(text) =>
      forall t | Names(text, Resource, t)
        ensures depth < c.maxDepth && !DeeperThrough(c.store, t, c.maxDepth - depth)
      {
        ResourceResolved(c, text, t, depth, stack);
        ResolvedIsShallow(c, c.store.resource(t).value, depth + 1, stack + {t});
      }
    case Array(items) =>
      ItemsAreShallow(c, items, |items|, depth, stack);
    case Object(_, items) =>
      ItemsAreShallow(c, items, |items|, depth, stack);
  }

  lemma {:induction false} ItemsAreShallow(c: Setting, items: seq<Json>, n: nat, depth: nat, stack: set<Target>)
    requires n <= |items| && depth <= c.maxDepth && ItemOutcomes(c, items, n, depth, stack).Resolved?
    ensures forall i | 0 <= i < n :: !Deeper(c.store, items[i], c.maxDepth - depth)
    decreases c.maxDepth + 1 - depth, 1, n
  {
    hide Outcomes, Deeper;
    if n > 0 {
      ItemsAreShallow(c, items, n - 1, depth, stack);
      ResolvedIsShallow(c, items[n - 1], depth + 1, stack);
    }
  }

  /** No chain goes beyond the depth limit. */
  ghost predicate Shallow(c: Setting, value: Json) { !Deeper(c.store, value, c.maxDepth + 1) }

  // ----- The theorems

  /**
   A document resolves exactly when no chain in it is longer than the depth limit, everything it
   reaches is pinned, present and well spelled, and none of the resources it reaches reaches itself.
   */
  lemma ResolvedExactly(c: Setting, value: Json)
    ensures Outcomes(c, value, 0, {}).Resolved? <==> Shallow(c, value) && Resolvable(c, Texts(value))
  {
    hide Outcomes, Reaches, AllParse, Deeper;
    if Outcomes(c, value, 0, {}).Resolved? {
      ResolvedIsShallow(c, value, 0, {});
      ResolvedParses(c, value, 0, {});
      forall kind, t, fuel: nat | Reaches(c.store, Texts(value), kind, t, fuel)
        ensures Good(c, kind, t)
      {
        ReachedIsGood(c, value, 0, {}, kind, t, fuel);
      }
    } else {
      RefusalIsCaused(c, value, 0, {});
      if Outcomes(c, value, 0, {}) == Refused(Deep) {
        DeepIsDeeper(c, value, 0, {});
      }
    }
  }

  /**
   The reported secrets are exactly the non-empty plaintexts of the secret variables reached: each
   one that was substituted is reported, and nothing else is.
   */
  lemma SecretsExactly(c: Setting, value: Json, p: string)
    requires Outcomes(c, value, 0, {}).Resolved?
    ensures p in Outcomes(c, value, 0, {}).secrets <==>
              p != "" && exists t, fuel: nat ::
                Reaches(c.store, Texts(value), Variable, t, fuel) && c.store.variable(t) == VariableFound(p, true)
  {
    hide Outcomes, Reaches;
    if p in Outcomes(c, value, 0, {}).secrets {
      var t, fuel := SecretIsReached(c, value, 0, {}, p);
    }
    if t, fuel: nat :| p != "" && Reaches(c.store, Texts(value), Variable, t, fuel) && c.store.variable(t) == VariableFound(p, true) {
      ReachedIsUsable(c, value, 0, {}, Variable, t, fuel);
    }
  }

  lemma {:induction false} SecretIsReached(c: Setting, value: Json, depth: nat, stack: set<Target>, p: string) returns (t: Target, fuel: nat)
    requires Outcomes(c, value, depth, stack).Resolved? && p in Outcomes(c, value, depth, stack).secrets
    ensures Reaches(c.store, Texts(value), Variable, t, fuel) && c.store.variable(t) == VariableFound(p, true) && p != ""
    decreases c.maxDepth + 1 - depth
  {
    hide Outcomes, ParseReference, Reaches, Names;
    var s, d := SomeTextLeaks(c, value, depth, stack, p);
    LeakIsReference(c, s, d, stack, p);
    NamesItself(s);
    var r := ParseReference(s).reference;
    TextNames(Texts(value), s, r.kind, r.target);
    if r.kind == Variable {
      VariableResolved(c, s, r.target, d, stack);
      t, fuel := r.target, 0;
      ReachesNamed(c.store, Texts(value), Variable, t, 0);
    } else {
      ResourceResolved(c, s, r.target, d, stack);
      t, fuel := SecretIsReached(c, c.store.resource(r.target).value, d + 1, stack + {r.target}, p);
      ReachesThrough(c.store, Texts(value), r.target, Variable, t, fuel);
      fuel := fuel + 1;
    }
  }

  lemma LeakIsReference(c: Setting, s: string, d: nat, stack: set<Target>, p: string)
    requires Outcomes(c, Text(s), d, stack).Resolved? && p in Outcomes(c, Text(s), d, stack).secrets
    ensures ParseReference(s).Refers?
  {
    hide ParseReference, ReadVariable, ItemOutcomes, ResourceOutcome;
  }

  // ----- Non-interference

  ghost predicate Agree(s: Store, u: Store, variables: set<Target>, resources: set<Target>) {
    && (forall t | t in variables :: s.variable(t) == u.variable(t))
    && (forall t | t in resources :: s.resource(t) == u.resource(t))
  }

  /** Two stores that agree on the pinned targets resolve every document to the same outcome. */
  lemma {:induction false} PinnedTargetsDecide(c: Setting, u: Store, value: Json, depth: nat, stack: set<Target>)
    requires Agree(c.store, u, c.variables, c.resources)
    ensures Outcomes(c, value, depth, stack) == Outcomes(c.(store := u), value, depth, stack)
    decreases c.maxDepth + 1 - depth, 2
  {
    hide ItemOutcomes, ResourceOutcome, ParseReference, ReadVariable;
    if depth <= c.maxDepth && value.Text? {
      var parsed := ParseReference(value.text);
      if parsed.Refers? {
        var t := parsed.reference.target;
        ReadingsAgree(c, u, t.scope, t.path);
        if t in c.resources {
          ResourcesAgree(c, u, t, depth + 1, stack);
        }
      }
    } else if depth <= c.maxDepth && !value.Scalar? {
      ItemsAgree(c, u, value.items, |value.items|, depth, stack);
    }
  }

  lemma ReadingsAgree(c: Setting, u: Store, scope: Scope, path: string)
    requires Agree(c.store, u, c.variables, c.resources)
    ensures ReadVariable(c.store, c.variables, scope, path) == ReadVariable(u, c.variables, scope, path)
  {
    hide NormalizePath;
  }

  lemma {:induction false} ItemsAgree(c: Setting, u: Store, items: seq<Json>, n: nat, depth: nat, stack: set<Target>)
    requires Agree(c.store, u, c.variables, c.resources) && n <= |items| && depth <= c.maxDepth
    ensures ItemOutcomes(c, items, n, depth, stack) == ItemOutcomes(c.(store := u), items, n, depth, stack)
    decreases c.maxDepth + 1 - depth, 1, n
  {
    hide Outcomes, Agree;
    if n > 0 {
      ItemsAgree(c, u, items, n - 1, depth, stack);
      PinnedTargetsDecide(c, u, items[n - 1], depth + 1, stack);
    }
  }

  lemma {:induction false} ResourcesAgree(c: Setting, u: Store, t: Target, depth: nat, stack: set<Target>)
    requires Agree(c.store, u, c.variables, c.resources) && t in c.resources
    ensures ResourceOutcome(c, t, depth, stack) == ResourceOutcome(c.(store := u), t, depth, stack)
    decreases c.maxDepth + 1 - depth, 3
  {
    hide Outcomes;
    if depth <= c.maxDepth && c.store.resource(t).Document? {
      PinnedTargetsDecide(c, u, c.store.resource(t).value, depth, stack + {t});
    }
  }

  // ----- Resolution after admission

  ghost predicate Covered(c: Setting, texts: set<string>) {
    AllParse(texts) && Named(texts, Variable) <= c.variables && Named(texts, Resource) <= c.resources
  }

  /** Every pinned workspace resource is covered by the list itself. */
  ghost predicate Closure(c: Setting) {
    forall r | r in c.resources && Expandable(c.store, r) :: Covered(c, Texts(c.store.resource(r).value))
  }

  ghost predicate AppDocument(store: Store, r: Target) { r.scope == App && store.resource(r).Document? }

  /** A pinned app resource that the texts reach: the only documents that admission does not look into. */
  ghost predicate ReachedApp(c: Setting, texts: set<string>, r: Target, fuel: nat) {
    r in c.resources && AppDocument(c.store, r) && Reaches(c.store, texts, Resource, r, fuel)
  }

  ghost predicate AppsCovered(c: Setting, texts: set<string>) {
    forall r, fuel: nat :: ReachedApp(c, texts, r, fuel) ==> Covered(c, Texts(c.store.resource(r).value))
  }

  ghost predicate AppsCircle(c: Setting, texts: set<string>) {
    exists r, fuel: nat :: ReachedApp(c, texts, r, fuel) && Circles(c.store, r)
  }

  ghost predicate PinnedAndSpelled(c: Setting, kind: Kind, t: Target) {
    Pinned(c, kind, t) && (kind == Resource && c.store.resource(t).Document? ==> AllParse(Texts(c.store.resource(t).value)))
  }

  /** Everything reached is pinned and well spelled. */
  ghost predicate AllPinned(c: Setting, texts: set<string>) {
    && AllParse(texts)
    && forall kind, t, fuel: nat :: Reaches(c.store, texts, kind, t, fuel) ==> PinnedAndSpelled(c, kind, t)
  }

  ghost predicate Present(c: Setting, kind: Kind, t: Target) {
    if kind == Variable then c.store.variable(t).VariableFound? else c.store.resource(t).Document?
  }

  ghost predicate AllPresent(c: Setting, texts: set<string>) {
    forall kind, t, fuel: nat :: Reaches(c.store, texts, kind, t, fuel) ==> Present(c, kind, t)
  }

  lemma NamedIsNotActor(texts: set<string>, kind: Kind, t: Target)
    requires t in Named(texts, kind)
    ensures t.scope != Actor
  {
    hide Named, NormalPath, ParseReference;
    var s := NamedByText(texts, kind, t);
    ParsedIsWritable(s);
  }

  lemma {:induction false} ReachedIsNotActor(store: Store, texts: set<string>, kind: Kind, t: Target, fuel: nat)
    requires Reaches(store, texts, kind, t, fuel)
    ensures t.scope != Actor
    decreases fuel
  {
    hide Reaches, Named;
    if t in Named(texts, kind) {
      NamedIsNotActor(texts, kind, t);
    } else {
      var r := ReachesVia(store, texts, kind, t, fuel);
      ReachedIsNotActor(store, Texts(store.resource(r).value), kind, t, fuel - 1);
    }
  }

  /** What a reached resource reaches is reached. */
  lemma {:induction false} ReachesOn(store: Store, texts: set<string>, r: Target, m: nat, kind: Kind, t: Target, n: nat) returns (fuel: nat)
    requires Reaches(store, texts, Resource, r, m) && Through(store, r, kind, t, n)
    ensures Reaches(store, texts, kind, t, fuel)
    decreases m
  {
    hide Reaches, Named;
    if r in Named(texts, Resource) {
      ReachesThrough(store, texts, r, kind, t, n);
      fuel := n + 1;
    } else {
      var s := ReachesVia(store, texts, Resource, r, m);
      fuel := ReachesOn(store, Texts(store.resource(s).value), r, m - 1, kind, t, n);
      ReachesThrough(store, texts, s, kind, t, fuel);
      fuel := fuel + 1;
    }
  }

  lemma AppsBelowAreCovered(c: Setting, texts: set<string>, r: Target)
    requires AppsCovered(c, texts) && r in Named(texts, Resource) && c.store.resource(r).Document?
    ensures AppsCovered(c, Texts(c.store.resource(r).value))
  {
    hide Reaches, Named, Covered;
    forall s, fuel: nat | ReachedApp(c, Texts(c.store.resource(r).value), s, fuel)
      ensures Covered(c, Texts(c.store.resource(s).value))
    {
      ReachesThrough(c.store, texts, r, Resource, s, fuel);
      assert ReachedApp(c, texts, s, fuel + 1);
    }
  }

  /** A pinned document that is named is covered: by the list if it is a workspace one, else by assumption. */
  lemma NamedIsCovered(c: Setting, texts: set<string>, r: Target)
    requires Closure(c) && AppsCovered(c, texts) && r in Named(texts, Resource) && r in c.resources && c.store.resource(r).Document?
    ensures Covered(c, Texts(c.store.resource(r).value))
  {
    hide Reaches, Named, Covered;
    NamedIsNotActor(texts, Resource, r);
    if r.scope == App {
      ReachesNamed(c.store, texts, Resource, r, 0);
      assert ReachedApp(c, texts, r, 0);
    }
  }

  lemma {:induction false} ReachedIsPinned(c: Setting, texts: set<string>, kind: Kind, t: Target, fuel: nat)
    requires Closure(c) && Covered(c, texts) && AppsCovered(c, texts) && Reaches(c.store, texts, kind, t, fuel)
    ensures PinnedAndSpelled(c, kind, t)
    decreases fuel
  {
    hide Reaches, AllParse, Named, AppsCovered, Closure;
    if t in Named(texts, kind) {
      if kind == Resource && c.store.resource(t).Document? {
        NamedIsCovered(c, texts, t);
      }
    } else {
      var r := ReachesVia(c.store, texts, kind, t, fuel);
      NamedIsCovered(c, texts, r);
      AppsBelowAreCovered(c, texts, r);
      ReachedIsPinned(c, Texts(c.store.resource(r).value), kind, t, fuel - 1);
    }
  }

  /** Conversely a reached document that names an unpinned target makes that target reached. */
  lemma PinnedIsCovered(c: Setting, texts: set<string>, r: Target, fuel: nat)
    requires AllPinned(c, texts) && Reaches(c.store, texts, Resource, r, fuel) && c.store.resource(r).Document?
    ensures Covered(c, Texts(c.store.resource(r).value))
  {
    hide Reaches, AllParse, Named;
    var inner := Texts(c.store.resource(r).value);
    forall kind, t | t in Named(inner, kind)
      ensures Pinned(c, kind, t)
    {
      ReachesNamed(c.store, inner, kind, t, 0);
      assert Through(c.store, r, kind, t, 0);
      var k := ReachesOn(c.store, texts, r, fuel, kind, t, 0);
    }
    assert PinnedAndSpelled(c, Resource, r);
  }

  lemma AdmittedIsClosed(store: Store, declared: Access, input: Json, access: Access, maxDepth: int)
    requires Admitted(store, declared, input, access)
    ensures var c := SettingOf(store, maxDepth, access); Closure(c) && Covered(c, Texts(input))
  {
    hide AllParse, Spelled, Acyclic, VariablesExist, NormalAccess, Size, Allowed;
    var c := SettingOf(store, maxDepth, access);
    forall r | r in c.resources && Expandable(store, r)
      ensures Covered(c, Texts(store.resource(r).value))
    {
      assert ClosedAt(store, c.variables, c.resources, r);
    }
  }

  /**
   On the store that admission saw, everything an admitted input reaches is pinned and well spelled
   exactly when the app resources it reaches refer to pinned targets only.
   */
  lemma AdmittedIsPinnedExactly(store: Store, declared: Access, input: Json, access: Access, maxDepth: int)
    requires Admitted(store, declared, input, access)
    ensures var c := SettingOf(store, maxDepth, access); AllPinned(c, Texts(input)) <==> AppsCovered(c, Texts(input))
  {
    hide Admitted, SettingOf, Covered, Closure, Reaches, AllParse;
    var c, texts := SettingOf(store, maxDepth, access), Texts(input);
    AdmittedIsClosed(store, declared, input, access, maxDepth);
    if AppsCovered(c, texts) {
      CoveredParses(c, texts);
      forall kind, t, fuel: nat | Reaches(c.store, texts, kind, t, fuel)
        ensures PinnedAndSpelled(c, kind, t)
      {
        ReachedIsPinned(c, texts, kind, t, fuel);
      }
    }
    if AllPinned(c, texts) {
      forall r, fuel: nat | ReachedApp(c, texts, r, fuel)
        ensures Covered(c, Texts(c.store.resource(r).value))
      {
        PinnedIsCovered(c, texts, r, fuel);
      }
    }
  }

  lemma CoveredParses(c: Setting, texts: set<string>)
    requires Covered(c, texts)
    ensures AllParse(texts)
  {
  }

  /**
   So resolution after admission is forbidden, or meets a malformed reference, only if the input
   reaches a pinned app resource that names an unpinned target or is badly spelled itself.
   */
  lemma AdmittedIsNotForbidden(store: Store, declared: Access, input: Json, access: Access, maxDepth: int)
    requires Admitted(store, declared, input, access)
    ensures var c := SettingOf(store, maxDepth, access);
            var o := Outcomes(c, input, 0, {});
            o == Refused(Forbidden) || o == Refused(BadSpelling) ==>
              exists r, fuel: nat :: ReachedApp(c, Texts(input), r, fuel) && !Covered(c, Texts(store.resource(r).value))
  {
    hide Outcomes, Admitted, Covered, Reaches, AllParse;
    var c := SettingOf(store, maxDepth, access);
    AdmittedIsPinnedExactly(store, declared, input, access, maxDepth);
    if Outcomes(c, input, 0, {}) == Refused(Forbidden) || Outcomes(c, input, 0, {}) == Refused(BadSpelling) {
      RefusalIsCaused(c, input, 0, {});
      assert !AllPinned(c, Texts(input));
    }
  }

  // ----- Cycles after admission

  /** References inside workspace resources only go down in rank. */
  lemma RankFalls(c: Setting, rank: map<Target, nat>, r: Target, n: Target)
    requires Ranked(c.store, rank) && r in rank && Expandable(c.store, r) && n in Named(Texts(c.store.resource(r).value), Resource)
    ensures n in rank && rank[n] < rank[r]
  {
    hide Spelled;
    assert RankedAt(c.store, rank, r);
  }

  /** An app document on the way from one resource to another. */
  ghost predicate Between(c: Setting, r: Target, s: Target, t: Target, m: nat, n: nat) {
    && s in c.resources && AppDocument(c.store, s)
    && (s == r || Through(c.store, r, Resource, s, m)) && Through(c.store, s, Resource, t, n)
  }

  /** A chain of references either goes down in rank or passes through a pinned app document. */
  lemma {:induction false} FallsOrPassesApp(c: Setting, rank: map<Target, nat>, r: Target, t: Target, fuel: nat)
    requires Closure(c) && Ranked(c.store, rank) && c.resources <= rank.Keys
    requires r in c.resources && r.scope != Actor && Through(c.store, r, Resource, t, fuel)
    ensures (r in rank && t in rank && rank[t] < rank[r]) || exists s, m: nat, n: nat :: Between(c, r, s, t, m, n)
    decreases fuel
  {
    hide Reaches, AllParse, Named, Ranked, Closure, Covered;
    var texts := Texts(c.store.resource(r).value);
    if r.scope == App {
      assert Between(c, r, r, t, 0, fuel);
    } else if t in Named(texts, Resource) {
      RankFalls(c, rank, r, t);
    } else {
      var q := ReachesVia(c.store, texts, Resource, t, fuel);
      NamedIsNotActor(texts, Resource, q);
      RankFalls(c, rank, r, q);
      NestedIsPinned(c, r, q);
      FallsOrPassesApp(c, rank, q, t, fuel - 1);
      if s, m: nat, n: nat :| Between(c, q, s, t, m, n) {
        PassesBefore(c, r, q, s, t, m, n);
      }
    }
  }

  lemma NestedIsPinned(c: Setting, r: Target, n: Target)
    requires Closure(c) && r in c.resources && Expandable(c.store, r) && n in Named(Texts(c.store.resource(r).value), Resource)
    ensures n in c.resources
  {
    hide Named, AllParse;
  }

  lemma PassesBefore(c: Setting, r: Target, q: Target, s: Target, t: Target, m: nat, n: nat)
    requires c.store.resource(r).Document? && q in Named(Texts(c.store.resource(r).value), Resource) && Between(c, q, s, t, m, n)
    ensures exists k: nat :: Between(c, r, s, t, k, n)
  {
    hide Reaches, Named;
    var texts := Texts(c.store.resource(r).value);
    if s == q {
      ReachesNamed(c.store, texts, Resource, s, 0);
      assert Between(c, r, s, t, 0, n);
    } else {
      ReachesThrough(c.store, texts, q, Resource, s, m);
      assert Between(c, r, s, t, m + 1, n);
    }
  }

  /** A pinned resource that reaches itself does so through an app document, which then reaches itself as well. */
  lemma CirclePassesApp(c: Setting, rank: map<Target, nat>, texts: set<string>, t: Target, fuel: nat)
    requires Closure(c) && Ranked(c.store, rank) && c.resources <= rank.Keys
    requires t in c.resources && Reaches(c.store, texts, Resource, t, fuel) && Circles(c.store, t)
    ensures AppsCircle(c, texts)
  {
    hide Reaches, Closure, Ranked;
    ReachedIsNotActor(c.store, texts, Resource, t, fuel);
    var k: nat :| Through(c.store, t, Resource, t, k);
    FallsOrPassesApp(c, rank, t, t, k);
    var s, m: nat, n: nat :| Between(c, t, s, t, m, n);
    if s == t {
      assert ReachedApp(c, texts, t, fuel);
    } else {
      var reach := ReachesOn(c.store, texts, t, fuel, Resource, s, m);
      var circle := ReachesOn(c.store, Texts(c.store.resource(s).value), t, n, Resource, s, m);
      assert ReachedApp(c, texts, s, reach);
      assert Through(c.store, s, Resource, s, circle);
    }
  }

  ghost predicate PinnedCircle(c: Setting, texts: set<string>) {
    exists t, fuel: nat :: t in c.resources && Reaches(c.store, texts, Resource, t, fuel) && Circles(c.store, t)
  }

  /** An admitted input reaches a pinned resource that reaches itself exactly when it reaches such an app resource. */
  lemma AdmittedCirclesExactly(store: Store, declared: Access, input: Json, access: Access, maxDepth: int)
    requires Admitted(store, declared, input, access)
    ensures var c := SettingOf(store, maxDepth, access); PinnedCircle(c, Texts(input)) <==> AppsCircle(c, Texts(input))
  {
    hide LeastClosed, WellFormed, VariablesExist, NormalAccess, Size, Ranked, Circles, Reaches, Closure, Covered, Allowed;
    var c, texts := SettingOf(store, maxDepth, access), Texts(input);
    AdmittedIsClosed(store, declared, input, access, maxDepth);
    if t, fuel: nat :| t in c.resources && Reaches(c.store, texts, Resource, t, fuel) && Circles(c.store, t) {
      var rank: map<Target, nat> :| c.resources <= rank.Keys && Ranked(store, rank);
      CirclePassesApp(c, rank, texts, t, fuel);
    }
  }

  /** So resolution after admission meets a cycle only if the input reaches a pinned app resource that reaches itself. */
  lemma AdmittedIsNotCircular(store: Store, declared: Access, input: Json, access: Access, maxDepth: int)
    requires Admitted(store, declared, input, access)
    ensures var c := SettingOf(store, maxDepth, access);
            Outcomes(c, input, 0, {}) == Refused(Circular) ==> AppsCircle(c, Texts(input))
  {
    hide Outcomes, Admitted, Reaches, Circles, AppsCircle;
    var c := SettingOf(store, maxDepth, access);
    AdmittedCirclesExactly(store, declared, input, access, maxDepth);
    if Outcomes(c, input, 0, {}) == Refused(Circular) {
      RefusalIsCaused(c, input, 0, {});
    }
  }

  /**
   After admission only the depth, the app resources and the presence of what is reached are left to
   chance: an admitted input resolves exactly when no chain in it is longer than the limit, everything
   it reaches is present, and the app resources it reaches are covered by the list and do not reach
   themselves.
   */
  lemma AdmittedResolvesExactly(store: Store, declared: Access, input: Json, access: Access, maxDepth: int)
    requires Admitted(store, declared, input, access)
    ensures var c, texts := SettingOf(store, maxDepth, access), Texts(input);
            Outcomes(c, input, 0, {}).Resolved? <==>
              Shallow(c, input) && AllPresent(c, texts) && AppsCovered(c, texts) && !AppsCircle(c, texts)
  {
    hide Outcomes, Admitted, Reaches, Circles, AppsCircle, AppsCovered, AllParse, SettingOf, Shallow;
    var c := SettingOf(store, maxDepth, access);
    ResolvedExactly(c, input);
    AdmittedIsPinnedExactly(store, declared, input, access, maxDepth);
    AdmittedCirclesExactly(store, declared, input, access, maxDepth);
  }

  // ----- Why the app resources matter

  const A := Target(App, "a")
  const TO_A := Reference(Resource, A, true)
  const TO_B := Reference(Variable, Target(App, "b"), true)

  /** A store whose only resource is the app resource "a". */
  function AppStore(content: Json): Store {
    Store((t: Target) => VariableMissing, (t: Target) => if t == A then Document(content) else ResourceMissing)
  }

  const ONLY_A := Access({}, {}, {}, {A}, {}, {})

  lemma OneReference(r: Reference)
    requires Writable(r)
    ensures var texts := {Written(r)};
            && AllParse(texts) && Named(texts, r.kind) == {r.target}
            && Named(texts, if r.kind == Variable then Resource else Variable) == {}
  {
    WrittenParses(r);
    hide ParseReference, Written, Writable;
    assert RefersTo(Written(r), r.kind, r.explicit);
    assert forall kind, explicit :: RefersTo(Written(r), kind, explicit) <==> kind == r.kind && explicit == r.explicit;
  }

  /** Admission accepts the input "$res@app:a" whatever the app resource refers to. */
  lemma AppInputIsAdmitted(content: Json)
    requires Writable(TO_A)
    ensures Admitted(AppStore(content), NOTHING, Text(Written(TO_A)), ONLY_A)
  {
    OneReference(TO_A);
    AllowedOnlyA();
    OnlyAIsNormal();
    hide Written, NormalPath, ParseReference, Allowed, NormalAccess, Spelled;
    var store, input := AppStore(content), Text(Written(TO_A));
    assert Texts(input) == {Written(TO_A)};
    assert Mentions(input, Variable) == {} && Mentions(input, Resource) == {A};
    NothingNestedInA(store);
    OnlyAIsLeast(store);
    NoVariables(store, input);
    hide Nested, Mentions, Texts, LeastClosed, VariablesExist, Acyclic;
    var none: set<Target> := {};
    assert none + {A} == {A} && none + none == none;
  }

  lemma OnlyAIsLeast(store: Store)
    requires Closed(store, {}, {A})
    ensures LeastClosed(store, {}, {A}, {}, {A})
  {
    hide Closed;
  }

  lemma NoVariables(store: Store, input: Json)
    requires Mentions(input, Variable) == {} && Nested(store, A, Variable) == {}
    ensures VariablesExist(store, input, {A})
  {
    hide Mentions, Nested, Texts;
  }

  lemma NothingNestedInA(store: Store)
    ensures Closed(store, {}, {A}) && Acyclic(store, {A})
    ensures Nested(store, A, Resource) == {} && Nested(store, A, Variable) == {}
  {
    var rank: map<Target, nat> := map[A := 0];
    assert |rank| == 1;
    assert RankedAt(store, rank, A);
    assert Ranked(store, rank) && {A} <= rank.Keys;
  }

  lemma OnlyAIsNormal()
    requires NormalPath(A.path)
    ensures NormalAccess(ONLY_A) && Size(ONLY_A) == 1
  {
    hide NormalPath;
    NothingIsNormal();
  }

  lemma UnpinnedIsForbidden(c: Setting, r: Reference, d: nat, stack: set<Target>)
    requires Writable(r) && d <= c.maxDepth && !Pinned(c, r.kind, r.target)
    ensures Outcomes(c, Text(Written(r)), d, stack) == Refused(Forbidden)
  {
    WrittenParses(r);
    hide ParseReference, Written, Writable, ResourceOutcome, ReadVariable;
  }

  lemma StackedIsCircular(c: Setting, r: Reference, d: nat, stack: set<Target>)
    requires Writable(r) && r.kind == Resource && d < c.maxDepth && r.target in c.resources && r.target in stack
    ensures Outcomes(c, Text(Written(r)), d, stack) == Refused(Circular)
  {
    WrittenParses(r);
    hide ParseReference, Written, Writable;
  }

  lemma StepsInto(c: Setting, r: Reference, d: nat, stack: set<Target>)
    requires Writable(r) && r.kind == Resource && Enters(c, r.target, d, stack)
    ensures Outcomes(c, Text(Written(r)), d, stack) == Outcomes(c, c.store.resource(r.target).value, d + 1, stack + {r.target})
  {
    WrittenParses(r);
    hide ParseReference, Written, Writable;
    assert Names(Written(r), Resource, r.target);
    EnteredOutcome(c, Written(r), r.target, d, stack);
    hide Outcomes;
  }

  lemma BothAreWritable()
    ensures Writable(TO_A) && Writable(TO_B)
  {
    LetterIsPath('a');
    LetterIsPath('b');
    assert "a" == ['a'] && "b" == ['b'];
    hide NormalPath;
  }

  lemma ForbiddenThroughA(store: Store)
    requires Writable(TO_A) && Writable(TO_B) && store == AppStore(Text(Written(TO_B)))
    ensures Outcomes(SettingOf(store, 0, ONLY_A), Text(Written(TO_A)), 0, {}) == Refused(Forbidden)
  {
    hide Writable, Written, Outcomes, Allowed;
    var c := SettingOf(store, 0, ONLY_A);
    AllowedOnlyA();
    UnpinnedIsForbidden(c, TO_B, 1, {} + {A});
    StepsInto(c, TO_A, 0, {});
  }

  lemma CircularThroughA(store: Store)
    requires Writable(TO_A) && store == AppStore(Text(Written(TO_A)))
    ensures Outcomes(SettingOf(store, 0, ONLY_A), Text(Written(TO_A)), 0, {}) == Refused(Circular)
  {
    hide Writable, Written, Outcomes, Allowed;
    var c := SettingOf(store, 0, ONLY_A);
    AllowedOnlyA();
    StackedIsCircular(c, TO_A, 1, {} + {A});
    StepsInto(c, TO_A, 0, {});
  }

  ghost predicate AdmittedThenRefused(store: Store, input: Json, access: Access, refusal: Refusal) {
    && NormalizeAccess(NOTHING) == Some(NOTHING) && Admitted(store, NOTHING, input, access)
    && Outcomes(SettingOf(store, 0, access), input, 0, {}) == Refused(refusal)
  }

  /** An app resource that refers to an unpinned variable makes an admitted input forbidden. */
  lemma AppResourceMayForbid()
    ensures exists store, input, access :: AdmittedThenRefused(store, input, access, Forbidden)
  {
    hide Writable, Written, Outcomes, Admitted, SettingOf, NormalizeAccess, AppStore;
    BothAreWritable();
    NothingIsNormal();
    var store := AppStore(Text(Written(TO_B)));
    AppInputIsAdmitted(Text(Written(TO_B)));
    ForbiddenThroughA(store);
    assert AdmittedThenRefused(store, Text(Written(TO_A)), ONLY_A, Forbidden);
  }

  /** An app resource that refers to itself makes an admitted input circular. */
  lemma AppResourceMayCycle()
    ensures exists store, input, access :: AdmittedThenRefused(store, input, access, Circular)
  {
    hide Writable, Written, Outcomes, Admitted, SettingOf, NormalizeAccess, AppStore;
    BothAreWritable();
    NothingIsNormal();
    var store := AppStore(Text(Written(TO_A)));
    AppInputIsAdmitted(Text(Written(TO_A)));
    CircularThroughA(store);
    assert AdmittedThenRefused(store, Text(Written(TO_A)), ONLY_A, Circular);
  }

  lemma AllowedOnlyA()
    ensures Allowed(ONLY_A, Resource) == {A} && Allowed(ONLY_A, Variable) == {}
    ensures Allowed(NOTHING, Resource) == {} && Allowed(NOTHING, Variable) == {}
  {
    assert Legacy({}) == {};
  }
}
