/**
 Execution-time resolution of a document against an access list: the walk with its resource stack
 and secret set, and what its result means.
 */
module RuntimeResolution {
  import opened Options
  import opened RuntimeReferences
  import opened RuntimeClosure

  datatype Refusal =
    | Forbidden | Circular | Deep | Absent | Faulty | Sealed | Malformed | BadSpelling | TooLarge

  /** Results are values together with the secret plaintexts that went into them. */
  datatype Outcome<T> = Resolved(value: T, secrets: set<string>) | Refused(refusal: Refusal)

  datatype Reading = Read(value: string, secret: bool) | NotRead(refusal: Refusal)

  /** What resolution depends on: the store, the two pinned lists and the depth limit. */
  datatype Setting = Setting(store: Store, variables: set<Target>, resources: set<Target>, maxDepth: nat)

  /** ResolveVariableScoped, with its own normalization and permission check. */
  function ReadVariable(store: Store, variables: set<Target>, scope: Scope, path: string): Reading {
    match NormalizePath(path)
    case None => NotRead(BadSpelling)
    case Some(normal) =>
      if Target(scope, normal) !in variables then NotRead(Forbidden)
      else
        match store.variable(Target(scope, normal))
        case VariableFault => NotRead(Faulty)
        case VariableMissing => NotRead(Absent)
        case SecretSealed => NotRead(Sealed)
        case VariableFound(value, secret) => Read(value, secret)
  }

  ghost function Secret(value: string, secret: bool): set<string> { if secret && value != "" then {value} else {} }

  // ----- The walk as a function

  ghost function Outcomes(c: Setting, value: Json, depth: nat, stack: set<Target>): Outcome<Json>
    decreases c.maxDepth + 1 - depth, 2
  {
    if depth > c.maxDepth then Refused(Deep)
    else
      match value
      case Scalar(_) => Resolved(value, {})
      case Text(text) =>
        (match ParseReference(text)
         case BadPath => Refused(BadSpelling)
         case Ordinary => Resolved(value, {})
         case Refers(r) =>
           if r.kind == Variable then
             if r.target !in c.variables then Refused(Forbidden)
             else
               match ReadVariable(c.store, c.variables, r.target.scope, r.target.path)
               case NotRead(refusal) => Refused(refusal)
               case Read(v, secret) => Resolved(Text(v), Secret(v, secret))
           else if r.target !in c.resources then Refused(Forbidden)
           else ResourceOutcome(c, r.target, depth + 1, stack))
      case Array(items) =>
        (match ItemOutcomes(c, items, |items|, depth, stack)
         case Refused(refusal) => Refused(refusal)
         case Resolved(values, secrets) => Resolved(Array(values), secrets))
      case Object(keys, items) =>
        (match ItemOutcomes(c, items, |items|, depth, stack)
         case Refused(refusal) => Refused(refusal)
         case Resolved(values, secrets) => Resolved(Object(keys, values), secrets))
  }

  ghost function ItemOutcomes(c: Setting, items: seq<Json>, n: nat, depth: nat, stack: set<Target>): Outcome<seq<Json>>
    requires n <= |items| && depth <= c.maxDepth
    decreases c.maxDepth + 1 - depth, 1, n
  {
    if n == 0 then Resolved([], {})
    else
      match ItemOutcomes(c, items, n - 1, depth, stack)
      case Refused(refusal) => Refused(refusal)
      case Resolved(values, secrets) =>
        match Outcomes(c, items[n - 1], depth + 1, stack)
        case Refused(refusal) => Refused(refusal)
        case Resolved(v, s) => Resolved(values + [v], secrets + s)
  }

  ghost function ResourceOutcome(c: Setting, target: Target, depth: nat, stack: set<Target>): Outcome<Json>
    decreases c.maxDepth + 1 - depth, 3
  {
    if depth > c.maxDepth then Refused(Deep)
    else if target in stack then Refused(Circular)
    else
      match c.store.resource(target)
      case ResourceFault => Refused(Faulty)
      case ResourceMissing => Refused(Absent)
      case Garbled => Refused(Malformed)
      case Document(value) => Outcomes(c, value, depth, stack + {target})
  }

  /** A refused prefix refuses the whole. */
  lemma {:induction false} ItemsRefused(c: Setting, items: seq<Json>, m: nat, n: nat, depth: nat, stack: set<Target>)
    requires m <= n <= |items| && depth <= c.maxDepth
    requires ItemOutcomes(c, items, m, depth, stack).Refused?
    ensures ItemOutcomes(c, items, n, depth, stack) == ItemOutcomes(c, items, m, depth, stack)
    decreases n
  {
    if m < n {
      ItemsRefused(c, items, m, n - 1, depth, stack);
    }
  }

  // ----- The walk as the program does it

  class Resolution {
    const c: Setting
    var resourceStack: set<Target>
    var secretValueSet: set<string>

    constructor (c: Setting)
      ensures this.c == c && resourceStack == {} && secretValueSet == {}
    {
      this.c := c;
      resourceStack, secretValueSet := {}, {};
    }

    method Resolve(value: Json, depth: nat) returns (r: Outcome<Json>)
      modifies this
      ensures resourceStack == old(resourceStack)
      ensures r.Resolved? ==> secretValueSet == old(secretValueSet) + r.secrets
      ensures r == Outcomes(c, value, depth, old(resourceStack))
      decreases c.maxDepth + 1 - depth, 2
    {
      if depth > c.maxDepth {
        return Refused(Deep);
      }
      match value
      case Scalar(_) =>
        return Resolved(value, {});
      case Text(text) =>
        r := ResolveText(text, depth);
      case Array(items) =>
        var all := ResolveItems(items, depth);
        match all {
          case Refused(refusal) =>
            return Refused(refusal);
          case Resolved(values, secrets) =>
            return Resolved(Array(values), secrets);
        }
      case Object(keys, items) =>
        var all := ResolveItems(items, depth);
        match all {
          case Refused(refusal) =>
            return Refused(refusal);
          case Resolved(values, secrets) =>
            return Resolved(Object(keys, values), secrets);
        }
    }

    method ResolveText(text: string, depth: nat) returns (r: Outcome<Json>)
      requires depth <= c.maxDepth
      modifies this
      ensures resourceStack == old(resourceStack)
      ensures r.Resolved? ==> secretValueSet == old(secretValueSet) + r.secrets
      ensures r == Outcomes(c, Text(text), depth, old(resourceStack))
      decreases c.maxDepth + 1 - depth, 1
    {
      hide ParseReference, ReadVariable;
      var parsed := ParseReference(text);
      match parsed
      case BadPath =>
        return Refused(BadSpelling);
      case Ordinary =>
        return Resolved(Text(text), {});
      case Refers(reference) =>
        var target := reference.target;
        if reference.kind == Variable {
          if target !in c.variables {
            return Refused(Forbidden);
          }
          var reading := ReadVariable(c.store, c.variables, target.scope, target.path);
          if reading.NotRead? {
            return Refused(reading.refusal);
          }
          if reading.secret && reading.value != "" {
            secretValueSet := secretValueSet + {reading.value};
            return Resolved(Text(reading.value), {reading.value});
          }
          return Resolved(Text(reading.value), {});
        }
        if target !in c.resources {
          return Refused(Forbidden);
        }
        r := ResolveResource(target, depth + 1);
    }

    method ResolveItems(items: seq<Json>, depth: nat) returns (r: Outcome<seq<Json>>)
      requires depth <= c.maxDepth
      modifies this
      ensures resourceStack == old(resourceStack)
      ensures r.Resolved? ==> secretValueSet == old(secretValueSet) + r.secrets
      ensures r == ItemOutcomes(c, items, |items|, depth, old(resourceStack))
      decreases c.maxDepth + 1 - depth, 1
    {
      hide Outcomes;
      var typed, secrets := items, {};
      for i := 0 to |items|
        invariant resourceStack == old(resourceStack) && secretValueSet == old(secretValueSet) + secrets
        invariant |typed| == |items| && typed[i..] == items[i..]
        invariant ItemOutcomes(c, items, i, depth, old(resourceStack)) == Resolved(typed[..i], secrets)
      {
        assert typed[i] == typed[i..][0] == items[i];
        var resolved := Resolve(typed[i], depth + 1);
        if resolved.Refused? {
          ItemsRefused(c, items, i + 1, |items|, depth, resourceStack);
          return Refused(resolved.refusal);
        }
        ghost var before := typed;
        typed := typed[i := resolved.value];
        secrets := secrets + resolved.secrets;
        assert typed[..i + 1] == before[..i] + [resolved.value];
        assert typed[i + 1..] == before[i..][1..] == items[i..][1..];
      }
      assert typed[..|items|] == typed;
      return Resolved(typed, secrets);
    }

    method ResolveResource(target: Target, depth: nat) returns (r: Outcome<Json>)
      modifies this
      ensures resourceStack == old(resourceStack)
      ensures r.Resolved? ==> secretValueSet == old(secretValueSet) + r.secrets
      ensures r == ResourceOutcome(c, target, depth, old(resourceStack))
      decreases c.maxDepth + 1 - depth, 3
    {
      hide Outcomes;
      if depth > c.maxDepth {
        return Refused(Deep);
      }
      if target in resourceStack {
        return Refused(Circular);
      }
      match c.store.resource(target)
      case ResourceFault =>
        return Refused(Faulty);
      case ResourceMissing =>
        return Refused(Absent);
      case Garbled =>
        return Refused(Malformed);
      case Document(value) =>
        resourceStack := resourceStack + {target};
        r := Resolve(value, depth);
        resourceStack := resourceStack - {target};
    }
  }

  const DEFAULT_MAX_BYTES := 0x10_0000

  /** The setting in which an input is resolved against a pinned access list. */
  function SettingOf(store: Store, maxDepth: int, access: Access): Setting {
    Setting(store, Allowed(access, Variable), Allowed(access, Resource), Limit(maxDepth, DEFAULT_MAX_DEPTH))
  }

  lemma SettingMeans(store: Store, maxDepth: int, access: Access)
    ensures var c := SettingOf(store, maxDepth, access);
            && c.store == store && c.maxDepth == (if maxDepth > 0 then maxDepth else 16)
            && c.variables == access.variableTargets + Legacy(access.variables) && c.resources == access.resourceTargets + Legacy(access.resources)
  {
  }

  method ResolveInput(store: Store, maxDepth: int, maxBytes: int, encodedSize: Json -> nat, access: Access, input: Option<Json>)
    returns (r: Outcome<Json>)
    ensures input.None? ==> r == Refused(Malformed)
    ensures input.Some? ==>
              var walked := Outcomes(SettingOf(store, maxDepth, access), input.value, 0, {});
              r == if walked.Resolved? && encodedSize(walked.value) > (if maxBytes > 0 then maxBytes else 0x10_0000) then Refused(TooLarge) else walked
  {
    hide Outcomes;
    if input.None? {
      return Refused(Malformed);
    }
    var state := new Resolution(SettingOf(store, maxDepth, access));
    var resolved := state.Resolve(input.value, 0);
    if resolved.Refused? {
      return resolved;
    }
    if encodedSize(resolved.value) > Limit(maxBytes, DEFAULT_MAX_BYTES) {
      return Refused(TooLarge);
    }
    assert state.secretValueSet == resolved.secrets;
    return Resolved(resolved.value, state.secretValueSet);
  }

  // ----- Meaning: substitution

  /** Pure substitution of references through at most `fuel` nested resources; no lists, no limits, no stack. */
  ghost function Substituted(store: Store, value: Json, fuel: nat): Option<Json>
    decreases fuel, value, 1
  {
    match value
    case Scalar(_) => Some(value)
    case Text(text) =>
      (match ParseReference(text)
       case BadPath => None
       case Ordinary => Some(value)
       case Refers(r) =>
         if r.kind == Variable then
           (if store.variable(r.target).VariableFound? then Some(Text(store.variable(r.target).value)) else None)
         else if fuel > 0 && store.resource(r.target).Document? then Substituted(store, store.resource(r.target).value, fuel - 1)
         else None)
    case Array(items) =>
      (match SubstitutedItems(store, items, |items|, fuel) case None => None case Some(values) => Some(Array(values)))
    case Object(keys, items) =>
      (match SubstitutedItems(store, items, |items|, fuel) case None => None case Some(values) => Some(Object(keys, values)))
  }

  ghost function SubstitutedItems(store: Store, items: seq<Json>, n: nat, fuel: nat): Option<seq<Json>>
    requires n <= |items|
    decreases fuel, items, 0, n
  {
    if n == 0 then Some([])
    else
      match (SubstitutedItems(store, items, n - 1, fuel), Substituted(store, items[n - 1], fuel))
      case (Some(values), Some(v)) => Some(values + [v])
      case (_, _) => None
  }

  /** More fuel does not change a finished substitution. */
  lemma {:induction false} MoreFuel(store: Store, value: Json, fuel: nat)
    requires Substituted(store, value, fuel).Some?
    ensures Substituted(store, value, fuel + 1) == Substituted(store, value, fuel)
    decreases fuel, value, 1
  {
    hide ParseReference;
    if value.Text? {
      MoreFuelText(store, value.text, fuel);
    } else if !value.Scalar? {
      hide SubstitutedItems;
      MoreFuelItems(store, value.items, |value.items|, fuel);
    }
  }

  lemma {:induction false} MoreFuelText(store: Store, text: string, fuel: nat)
    requires Substituted(store, Text(text), fuel).Some?
    ensures Substituted(store, Text(text), fuel + 1) == Substituted(store, Text(text), fuel)
    decreases fuel, Text(text), 0
  {
    hide ParseReference, SubstitutedItems;
    var parsed := ParseReference(text);
    if parsed.Refers? && parsed.reference.kind == Resource {
      MoreFuel(store, store.resource(parsed.reference.target).value, fuel - 1);
    }
  }

  lemma {:induction false} MoreFuelItems(store: Store, items: seq<Json>, n: nat, fuel: nat)
    requires n <= |items| && SubstitutedItems(store, items, n, fuel).Some?
    ensures SubstitutedItems(store, items, n, fuel + 1) == SubstitutedItems(store, items, n, fuel)
    decreases fuel, items, 0, n
  {
    hide Substituted;
    if n > 0 {
      MoreFuelItems(store, items, n - 1, fuel);
      MoreFuel(store, items[n - 1], fuel);
    }
  }

  /** Every successful walk is a substitution. */
  lemma {:induction false} ResolvedIsSubstituted(c: Setting, value: Json, depth: nat, stack: set<Target>)
    requires Outcomes(c, value, depth, stack).Resolved?
    ensures Substituted(c.store, value, c.maxDepth + 1 - depth) == Some(Outcomes(c, value, depth, stack).value)
    decreases c.maxDepth + 1 - depth, 2
  {
    hide ItemOutcomes, SubstitutedItems, ResourceOutcome, ParseReference, ReadVariable;
    if value.Text? {
      ResolvedText(c, value.text, depth, stack);
    } else if !value.Scalar? {
      ResolvedItems(c, value.items, |value.items|, depth, stack);
    }
  }

  lemma {:induction false} ResolvedText(c: Setting, text: string, depth: nat, stack: set<Target>)
    requires depth <= c.maxDepth && Outcomes(c, Text(text), depth, stack).Resolved?
    ensures Substituted(c.store, Text(text), c.maxDepth + 1 - depth) == Some(Outcomes(c, Text(text), depth, stack).value)
    decreases c.maxDepth + 1 - depth, 1
  {
    hide ItemOutcomes, SubstitutedItems, ParseReference, ReadVariable;
    var parsed := ParseReference(text);
    if parsed.Refers? {
      var t := parsed.reference.target;
      ParsedIsNormal(text);
      ReadOfNormal(c, t);
      if parsed.reference.kind == Resource {
        ResolvedIsSubstituted(c, c.store.resource(t).value, depth + 1, stack + {t});
      }
    }
  }

  lemma {:induction false} ResolvedItems(c: Setting, items: seq<Json>, n: nat, depth: nat, stack: set<Target>)
    requires n <= |items| && depth <= c.maxDepth && ItemOutcomes(c, items, n, depth, stack).Resolved?
    ensures SubstitutedItems(c.store, items, n, c.maxDepth + 1 - depth) == Some(ItemOutcomes(c, items, n, depth, stack).value)
    decreases c.maxDepth + 1 - depth, 1, n
  {
    hide Outcomes, Substituted;
    if n > 0 {
      ResolvedItems(c, items, n - 1, depth, stack);
      ResolvedIsSubstituted(c, items[n - 1], depth + 1, stack);
      MoreFuel(c.store, items[n - 1], c.maxDepth - depth);
    }
  }

  /** Reading a target whose path is normal is one lookup, guarded by the list. */
  lemma ReadOfNormal(c: Setting, t: Target)
    requires NormalPath(t.path)
    ensures var reading := ReadVariable(c.store, c.variables, t.scope, t.path);
            && (reading.Read? ==> t in c.variables && c.store.variable(t) == VariableFound(reading.value, reading.secret))
            && (reading == NotRead(Forbidden) ==> t !in c.variables)
            && reading != NotRead(BadSpelling) && reading != NotRead(Circular)
  {
    hide NormalizePath;
    assert t == Target(t.scope, t.path);
  }

  lemma ParsedIsNormal(text: string)
    requires ParseReference(text).Refers?
    ensures NormalPath(ParseReference(text).reference.target.path)
  {
    ParsedIsWritable(text);
  }
}
