/**
 The registry of secret patterns: which patterns one secret requires, the all-or-nothing
 registration, and masking a whole value.
 */
module SecretRegistry {
  import opened Octets
  import opened Options
  import opened MaskText
  import opened Marks
  import opened Matching
  import opened Trie

  const MAX_SECRET_PAYLOAD_BYTES := 0x10_0000
  const MAX_SECRET_JSON_LEAVES := 2048
  const MAX_DYNAMIC_PATTERN_BYTES := 0x1_0000
  const MAX_DYNAMIC_PATTERNS := 4096
  const MAX_DYNAMIC_TOTAL_PATTERN_BYTES := 0x40_0000

  datatype Json =
    | Text(text: seq<byte>)
    | Items(items: seq<Json>)
    | Members(members: seq<Member>)
    | Scalar

  datatype Member = Member(key: seq<byte>, value: Json)

  /** JSON as the registry uses it: the body of an encoded string literal, and decoding. */
  datatype Codec = Codec(escape: seq<byte> -> seq<byte>, decode: seq<byte> -> Option<Json>)

  /** The non-empty string leaves of a document, in traversal order. */
  ghost function Leaves(item: Json): seq<seq<byte>>
    decreases item, 1
  {
    match item
    case Text(t) => if t == [] then [] else [t]
    case Items(items) => LeavesOfItems(items, |items|)
    case Members(members) => LeavesOfMembers(members, |members|)
    case Scalar => []
  }

  ghost function LeavesOfItems(items: seq<Json>, n: nat): seq<seq<byte>>
    requires n <= |items|
    decreases items, 0, n
  {
    if n == 0 then [] else LeavesOfItems(items, n - 1) + Leaves(items[n - 1])
  }

  ghost function LeavesOfMembers(members: seq<Member>, n: nat): seq<seq<byte>>
    requires n <= |members|
    decreases members, 0, n
  {
    if n == 0 then [] else LeavesOfMembers(members, n - 1) + Leaves(members[n - 1].value)
  }

  /** Collects the leaves of `item` after those in `before`, stopping at the leaf limit. */
  method CollectLeaves(item: Json, before: seq<seq<byte>>) returns (ok: bool, values: seq<seq<byte>>)
    requires |before| <= MAX_SECRET_JSON_LEAVES
    ensures ok <==> |before| + |Leaves(item)| <= MAX_SECRET_JSON_LEAVES
    ensures ok ==> values == before + Leaves(item)
    ensures |values| <= MAX_SECRET_JSON_LEAVES
    decreases item
  {
    values := before;
    match item
    case Text(t) =>
      if t == [] {
        return true, values;
      }
      if |values| + 1 > MAX_SECRET_JSON_LEAVES {
        return false, values;
      }
      return true, values + [t];
    case Items(items) =>
      for i := 0 to |items|
        invariant values == before + LeavesOfItems(items, i)
        invariant |values| <= MAX_SECRET_JSON_LEAVES
      {
        ok, values := CollectLeaves(items[i], values);
        if !ok {
          ItemsGrow(items, i + 1, |items|);
          return false, values;
        }
      }
      return true, values;
    case Members(members) =>
      for i := 0 to |members|
        invariant values == before + LeavesOfMembers(members, i)
        invariant |values| <= MAX_SECRET_JSON_LEAVES
      {
        assert members[i] in members;
        ok, values := CollectLeaves(members[i].value, values);
        if !ok {
          MembersGrow(members, i + 1, |members|);
          return false, values;
        }
      }
      return true, values;
    case Scalar =>
      return true, values;
  }

  lemma {:induction false} ItemsGrow(items: seq<Json>, m: nat, n: nat)
    requires m <= n <= |items|
    ensures |LeavesOfItems(items, m)| <= |LeavesOfItems(items, n)|
    decreases n
  {
    if m < n {
      ItemsGrow(items, m, n - 1);
    }
  }

  lemma {:induction false} MembersGrow(members: seq<Member>, m: nat, n: nat)
    requires m <= n <= |members|
    ensures |LeavesOfMembers(members, m)| <= |LeavesOfMembers(members, n)|
    decreases n
  {
    if m < n {
      MembersGrow(members, m, n - 1);
    }
  }

  /** The values one secret requires to be masked; None when it breaks a limit by itself. */
  ghost function RequiredValues(codec: Codec, value: seq<byte>): Option<seq<seq<byte>>> {
    match codec.decode(value)
    case None =>
      if |value| > MAX_DYNAMIC_PATTERN_BYTES then None else Some([value])
    case Some(document) =>
      if |Leaves(document)| > MAX_SECRET_JSON_LEAVES then None
      else Some(Leaves(document) + if |value| <= MAX_DYNAMIC_PATTERN_BYTES then [value] else [])
  }

  method RequiredSecretValues(codec: Codec, value: seq<byte>) returns (ok: bool, values: seq<seq<byte>>)
    ensures RequiredValues(codec, value) == if ok then Some(values) else None
  {
    match codec.decode(value)
    case None =>
      if |value| > MAX_DYNAMIC_PATTERN_BYTES {
        return false, [];
      }
      return true, [value];
    case Some(document) =>
      ok, values := CollectLeaves(document, []);
      assert [] + Leaves(document) == Leaves(document);
      if !ok {
        return false, [];
      }
      assert values + [] == values;
      if |value| <= MAX_DYNAMIC_PATTERN_BYTES {
        values := values + [value];
      }
  }

  ghost function Elements<T>(s: seq<T>): set<T> {
    set x | x in s
  }

  lemma ElementsHold<T>(s: seq<T>)
    ensures forall x :: x in s <==> x in Elements(s)
  {
  }

  lemma ElementsPrefix<T>(s: seq<T>, i: nat)
    requires i < |s|
    ensures Elements(s[..i + 1]) == Elements(s[..i]) + {s[i]}
    ensures s[i] in Elements(s)
  {
    assert s[..i + 1] == s[..i] + [s[i]];
  }

  ghost predicate Unique<T>(s: seq<T>) {
    forall i, j | 0 <= i < j < |s| :: s[i] != s[j]
  }

  /** Each non-empty value in both spellings: as it is, and JSON-escaped. */
  ghost function Spellings(codec: Codec, values: seq<seq<byte>>): set<seq<byte>> {
    BothSpellings(codec, Elements(values) - {[]}) - {[]}
  }

  lemma NoEmptySpelling(codec: Codec, values: seq<seq<byte>>)
    ensures [] !in Spellings(codec, values)
  {
  }

  ghost function BothSpellings(codec: Codec, values: set<seq<byte>>): set<seq<byte>> {
    values + set v | v in values :: codec.escape(v)
  }

  lemma BothSpellingsAdd(codec: Codec, values: set<seq<byte>>, v: seq<byte>)
    ensures BothSpellings(codec, values + {v}) == BothSpellings(codec, values) + {v, codec.escape(v)}
  {
    forall x | x in BothSpellings(codec, values + {v})
      ensures x in BothSpellings(codec, values) + {v, codec.escape(v)}
    {
    }
  }

  /** Longest first. */
  ghost predicate Descending(s: seq<seq<byte>>) {
    forall i, j | 0 <= i < j < |s| :: |s[i]| >= |s[j]|
  }

  /** The place of a value among those sorted so far. */
  method PlaceByLength(sorted: seq<seq<byte>>, value: seq<byte>) returns (at: nat)
    requires Descending(sorted)
    ensures at <= |sorted| && Descending(sorted[..at] + [value] + sorted[at..])
  {
    at := 0;
    while at < |sorted| && |sorted[at]| >= |value|
      invariant at <= |sorted| && forall i | 0 <= i < at :: |sorted[i]| >= |value|
    {
      at := at + 1;
    }
  }

  lemma InsertedIsUnique<T>(sorted: seq<T>, at: nat, value: T)
    requires at <= |sorted| && Unique(sorted) && value !in sorted
    ensures var r := sorted[..at] + [value] + sorted[at..]; Unique(r) && Elements(r) == Elements(sorted) + {value}
  {
    var r := sorted[..at] + [value] + sorted[at..];
    assert sorted == sorted[..at] + sorted[at..];
    forall x
      ensures x in r <==> x in sorted || x == value
    {
    }
  }

  /** Sorting by length keeps the values; among values of one length any order may result. */
  method SortByLength(values: seq<seq<byte>>) returns (sorted: seq<seq<byte>>)
    requires Unique(values)
    ensures Elements(sorted) == Elements(values) && Unique(sorted) && Descending(sorted)
  {
    sorted := [];
    for i := 0 to |values|
      invariant Elements(sorted) == Elements(values[..i]) && Unique(sorted) && Descending(sorted)
    {
      ElementsPrefix(values, i);
      ElementsHold(sorted);
      assert values[i] !in values[..i];
      var at := PlaceByLength(sorted, values[i]);
      InsertedIsUnique(sorted, at, values[i]);
      sorted := sorted[..at] + [values[i]] + sorted[at..];
    }
    assert values[..|values|] == values;
  }

  method Normalize(codec: Codec, values: seq<seq<byte>>) returns (result: seq<seq<byte>>)
    ensures Elements(result) == Spellings(codec, values)
    ensures Unique(result) && Descending(result)
  {
    var unique: set<seq<byte>> := {};
    for i := 0 to |values|
      invariant unique == BothSpellings(codec, Elements(values[..i]) - {[]})
    {
      ElementsPrefix(values, i);
      if values[i] == [] {
        assert Elements(values[..i + 1]) - {[]} == Elements(values[..i]) - {[]};
      } else {
        assert Elements(values[..i + 1]) - {[]} == Elements(values[..i]) - {[]} + {values[i]};
        BothSpellingsAdd(codec, Elements(values[..i]) - {[]}, values[i]);
        unique := unique + {values[i]};
        unique := unique + {codec.escape(values[i])};
      }
    }
    assert values[..|values|] == values;
    result := [];
    ghost var all := unique;
    while unique != {}
      invariant unique <= all
      invariant Elements(result) == all - unique - {[]}
      invariant Unique(result)
    {
      var value :| value in unique;
      unique := unique - {value};
      if value != [] {
        assert value !in Elements(result);
        ElementsPrefix(result + [value], |result|);
        assert (result + [value])[..|result|] == result;
        assert (result + [value])[..|result| + 1] == result + [value];
        result := result + [value];
      }
    }
    result := SortByLength(result);
  }

  /** Sum of the lengths of a set of patterns. */
  ghost function TotalLength(patterns: set<seq<byte>>): nat {
    if patterns == {} then 0
    else
      var p :| p in patterns;
      |p| + TotalLength(patterns - {p})
  }

  lemma {:induction false} TotalLengthAdd(patterns: set<seq<byte>>, p: seq<byte>)
    requires p !in patterns
    ensures TotalLength(patterns + {p}) == TotalLength(patterns) + |p|
    decreases patterns
  {
    var all := patterns + {p};
    var q :| q in all && TotalLength(all) == |q| + TotalLength(all - {q});
    if q == p {
      assert all - {q} == patterns;
    } else {
      TotalLengthAdd(patterns - {q}, p);
      assert all - {q} == patterns - {q} + {p};
      TotalLengthAdd(patterns - {q}, q);
      assert patterns - {q} + {q} == patterns;
    }
  }

  /** n is the length of the longest pattern, and 1 when there is none. */
  ghost predicate IsMaxLength(patterns: set<seq<byte>>, n: nat) {
    && 1 <= n
    && (forall p | p in patterns :: |p| <= n)
    && (n == 1 || exists p :: p in patterns && |p| == n)
  }

  ghost predicate Short(patterns: set<seq<byte>>) {
    forall p | p in patterns :: |p| <= MAX_DYNAMIC_PATTERN_BYTES
  }

  /** Every limit a registration must respect, given the patterns already there. */
  ghost predicate Fits(codec: Codec, patterns: set<seq<byte>>, value: seq<byte>) {
    && |value| <= MAX_SECRET_PAYLOAD_BYTES
    && RequiredValues(codec, value).Some?
    && var required := Spellings(codec, RequiredValues(codec, value).value);
       && Short(required)
       && |patterns + required| <= MAX_DYNAMIC_PATTERNS
       && TotalLength(patterns + required) <= MAX_DYNAMIC_TOTAL_PATTERN_BYTES
  }

  // ----- What a registration owes its secret

  /** The text is a string value somewhere in the document. */
  ghost predicate Occurs(item: Json, text: seq<byte>) {
    match item
    case Text(t) => t == text
    case Items(items) => exists i :: 0 <= i < |items| && Occurs(items[i], text)
    case Members(members) => exists i :: 0 <= i < |members| && Occurs(members[i].value, text)
    case Scalar => false
  }

  lemma {:induction false} LeavesOccur(item: Json, text: seq<byte>)
    ensures text in Leaves(item) <==> text != [] && Occurs(item, text)
    decreases item, 1
  {
    if item.Items? {
      LeavesOfItemsOccur(item.items, |item.items|, text);
    } else if item.Members? {
      LeavesOfMembersOccur(item.members, |item.members|, text);
    }
  }

  lemma {:induction false} LeavesOfItemsOccur(items: seq<Json>, n: nat, text: seq<byte>)
    requires n <= |items|
    ensures text in LeavesOfItems(items, n) <==> text != [] && exists i :: 0 <= i < n && Occurs(items[i], text)
    decreases items, 0, n
  {
    if n > 0 {
      LeavesOfItemsOccur(items, n - 1, text);
      LeavesOccur(items[n - 1], text);
    }
  }

  lemma {:induction false} LeavesOfMembersOccur(members: seq<Member>, n: nat, text: seq<byte>)
    requires n <= |members|
    ensures text in LeavesOfMembers(members, n) <==> text != [] && exists i :: 0 <= i < n && Occurs(members[i].value, text)
    decreases members, 0, n
  {
    if n > 0 {
      LeavesOfMembersOccur(members, n - 1, text);
      assert members[n - 1] in members;
      LeavesOccur(members[n - 1].value, text);
    }
  }

  /** How many string values in the document are not empty; equal ones count each time. */
  ghost function Strings(item: Json): nat
    decreases item, 1
  {
    match item
    case Text(t) => if t == [] then 0 else 1
    case Items(items) => StringsOfItems(items, |items|)
    case Members(members) => StringsOfMembers(members, |members|)
    case Scalar => 0
  }

  ghost function StringsOfItems(items: seq<Json>, n: nat): nat
    requires n <= |items|
    decreases items, 0, n
  {
    if n == 0 then 0 else StringsOfItems(items, n - 1) + Strings(items[n - 1])
  }

  ghost function StringsOfMembers(members: seq<Member>, n: nat): nat
    requires n <= |members|
    decreases members, 0, n
  {
    if n == 0 then 0 else StringsOfMembers(members, n - 1) + Strings(members[n - 1].value)
  }

  lemma {:induction false} LeavesAreCounted(item: Json)
    ensures |Leaves(item)| == Strings(item)
    decreases item, 1
  {
    if item.Items? {
      ItemLeavesAreCounted(item.items, |item.items|);
    } else if item.Members? {
      MemberLeavesAreCounted(item.members, |item.members|);
    }
  }

  lemma {:induction false} ItemLeavesAreCounted(items: seq<Json>, n: nat)
    requires n <= |items|
    ensures |LeavesOfItems(items, n)| == StringsOfItems(items, n)
    decreases items, 0, n
  {
    if n > 0 {
      ItemLeavesAreCounted(items, n - 1);
      LeavesAreCounted(items[n - 1]);
    }
  }

  lemma {:induction false} MemberLeavesAreCounted(members: seq<Member>, n: nat)
    requires n <= |members|
    ensures |LeavesOfMembers(members, n)| == StringsOfMembers(members, n)
    decreases members, 0, n
  {
    if n > 0 {
      MemberLeavesAreCounted(members, n - 1);
      assert members[n - 1] in members;
      LeavesAreCounted(members[n - 1].value);
    }
  }

  /** What must not be seen of a secret: itself, unless it is too long, and every string in it. */
  ghost predicate Hidden(codec: Codec, secret: seq<byte>, text: seq<byte>) {
    && text != []
    && ((text == secret && |secret| <= MAX_DYNAMIC_PATTERN_BYTES)
        || (codec.decode(secret).Some? && Occurs(codec.decode(secret).value, text)))
  }

  /** A pattern that a secret requires: a text to hide as it is, or JSON-escaped. */
  ghost predicate Owed(codec: Codec, secret: seq<byte>, pattern: seq<byte>) {
    pattern != [] && exists text :: Hidden(codec, secret, text) && (pattern == text || pattern == codec.escape(text))
  }

  lemma RequiredIsHidden(codec: Codec, secret: seq<byte>, text: seq<byte>)
    requires secret != [] && RequiredValues(codec, secret).Some?
    ensures text in RequiredValues(codec, secret).value && text != [] <==> Hidden(codec, secret, text)
  {
    hide Leaves, Occurs;
    if codec.decode(secret).Some? {
      LeavesOccur(codec.decode(secret).value, text);
    }
  }

  /** The required patterns are the owed ones. */
  lemma SpellingsAreOwed(codec: Codec, secret: seq<byte>, pattern: seq<byte>)
    requires secret != [] && RequiredValues(codec, secret).Some?
    ensures pattern in Spellings(codec, RequiredValues(codec, secret).value) <==> Owed(codec, secret, pattern)
  {
    hide RequiredValues, Hidden;
    var values := RequiredValues(codec, secret).value;
    forall text
      ensures text in Elements(values) - {[]} <==> Hidden(codec, secret, text)
    {
      RequiredIsHidden(codec, secret, text);
    }
  }

  lemma AllAreOwed(codec: Codec, secret: seq<byte>, required: set<seq<byte>>)
    requires secret != [] && RequiredValues(codec, secret).Some? && required == Spellings(codec, RequiredValues(codec, secret).value)
    ensures forall p :: p in required <==> Owed(codec, secret, p)
  {
    hide RequiredValues, Spellings, Owed;
    forall p
      ensures p in required <==> Owed(codec, secret, p)
    {
      SpellingsAreOwed(codec, secret, p);
    }
  }

  /** The limits of a registration that leads to the pattern set `all`. */
  ghost predicate WithinLimits(codec: Codec, secret: seq<byte>, all: set<seq<byte>>) {
    && |secret| <= MAX_SECRET_PAYLOAD_BYTES
    && (codec.decode(secret).None? ==> |secret| <= MAX_DYNAMIC_PATTERN_BYTES)
    && (codec.decode(secret).Some? ==> Strings(codec.decode(secret).value) <= MAX_SECRET_JSON_LEAVES)
    && (forall p | Owed(codec, secret, p) :: |p| <= MAX_DYNAMIC_PATTERN_BYTES)
    && |all| <= MAX_DYNAMIC_PATTERNS && TotalLength(all) <= MAX_DYNAMIC_TOTAL_PATTERN_BYTES
  }

  lemma RequiredWithinLimits(codec: Codec, secret: seq<byte>)
    ensures RequiredValues(codec, secret).Some? <==>
              && (codec.decode(secret).None? ==> |secret| <= MAX_DYNAMIC_PATTERN_BYTES)
              && (codec.decode(secret).Some? ==> Strings(codec.decode(secret).value) <= MAX_SECRET_JSON_LEAVES)
  {
    hide Leaves, Strings;
    if codec.decode(secret).Some? {
      LeavesAreCounted(codec.decode(secret).value);
    }
  }

  /** A secret is registered exactly within the limits, and then exactly what it owes is added. */
  lemma RegisteredExactly(codec: Codec, patterns: set<seq<byte>>, secret: seq<byte>, all: set<seq<byte>>)
    requires secret != [] && forall p :: p in all <==> p in patterns || Owed(codec, secret, p)
    ensures Fits(codec, patterns, secret) <==> WithinLimits(codec, secret, all)
    ensures Registered(codec, patterns, secret) == if WithinLimits(codec, secret, all) then all else patterns
  {
    hide RequiredValues, Owed, TotalLength, Spellings, Strings;
    RequiredWithinLimits(codec, secret);
    if RequiredValues(codec, secret).Some? {
      var required := Spellings(codec, RequiredValues(codec, secret).value);
      AllAreOwed(codec, secret, required);
      assert patterns + required == all;
    }
  }

  /** The pattern set after one registration: all required patterns are added, or none. */
  ghost function Registered(codec: Codec, patterns: set<seq<byte>>, value: seq<byte>): set<seq<byte>> {
    if value != [] && Fits(codec, patterns, value)
    then patterns + Spellings(codec, RequiredValues(codec, value).value)
    else patterns
  }

  class Registry {
    const codec: Codec
    var patterns: map<seq<byte>, seq<byte>>
    var matcher: Matcher
    var generation: nat
    var totalBytes: nat
    var maxLen: nat

    ghost predicate Valid()
      reads this, matcher
    {
      && Tally(patterns, totalBytes, maxLen)
      && matcher.Valid() && matcher.patterns == patterns.Keys
      && generation >= 1
    }

    constructor (codec: Codec, initial: seq<seq<byte>>)
      ensures Valid() && this.codec == codec && generation == 1 && fresh(matcher)
      ensures patterns.Keys == Spellings(codec, initial)
    {
      hide Matcher.Valid, Tally, Spellings, Keyed;
      EmptyTally();
      this.codec := codec;
      patterns := map[];
      matcher := new Matcher(map[]);
      generation := 0;
      totalBytes := 0;
      maxLen := 1;
      new;
      AddSpellings(initial);
      TallyKeyed(patterns, totalBytes, maxLen);
      RebuildMatcher();
    }

    method AddSpellings(initial: seq<seq<byte>>)
      requires Tally(patterns, totalBytes, maxLen)
      modifies this`patterns, this`totalBytes, this`maxLen
      ensures Tally(patterns, totalBytes, maxLen)
      ensures patterns.Keys == old(patterns.Keys) + Spellings(codec, initial)
    {
      hide *;
      NoEmptySpelling(codec, initial);
      var candidates := Normalize(codec, initial);
      ElementsHold(candidates);
      AddAll(candidates);
    }

    method AddAll(candidates: seq<seq<byte>>)
      requires Tally(patterns, totalBytes, maxLen) && [] !in candidates
      modifies this`patterns, this`totalBytes, this`maxLen
      ensures Tally(patterns, totalBytes, maxLen) && patterns.Keys == old(patterns.Keys) + Elements(candidates)
    {
      hide TotalLength, IsMaxLength, Keyed;
      for i := 0 to |candidates|
        invariant Tally(patterns, totalBytes, maxLen) && patterns.Keys == old(patterns.Keys) + Elements(candidates[..i])
      {
        ElementsPrefix(candidates, i);
        AddPattern(candidates[i]);
      }
      assert candidates[..|candidates|] == candidates;
    }

    /** Adds one pattern unless it is there; keeps the total and the maximum up to date. */
    method AddPattern(pattern: seq<byte>)
      requires Tally(patterns, totalBytes, maxLen) && pattern != []
      modifies this`patterns, this`totalBytes, this`maxLen
      ensures Tally(patterns, totalBytes, maxLen) && patterns.Keys == old(patterns.Keys) + {pattern}
    {
      if pattern in patterns {
        assert patterns.Keys == old(patterns.Keys) + {pattern};
        return;
      }
      TotalLengthAdd(patterns.Keys, pattern);
      patterns := patterns[pattern := pattern];
      assert patterns.Keys == old(patterns.Keys) + {pattern};
      totalBytes := totalBytes + |pattern|;
      if |pattern| > maxLen {
        maxLen := |pattern|;
      }
      assert pattern in patterns.Keys;
    }

    method RebuildMatcher()
      requires Keyed(patterns)
      modifies this`matcher, this`generation
      ensures fresh(matcher) && matcher.Valid() && matcher.patterns == patterns.Keys
      ensures generation == old(generation) + 1
    {
      matcher := new Matcher(patterns);
      KeyedValues(patterns);
      generation := generation + 1;
    }

    /** Registers every pattern the secret requires, or changes nothing. */
    method RegisterSecret(value: seq<byte>) returns (ok: bool)
      requires Valid()
      modifies this
      ensures Valid()
      ensures ok <==> value == [] || Fits(codec, old(patterns.Keys), value)
      ensures patterns.Keys == Registered(codec, old(patterns.Keys), value)
      ensures ok && value != [] ==> forall p :: p in patterns <==> p in old(patterns) || Owed(codec, value, p)
      ensures !ok ==> patterns == old(patterns) && totalBytes == old(totalBytes) && maxLen == old(maxLen)
      ensures patterns.Keys == old(patterns.Keys) ==> matcher == old(matcher) && generation == old(generation)
      ensures patterns.Keys != old(patterns.Keys) ==> fresh(matcher) && generation == old(generation) + 1
    {
      hide Matcher.Valid, TotalLength, IsMaxLength, Spellings, Keyed, RequiredValues, Owed;
      if |value| == 0 {
        return true;
      }
      if |value| > MAX_SECRET_PAYLOAD_BYTES {
        return false;
      }
      var known, values := RequiredSecretValues(codec, value);
      if !known {
        return false;
      }
      var candidates := Normalize(codec, values);
      NoEmptySpelling(codec, values);
      ElementsHold(candidates);
      var fits, newCount, newBytes := Measure(candidates);
      if !fits {
        return false;
      }
      if |patterns| + newCount > MAX_DYNAMIC_PATTERNS {
        return false;
      }
      if totalBytes + newBytes > MAX_DYNAMIC_TOTAL_PATTERN_BYTES {
        return false;
      }
      AddAll(candidates);
      AllAreOwed(codec, value, Elements(candidates));
      if newCount > 0 {
        RebuildMatcher();
      }
      return true;
    }

    /** Counts the candidates that are new, and their bytes; fails on one that is too long. */
    method Measure(candidates: seq<seq<byte>>) returns (fits: bool, newCount: nat, newBytes: nat)
      requires Unique(candidates)
      ensures fits <==> Short(Elements(candidates))
      ensures fits ==> GrowsBy(patterns.Keys, patterns.Keys + Elements(candidates), newCount, newBytes)
    {
      hide *;
      newCount, newBytes := 0, 0;
      ghost var known := patterns.Keys;
      GrowsByNothing(known, candidates);
      for i := 0 to |candidates|
        invariant GrowsByPrefix(known, candidates, i, newCount, newBytes)
      {
        var pattern := candidates[i];
        GrowsByNext(known, candidates, i, newCount, newBytes);
        if |pattern| > MAX_DYNAMIC_PATTERN_BYTES {
          return false, 0, 0;
        }
        if pattern !in patterns {
          newCount := newCount + 1;
          newBytes := newBytes + |pattern|;
        }
      }
      GrowsByAll(known, candidates, newCount, newBytes);
      return true, newCount, newBytes;
    }

    /** Masks a whole value: exactly the bytes some pattern occurrence covers become '*'. */
    method Bytes(value: seq<byte>) returns (r: seq<byte>)
      requires Valid()
      ensures r == Masked(patterns.Keys, value)
    {
      var masked := new byte[|value|](i requires 0 <= i < |value| => value[i]);
      assert masked[..] == value;
      var deltas := new int[|value| + 1](i => 0);
      ZeroLevels(deltas[..]);
      var state, hops := matcher.Scan(value, 0, 0, deltas, []);
      var active := ApplyRangeMarks(masked, deltas[..]);
      r := masked[..];
      forall i | 0 <= i < |value|
        ensures r[i] == if Covered(patterns.Keys, value, i) then REPLACEMENT else value[i]
      {
        HitsCover(patterns.Keys, value, i);
      }
    }
  }

  /** The bookkeeping of the pattern map: keys, total length and maximum length agree. */
  ghost predicate Tally(patterns: map<seq<byte>, seq<byte>>, totalBytes: nat, maxLen: nat) {
    && Keyed(patterns)
    && totalBytes == TotalLength(patterns.Keys)
    && IsMaxLength(patterns.Keys, maxLen)
  }

  lemma EmptyTally()
    ensures Tally(map[], 0, 1)
  {
  }

  lemma TallyKeyed(patterns: map<seq<byte>, seq<byte>>, totalBytes: nat, maxLen: nat)
    requires Tally(patterns, totalBytes, maxLen)
    ensures Keyed(patterns)
  {
  }

  /** A pattern set grows from `before` to `all` by so many patterns with so many bytes. */
  ghost predicate GrowsBy(before: set<seq<byte>>, all: set<seq<byte>>, count: nat, bytes: nat) {
    && before <= all
    && |before| + count == |all|
    && TotalLength(before) + bytes == TotalLength(all)
    && (count > 0 <==> all != before)
  }

  /** The same for the first i candidates, none of which was too long. */
  ghost predicate GrowsByPrefix(before: set<seq<byte>>, s: seq<seq<byte>>, i: nat, count: nat, bytes: nat)
    requires i <= |s|
  {
    Short(Elements(s[..i])) && GrowsBy(before, before + Elements(s[..i]), count, bytes)
  }

  lemma GrowsByNothing(before: set<seq<byte>>, s: seq<seq<byte>>)
    ensures GrowsByPrefix(before, s, 0, 0, 0)
  {
    assert before + Elements(s[..0]) == before;
  }

  lemma GrowsByAll(before: set<seq<byte>>, s: seq<seq<byte>>, count: nat, bytes: nat)
    requires GrowsByPrefix(before, s, |s|, count, bytes)
    ensures Short(Elements(s)) && GrowsBy(before, before + Elements(s), count, bytes)
  {
    assert s[..|s|] == s;
  }

  /** One more candidate: too long, already known, or growth by one. */
  lemma GrowsByNext(before: set<seq<byte>>, s: seq<seq<byte>>, i: nat, count: nat, bytes: nat)
    requires Unique(s) && i < |s| && GrowsByPrefix(before, s, i, count, bytes)
    ensures |s[i]| > MAX_DYNAMIC_PATTERN_BYTES ==> !Short(Elements(s))
    ensures |s[i]| <= MAX_DYNAMIC_PATTERN_BYTES ==>
              if s[i] in before then GrowsByPrefix(before, s, i + 1, count, bytes)
              else GrowsByPrefix(before, s, i + 1, count + 1, bytes + |s[i]|)
  {
    ElementsPrefix(s, i);
    var all := before + Elements(s[..i]);
    assert before + Elements(s[..i + 1]) == all + {s[i]};
    if s[i] in before {
      assert all + {s[i]} == all;
    } else {
      TotalLengthAdd(all, s[i]);
    }
  }

  /** The pattern map holds each pattern under its own bytes. */
  ghost predicate Keyed(patterns: map<seq<byte>, seq<byte>>) {
    forall p | p in patterns :: patterns[p] == p && p != []
  }

  lemma KeyedValues(patterns: map<seq<byte>, seq<byte>>)
    requires Keyed(patterns)
    ensures patterns.Values - {[]} == patterns.Keys
  {
    forall p | p in patterns.Keys
      ensures p in patterns.Values - {[]}
    {
      assert patterns[p] == p;
    }
  }

  lemma ZeroLevels(deltas: seq<int>)
    requires forall i | 0 <= i < |deltas| :: deltas[i] == 0
    ensures Sum(deltas) == 0
    ensures forall i | 0 <= i < |deltas| :: Level(deltas, i) == 0
  {
    assert deltas == seq(|deltas|, i => 0);
    SumZeros(|deltas|);
    forall i | 0 <= i < |deltas|
      ensures Level(deltas, i) == 0
    {
      assert deltas[..i + 1] == seq(i + 1, k => 0);
      SumZeros(i + 1);
    }
  }

  /** Scanning a whole value from its start marks exactly the covered positions. */
  lemma HitsCover(patterns: set<seq<byte>>, value: seq<byte>, i: int)
    requires [] !in patterns && 0 <= i < |value|
    ensures Hits(patterns, [], value, 0, |value|, i) > 0 <==> Covered(patterns, value, i)
  {
    HitsAreOccurrences(patterns, [], value, 0, |value|, i);
    if p, k :| EndsAt(patterns, [], value, 0, i, p, k) {
      assert [] + value[..k] == value[..k];
      SuffixIsOccurrence(p, value, k);
      assert OccursAt(p, value, k - |p|);
    }
    if Covered(patterns, value, i) {
      var p, at :| p in patterns && OccursAt(p, value, at) && at <= i < at + |p|;
      var k := at + |p|;
      assert [] + value[..k] == value[..k];
      SuffixIsOccurrence(p, value, k);
      assert EndsAt(patterns, [], value, 0, i, p, k);
    }
  }
}
