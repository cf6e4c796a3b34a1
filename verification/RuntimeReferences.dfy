/**
 Runtime-configuration references, the documents they occur in, and access lists: the grammar of
 references, their paths, and normalization.
 */
module RuntimeReferences {
  import opened Options
  import opened Text
  import opened Encoding

  datatype Scope = Workspace | App | Actor

  datatype Kind = Variable | Resource

  /** The key of a target is its scope, a zero byte and its path; see KeysAreTargets. */
  datatype Target = Target(scope: Scope, path: string)

  datatype Reference = Reference(kind: Kind, target: Target, explicit: bool)

  datatype Parsed = Ordinary | Refers(reference: Reference) | BadPath

  // ----- Target keys

  function ScopeName(scope: Scope): string {
    match scope
    case Workspace => "workspace"
    case App => "app"
    case Actor => "actor"
  }

  function TargetKey(target: Target): string { ScopeName(target.scope) + ['\0'] + target.path }

  lemma KeysAreTargets(a: Target, b: Target)
    requires TargetKey(a) == TargetKey(b)
    ensures a == b
  {
    var m, n := ScopeName(a.scope), ScopeName(b.scope);
    assert TargetKey(a)[|m|] == '\0' && TargetKey(b)[|n|] == '\0';
    assert TargetKey(a)[..|m|] == m && TargetKey(b)[..|n|] == n;
    assert |m| == |n|;
    assert m[0] == n[0] && m[1] == n[1];
    assert TargetKey(a)[|m| + 1..] == a.path && TargetKey(b)[|n| + 1..] == b.path;
  }

  // ----- Paths

  predicate PortableKeyChar(c: char) {
    'a' <= c <= 'z' || 'A' <= c <= 'Z' || '0' <= c <= '9' || c == '_'
  }

  predicate GoodSegment(segment: string) {
    && segment != "" && segment != "." && segment != ".."
    && forall i | 0 <= i < |segment| :: PortableKeyChar(segment[i]) || segment[i] == '.' || segment[i] == '-'
  }

  function NormalizePath(value: string): Option<string> {
    var path := TrimSpace(value);
    if path == "" || |path| > 512 || '\\' in path then None
    else
      var segments := Split(path, '/');
      if |segments| > 32 then None
      else if exists i | 0 <= i < |segments| :: !GoodSegment(segments[i]) then None
      else Some(path)
  }

  predicate NormalPath(path: string) { NormalizePath(path) == Some(path) }

  /** Normalization is a projection: what it returns, it returns unchanged. */
  lemma NormalizedPathIsNormal(value: string)
    requires NormalizePath(value).Some?
    ensures NormalPath(NormalizePath(value).value)
  {
    TrimSpaceTrims(value);
    TrimSpaceKeeps(TrimSpace(value));
  }

  // ----- References

  const VAR_WORKSPACE := "$var@workspace:"
  const RES_WORKSPACE := "$res@workspace:"
  const VAR_APP := "$var@app:"
  const RES_APP := "$res@app:"
  const VAR := "$var:"
  const RES := "$res:"

  function PathAfter(value: string, prefix: string, kind: Kind, scope: Scope, explicit: bool): Parsed
    requires HasPrefix(value, prefix)
  {
    var path := TrimSpace(value[|prefix|..]);
    if path == "" then BadPath
    else
      match NormalizePath(path)
      case None => BadPath
      case Some(normalized) => Refers(Reference(kind, Target(scope, normalized), explicit))
  }

  function ParseReference(value: string): Parsed {
    if HasPrefix(value, VAR_WORKSPACE) then PathAfter(value, VAR_WORKSPACE, Variable, Workspace, true)
    else if HasPrefix(value, RES_WORKSPACE) then PathAfter(value, RES_WORKSPACE, Resource, Workspace, true)
    else if HasPrefix(value, VAR_APP) then PathAfter(value, VAR_APP, Variable, App, true)
    else if HasPrefix(value, RES_APP) then PathAfter(value, RES_APP, Resource, App, true)
    else if HasPrefix(value, VAR) then PathAfter(value, VAR, Variable, Workspace, false)
    else if HasPrefix(value, RES) then PathAfter(value, RES, Resource, Workspace, false)
    else Ordinary
  }

  /** How a reference is written. */
  function Prefix(kind: Kind, scope: Scope, explicit: bool): Option<string> {
    match (kind, scope, explicit)
    case (Variable, Workspace, true) => Some(VAR_WORKSPACE)
    case (Resource, Workspace, true) => Some(RES_WORKSPACE)
    case (Variable, App, true) => Some(VAR_APP)
    case (Resource, App, true) => Some(RES_APP)
    case (Variable, Workspace, false) => Some(VAR)
    case (Resource, Workspace, false) => Some(RES)
    case (_, _, _) => None
  }

  predicate Writable(r: Reference) {
    Prefix(r.kind, r.target.scope, r.explicit).Some? && NormalPath(r.target.path)
  }

  function Written(r: Reference): string
    requires Writable(r)
  {
    Prefix(r.kind, r.target.scope, r.explicit).value + r.target.path
  }

  /** No two prefixes of references apply to one string. */
  lemma OnePrefix(value: string)
    ensures HasPrefix(value, VAR_WORKSPACE) ==> !HasPrefix(value, RES_WORKSPACE) && !HasPrefix(value, VAR_APP) && !HasPrefix(value, RES_APP) && !HasPrefix(value, VAR) && !HasPrefix(value, RES)
    ensures HasPrefix(value, RES_WORKSPACE) ==> !HasPrefix(value, VAR_APP) && !HasPrefix(value, RES_APP) && !HasPrefix(value, VAR) && !HasPrefix(value, RES)
    ensures HasPrefix(value, VAR_APP) ==> !HasPrefix(value, RES_APP) && !HasPrefix(value, VAR) && !HasPrefix(value, RES)
    ensures HasPrefix(value, RES_APP) ==> !HasPrefix(value, VAR) && !HasPrefix(value, RES)
    ensures HasPrefix(value, VAR) ==> !HasPrefix(value, RES)
  {
    forall prefix | prefix in {VAR_WORKSPACE, RES_WORKSPACE, VAR_APP, RES_APP, VAR, RES} && HasPrefix(value, prefix)
      ensures value[1] == prefix[1] && value[4] == prefix[4] && (|prefix| > 5 ==> value[5] == prefix[5])
    {
      assert value[..|prefix|][1] == prefix[1];
      assert value[..|prefix|][4] == prefix[4];
      if |prefix| > 5 {
        assert value[..|prefix|][5] == prefix[5];
      }
    }
  }

  lemma PathAfterPrefix(r: Reference)
    requires Writable(r)
    ensures var prefix := Prefix(r.kind, r.target.scope, r.explicit).value;
            && HasPrefix(Written(r), prefix)
            && PathAfter(Written(r), prefix, r.kind, r.target.scope, r.explicit) == Refers(r)
  {
    var prefix := Prefix(r.kind, r.target.scope, r.explicit).value;
    var value := Written(r);
    assert value[..|prefix|] == prefix && value[|prefix|..] == r.target.path;
    NormalPathIsTrimmed(r.target.path);
    hide NormalizePath, Prefix;
  }

  lemma NormalPathIsTrimmed(path: string)
    requires NormalPath(path)
    ensures path != "" && TrimSpace(path) == path
  {
  }

  /** Writing a reference and parsing it gives it back. */
  lemma WrittenParses(r: Reference)
    requires Writable(r)
    ensures ParseReference(Written(r)) == Refers(r)
  {
    hide NormalPath, NormalizePath, Prefix, ParseReference, HasPrefix, Written, PathAfter;
    PathAfterPrefix(r);
    ParseWithPrefix(Written(r), r.kind, r.target.scope, r.explicit);
  }

  lemma ParseWithPrefix(value: string, kind: Kind, scope: Scope, explicit: bool)
    requires Prefix(kind, scope, explicit).Some? && HasPrefix(value, Prefix(kind, scope, explicit).value)
    ensures ParseReference(value) == PathAfter(value, Prefix(kind, scope, explicit).value, kind, scope, explicit)
  {
    hide PathAfter, HasPrefix;
    OnePrefix(value);
  }

  lemma PathAfterIsWritable(value: string, prefix: string, kind: Kind, scope: Scope, explicit: bool)
    requires HasPrefix(value, prefix) && Prefix(kind, scope, explicit).Some?
    requires PathAfter(value, prefix, kind, scope, explicit).Refers?
    ensures Writable(PathAfter(value, prefix, kind, scope, explicit).reference)
  {
    NormalizedPathIsNormal(TrimSpace(value[|prefix|..]));
    hide NormalizePath, TrimSpace, Prefix;
  }

  /** Every parsed reference can be written, so none has actor scope and a legacy one is workspace-scoped. */
  lemma ParsedIsWritable(value: string)
    requires ParseReference(value).Refers?
    ensures Writable(ParseReference(value).reference)
  {
    hide PathAfter, HasPrefix, Writable;
    if HasPrefix(value, VAR_WORKSPACE) {
      PathAfterIsWritable(value, VAR_WORKSPACE, Variable, Workspace, true);
    } else if HasPrefix(value, RES_WORKSPACE) {
      PathAfterIsWritable(value, RES_WORKSPACE, Resource, Workspace, true);
    } else if HasPrefix(value, VAR_APP) {
      PathAfterIsWritable(value, VAR_APP, Variable, App, true);
    } else if HasPrefix(value, RES_APP) {
      PathAfterIsWritable(value, RES_APP, Resource, App, true);
    } else if HasPrefix(value, VAR) {
      PathAfterIsWritable(value, VAR, Variable, Workspace, false);
    } else {
      PathAfterIsWritable(value, RES, Resource, Workspace, false);
    }
  }

  // ----- What is a path and what is a reference

  /** Part of a path: letters, digits, '_', '.' and '-', but not just one or two dots. */
  ghost predicate IsPathPart(part: string) {
    && part != "" && part != "." && part != ".."
    && forall c | c in part :: 'a' <= c <= 'z' || 'A' <= c <= 'Z' || '0' <= c <= '9' || c == '_' || c == '.' || c == '-'
  }

  ghost predicate JoinsTo(parts: seq<string>, path: string) {
    && 1 <= |parts| <= 32 && |path| <= 512 && Join(parts, '/') == path
    && forall part | part in parts :: IsPathPart(part)
  }

  ghost predicate ValidPath(value: string) { NormalizePath(value).Some? }

  lemma GoodSegmentExactly(segment: string)
    ensures GoodSegment(segment) <==> IsPathPart(segment)
    ensures IsPathPart(segment) ==> '/' !in segment && '\\' !in segment
  {
    forall i | 0 <= i < |segment|
      ensures segment[i] in segment
    {
    }
    if GoodSegment(segment) {
      forall c | c in segment
        ensures PortableKeyChar(c) || c == '.' || c == '-'
      {
        var i :| 0 <= i < |segment| && segment[i] == c;
      }
    }
  }

  lemma {:induction false} JoinedCharacters(parts: seq<string>, c: char)
    requires c in Join(parts, '/')
    ensures c == '/' || exists part :: part in parts && c in part
    decreases |parts|
  {
    if |parts| > 1 {
      if c in Join(parts[1..], '/') && c != '/' {
        JoinedCharacters(parts[1..], c);
      } else if c != '/' {
        assert c in parts[0] && parts[0] in parts;
      }
    } else if |parts| == 1 {
      assert parts[0] in parts;
    }
  }

  /** A path is one to 32 parts joined by slashes, 512 characters at most; white space around it is dropped. */
  lemma PathExactly(value: string)
    ensures ValidPath(value) <==> exists parts :: JoinsTo(parts, TrimSpace(value))
    ensures ValidPath(value) ==> NormalizePath(value).value == TrimSpace(value)
  {
    hide TrimSpace, IsPathPart, GoodSegment;
    var path := TrimSpace(value);
    if ValidPath(value) {
      JoinSplit(path, '/');
      forall part | part in Split(path, '/')
        ensures IsPathPart(part)
      {
        GoodSegmentExactly(part);
      }
      assert JoinsTo(Split(path, '/'), path);
    }
    if parts :| JoinsTo(parts, path) {
      JoinedIsPath(parts, value);
    }
  }

  lemma JoinedIsPath(parts: seq<string>, value: string)
    requires JoinsTo(parts, TrimSpace(value))
    ensures ValidPath(value)
  {
    hide TrimSpace, IsPathPart, GoodSegment, Split;
    var path := TrimSpace(value);
    forall part | part in parts
      ensures GoodSegment(part) && '/' !in part && '\\' !in part
    {
      GoodSegmentExactly(part);
    }
    SplitJoin(parts, '/');
    if '\\' in path {
      JoinedCharacters(parts, '\\');
    }
    NotEmptyJoined(parts);
  }

  lemma NotEmptyJoined(parts: seq<string>)
    requires parts != [] && forall part | part in parts :: IsPathPart(part)
    ensures Join(parts, '/') != ""
  {
    assert parts[0] in parts;
  }

  /** The string begins like a reference of this sort. */
  ghost predicate BeginsLike(value: string, kind: Kind, scope: Scope, explicit: bool) {
    Prefix(kind, scope, explicit).Some? && HasPrefix(value, Prefix(kind, scope, explicit).value)
  }

  /**
   A string that begins like a reference is one exactly when what follows is a path, and else is an error;
   any other string is an ordinary value.
   */
  lemma ParsesExactly(value: string)
    ensures ParseReference(value).Ordinary? <==> forall kind, scope, explicit :: !BeginsLike(value, kind, scope, explicit)
    ensures forall kind, scope, explicit | BeginsLike(value, kind, scope, explicit) ::
              var rest := value[|Prefix(kind, scope, explicit).value|..];
              ParseReference(value) ==
              if ValidPath(rest) then Refers(Reference(kind, Target(scope, TrimSpace(rest)), explicit)) else BadPath
  {
    hide PathAfter, NormalizePath, ParseReference;
    forall kind, scope, explicit | BeginsLike(value, kind, scope, explicit)
      ensures var rest := value[|Prefix(kind, scope, explicit).value|..];
              ParseReference(value) ==
              if ValidPath(rest) then Refers(Reference(kind, Target(scope, TrimSpace(rest)), explicit)) else BadPath
    {
      ParseWithPrefix(value, kind, scope, explicit);
      PathAfterMeans(value, Prefix(kind, scope, explicit).value, kind, scope, explicit);
    }
    OrdinaryExactly(value);
  }

  lemma PathAfterMeans(value: string, prefix: string, kind: Kind, scope: Scope, explicit: bool)
    requires HasPrefix(value, prefix)
    ensures var rest := value[|prefix|..];
            PathAfter(value, prefix, kind, scope, explicit) ==
            if ValidPath(rest) then Refers(Reference(kind, Target(scope, TrimSpace(rest)), explicit)) else BadPath
  {
    var rest := value[|prefix|..];
    TrimTwice(rest);
    PathExactly(rest);
    PathExactly(TrimSpace(rest));
    hide TrimSpace, NormalizePath, JoinsTo;
    BlankIsNoPath();
  }

  lemma BlankIsNoPath()
    ensures NormalizePath("").None?
  {
    TrimSpaceKeeps("");
  }

  lemma OrdinaryExactly(value: string)
    ensures ParseReference(value).Ordinary? <==> forall kind, scope, explicit :: !BeginsLike(value, kind, scope, explicit)
  {
    hide HasPrefix, NormalizePath;
    assert forall kind, scope, explicit | BeginsLike(value, kind, scope, explicit) :: HasPrefix(value, Prefix(kind, scope, explicit).value);
    assert HasPrefix(value, VAR_WORKSPACE) ==> BeginsLike(value, Variable, Workspace, true);
    assert HasPrefix(value, RES_WORKSPACE) ==> BeginsLike(value, Resource, Workspace, true);
    assert HasPrefix(value, VAR_APP) ==> BeginsLike(value, Variable, App, true);
    assert HasPrefix(value, RES_APP) ==> BeginsLike(value, Resource, App, true);
    assert HasPrefix(value, VAR) ==> BeginsLike(value, Variable, Workspace, false);
    assert HasPrefix(value, RES) ==> BeginsLike(value, Resource, Workspace, false);
  }

  // ----- Documents

  /** Decoded JSON; an object keeps its members in the order in which they are visited. */
  datatype Json =
    | Scalar(token: string)
    | Text(text: string)
    | Array(items: seq<Json>)
    | Object(keys: seq<string>, items: seq<Json>)

  /** Every string value in a document. */
  ghost function Texts(value: Json): set<string>
    decreases value, 1
  {
    match value
    case Scalar(_) => {}
    case Text(text) => {text}
    case Array(items) => TextsOf(items, |items|)
    case Object(_, items) => TextsOf(items, |items|)
  }

  ghost function TextsOf(items: seq<Json>, n: nat): set<string>
    requires n <= |items|
    decreases items, 0, n
  {
    if n == 0 then {} else TextsOf(items, n - 1) + Texts(items[n - 1])
  }

  lemma {:induction false} TextsOfEach(items: seq<Json>, n: nat, i: nat)
    requires i < n <= |items|
    ensures Texts(items[i]) <= TextsOf(items, n)
    decreases n
  {
    if i < n - 1 {
      TextsOfEach(items, n - 1, i);
    }
  }

  ghost predicate AllParse(texts: set<string>) { forall s | s in texts :: !ParseReference(s).BadPath? }

  /** Every reference in the document is well formed. */
  ghost predicate WellFormed(value: Json) { AllParse(Texts(value)) }

  ghost predicate RefersTo(text: string, kind: Kind, explicit: bool) {
    var parsed := ParseReference(text);
    parsed.Refers? && parsed.reference.kind == kind && parsed.reference.explicit == explicit
  }

  ghost function Spelled(texts: set<string>, kind: Kind, explicit: bool): set<Target> {
    set s | s in texts && RefersTo(s, kind, explicit) :: ParseReference(s).reference.target
  }

  /** The targets a document refers to. */
  ghost function Mentions(value: Json, kind: Kind): set<Target> {
    Spelled(Texts(value), kind, false) + Spelled(Texts(value), kind, true)
  }

  // ----- Access lists

  datatype Storage = PlainStorage | SecretStorage

  datatype WriteTarget = WriteTarget(target: Target, storage: Storage)

  datatype Access = Access(
    variables: set<string>,
    resources: set<string>,
    variableTargets: set<Target>,
    resourceTargets: set<Target>,
    writeVariables: set<WriteTarget>,
    writeResources: set<Target>)

  /** Legacy paths are workspace targets. */
  function Legacy(paths: set<string>): set<Target> { set p | p in paths :: Target(Workspace, p) }

  /** runtimeAccessTargetSets: everything an access list allows to be read. */
  function Allowed(access: Access, kind: Kind): set<Target> {
    if kind == Variable then access.variableTargets + Legacy(access.variables)
    else access.resourceTargets + Legacy(access.resources)
  }

  /** A target may be read if it is listed, in the legacy form if it is one of the workspace. */
  lemma AllowedExactly(access: Access, kind: Kind, t: Target)
    ensures t in Allowed(access, kind) <==>
              match kind
              case Variable => t in access.variableTargets || (t.scope == Workspace && t.path in access.variables)
              case Resource => t in access.resourceTargets || (t.scope == Workspace && t.path in access.resources)
  {
    assert t.scope == Workspace ==> t == Target(Workspace, t.path);
  }

  function NormalizePaths(paths: set<string>): Option<set<string>> {
    if exists p | p in paths :: NormalizePath(p).None? then None
    else Some(set p | p in paths :: NormalizePath(p).value)
  }

  function NormalizeTarget(target: Target, write: bool): Option<Target> {
    if write && target.scope == Workspace then None
    else
      match NormalizePath(target.path)
      case None => None
      case Some(path) => Some(Target(target.scope, path))
  }

  function NormalizeTargets(targets: set<Target>, write: bool): Option<set<Target>> {
    if exists t | t in targets :: NormalizeTarget(t, write).None? then None
    else Some(set t | t in targets :: NormalizeTarget(t, write).value)
  }

  function NormalizeWrites(writes: set<WriteTarget>): Option<set<WriteTarget>> {
    if exists w | w in writes :: NormalizeTarget(w.target, true).None? then None
    else
      var result := set w | w in writes :: NormalizeWrite(w);
      if exists v, w | v in result && w in result :: v.target == w.target && v.storage != w.storage then None
      else Some(result)
  }

  /** An explicit workspace target that is also listed in the legacy form is dropped. */
  function RemoveLegacy(legacy: set<string>, targets: set<Target>): set<Target> {
    set t | t in targets && !(t.scope == Workspace && t.path in legacy)
  }

  const MAX_ACCESS_PATHS := 256

  function Size(a: Access): nat {
    |a.variables| + |a.resources| + |a.variableTargets| + |a.resourceTargets| + |a.writeVariables| + |a.writeResources|
  }

  function NormalizeAccess(access: Access): Option<Access> {
    var variables := NormalizePaths(access.variables);
    var resources := NormalizePaths(access.resources);
    var variableTargets := NormalizeTargets(access.variableTargets, false);
    var resourceTargets := NormalizeTargets(access.resourceTargets, false);
    var writeVariables := NormalizeWrites(access.writeVariables);
    var writeResources := NormalizeTargets(access.writeResources, true);
    if variables.None? || resources.None? || variableTargets.None? || resourceTargets.None?
       || writeVariables.None? || writeResources.None? then None
    else
      var result := Access(
        variables.value, resources.value,
        RemoveLegacy(variables.value, variableTargets.value),
        RemoveLegacy(resources.value, resourceTargets.value),
        writeVariables.value, writeResources.value);
      if Size(result) > MAX_ACCESS_PATHS then None else Some(result)
  }

  ghost predicate NormalPaths(paths: set<string>) { forall p | p in paths :: NormalPath(p) }

  ghost predicate NormalTargets(targets: set<Target>) { forall t | t in targets :: NormalPath(t.path) }

  lemma NormalPathsStay(paths: set<string>)
    requires NormalPaths(paths)
    ensures NormalizePaths(paths) == Some(paths)
  {
    hide NormalizePath;
    assert forall p | p in paths :: NormalizePath(p) == Some(p);
    var r := set p | p in paths :: NormalizePath(p).value;
    assert forall p | p in paths :: p == NormalizePath(p).value && p in r;
    assert r == paths;
  }

  lemma NormalTargetsStay(targets: set<Target>, write: bool)
    requires NormalTargets(targets)
    requires write ==> forall t | t in targets :: t.scope != Workspace
    ensures NormalizeTargets(targets, write) == Some(targets)
  {
    hide NormalizePath;
    assert forall t | t in targets :: NormalizeTarget(t, write) == Some(t);
    var r := set t | t in targets :: NormalizeTarget(t, write).value;
    assert forall t | t in targets :: t == NormalizeTarget(t, write).value && t in r;
    assert r == targets;
  }

  lemma PathsBecomeNormal(paths: set<string>)
    requires NormalizePaths(paths).Some?
    ensures NormalPaths(NormalizePaths(paths).value)
  {
    forall p | p in paths
      ensures NormalPath(NormalizePath(p).value)
    {
      NormalizedPathIsNormal(p);
    }
    hide NormalizePath;
  }

  lemma TargetsBecomeNormal(targets: set<Target>, write: bool)
    requires NormalizeTargets(targets, write).Some?
    ensures NormalTargets(NormalizeTargets(targets, write).value)
    ensures write ==> forall t | t in NormalizeTargets(targets, write).value :: t.scope != Workspace
  {
    forall t | t in targets
      ensures NormalPath(NormalizeTarget(t, write).value.path)
    {
      NormalizedPathIsNormal(t.path);
    }
    hide NormalizePath;
  }

  function NormalizeWrite(w: WriteTarget): WriteTarget
    requires NormalizeTarget(w.target, true).Some?
  {
    WriteTarget(NormalizeTarget(w.target, true).value, w.storage)
  }

  lemma NormalWriteStays(w: WriteTarget)
    requires NormalizeTarget(w.target, true).Some?
    ensures var n := NormalizeWrite(w); NormalizeTarget(n.target, true).Some? && NormalizeWrite(n) == n
  {
    NormalizedPathIsNormal(w.target.path);
    hide NormalizePath;
  }

  lemma WritesStay(writes: set<WriteTarget>)
    requires NormalizeWrites(writes).Some?
    ensures NormalizeWrites(NormalizeWrites(writes).value) == NormalizeWrites(writes)
  {
    hide NormalizeTarget, NormalizeWrite;
    var result := NormalizeWrites(writes).value;
    forall w | w in result
      ensures NormalizeTarget(w.target, true).Some? && NormalizeWrite(w) == w
    {
      var v :| v in writes && w == NormalizeWrite(v);
      NormalWriteStays(v);
    }
    var again := set w | w in result :: NormalizeWrite(w);
    assert forall w | w in result :: w == NormalizeWrite(w) && w in again;
    assert again == result;
  }

  ghost predicate NormalAccess(access: Access) {
    && NormalPaths(access.variables) && NormalPaths(access.resources)
    && NormalTargets(access.variableTargets) && NormalTargets(access.resourceTargets)
    && NormalTargets(access.writeResources) && (forall t | t in access.writeResources :: t.scope != Workspace)
    && NormalizeWrites(access.writeVariables) == Some(access.writeVariables)
  }

  /** A normalized list is normal, and normalizing it again changes nothing. */
  lemma NormalizeAccessTwice(access: Access)
    requires NormalizeAccess(access).Some?
    ensures var once := NormalizeAccess(access).value;
            NormalAccess(once) && NormalizeAccess(once) == Some(once)
  {
    hide NormalizePath, NormalizePaths, NormalizeTargets, NormalizeWrites, NormalPath;
    PathsBecomeNormal(access.variables);
    PathsBecomeNormal(access.resources);
    TargetsBecomeNormal(access.variableTargets, false);
    TargetsBecomeNormal(access.resourceTargets, false);
    TargetsBecomeNormal(access.writeResources, true);
    WritesStay(access.writeVariables);
    var once := NormalizeAccess(access).value;
    assert NormalAccess(once);
    NormalAccessStays(once);
  }

  lemma NormalAccessStays(once: Access)
    requires NormalAccess(once) && Size(once) <= MAX_ACCESS_PATHS
    requires RemoveLegacy(once.variables, once.variableTargets) == once.variableTargets
    requires RemoveLegacy(once.resources, once.resourceTargets) == once.resourceTargets
    ensures NormalizeAccess(once) == Some(once)
  {
    hide NormalizePath, NormalizePaths, NormalizeTargets, NormalizeWrites, RemoveLegacy, Size;
    NormalPathsStay(once.variables);
    NormalPathsStay(once.resources);
    NormalTargetsStay(once.variableTargets, false);
    NormalTargetsStay(once.resourceTargets, false);
    NormalTargetsStay(once.writeResources, true);
  }

  /** Normalizing a list of normal paths keeps exactly what it allows, or rejects it as too long. */
  lemma NormalizeKeepsAllowed(access: Access)
    requires NormalAccess(access)
    ensures var r := NormalizeAccess(access);
            r.Some? ==>
              && (forall kind :: Allowed(r.value, kind) == Allowed(access, kind))
              && r.value.writeVariables == access.writeVariables && r.value.writeResources == access.writeResources
  {
    NormalPathsStay(access.variables);
    NormalPathsStay(access.resources);
    NormalTargetsStay(access.variableTargets, false);
    NormalTargetsStay(access.resourceTargets, false);
    NormalTargetsStay(access.writeResources, true);
    hide NormalizePath, NormalizePaths, NormalizeTargets, NormalizeWrites;
    assert RemoveLegacy(access.variables, access.variableTargets) + Legacy(access.variables) == access.variableTargets + Legacy(access.variables);
    assert RemoveLegacy(access.resources, access.resourceTargets) + Legacy(access.resources) == access.resourceTargets + Legacy(access.resources);
    var r := NormalizeAccess(access);
    if r.Some? {
      forall kind
        ensures Allowed(r.value, kind) == Allowed(access, kind)
      {
        if kind == Variable {
        } else {
        }
      }
    }
  }

  /** What is left of a list of normal paths. */
  function Shortened(access: Access): Access {
    access.(variableTargets := RemoveLegacy(access.variables, access.variableTargets),
            resourceTargets := RemoveLegacy(access.resources, access.resourceTargets))
  }

  lemma NormalIsShortened(access: Access)
    requires NormalAccess(access)
    ensures NormalizeAccess(access) == if Size(Shortened(access)) > MAX_ACCESS_PATHS then None else Some(Shortened(access))
  {
    NormalPathsStay(access.variables);
    NormalPathsStay(access.resources);
    NormalTargetsStay(access.variableTargets, false);
    NormalTargetsStay(access.resourceTargets, false);
    NormalTargetsStay(access.writeResources, true);
    hide NormalPath, NormalizePath, NormalizePaths, NormalizeTargets, NormalizeWrites, RemoveLegacy, Size;
  }

  // ----- Which lists are accepted

  /** Two write declarations of one variable, up to white space around its path, with different storage. */
  ghost predicate Clash(v: WriteTarget, w: WriteTarget) {
    v.target.scope == w.target.scope && TrimSpace(v.target.path) == TrimSpace(w.target.path) && v.storage != w.storage
  }

  /** Every path is one, writes stay out of the workspace, and no variable is written in two storage classes. */
  ghost predicate Wellformed(access: Access) {
    && (forall p | p in access.variables + access.resources :: ValidPath(p))
    && (forall t | t in access.variableTargets + access.resourceTargets :: ValidPath(t.path))
    && (forall t | t in access.writeResources :: ValidPath(t.path) && t.scope != Workspace)
    && (forall w | w in access.writeVariables :: ValidPath(w.target.path) && w.target.scope != Workspace)
    && (forall v, w | v in access.writeVariables && w in access.writeVariables :: !Clash(v, w))
  }

  function TrimTarget(t: Target): Target { Target(t.scope, TrimSpace(t.path)) }

  /** The targets of a list, white space removed, each counted once; a legacy path is a workspace target. */
  ghost function Distinct(paths: set<string>, targets: set<Target>): set<Target> {
    (set p | p in paths :: Target(Workspace, TrimSpace(p))) + set t | t in targets :: TrimTarget(t)
  }

  ghost function Entries(access: Access): nat {
    |Distinct(access.variables, access.variableTargets)| + |Distinct(access.resources, access.resourceTargets)|
    + |set w | w in access.writeVariables :: TrimTarget(w.target)| + |Distinct({}, access.writeResources)|
  }

  lemma {:induction false} LegacySize(paths: set<string>)
    ensures |Legacy(paths)| == |paths|
  {
    if paths != {} {
      var p :| p in paths;
      assert Legacy(paths) - {Target(Workspace, p)} == Legacy(paths - {p});
      LegacySize(paths - {p});
    }
  }

  lemma AllowedSize(legacy: set<string>, targets: set<Target>)
    ensures |legacy| + |RemoveLegacy(legacy, targets)| == |targets + Legacy(legacy)|
  {
    LegacySize(legacy);
    assert targets + Legacy(legacy) == RemoveLegacy(legacy, targets) + Legacy(legacy);
    assert RemoveLegacy(legacy, targets) !! Legacy(legacy);
  }

  lemma PathsExactly(paths: set<string>)
    ensures NormalizePaths(paths).Some? <==> forall p | p in paths :: ValidPath(p)
    ensures NormalizePaths(paths).Some? ==> NormalizePaths(paths).value == set p | p in paths :: TrimSpace(p)
  {
    hide TrimSpace, GoodSegment, Split;
  }

  lemma TargetsExactly(targets: set<Target>, write: bool)
    ensures NormalizeTargets(targets, write).Some? <==> forall t | t in targets :: ValidPath(t.path) && !(write && t.scope == Workspace)
    ensures NormalizeTargets(targets, write).Some? ==> NormalizeTargets(targets, write).value == set t | t in targets :: TrimTarget(t)
  {
    hide TrimSpace, GoodSegment, Split;
  }

  lemma WriteIsTrimmed(w: WriteTarget)
    ensures NormalizeTarget(w.target, true).Some? <==> ValidPath(w.target.path) && w.target.scope != Workspace
    ensures NormalizeTarget(w.target, true).Some? ==> NormalizeWrite(w) == WriteTarget(TrimTarget(w.target), w.storage)
  {
    hide TrimSpace, GoodSegment, Split;
  }

  lemma WritesExactly(writes: set<WriteTarget>)
    ensures NormalizeWrites(writes).Some? <==>
              && (forall w | w in writes :: ValidPath(w.target.path) && w.target.scope != Workspace)
              && (forall v, w | v in writes && w in writes :: !Clash(v, w))
    ensures NormalizeWrites(writes).Some? ==> |NormalizeWrites(writes).value| == |set w | w in writes :: TrimTarget(w.target)|
  {
    hide TrimSpace, NormalizeTarget, ValidPath, NormalizeWrite;
    forall w | w in writes
      ensures NormalizeTarget(w.target, true).Some? <==> ValidPath(w.target.path) && w.target.scope != Workspace
      ensures NormalizeTarget(w.target, true).Some? ==> NormalizeWrite(w) == WriteTarget(TrimTarget(w.target), w.storage)
    {
      WriteIsTrimmed(w);
    }
    hide Clash, TrimTarget;
    if forall w | w in writes :: NormalizeTarget(w.target, true).Some? {
      ClashIsSeen(writes, set w | w in writes :: NormalizeWrite(w));
      if NormalizeWrites(writes).Some? {
        WritesSize(writes, NormalizeWrites(writes).value);
      }
    }
  }

  lemma WritesSize(writes: set<WriteTarget>, result: set<WriteTarget>)
    requires forall w | w in writes :: NormalizeTarget(w.target, true).Some? && NormalizeWrite(w) == WriteTarget(TrimTarget(w.target), w.storage)
    requires result == set w | w in writes :: NormalizeWrite(w)
    requires forall v, w | v in result && w in result && v.target == w.target :: v.storage == w.storage
    ensures |result| == |set w | w in writes :: TrimTarget(w.target)|
  {
    hide TrimTarget, NormalizeTarget, NormalizeWrite;
    var targets := set w | w in writes :: TrimTarget(w.target);
    forall t
      ensures t in targets <==> exists w :: w in result && w.target == t
    {
      if t in targets {
        var w :| w in writes && t == TrimTarget(w.target);
        assert NormalizeWrite(w) in result;
      }
    }
    OneStorageEach(result, targets);
  }

  lemma ClashIsSeen(writes: set<WriteTarget>, result: set<WriteTarget>)
    requires forall w | w in writes :: NormalizeTarget(w.target, true).Some? && NormalizeWrite(w) == WriteTarget(TrimTarget(w.target), w.storage)
    requires result == set w | w in writes :: NormalizeWrite(w)
    ensures (exists v, w | v in result && w in result :: v.target == w.target && v.storage != w.storage) <==>
              exists v, w | v in writes && w in writes :: Clash(v, w)
  {
    hide NormalizeTarget, NormalizeWrite, TrimSpace;
    if v, w :| v in writes && w in writes && Clash(v, w) {
      assert NormalizeWrite(v) in result && NormalizeWrite(w) in result;
    }
  }

  lemma {:induction false} OneStorageEach(writes: set<WriteTarget>, targets: set<Target>)
    requires forall v, w | v in writes && w in writes && v.target == w.target :: v.storage == w.storage
    requires forall t :: t in targets <==> exists w :: w in writes && w.target == t
    ensures |writes| == |targets|
    decreases writes
  {
    if writes == {} {
      assert targets == {};
    } else {
      var w :| w in writes;
      forall t
        ensures t in targets - {w.target} <==> exists v :: v in writes - {w} && v.target == t
      {
      }
      OneStorageEach(writes - {w}, targets - {w.target});
    }
  }

  /** A list is accepted exactly when it is well formed and has at most 256 entries, each counted once. */
  lemma NormalizesExactly(access: Access)
    ensures NormalizeAccess(access).Some? <==> Wellformed(access) && Entries(access) <= MAX_ACCESS_PATHS
  {
    PathsExactly(access.variables);
    PathsExactly(access.resources);
    TargetsExactly(access.variableTargets, false);
    TargetsExactly(access.resourceTargets, false);
    TargetsExactly(access.writeResources, true);
    WritesExactly(access.writeVariables);
    hide NormalizePaths, NormalizeTargets, NormalizeWrites, ValidPath, Clash, TrimTarget, TrimSpace, RemoveLegacy, Distinct;
    if Wellformed(access) {
      DistinctSize(access.variables, access.variableTargets);
      DistinctSize(access.resources, access.resourceTargets);
      OnlyTargets(access.writeResources);
    }
  }

  lemma DistinctSize(paths: set<string>, targets: set<Target>)
    requires NormalizePaths(paths).Some? && NormalizeTargets(targets, false).Some?
    ensures var legacy := NormalizePaths(paths).value;
            |Distinct(paths, targets)| == |legacy| + |RemoveLegacy(legacy, NormalizeTargets(targets, false).value)|
  {
    PathsExactly(paths);
    TargetsExactly(targets, false);
    hide NormalizePaths, NormalizeTargets, TrimSpace, TrimTarget;
    var legacy, normal := NormalizePaths(paths).value, NormalizeTargets(targets, false).value;
    AllowedSize(legacy, normal);
    assert Legacy(legacy) == set p | p in paths :: Target(Workspace, TrimSpace(p));
    assert Distinct(paths, targets) == normal + Legacy(legacy);
  }

  lemma OnlyTargets(targets: set<Target>)
    ensures Distinct({}, targets) == set t | t in targets :: TrimTarget(t)
  {
  }

  const NOTHING := Access({}, {}, {}, {}, {}, {})

  lemma NothingIsNormal()
    ensures NormalAccess(NOTHING) && NormalizeAccess(NOTHING) == Some(NOTHING)
  {
    var none: set<WriteTarget> := {};
    assert NormalizeWrites(none).Some? && NormalizeWrites(none).value == none;
    NormalAccessStays(NOTHING);
  }

  lemma LetterIsGood(c: char)
    requires 'a' <= c <= 'z'
    ensures GoodSegment([c])
  {
    assert |".."| == 2 && "."[0] == '.' && [c][0] == c;
  }

  lemma LetterSplits(c: char)
    requires c != '/'
    ensures Split([c], '/') == [[c]]
  {
    var rest := Split([c][1..], '/');
    assert rest == [[]];
    assert [c] + rest[0] == [c];
    assert [[c] + rest[0]] + rest[1..] == [[c]];
  }

  /** One lower-case letter is a path. */
  lemma LetterIsPath(c: char)
    requires 'a' <= c <= 'z'
    ensures NormalPath([c])
  {
    LetterIsGood(c);
    LetterSplits(c);
    TrimSpaceKeeps([c]);
    hide TrimSpace, Split, GoodSegment;
    assert NormalizePath([c]) == Some([c]);
  }
}
