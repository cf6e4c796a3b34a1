/**
 One bounded, paged sweep over a backend's runtime-candidate inventory. The backend is an
 arbitrary sequence of replies, so every statement holds against any backend.
 */
module CandidateSweep {
  import opened Text
  import opened Workspaces

  const DEFAULT_PAGE_SIZE := 100
  const DEFAULT_SWEEP_LIMIT := 1000
  const MAX_PAGE_SIZE := 1000

  datatype Reference = Reference(workspaceID: string, kind: string, path: string)

  /** Times count from the zero time, which is 0. */
  datatype Candidate = Candidate(reference: Reference, candidateID: string, lastTouchedAt: int, version: string)

  datatype ListRequest = ListRequest(before: int, cursor: string, limit: int)
  datatype ListReply = ListFault | Page(candidates: seq<Candidate>, nextCursor: string)
  datatype DeleteReply = DeleteFault | Deleted | Unchanged

  datatype LiveReply = LiveFault | Live(references: seq<Reference>)

  datatype Collector = Collector(hasBackend: bool, hasLive: bool, gracePeriod: int, pageSize: int, sweepLimit: int)

  /** The n-th list call and the n-th delete call of a sweep get these replies. */
  datatype Backend = Backend(list: nat -> ListReply, delete: nat -> DeleteReply)

  datatype Counts = Counts(scanned: nat, reclaimed: nat, skippedLive: nat, deferred: nat, failed: nat)

  function ReferenceKey(reference: Reference): string {
    NormalizeWorkspace(reference.workspaceID) + "\0" + ToLower(TrimSpace(reference.kind)) + "\0"
    + Trim(TrimSpace(reference.path), (c: char) => c == '/')
  }

  predicate ValidCandidate(c: Candidate) {
    && DecodesToBytes(TrimSpace(c.candidateID), 16)
    && TrimSpace(c.reference.workspaceID) != ""
    && ToLower(TrimSpace(c.reference.kind)) == "variable-app"
    && TrimSpace(c.reference.path) != ""
    && HasSuffix(ToLower(Trim(c.reference.path, (ch: char) => ch == '/')), "/" + ToLower(c.candidateID))
    && c.lastTouchedAt != 0
    && TrimSpace(c.version) != ""
  }

  /** Two references to one secret: blank workspaces are the default one, kinds have no case, outer slashes do not count. */
  ghost predicate SameSecret(a: Reference, b: Reference) {
    && (if TrimSpace(a.workspaceID) == "" then "default" else TrimSpace(a.workspaceID))
       == (if TrimSpace(b.workspaceID) == "" then "default" else TrimSpace(b.workspaceID))
    && ToLower(TrimSpace(a.kind)) == ToLower(TrimSpace(b.kind))
    && Trim(TrimSpace(a.path), (c: char) => c == '/') == Trim(TrimSpace(b.path), (c: char) => c == '/')
  }

  lemma FirstZero(a: string, x: string, b: string, y: string)
    requires '\0' !in a && '\0' !in b && a + "\0" + x == b + "\0" + y
    ensures a == b && x == y
  {
    var s, t := a + "\0" + x, b + "\0" + y;
    assert s[|a|] == '\0' && t[|b|] == '\0';
    assert forall i | 0 <= i < |a| :: s[i] == a[i];
    assert forall i | 0 <= i < |b| :: s[i] == b[i];
    assert |a| == |b|;
    assert s[..|a|] == a && t[..|b|] == b;
    assert s[|a| + 1..] == x && t[|b| + 1..] == y;
  }

  /**
   References to one secret have one key, so a live reference protects every candidate of its secret. A
   key is not shared with another secret unless a workspace or a kind holds a zero character.
   */
  lemma KeysAgree(a: Reference, b: Reference)
    ensures SameSecret(a, b) ==> ReferenceKey(a) == ReferenceKey(b)
    ensures '\0' !in a.workspaceID + a.kind && '\0' !in b.workspaceID + b.kind && ReferenceKey(a) == ReferenceKey(b) ==> SameSecret(a, b)
  {
    if '\0' !in a.workspaceID + a.kind && '\0' !in b.workspaceID + b.kind && ReferenceKey(a) == ReferenceKey(b) {
      NoZeroInside(a);
      NoZeroInside(b);
      hide TrimSpace, Trim, ToLower;
      PartsAgree(NormalizeWorkspace(a.workspaceID), ToLower(TrimSpace(a.kind)), Trim(TrimSpace(a.path), (c: char) => c == '/'),
                 NormalizeWorkspace(b.workspaceID), ToLower(TrimSpace(b.kind)), Trim(TrimSpace(b.path), (c: char) => c == '/'));
    }
  }

  lemma PartsAgree(v: string, i: string, p: string, w: string, j: string, q: string)
    requires '\0' !in v && '\0' !in i && '\0' !in w && '\0' !in j
    requires v + "\0" + i + "\0" + p == w + "\0" + j + "\0" + q
    ensures v == w && i == j && p == q
  {
    assert v + "\0" + (i + "\0" + p) == v + "\0" + i + "\0" + p;
    assert w + "\0" + (j + "\0" + q) == w + "\0" + j + "\0" + q;
    FirstZero(v, i + "\0" + p, w, j + "\0" + q);
    FirstZero(i, p, j, q);
  }

  lemma NoZeroInside(r: Reference)
    requires '\0' !in r.workspaceID + r.kind
    ensures '\0' !in NormalizeWorkspace(r.workspaceID) && '\0' !in ToLower(TrimSpace(r.kind))
  {
    TrimmedIsPart(r.workspaceID);
    TrimmedIsPart(r.kind);
    hide TrimSpace;
    var k := TrimSpace(r.kind);
    forall i | 0 <= i < |k|
      ensures ToLower(k)[i] != '\0'
    {
      assert k[i] in k;
    }
  }

  lemma TrimmedIsPart(s: string)
    ensures forall c | c in TrimSpace(s) :: c in s
  {
    var t := TrimLeft(s, IsSpace);
    assert forall c | c in t :: c in s;
    assert TrimRight(t, IsSpace) == t[..|TrimSpace(s)|];
  }

  /**
   What the inventory must say of a candidate: an identifier of 16 bytes in hexadecimal, a reference to
   an app variable whose path ends in a segment that is the identifier, and a time and a version.
   */
  lemma ValidExactly(c: Candidate)
    ensures ValidCandidate(c) <==>
              && (var id := TrimSpace(c.candidateID); |id| == 32 && forall i | 0 <= i < |id| :: IsHexDigit(id[i]))
              && TrimSpace(c.reference.workspaceID) != "" && ToLower(TrimSpace(c.reference.kind)) == "variable-app" && TrimSpace(c.reference.path) != ""
              && (exists parent :: ToLower(Trim(c.reference.path, (ch: char) => ch == '/')) == parent + "/" + ToLower(c.candidateID))
              && c.lastTouchedAt != 0 && TrimSpace(c.version) != ""
  {
    hide TrimSpace, Trim, ToLower;
    var path, id := ToLower(Trim(c.reference.path, (ch: char) => ch == '/')), ToLower(c.candidateID);
    EndsExactly(path, "/" + id);
    assert forall parent :: parent + "/" + id == parent + ("/" + id);
  }

  lemma EndsExactly(s: string, suffix: string)
    ensures HasSuffix(s, suffix) <==> exists parent :: s == parent + suffix
  {
    if HasSuffix(s, suffix) {
      assert s == s[..|s| - |suffix|] + suffix;
    }
  }

  /** Old enough, and not a live root: the guard of every delete. */
  predicate Reclaimable(lastTouchedAt: int, key: string, cutoff: int, live: set<string>) {
    lastTouchedAt <= cutoff && key !in live
  }

  datatype Verdict = Invalid | Recent | Rooted | Garbage

  function Judge(c: Candidate, cutoff: int, live: set<string>): Verdict {
    if !ValidCandidate(c) then Invalid
    else if c.lastTouchedAt > cutoff then Recent
    else if ReferenceKey(c.reference) in live then Rooted
    else Garbage
  }

  /** The verdicts, each by its own condition: the cutoff itself is old enough. */
  lemma JudgeExactly(c: Candidate, cutoff: int, live: set<string>)
    ensures Judge(c, cutoff, live).Invalid? <==> !ValidCandidate(c)
    ensures Judge(c, cutoff, live).Recent? <==> ValidCandidate(c) && c.lastTouchedAt > cutoff
    ensures Judge(c, cutoff, live).Rooted? <==> ValidCandidate(c) && c.lastTouchedAt <= cutoff && ReferenceKey(c.reference) in live
    ensures Judge(c, cutoff, live).Garbage? <==> ValidCandidate(c) && c.lastTouchedAt <= cutoff && ReferenceKey(c.reference) !in live
  {
    hide ValidCandidate, ReferenceKey;
  }

  ghost function Count(cs: seq<Candidate>, cutoff: int, live: set<string>, v: Verdict): nat {
    if cs == [] then 0
    else Count(cs[..|cs| - 1], cutoff, live, v) + if Judge(cs[|cs| - 1], cutoff, live) == v then 1 else 0
  }

  /** The candidates a sweep asks the backend to delete, in order. */
  ghost function Garbages(cs: seq<Candidate>, cutoff: int, live: set<string>): seq<Candidate> {
    if cs == [] then []
    else Garbages(cs[..|cs| - 1], cutoff, live)
         + if Judge(cs[|cs| - 1], cutoff, live) == Garbage then [cs[|cs| - 1]] else []
  }

  ghost function Replies(backend: Backend, n: nat, reply: DeleteReply): nat {
    if n == 0 then 0 else Replies(backend, n - 1, reply) + if backend.delete(n - 1) == reply then 1 else 0
  }

  /** The candidates of the first n pages. */
  ghost function Pages(backend: Backend, n: nat): seq<Candidate> {
    if n == 0 then []
    else Pages(backend, n - 1) + match backend.list(n - 1) case Page(cs, _) => cs case ListFault => []
  }

  ghost function LiveKeys(references: seq<Reference>): set<string> {
    set r | r in references :: ReferenceKey(r)
  }

  /** Why the paging loop ended. */
  datatype Ending = Exhausted | PageFault

  /**
   The five counters tell exactly what became of the candidates seen: every candidate is counted
   once, and a page-level fault adds one failure without a candidate.
   */
  ghost predicate Accounts(counts: Counts, backend: Backend, seen: seq<Candidate>, calls: seq<Candidate>, cutoff: int, live: set<string>, faults: nat) {
    && counts.scanned == |seen|
    && calls == Garbages(seen, cutoff, live)
    && counts.reclaimed == Replies(backend, |calls|, Deleted)
    && counts.skippedLive == Count(seen, cutoff, live, Rooted)
    && counts.deferred == Count(seen, cutoff, live, Recent) + Replies(backend, |calls|, Unchanged)
    && counts.failed == Count(seen, cutoff, live, Invalid) + Replies(backend, |calls|, DeleteFault) + faults
  }

  /** Requests ask for the right cutoff, within the page size, and never repeat a cursor. */
  ghost predicate Paged(requests: seq<ListRequest>, cutoff: int, pageSize: int) {
    && (forall i | 0 <= i < |requests| :: requests[i].before == cutoff && 0 < requests[i].limit <= pageSize)
    && (forall i, j | 0 <= i < j < |requests| :: requests[i].cursor != requests[j].cursor)
  }

  /** Where the n-th request goes on: at the start, or where the page before it said. */
  ghost function CursorOf(backend: Backend, n: nat): string {
    if n == 0 then ""
    else match backend.list(n - 1) case Page(_, next) => next case ListFault => ""
  }

  ghost predicate Asks(backend: Backend, request: ListRequest, n: nat, pageSize: int, sweepLimit: int) {
    && request.cursor == CursorOf(backend, n)
    && request.limit == (var rest := sweepLimit - |Pages(backend, n)|; if pageSize < rest then pageSize else rest)
  }

  /** The reply to the n-th request was a page, and not longer than asked for. */
  ghost predicate Honoured(backend: Backend, request: ListRequest, n: nat) {
    backend.list(n).Page? && |backend.list(n).candidates| <= request.limit
  }

  /** After the n-th page, which was accepted, another one is announced. */
  ghost predicate Continues(backend: Backend, n: nat) {
    backend.list(n).Page? && TrimSpace(backend.list(n).nextCursor) != ""
  }

  /** It is announced by an empty page, or under a cursor that was requested before. */
  ghost predicate Loops(backend: Backend, requests: seq<ListRequest>, n: nat) {
    && Continues(backend, n)
    && (backend.list(n).candidates == [] || (n < |requests| && Requested(requests[..n + 1], backend.list(n).nextCursor)))
  }

  /**
   The requests follow the pages one after the other, and the last one is the last for a reason: the limit
   is reached, no more pages are announced, or the backend failed, overran the limit or went in circles.
   */
  ghost predicate Follows(backend: Backend, requests: seq<ListRequest>, accepted: nat, faults: nat, pageSize: int, sweepLimit: int) {
    && (forall i | 0 <= i < |requests| :: Asks(backend, requests[i], i, pageSize, sweepLimit))
    && accepted <= |requests| && (forall i | 0 <= i < accepted :: Honoured(backend, requests[i], i))
    && (forall i | 0 <= i < accepted && i < |requests| - 1 :: Continues(backend, i) && !Loops(backend, requests, i))
    && var n := |requests|;
       if faults == 0 then accepted == n && (|Pages(backend, n)| == sweepLimit || (n > 0 && !Continues(backend, n - 1)))
       else n > 0 && if accepted == n then Loops(backend, requests, n - 1) else accepted == n - 1 && !Honoured(backend, requests[n - 1], n - 1)
  }

  method Sweep(collector: Collector, now: int, live: LiveReply, backend: Backend)
    returns (counts: Counts, ok: bool, requests: seq<ListRequest>, calls: seq<Candidate>, ghost accepted: nat, ghost faults: nat)
    ensures counts.scanned <= SweepLimit(collector)
    ensures faults <= 1
    ensures counts.scanned + faults == counts.reclaimed + counts.skippedLive + counts.deferred + counts.failed
    ensures !Configured(collector) || live.LiveFault? ==> requests == [] && calls == []
    ensures Configured(collector) && live.LiveFault? ==> faults == 1 && counts == Counts(0, 0, 0, 0, 1)
    ensures forall c | c in calls ::
              ValidCandidate(c) && live.Live?
              && Reclaimable(c.lastTouchedAt, ReferenceKey(c.reference), now - collector.gracePeriod, LiveKeys(live.references))
    ensures Configured(collector) && live.Live? ==>
              var cutoff := now - collector.gracePeriod;
              && accepted <= |requests| <= accepted + faults && Paged(requests, cutoff, PageSize(collector))
              && Accounts(counts, backend, Pages(backend, accepted), calls, cutoff, LiveKeys(live.references), faults)
              && Follows(backend, requests, accepted, faults, PageSize(collector), SweepLimit(collector))
              && forall c | c in Pages(backend, accepted) && ValidCandidate(c)
                            && Reclaimable(c.lastTouchedAt, ReferenceKey(c.reference), cutoff, LiveKeys(live.references)) :: c in calls
    ensures ok <==> Configured(collector) && counts.failed == 0
  {
    hide ReferenceKey, ValidCandidate, Accounts, Garbages, TrimSpace, LiveKeys, Follows;
    requests, calls, accepted, faults := [], [], 0, 0;
    counts := Counts(0, 0, 0, 0, 0);
    if !collector.hasBackend || !collector.hasLive {
      return counts, false, [], [], 0, 0;
    }
    var gracePeriod := collector.gracePeriod;
    if gracePeriod <= 0 {
      return counts, false, [], [], 0, 0;
    }
    var pageSize := collector.pageSize;
    if pageSize <= 0 {
      pageSize := DEFAULT_PAGE_SIZE;
    }
    if pageSize > MAX_PAGE_SIZE {
      return counts, false, [], [], 0, 0;
    }
    var sweepLimit := collector.sweepLimit;
    if sweepLimit <= 0 {
      sweepLimit := DEFAULT_SWEEP_LIMIT;
    }
    var cutoff := now - gracePeriod;
    if live.LiveFault? {
      return Counts(0, 0, 0, 0, 1), false, [], [], 0, 1;
    }
    var keys := CollectKeys(live.references);
    counts, requests, calls, accepted, faults := SweepPages(backend, cutoff, keys, pageSize, sweepLimit);
    EveryCandidateCounted(counts, backend, Pages(backend, accepted), calls, cutoff, keys, faults);
    CallsReclaimable(counts, backend, Pages(backend, accepted), calls, cutoff, keys, faults);
    ReclaimableAreCalled(counts, backend, Pages(backend, accepted), calls, cutoff, keys, faults);
    return counts, counts.failed == 0, requests, calls, accepted, faults;
  }

  /** The paging loop: asks for one page after the other until a limit, an end or a fault stops it. */
  method SweepPages(backend: Backend, cutoff: int, keys: set<string>, pageSize: int, sweepLimit: int)
    returns (counts: Counts, requests: seq<ListRequest>, calls: seq<Candidate>, ghost accepted: nat, ghost faults: nat)
    requires 0 < pageSize && 0 < sweepLimit
    ensures counts.scanned <= sweepLimit && faults <= 1
    ensures accepted <= |requests| <= accepted + faults
    ensures Paged(requests, cutoff, pageSize)
    ensures Accounts(counts, backend, Pages(backend, accepted), calls, cutoff, keys, faults)
    ensures Follows(backend, requests, accepted, faults, pageSize, sweepLimit)
  {
    hide Accounts, TrimSpace, Follows, UnderWay, Unused, Paged, Asks, Loops, Pages;
    counts, requests, calls, accepted, faults := Counts(0, 0, 0, 0, 0), [], [], 0, 0;
    var cursor := "";
    var seenCursors: set<string> := {};
    EmptyAccounts(backend, cutoff, keys);
    NothingRequested(backend, cutoff, pageSize, sweepLimit);
    while counts.scanned < sweepLimit
      invariant counts.scanned <= sweepLimit && counts.scanned == |Pages(backend, accepted)|
      invariant Accounts(counts, backend, Pages(backend, accepted), calls, cutoff, keys, 0)
      invariant accepted == |requests| && faults == 0
      invariant Paged(requests, cutoff, pageSize) && Unused(requests, cursor, seenCursors)
      invariant UnderWay(backend, requests, cursor, pageSize, sweepLimit)
      decreases sweepLimit - counts.scanned
    {
      var rest := sweepLimit - counts.scanned;
      var limit := if pageSize < rest then pageSize else rest;
      var page := backend.list(|requests|);
      var request := ListRequest(cutoff, cursor, limit);
      ghost var before, n := requests, |requests|;
      PagedNext(before, request, cutoff, pageSize, seenCursors);
      AsksNext(backend, before, request, pageSize, sweepLimit);
      requests := requests + [request];
      if page.ListFault? {
        FaultAccounts(counts, backend, Pages(backend, accepted), calls, cutoff, keys);
        counts, faults := counts.(failed := counts.failed + 1), 1;
        FaultEnds(backend, before, request, pageSize, sweepLimit);
        return;
      }
      if |page.candidates| > limit {
        FaultAccounts(counts, backend, Pages(backend, accepted), calls, cutoff, keys);
        counts, faults := counts.(failed := counts.failed + 1), 1;
        FaultEnds(backend, before, request, pageSize, sweepLimit);
        return;
      }
      PagesNext(backend, n);
      counts, calls := SweepPage(page.candidates, backend, counts, calls, cutoff, keys, Pages(backend, accepted));
      accepted := accepted + 1;
      if TrimSpace(page.nextCursor) == "" {
        LastPageEnds(backend, before, request, pageSize, sweepLimit);
        return;
      }
      LoopsExactly(backend, before, request, seenCursors);
      if |page.candidates| == 0 {
        FaultAccounts(counts, backend, Pages(backend, accepted), calls, cutoff, keys);
        counts, faults := counts.(failed := counts.failed + 1), 1;
        LoopEnds(backend, before, request, pageSize, sweepLimit);
        return;
      }
      if page.nextCursor == cursor {
        FaultAccounts(counts, backend, Pages(backend, accepted), calls, cutoff, keys);
        counts, faults := counts.(failed := counts.failed + 1), 1;
        LoopEnds(backend, before, request, pageSize, sweepLimit);
        return;
      }
      if page.nextCursor in seenCursors {
        FaultAccounts(counts, backend, Pages(backend, accepted), calls, cutoff, keys);
        counts, faults := counts.(failed := counts.failed + 1), 1;
        LoopEnds(backend, before, request, pageSize, sweepLimit);
        return;
      }
      GoesOn(backend, before, request, pageSize, sweepLimit);
      UnusedNext(before, request, seenCursors, page.nextCursor);
      seenCursors := seenCursors + {page.nextCursor};
      cursor := page.nextCursor;
    }
    LimitEnds(backend, requests, cursor, pageSize, sweepLimit);
  }

  // ----- The requests, one at a time

  /** All requests so far were followed by an accepted page that announced another one. */
  ghost predicate UnderWay(backend: Backend, requests: seq<ListRequest>, cursor: string, pageSize: int, sweepLimit: int) {
    && cursor == CursorOf(backend, |requests|)
    && (forall i | 0 <= i < |requests| :: Asks(backend, requests[i], i, pageSize, sweepLimit) && Honoured(backend, requests[i], i))
    && (forall i | 0 <= i < |requests| :: Continues(backend, i) && !Loops(backend, requests, i))
  }

  lemma NothingRequested(backend: Backend, cutoff: int, pageSize: int, sweepLimit: int)
    ensures UnderWay(backend, [], "", pageSize, sweepLimit) && Unused([], "", {}) && Paged([], cutoff, pageSize) && Pages(backend, 0) == []
  {
  }

  lemma PagesNext(backend: Backend, n: nat)
    requires backend.list(n).Page?
    ensures Pages(backend, n + 1) == Pages(backend, n) + backend.list(n).candidates
  {
  }

  lemma PagedNext(before: seq<ListRequest>, request: ListRequest, cutoff: int, pageSize: int, seenCursors: set<string>)
    requires Paged(before, cutoff, pageSize) && Unused(before, request.cursor, seenCursors)
    requires request.before == cutoff && 0 < request.limit <= pageSize
    ensures Paged(before + [request], cutoff, pageSize)
  {
  }

  lemma AsksNext(backend: Backend, before: seq<ListRequest>, request: ListRequest, pageSize: int, sweepLimit: int)
    requires UnderWay(backend, before, request.cursor, pageSize, sweepLimit)
    requires request.limit == (var rest := sweepLimit - |Pages(backend, |before|)|; if pageSize < rest then pageSize else rest)
    ensures Asks(backend, request, |before|, pageSize, sweepLimit)
  {
  }

  /** What one more request does not change. */
  lemma LoopsStay(backend: Backend, before: seq<ListRequest>, request: ListRequest, i: nat)
    requires i < |before| && Continues(backend, i)
    ensures Loops(backend, before + [request], i) <==> Loops(backend, before, i)
  {
    hide TrimSpace, Requested;
    assert (before + [request])[..i + 1] == before[..i + 1];
  }

  lemma OneMore(backend: Backend, before: seq<ListRequest>, request: ListRequest, pageSize: int, sweepLimit: int)
    requires UnderWay(backend, before, request.cursor, pageSize, sweepLimit) && Asks(backend, request, |before|, pageSize, sweepLimit)
    ensures var more := before + [request];
            && (forall i | 0 <= i < |more| :: Asks(backend, more[i], i, pageSize, sweepLimit))
            && (forall i | 0 <= i < |before| :: Honoured(backend, more[i], i) && Continues(backend, i) && !Loops(backend, more, i))
  {
    hide TrimSpace, Pages, Asks, Honoured, Continues, Loops;
    forall i | 0 <= i < |before|
      ensures !Loops(backend, before + [request], i)
    {
      LoopsStay(backend, before, request, i);
    }
  }

  lemma FaultEnds(backend: Backend, before: seq<ListRequest>, request: ListRequest, pageSize: int, sweepLimit: int)
    requires UnderWay(backend, before, request.cursor, pageSize, sweepLimit) && Asks(backend, request, |before|, pageSize, sweepLimit)
    requires !(backend.list(|before|).Page? && |backend.list(|before|).candidates| <= request.limit)
    ensures Follows(backend, before + [request], |before|, 1, pageSize, sweepLimit)
  {
    hide TrimSpace, Pages, Asks, Loops, Requested;
    OneMore(backend, before, request, pageSize, sweepLimit);
    var more := before + [request];
    assert |more| - 1 == |before| && more[|before|] == request;
    hide Continues, UnderWay;
  }

  lemma LastPageEnds(backend: Backend, before: seq<ListRequest>, request: ListRequest, pageSize: int, sweepLimit: int)
    requires UnderWay(backend, before, request.cursor, pageSize, sweepLimit) && Asks(backend, request, |before|, pageSize, sweepLimit)
    requires Honoured(backend, request, |before|) && !Continues(backend, |before|)
    ensures Follows(backend, before + [request], |before| + 1, 0, pageSize, sweepLimit)
  {
    hide TrimSpace, Pages, Asks, Loops, Requested;
    OneMore(backend, before, request, pageSize, sweepLimit);
    var more := before + [request];
    assert |more| - 1 == |before| && more[|before|] == request;
    hide Continues, UnderWay, Honoured;
  }

  lemma LoopEnds(backend: Backend, before: seq<ListRequest>, request: ListRequest, pageSize: int, sweepLimit: int)
    requires UnderWay(backend, before, request.cursor, pageSize, sweepLimit) && Asks(backend, request, |before|, pageSize, sweepLimit)
    requires Honoured(backend, request, |before|) && Loops(backend, before + [request], |before|)
    ensures Follows(backend, before + [request], |before| + 1, 1, pageSize, sweepLimit)
  {
    hide TrimSpace, Pages, Asks, Loops, Requested;
    OneMore(backend, before, request, pageSize, sweepLimit);
    var more := before + [request];
    assert |more| - 1 == |before| && more[|before|] == request;
    hide Continues, UnderWay, Honoured;
  }

  lemma GoesOn(backend: Backend, before: seq<ListRequest>, request: ListRequest, pageSize: int, sweepLimit: int)
    requires UnderWay(backend, before, request.cursor, pageSize, sweepLimit) && Asks(backend, request, |before|, pageSize, sweepLimit)
    requires Honoured(backend, request, |before|) && Continues(backend, |before|) && !Loops(backend, before + [request], |before|)
    ensures UnderWay(backend, before + [request], backend.list(|before|).nextCursor, pageSize, sweepLimit)
  {
    hide TrimSpace, Pages, Asks, Loops, Requested, Honoured;
    OneMore(backend, before, request, pageSize, sweepLimit);
    var more := before + [request];
    assert |more| - 1 == |before| && more[|before|] == request;
    assert CursorOf(backend, |more|) == backend.list(|before|).nextCursor;
    hide Continues;
  }

  lemma LimitEnds(backend: Backend, requests: seq<ListRequest>, cursor: string, pageSize: int, sweepLimit: int)
    requires UnderWay(backend, requests, cursor, pageSize, sweepLimit) && |Pages(backend, |requests|)| == sweepLimit
    ensures Follows(backend, requests, |requests|, 0, pageSize, sweepLimit)
  {
    hide Asks, Continues, Loops, Honoured;
  }

  /** The remembered cursors tell whether the page that was asked for last leads back. */
  lemma LoopsExactly(backend: Backend, before: seq<ListRequest>, request: ListRequest, seenCursors: set<string>)
    requires Unused(before, request.cursor, seenCursors)
    requires backend.list(|before|).Page? && TrimSpace(backend.list(|before|).nextCursor) != ""
    ensures var page := backend.list(|before|);
            Loops(backend, before + [request], |before|) <==>
              page.candidates == [] || page.nextCursor == request.cursor || page.nextCursor in seenCursors
  {
    hide TrimSpace, Requested, Unused;
    var more, next := before + [request], backend.list(|before|).nextCursor;
    NotBlank(next);
    assert more[..|before| + 1] == more;
    RequestedNext(before, request, next);
    SeenIsRequested(before, request.cursor, seenCursors, next);
  }

  lemma NotBlank(s: string)
    requires TrimSpace(s) != ""
    ensures s != ""
  {
    TrimSpaceKeeps("");
  }

  /** Apart from the first cursor, which is empty, the remembered ones are the requested ones and the next. */
  lemma SeenIsRequested(before: seq<ListRequest>, cursor: string, seenCursors: set<string>, x: string)
    requires Unused(before, cursor, seenCursors) && x != ""
    ensures Requested(before, x) || x == cursor <==> x in seenCursors || x == cursor
  {
    hide Requested;
  }

  lemma UnusedNext(before: seq<ListRequest>, request: ListRequest, seenCursors: set<string>, next: string)
    requires Unused(before, request.cursor, seenCursors) && next != request.cursor && next !in seenCursors && TrimSpace(next) != ""
    ensures Unused(before + [request], next, seenCursors + {next})
  {
    hide TrimSpace, Requested;
    NotBlank(next);
    var more := before + [request];
    RequestedNext(before, request, next);
    forall x | Requested(more, x)
      ensures x == "" || x in seenCursors + {next}
    {
      RequestedNext(before, request, x);
    }
    forall x | x in seenCursors + {next}
      ensures x == next || Requested(more, x)
    {
      RequestedNext(before, request, x);
    }
  }

  predicate Configured(c: Collector) {
    c.hasBackend && c.hasLive && c.gracePeriod > 0 && PageSize(c) <= MAX_PAGE_SIZE
  }

  function PageSize(c: Collector): int {
    if c.pageSize <= 0 then DEFAULT_PAGE_SIZE else c.pageSize
  }

  function SweepLimit(c: Collector): int {
    if c.sweepLimit <= 0 then DEFAULT_SWEEP_LIMIT else c.sweepLimit
  }

  ghost predicate Requested(requests: seq<ListRequest>, cursor: string) {
    exists i :: 0 <= i < |requests| && requests[i].cursor == cursor
  }

  lemma RequestedNext(before: seq<ListRequest>, request: ListRequest, cursor: string)
    ensures Requested(before + [request], cursor) <==> Requested(before, cursor) || cursor == request.cursor
  {
    var more := before + [request];
    if i :| 0 <= i < |before| && before[i].cursor == cursor {
      assert more[i].cursor == cursor;
    }
    if cursor == request.cursor {
      assert more[|before|].cursor == cursor;
    }
  }

  /** The next cursor was not requested before, and all cursors but the first are remembered. */
  ghost predicate Unused(requests: seq<ListRequest>, cursor: string, seenCursors: set<string>) {
    && !Requested(requests, cursor)
    && (forall x | Requested(requests, x) :: x == "" || x in seenCursors)
    && (forall x | x in seenCursors :: x == cursor || Requested(requests, x))
    && (cursor == "" || cursor in seenCursors)
  }

  /** The keys of the live references. */
  method CollectKeys(references: seq<Reference>) returns (keys: set<string>)
    ensures keys == LiveKeys(references)
  {
    hide ReferenceKey;
    keys := {};
    for i := 0 to |references|
      invariant keys == LiveKeys(references[..i])
    {
      assert references[..i + 1] == references[..i] + [references[i]];
      keys := keys + {ReferenceKey(references[i])};
    }
    assert references[..|references|] == references;
  }

  /** One page: each candidate is skipped, deferred, or handed to the backend for deletion. */
  method SweepPage(candidates: seq<Candidate>, backend: Backend, counts0: Counts, calls0: seq<Candidate>,
                   cutoff: int, live: set<string>, ghost before: seq<Candidate>)
    returns (counts: Counts, calls: seq<Candidate>)
    requires Accounts(counts0, backend, before, calls0, cutoff, live, 0)
    ensures Accounts(counts, backend, before + candidates, calls, cutoff, live, 0)
    ensures counts.scanned == counts0.scanned + |candidates|
  {
    hide ReferenceKey, ValidCandidate;
    counts, calls := counts0, calls0;
    assert before + candidates[..0] == before;
    for i := 0 to |candidates|
      invariant Accounts(counts, backend, before + candidates[..i], calls, cutoff, live, 0)
    {
      var candidate := candidates[i];
      ghost var seen := before + candidates[..i];
      assert before + candidates[..i + 1] == seen + [candidate];
      assert (seen + [candidate])[..|seen|] == seen;
      counts := counts.(scanned := counts.scanned + 1);
      if !ValidCandidate(candidate) {
        counts := counts.(failed := counts.failed + 1);
        continue;
      }
      if candidate.lastTouchedAt > cutoff {
        counts := counts.(deferred := counts.deferred + 1);
        continue;
      }
      if ReferenceKey(candidate.reference) in live {
        counts := counts.(skippedLive := counts.skippedLive + 1);
        continue;
      }
      var reply := backend.delete(|calls|);
      calls := calls + [candidate];
      if reply == DeleteFault {
        counts := counts.(failed := counts.failed + 1);
        continue;
      }
      if reply == Deleted {
        counts := counts.(reclaimed := counts.reclaimed + 1);
      } else {
        counts := counts.(deferred := counts.deferred + 1);
      }
    }
    assert candidates[..|candidates|] == candidates;
  }

  lemma EmptyAccounts(backend: Backend, cutoff: int, live: set<string>)
    ensures Accounts(Counts(0, 0, 0, 0, 0), backend, Pages(backend, 0), [], cutoff, live, 0)
  {
  }

  lemma FaultAccounts(counts: Counts, backend: Backend, seen: seq<Candidate>, calls: seq<Candidate>, cutoff: int, live: set<string>)
    requires Accounts(counts, backend, seen, calls, cutoff, live, 0)
    ensures Accounts(counts.(failed := counts.failed + 1), backend, seen, calls, cutoff, live, 1)
  {
  }

  lemma {:induction false} VerdictsPartition(cs: seq<Candidate>, cutoff: int, live: set<string>)
    ensures |cs| == Count(cs, cutoff, live, Invalid) + Count(cs, cutoff, live, Recent)
                    + Count(cs, cutoff, live, Rooted) + |Garbages(cs, cutoff, live)|
  {
    if cs != [] {
      VerdictsPartition(cs[..|cs| - 1], cutoff, live);
    }
  }

  lemma {:induction false} RepliesPartition(backend: Backend, n: nat)
    ensures n == Replies(backend, n, Deleted) + Replies(backend, n, Unchanged) + Replies(backend, n, DeleteFault)
  {
    if n > 0 {
      RepliesPartition(backend, n - 1);
    }
  }

  /** Conservation: the outcomes add up to the candidates scanned plus the page-level fault. */
  lemma EveryCandidateCounted(counts: Counts, backend: Backend, seen: seq<Candidate>, calls: seq<Candidate>, cutoff: int, live: set<string>, faults: nat)
    requires Accounts(counts, backend, seen, calls, cutoff, live, faults)
    ensures counts.scanned + faults == counts.reclaimed + counts.skippedLive + counts.deferred + counts.failed
  {
    VerdictsPartition(seen, cutoff, live);
    RepliesPartition(backend, |calls|);
  }

  lemma CallsReclaimable(counts: Counts, backend: Backend, seen: seq<Candidate>, calls: seq<Candidate>, cutoff: int, live: set<string>, faults: nat)
    requires Accounts(counts, backend, seen, calls, cutoff, live, faults)
    ensures forall c | c in calls ::
              ValidCandidate(c) && Reclaimable(c.lastTouchedAt, ReferenceKey(c.reference), cutoff, live)
  {
    GarbagesReclaimable(seen, cutoff, live);
  }

  lemma {:induction false} GarbagesReclaimable(cs: seq<Candidate>, cutoff: int, live: set<string>)
    ensures forall c | c in Garbages(cs, cutoff, live) ::
              ValidCandidate(c) && Reclaimable(c.lastTouchedAt, ReferenceKey(c.reference), cutoff, live)
  {
    hide ReferenceKey, ValidCandidate;
    if cs != [] {
      GarbagesReclaimable(cs[..|cs| - 1], cutoff, live);
    }
  }

  /** No candidate that may go is passed over. */
  lemma ReclaimableAreCalled(counts: Counts, backend: Backend, seen: seq<Candidate>, calls: seq<Candidate>, cutoff: int, live: set<string>, faults: nat)
    requires Accounts(counts, backend, seen, calls, cutoff, live, faults)
    ensures forall c | c in seen && ValidCandidate(c) && Reclaimable(c.lastTouchedAt, ReferenceKey(c.reference), cutoff, live) :: c in calls
  {
    hide ValidCandidate, ReferenceKey;
    forall c | c in seen && ValidCandidate(c) && Reclaimable(c.lastTouchedAt, ReferenceKey(c.reference), cutoff, live)
      ensures c in calls
    {
      JudgeExactly(c, cutoff, live);
      GarbageIsListed(seen, cutoff, live, c);
    }
  }

  lemma {:induction false} GarbageIsListed(cs: seq<Candidate>, cutoff: int, live: set<string>, c: Candidate)
    requires c in cs && Judge(c, cutoff, live) == Garbage
    ensures c in Garbages(cs, cutoff, live)
  {
    hide Judge;
    var front, last := cs[..|cs| - 1], cs[|cs| - 1];
    assert cs == front + [last];
    if c in front {
      GarbageIsListed(front, cutoff, live, c);
    }
  }
}
