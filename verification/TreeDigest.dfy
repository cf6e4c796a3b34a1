/**
 The digest of an execution bundle, computed twice: over a directory tree when it is published,
 and over a tar stream when it is fetched. Both reduce to the byte string fed to the hash.
 */
module TreeDigest {
  import opened Octets
  import opened Options
  import opened Encoding
  import opened Text

  const DIR: Bytes := Ascii("dir")
  const FILE: Bytes := Ascii("file")
  const SYMLINK: Bytes := Ascii("symlink")
  const MARKER: Bytes := Ascii(".windforce-execution-bundle.json")

  datatype Kind = Directory | Regular(content: Bytes) | Symlink(target: Bytes)

  /** One entry of a tree: slash-separated path relative to its root, permission bits, kind. */
  datatype Entry = Entry(path: Bytes, mode: nat, kind: Kind)

  function Tag(kind: Kind): Bytes {
    match kind
    case Directory => DIR
    case Regular(_) => FILE
    case Symlink(_) => SYMLINK
  }

  function Details(kind: Kind): Bytes {
    match kind
    case Directory => []
    case Regular(content) => HashString(Digits(|content|, 10)) + content
    case Symlink(target) => HashString(target)
  }

  function EntryBytes(e: Entry): Bytes {
    HashString(e.path) + (HashString(Digits(e.mode, 8)) + (HashString(Tag(e.kind)) + Details(e.kind)))
  }

  function TreeBytes(entries: seq<Entry>): Bytes {
    if entries == [] then [] else TreeBytes(entries[..|entries| - 1]) + EntryBytes(entries[|entries| - 1])
  }

  /** The entries the walk hashes: all but the descriptor marker at the root. */
  function Hashed(entries: seq<Entry>): seq<Entry> {
    if entries == [] then []
    else Hashed(entries[..|entries| - 1])
         + if entries[|entries| - 1].path == MARKER then [] else [entries[|entries| - 1]]
  }

  /** Exactly the entries under another name than the marker's are hashed, in their order. */
  lemma {:induction false} HashedExactly(before: seq<Entry>, e: Entry, after: seq<Entry>)
    ensures Hashed(before + [e] + after) ==
            Hashed(before) + (if e.path == Ascii(".windforce-execution-bundle.json") then [] else [e]) + Hashed(after)
    decreases |after|
  {
    if after == [] {
      assert before + [e] + after == before + [e];
      HashedSnoc(before, e);
    } else {
      var front, last := after[..|after| - 1], after[|after| - 1];
      assert after == front + [last] && before + [e] + after == (before + [e] + front) + [last];
      HashedExactly(before, e, front);
      HashedSnoc(before + [e] + front, last);
      HashedSnoc(front, last);
      hide Hashed;
    }
  }

  lemma HashedSnoc(front: seq<Entry>, last: Entry)
    ensures Hashed(front + [last]) == Hashed(front) + if last.path == Ascii(".windforce-execution-bundle.json") then [] else [last]
  {
    assert (front + [last])[..|front|] == front;
  }

  /** Files and links are counted, and the sizes of files added up. */
  lemma CountedExactly(front: seq<Entry>, last: Entry)
    ensures |Files(front + [last])| == |Files(front)| + (if last.kind.Directory? then 0 else 1) && Files([]) == []
    ensures TotalSize(front + [last]) == TotalSize(front) + (if last.kind.Regular? then |last.kind.content| else 0) && TotalSize([]) == 0
  {
    assert (front + [last])[..|front|] == front;
  }

  /** Walks a tree in order, feeding the hash and counting files and bytes. */
  method HashTree(entries: seq<Entry>) returns (written: Bytes, fileCount: nat, sizeBytes: nat)
    ensures written == TreeBytes(Hashed(entries))
    ensures fileCount == |Files(Hashed(entries))|
    ensures sizeBytes == TotalSize(Hashed(entries))
  {
    hide HashString, Digits, EntryBytes;
    written, fileCount, sizeBytes := [], 0, 0;
    for i := 0 to |entries|
      invariant written == TreeBytes(Hashed(entries[..i]))
      invariant fileCount == |Files(Hashed(entries[..i]))|
      invariant sizeBytes == TotalSize(Hashed(entries[..i]))
    {
      assert entries[..i + 1][..i] == entries[..i];
      var e := entries[i];
      if e.path == MARKER {
        assert Hashed(entries[..i + 1]) == Hashed(entries[..i]);
        continue;
      }
      ghost var done := Hashed(entries[..i]);
      assert Hashed(entries[..i + 1]) == done + [e];
      assert (done + [e])[..|done|] == done;
      written := FeedEntry(e, written);
      match e.kind {
        case Symlink(_) =>
          fileCount := fileCount + 1;
        case Directory =>
        case Regular(content) =>
          sizeBytes := sizeBytes + |content|;
          fileCount := fileCount + 1;
      }
    }
    assert entries[..|entries|] == entries;
  }

  /** Feeds one entry to the hash, string by string. */
  method FeedEntry(e: Entry, before: Bytes) returns (written: Bytes)
    ensures written == before + EntryBytes(e)
  {
    hide HashString, Digits;
    written := before + HashString(e.path);
    written := written + HashString(Digits(e.mode, 8));
    var head := written;
    match e.kind {
      case Symlink(target) =>
        written := written + HashString(SYMLINK);
        written := written + HashString(target);
        Assoc(head, HashString(SYMLINK), HashString(target));
      case Directory =>
        written := written + HashString(DIR);
        assert HashString(DIR) + [] == HashString(DIR);
      case Regular(content) =>
        written := written + HashString(FILE);
        written := written + HashString(Digits(|content|, 10));
        written := written + content;
        Assoc(head + HashString(FILE), HashString(Digits(|content|, 10)), content);
        Assoc(head, HashString(FILE), HashString(Digits(|content|, 10)) + content);
    }
    var tail := HashString(Tag(e.kind)) + Details(e.kind);
    assert written == head + tail;
    Assoc(before, HashString(e.path), HashString(Digits(e.mode, 8)));
    Assoc(before, HashString(e.path) + HashString(Digits(e.mode, 8)), tail);
    Assoc(HashString(e.path), HashString(Digits(e.mode, 8)), tail);
  }

  function Files(entries: seq<Entry>): seq<Entry> {
    if entries == [] then []
    else Files(entries[..|entries| - 1]) + if entries[|entries| - 1].kind.Directory? then [] else [entries[|entries| - 1]]
  }

  function TotalSize(entries: seq<Entry>): nat {
    if entries == [] then 0
    else TotalSize(entries[..|entries| - 1])
         + match entries[|entries| - 1].kind case Regular(content) => |content| case _ => 0
  }

  // ----- Unique decodability

  lemma {:induction false} TreeBytesCons(e: Entry, rest: seq<Entry>)
    ensures TreeBytes([e] + rest) == EntryBytes(e) + TreeBytes(rest)
  {
    var all := [e] + rest;
    hide EntryBytes;
    if rest == [] {
      assert all[..|all| - 1] == [];
      assert EntryBytes(e) + [] == EntryBytes(e);
    } else {
      Assoc(EntryBytes(e), TreeBytes(rest[..|rest| - 1]), EntryBytes(rest[|rest| - 1]));
      assert all[..|all| - 1] == [e] + rest[..|rest| - 1];
      TreeBytesCons(e, rest[..|rest| - 1]);
    }
  }

  lemma TagDetermines(a: Kind, b: Kind)
    requires Tag(a) == Tag(b)
    ensures a.Directory? <==> b.Directory?
    ensures a.Regular? <==> b.Regular?
  {
    assert |Tag(a)| == (if a.Directory? then 3 else if a.Regular? then 4 else 7);
    assert |Tag(b)| == (if b.Directory? then 3 else if b.Regular? then 4 else 7);
  }

  lemma DetailsSplit(a: Kind, x: Bytes, b: Kind, y: Bytes)
    requires Tag(a) == Tag(b) && Details(a) + x == Details(b) + y
    ensures a == b && x == y
  {
    hide HashString, Digits;
    TagDetermines(a, b);
    match a
    case Directory =>
      assert Details(a) + x == x && Details(b) + y == y;
    case Symlink(s) =>
      HashStringSplits(s, x, b.target, y);
    case Regular(s) =>
      RegularSplits(s, x, b.content, y);
  }

  lemma RegularSplits(s: Bytes, x: Bytes, t: Bytes, y: Bytes)
    requires HashString(Digits(|s|, 10)) + s + x == HashString(Digits(|t|, 10)) + t + y
    ensures s == t && x == y
  {
    hide HashString, Digits;
    var m, n := Digits(|s|, 10), Digits(|t|, 10);
    Assoc(HashString(m), s, x);
    Assoc(HashString(n), t, y);
    HashStringSplits(m, s + x, n, t + y);
    DigitsRoundTrip(|s|, 10);
    DigitsRoundTrip(|t|, 10);
    SameLengthSplits(s, x, t, y);
  }

  lemma EntrySplits(a: Entry, x: Bytes, b: Entry, y: Bytes)
    requires EntryBytes(a) + x == EntryBytes(b) + y
    ensures a == b && x == y
  {
    hide HashString, Digits, Tag, Details;
    var m, n := Digits(a.mode, 8), Digits(b.mode, 8);
    EntryThen(a, x);
    EntryThen(b, y);
    var a1, b1 := HashString(Tag(a.kind)) + (Details(a.kind) + x), HashString(Tag(b.kind)) + (Details(b.kind) + y);
    HashStringSplits(a.path, HashString(m) + a1, b.path, HashString(n) + b1);
    HashStringSplits(m, a1, n, b1);
    HashStringSplits(Tag(a.kind), Details(a.kind) + x, Tag(b.kind), Details(b.kind) + y);
    DigitsRoundTrip(a.mode, 8);
    DigitsRoundTrip(b.mode, 8);
    DetailsSplit(a.kind, x, b.kind, y);
  }

  lemma EntryThen(e: Entry, x: Bytes)
    ensures EntryBytes(e) + x ==
            HashString(e.path) + (HashString(Digits(e.mode, 8)) + (HashString(Tag(e.kind)) + (Details(e.kind) + x)))
  {
    hide HashString, Digits, Tag, Details;
    var p, m, t, d := HashString(e.path), HashString(Digits(e.mode, 8)), HashString(Tag(e.kind)), Details(e.kind);
    Assoc(p, m + (t + d), x);
    Assoc(m, t + d, x);
    Assoc(t, d, x);
  }

  lemma EntryNotEmpty(e: Entry)
    ensures EntryBytes(e) != []
  {
    assert |HashString(e.path)| > 0;
  }

  /** Equal digest pre-images mean equal trees: the bytes determine the entry sequence. */
  lemma {:induction false} TreeBytesInjective(a: seq<Entry>, b: seq<Entry>)
    ensures TreeBytes(a) == TreeBytes(b) <==> a == b
    decreases |a|
  {
    hide EntryBytes;
    if a != [] {
      assert a == [a[0]] + a[1..];
      TreeBytesCons(a[0], a[1..]);
      EntryNotEmpty(a[0]);
    }
    if b != [] {
      assert b == [b[0]] + b[1..];
      TreeBytesCons(b[0], b[1..]);
      EntryNotEmpty(b[0]);
    }
    if a != [] && b != [] {
      if TreeBytes(a) == TreeBytes(b) {
        EntrySplits(a[0], TreeBytes(a[1..]), b[0], TreeBytes(b[1..]));
      }
      TreeBytesInjective(a[1..], b[1..]);
    }
  }

  // ----- The tar side

  const SLASH: byte := 47
  const DOT: byte := 46

  datatype Flag = DirFlag | RegFlag | LinkFlag | OtherFlag

  /** A tar header with the bytes that follow it. */
  datatype Header = Header(name: Bytes, flag: Flag, mode: nat, size: nat, linkname: Bytes, content: Bytes)

  predicate IsAbs(path: Bytes) { path != [] && path[0] == SLASH }

  function TrimSlash(name: Bytes): Bytes {
    if name != [] && name[|name| - 1] == SLASH then name[..|name| - 1] else name
  }

  /** One segment of a path on top of the segments kept so far. */
  function PushSegment(kept: seq<Bytes>, segment: Bytes, rooted: bool): seq<Bytes> {
    if segment == [] || segment == [DOT] then kept
    else if segment != [DOT, DOT] then kept + [segment]
    else if kept != [] && kept[|kept| - 1] != [DOT, DOT] then kept[..|kept| - 1]
    else if rooted then kept
    else kept + [segment]
  }

  function CleanSegments(segments: seq<Bytes>, rooted: bool): seq<Bytes> {
    if segments == [] then []
    else PushSegment(CleanSegments(segments[..|segments| - 1], rooted), segments[|segments| - 1], rooted)
  }

  /** filepath.Clean on slash-separated paths. */
  function Clean(path: Bytes): Bytes {
    var kept := CleanSegments(Split(path, SLASH), IsAbs(path));
    if IsAbs(path) then [SLASH] + Join(kept, SLASH)
    else if kept == [] then [DOT] else Join(kept, SLASH)
  }

  /** The checks on a link inside the tree whose root directory has the given segments. */
  predicate SymlinkStaysInside(root: seq<Bytes>, name: Bytes, target: Bytes) {
    && !IsAbs(target)
    && var at := Split(name, SLASH);
       root <= CleanSegments(root + at[..|at| - 1] + Split(target, SLASH), true)
  }

  /** What extraction makes of one header; None when it refuses it. */
  function Extracted(root: seq<Bytes>, h: Header): Option<Entry> {
    var name := Clean(TrimSlash(h.name));
    if name == [DOT] || name == [] || HasPrefix(name, [DOT, DOT]) || IsAbs(name) then None
    else match h.flag
      case DirFlag => Some(Entry(name, h.mode % 512, Directory))
      case RegFlag => if |h.content| == h.size then Some(Entry(name, h.mode % 512, Regular(h.content))) else None
      case LinkFlag => if SymlinkStaysInside(root, name, h.linkname) then Some(Entry(name, h.mode % 512, Symlink(h.linkname))) else None
      case OtherFlag => None
  }

  /** The entries of a whole archive, or None when one header is refused. */
  function ExtractedAll(root: seq<Bytes>, headers: seq<Header>): Option<seq<Entry>> {
    if headers == [] then Some([])
    else match (ExtractedAll(root, headers[..|headers| - 1]), Extracted(root, headers[|headers| - 1]))
      case (Some(es), Some(e)) => Some(es + [e])
      case _ => None
  }

  /** Reads a tar stream, feeding the hash while it extracts; fails at the first refused header. */
  method ExtractTar(root: seq<Bytes>, headers: seq<Header>) returns (written: Option<Bytes>)
    ensures written == match ExtractedAll(root, headers) case Some(es) => Some(TreeBytes(es)) case None => None
  {
    hide Clean, SymlinkStaysInside, EntryBytes;
    var digest: Bytes := [];
    for i := 0 to |headers|
      invariant ExtractedAll(root, headers[..i]).Some?
      invariant digest == TreeBytes(ExtractedAll(root, headers[..i]).value)
    {
      assert headers[..i + 1][..i] == headers[..i];
      var next := ExtractHeader(root, headers[i], digest);
      if next.None? {
        RefusedLater(root, headers, i + 1);
        return None;
      }
      ghost var es, e := ExtractedAll(root, headers[..i]).value, Extracted(root, headers[i]).value;
      assert (es + [e])[..|es|] == es;
      digest := next.value;
    }
    assert headers[..|headers|] == headers;
    return Some(digest);
  }

  /** One header: its name and mode are hashed first, then what its type calls for. */
  method ExtractHeader(root: seq<Bytes>, header: Header, before: Bytes) returns (written: Option<Bytes>)
    ensures written == match Extracted(root, header) case Some(e) => Some(before + EntryBytes(e)) case None => None
  {
    hide HashString, Digits, Clean, SymlinkStaysInside;
    var name := Clean(TrimSlash(header.name));
    if name == [DOT] || name == [] || HasPrefix(name, [DOT, DOT]) || IsAbs(name) {
      return None;
    }
    var mode := header.mode % 512;
    var digest := before + HashString(name);
    digest := digest + HashString(Digits(mode, 8));
    var head := digest;
    ghost var kind := Directory;
    match header.flag {
      case DirFlag =>
        digest := digest + HashString(DIR);
        assert HashString(DIR) + [] == HashString(DIR);
      case RegFlag =>
        digest := digest + HashString(FILE);
        digest := digest + HashString(Digits(header.size, 10));
        digest := digest + header.content;
        if |header.content| != header.size {
          return None;
        }
        kind := Regular(header.content);
        Assoc(head + HashString(FILE), HashString(Digits(header.size, 10)), header.content);
        Assoc(head, HashString(FILE), HashString(Digits(header.size, 10)) + header.content);
      case LinkFlag =>
        digest := digest + HashString(SYMLINK);
        digest := digest + HashString(header.linkname);
        if !SymlinkStaysInside(root, name, header.linkname) {
          return None;
        }
        kind := Symlink(header.linkname);
        Assoc(head, HashString(SYMLINK), HashString(header.linkname));
      case OtherFlag =>
        return None;
    }
    ghost var tail := HashString(Tag(kind)) + Details(kind);
    assert digest == head + tail;
    Assoc(before, HashString(name), HashString(Digits(mode, 8)));
    Assoc(before, HashString(name) + HashString(Digits(mode, 8)), tail);
    Assoc(HashString(name), HashString(Digits(mode, 8)), tail);
    return Some(digest);
  }

  lemma {:induction false} RefusedLater(root: seq<Bytes>, headers: seq<Header>, n: nat)
    requires n <= |headers| && ExtractedAll(root, headers[..n]).None?
    ensures ExtractedAll(root, headers).None?
    decreases |headers|
  {
    if n < |headers| {
      var front := headers[..|headers| - 1];
      assert front[..n] == headers[..n];
      RefusedLater(root, front, n);
    } else {
      assert headers[..n] == headers;
    }
  }

  // ----- Publishing and fetching agree

  predicate PlainSegments(segments: seq<Bytes>) {
    forall i | 0 <= i < |segments| :: segments[i] != [] && segments[i] != [DOT] && segments[i] != [DOT, DOT]
  }

  /** A path as the directory walk produces it: relative, no empty, '.' or '..' segment. */
  predicate WalkPath(path: Bytes) {
    && !IsAbs(path)
    && PlainSegments(Split(path, SLASH))
  }

  predicate WalkEntry(e: Entry) {
    WalkPath(e.path) && e.mode < 512
  }

  /** The header the archive lists for an entry; directories get a trailing slash. */
  function HeaderOf(e: Entry): Header {
    match e.kind
    case Directory => Header(e.path + [SLASH], DirFlag, e.mode, 0, [], [])
    case Regular(content) => Header(e.path, RegFlag, e.mode, |content|, [], content)
    case Symlink(target) => Header(e.path, LinkFlag, e.mode, 0, target, [])
  }

  function ArchiveOf(entries: seq<Entry>): seq<Header> {
    seq(|entries|, i requires 0 <= i < |entries| => HeaderOf(entries[i]))
  }

  /** The one thing extraction demands beyond a hashable tree. */
  predicate Extractable(root: seq<Bytes>, e: Entry) {
    && !HasPrefix(e.path, [DOT, DOT])
    && (e.kind.Symlink? ==> SymlinkStaysInside(root, e.path, e.kind.target))
  }

  // ----- Where a link leads

  /** One step of a lexical walk from a directory. */
  function Stepped(at: seq<Bytes>, segment: Bytes): seq<Bytes> {
    if segment == [] || segment == Ascii(".") then at
    else if segment == Ascii("..") then (if at == [] then [] else at[..|at| - 1])
    else at + [segment]
  }

  /** The directory or file that a walk along the segments ends at. */
  function Walked(at: seq<Bytes>, segments: seq<Bytes>): seq<Bytes>
    decreases |segments|
  {
    if segments == [] then at else Walked(Stepped(at, segments[0]), segments[1..])
  }

  lemma {:induction false} WalkedSnoc(at: seq<Bytes>, segments: seq<Bytes>, last: Bytes)
    ensures Walked(at, segments + [last]) == Stepped(Walked(at, segments), last)
    decreases |segments|
  {
    hide Stepped;
    if segments == [] {
      assert ([] + [last])[1..] == [];
    } else {
      assert (segments + [last])[1..] == segments[1..] + [last];
      WalkedSnoc(Stepped(at, segments[0]), segments[1..], last);
    }
  }

  lemma PushIsStepped(kept: seq<Bytes>, segment: Bytes)
    requires PlainSegments(kept)
    ensures PushSegment(kept, segment, true) == Stepped(kept, segment) && PlainSegments(Stepped(kept, segment))
  {
    assert Ascii(".") == [DOT] && Ascii("..") == [DOT, DOT];
  }

  lemma {:induction false} CleanIsWalked(at: seq<Bytes>, segments: seq<Bytes>)
    requires PlainSegments(at)
    ensures CleanSegments(at + segments, true) == Walked(at, segments) && PlainSegments(Walked(at, segments))
    decreases |segments|
  {
    hide PushSegment, Stepped, PlainSegments;
    if segments == [] {
      assert at + segments == at;
      PlainSegmentsAreClean(at, true);
    } else {
      var front, last := segments[..|segments| - 1], segments[|segments| - 1];
      assert segments == front + [last];
      assert (at + segments)[..|at + segments| - 1] == at + front;
      CleanIsWalked(at, front);
      WalkedSnoc(at, front, last);
      PushIsStepped(Walked(at, front), last);
    }
  }

  lemma PlainJoins(a: seq<Bytes>, b: seq<Bytes>)
    requires PlainSegments(a) && PlainSegments(b)
    ensures PlainSegments(a + b)
  {
  }

  /** A link is accepted exactly when it is relative and the walk from its directory ends in the tree. */
  lemma LinkIsWalked(root: seq<Bytes>, name: Bytes, target: Bytes)
    requires PlainSegments(root) && WalkPath(name)
    ensures var at := Split(name, SLASH);
            SymlinkStaysInside(root, name, target) <==> !IsAbs(target) && root <= Walked(root + at[..|at| - 1], Split(target, SLASH))
  {
    hide CleanSegments;
    var at := Split(name, SLASH);
    PlainJoins(root, at[..|at| - 1]);
    CleanIsWalked(root + at[..|at| - 1], Split(target, SLASH));
  }

  /** A walk that may not leave the directory it starts from. */
  function WalkedInside(at: seq<Bytes>, segments: seq<Bytes>): Option<seq<Bytes>>
    decreases |segments|
  {
    if segments == [] then Some(at)
    else if at == [] && segments[0] == Ascii("..") then None
    else WalkedInside(Stepped(at, segments[0]), segments[1..])
  }

  lemma {:induction false} WalkedInsideSnoc(at: seq<Bytes>, segments: seq<Bytes>, last: Bytes)
    ensures WalkedInside(at, segments + [last]) ==
            match WalkedInside(at, segments)
            case None => None
            case Some(w) => if w == [] && last == Ascii("..") then None else Some(Stepped(w, last))
    decreases |segments|
  {
    hide Stepped;
    var more := segments + [last];
    if segments == [] {
      assert more[1..] == [];
    } else {
      assert more[1..] == segments[1..] + [last] && more[0] == segments[0];
      WalkedInsideSnoc(Stepped(at, segments[0]), segments[1..], last);
    }
  }

  lemma PushInside(kept: seq<Bytes>, segment: Bytes)
    requires PlainSegments(kept) && !(kept == [] && segment == Ascii(".."))
    ensures PushSegment(kept, segment, false) == Stepped(kept, segment) && PlainSegments(Stepped(kept, segment))
  {
    assert Ascii(".") == [DOT] && Ascii("..") == [DOT, DOT];
  }

  lemma PushOutside(kept: seq<Bytes>, segment: Bytes)
    requires kept != [] && kept[0] == [DOT, DOT] && (forall i | 0 <= i < |kept| - 1 :: kept[i + 1] == [DOT, DOT] ==> kept[i] == [DOT, DOT])
    ensures var pushed := PushSegment(kept, segment, false);
            && pushed != [] && pushed[0] == [DOT, DOT]
            && forall i | 0 <= i < |pushed| - 1 :: pushed[i + 1] == [DOT, DOT] ==> pushed[i] == [DOT, DOT]
  {
  }

  /** Cleaning a relative path is walking along it; one that leaves its start keeps a leading "..". */
  lemma {:induction false} CleanIsWalkedInside(segments: seq<Bytes>)
    ensures match WalkedInside([], segments)
            case Some(w) => CleanSegments(segments, false) == w && PlainSegments(w)
            case None =>
              var kept := CleanSegments(segments, false);
              && kept != [] && kept[0] == [DOT, DOT]
              && forall i | 0 <= i < |kept| - 1 :: kept[i + 1] == [DOT, DOT] ==> kept[i] == [DOT, DOT]
    decreases |segments|
  {
    hide PushSegment, Stepped, PlainSegments;
    if segments == [] {
      NothingIsPlain();
    } else {
      var front, last := segments[..|segments| - 1], segments[|segments| - 1];
      assert segments == front + [last];
      CleanIsWalkedInside(front);
      WalkedInsideSnoc([], front, last);
      match WalkedInside([], front)
      case None =>
        PushOutside(CleanSegments(front, false), last);
      case Some(w) =>
        if w == [] && last == Ascii("..") {
          PushUp(last);
        } else {
          PushInside(w, last);
        }
    }
  }

  lemma NothingIsPlain()
    ensures PlainSegments([])
  {
  }

  lemma PushUp(segment: Bytes)
    requires segment == Ascii("..")
    ensures PushSegment([], segment, false) == [[DOT, DOT]]
  {
    assert segment == [DOT, DOT];
  }

  function Ups(n: nat): seq<Bytes> { seq(n, i => Ascii("..")) }

  lemma {:induction false} WalkedUp(at: seq<Bytes>, n: nat, rest: seq<Bytes>)
    ensures Walked(at, Ups(n) + rest) == Walked(at[..if n <= |at| then |at| - n else 0], rest)
    decreases n
  {
    if n == 0 {
      assert Ups(0) + rest == rest && at[..|at|] == at;
    } else {
      assert (Ups(n) + rest)[1..] == Ups(n - 1) + rest;
      var up := Stepped(at, Ascii(".."));
      WalkedUp(up, n - 1, rest);
      if at != [] {
        assert up[..if n - 1 <= |up| then |up| - (n - 1) else 0] == at[..if n <= |at| then |at| - n else 0];
      }
    }
  }

  lemma {:induction false} WalkedDown(at: seq<Bytes>, rest: seq<Bytes>)
    requires PlainSegments(rest)
    ensures Walked(at, rest) == at + rest
    decreases |rest|
  {
    if rest == [] {
      assert at + rest == at;
    } else {
      WalkedDown(at + [rest[0]], rest[1..]);
      assert at + [rest[0]] + rest[1..] == at + rest;
    }
  }

  /** A name that extraction accepts: relative, and its walk ends in the tree at a name that does not begin with two dots. */
  ghost predicate NameAccepted(name: Bytes) {
    && !IsAbs(name)
    && var w := WalkedInside([], Split(name, SLASH)); w.Some? && w.value != [] && !HasPrefix(w.value[0], Ascii(".."))
  }

  predicate CleanAccepted(clean: Bytes) { clean != [DOT] && clean != [] && !HasPrefix(clean, [DOT, DOT]) && !IsAbs(clean) }

  lemma CleanedName(name: Bytes)
    ensures CleanAccepted(Clean(name)) <==> NameAccepted(name)
    ensures NameAccepted(name) ==> Clean(name) == Join(WalkedInside([], Split(name, SLASH)).value, SLASH)
  {
    hide CleanSegments, WalkedInside, Join, CleanAccepted;
    CleanIsWalkedInside(Split(name, SLASH));
    var kept := CleanSegments(Split(name, SLASH), false);
    if IsAbs(name) {
      AbsIsRefused(Join(CleanSegments(Split(name, SLASH), true), SLASH));
    } else if kept == [] {
      DotIsRefused();
    } else if WalkedInside([], Split(name, SLASH)).Some? {
      SplitParts(name, SLASH);
      WalkKeepsParts([], Split(name, SLASH));
      PlainIsAccepted(kept);
    } else {
      UpIsRefused(kept);
    }
  }

  lemma AbsIsRefused(rest: Bytes)
    ensures !CleanAccepted([SLASH] + rest)
  {
  }

  lemma DotIsRefused()
    ensures !CleanAccepted([DOT])
  {
  }

  lemma PlainIsAccepted(parts: seq<Bytes>)
    requires parts != [] && PlainSegments(parts) && NoSlashes(parts)
    ensures CleanAccepted(Join(parts, SLASH)) <==> !HasPrefix(parts[0], Ascii(".."))
  {
    hide Join;
    JoinBegins(parts);
    assert Ascii("..") == [DOT, DOT];
    assert parts[0] in parts && parts[0][0] in parts[0];
  }

  lemma UpIsRefused(parts: seq<Bytes>)
    requires parts != [] && parts[0] == [DOT, DOT]
    ensures !CleanAccepted(Join(parts, SLASH))
  {
    hide Join;
    JoinBegins(parts);
  }

  ghost predicate NoSlashes(parts: seq<Bytes>) { forall p | p in parts :: SLASH !in p }

  lemma {:induction false} WalkKeepsParts(at: seq<Bytes>, segments: seq<Bytes>)
    requires NoSlashes(at) && NoSlashes(segments) && WalkedInside(at, segments).Some?
    ensures NoSlashes(WalkedInside(at, segments).value)
    decreases |segments|
  {
    if segments != [] {
      assert segments[0] in segments;
      assert NoSlashes(Stepped(at, segments[0])) && NoSlashes(segments[1..]);
      hide Stepped;
      WalkKeepsParts(Stepped(at, segments[0]), segments[1..]);
    }
  }

  /** How a joined path begins is how its first part does. */
  lemma JoinBegins(parts: seq<Bytes>)
    requires parts != [] && parts[0] != []
    ensures var path := Join(parts, SLASH);
            && path != [] && path[0] == parts[0][0] && (path == [DOT] ==> parts[0] == [DOT])
            && (HasPrefix(path, [DOT, DOT]) <==> HasPrefix(parts[0], [DOT, DOT]))
  {
    var path, part := Join(parts, SLASH), parts[0];
    assert part <= path;
    assert |path| > |part| ==> path[|part|] == SLASH;
    assert HasPrefix(part, [DOT, DOT]) <==> |part| >= 2 && part[0] == DOT && part[1] == DOT;
    assert HasPrefix(path, [DOT, DOT]) <==> |path| >= 2 && path[0] == DOT && path[1] == DOT;
  }

  lemma AcceptedIsWalkPath(name: Bytes)
    requires NameAccepted(name)
    ensures var w := WalkedInside([], Split(name, SLASH)).value; WalkPath(Clean(name)) && Split(Clean(name), SLASH) == w
  {
    hide CleanSegments, WalkedInside, Join, Clean;
    CleanedName(name);
    CleanIsWalkedInside(Split(name, SLASH));
    SplitParts(name, SLASH);
    WalkKeepsParts([], Split(name, SLASH));
    var w := WalkedInside([], Split(name, SLASH)).value;
    SplitJoin(w, SLASH);
  }

  ghost predicate KindAccepted(root: seq<Bytes>, h: Header, path: seq<Bytes>)
    requires path != []
  {
    match h.flag
    case DirFlag => true
    case RegFlag => |h.content| == h.size
    case LinkFlag => !IsAbs(h.linkname) && root <= Walked(root + path[..|path| - 1], Split(h.linkname, SLASH))
    case OtherFlag => false
  }

  /**
   Which headers are accepted, and what is made of them: the walk along the name gives the path, the
   permission bits give the mode; a file must have its size, and a link must lead into the tree.
   */
  lemma ExtractedExactly(root: seq<Bytes>, h: Header)
    requires PlainSegments(root)
    ensures var name := TrimSlash(h.name);
            Extracted(root, h).Some? <==> NameAccepted(name) && KindAccepted(root, h, WalkedInside([], Split(name, SLASH)).value)
    ensures Extracted(root, h).Some? ==>
              var e := Extracted(root, h).value;
              && e.path == Join(WalkedInside([], Split(TrimSlash(h.name), SLASH)).value, SLASH) && e.mode == h.mode % 512
              && e.kind == match h.flag case LinkFlag => Symlink(h.linkname) case RegFlag => Regular(h.content) case _ => Directory
  {
    hide Clean, SymlinkStaysInside, WalkedInside, Join, Walked, TrimSlash, NameAccepted;
    var name := TrimSlash(h.name);
    CleanedName(name);
    if NameAccepted(name) {
      AcceptedHasPath(name);
      AcceptedIsWalkPath(name);
      LinkIsWalked(root, Clean(name), h.linkname);
    }
  }

  lemma AcceptedHasPath(name: Bytes)
    requires NameAccepted(name)
    ensures var w := WalkedInside([], Split(name, SLASH)); w.Some? && w.value != []
  {
  }

  /**
   A link that climbs some levels and then goes down is accepted if it does not climb higher than its
   own depth in the tree, or if what it goes down along leads back into the tree.
   */
  lemma LinkClimbsExactly(root: seq<Bytes>, name: Bytes, target: Bytes, climbs: nat, rest: seq<Bytes>)
    requires PlainSegments(root) && WalkPath(name) && PlainSegments(rest)
    requires !IsAbs(target) && Split(target, SLASH) == Ups(climbs) + rest
    ensures var depth := |Split(name, SLASH)| - 1;
            SymlinkStaysInside(root, name, target) <==>
              climbs <= depth || root <= root[..if climbs - depth <= |root| then |root| - (climbs - depth) else 0] + rest
  {
    hide SymlinkStaysInside, Walked;
    var at := Split(name, SLASH);
    var dir := root + at[..|at| - 1];
    LinkIsWalked(root, name, target);
    var left := if climbs <= |dir| then |dir| - climbs else 0;
    WalkedUp(dir, climbs, rest);
    WalkedDown(dir[..left], rest);
    if climbs <= |at| - 1 {
      assert root <= dir[..left];
    } else {
      assert dir[..left] == root[..left];
    }
  }

  lemma {:induction false} PlainSegmentsAreClean(segments: seq<Bytes>, rooted: bool)
    requires PlainSegments(segments)
    ensures CleanSegments(segments, rooted) == segments
  {
    if segments != [] {
      PlainSegmentsAreClean(segments[..|segments| - 1], rooted);
    }
  }

  lemma WalkPathIsClean(path: Bytes)
    requires WalkPath(path)
    ensures Clean(path) == path && path != [] && path != [DOT] && path[|path| - 1] != SLASH
  {
    var segments := Split(path, SLASH);
    PlainSegmentsAreClean(segments, false);
    JoinSplit(path, SLASH);
    LastSegment(path, SLASH);
  }

  /** A path that ends with the separator has an empty last segment. */
  lemma {:induction false} LastSegment(s: Bytes, at: byte)
    ensures s == [] || s[|s| - 1] == at ==> Split(s, at)[|Split(s, at)| - 1] == []
  {
    if |s| > 1 {
      LastSegment(s[1..], at);
    }
  }

  /** Extraction accepts the archive's header of a walked entry exactly when it is extractable, and restores it. */
  lemma HeaderRestored(root: seq<Bytes>, e: Entry)
    requires WalkEntry(e)
    ensures Extracted(root, HeaderOf(e)) == if Extractable(root, e) then Some(e) else None
  {
    hide Clean, SymlinkStaysInside, WalkPath;
    WalkPathIsClean(e.path);
    assert (e.path + [SLASH])[..|e.path|] == e.path;
    assert TrimSlash(HeaderOf(e).name) == e.path;
    WalkPathIsRelative(e.path);
  }

  lemma WalkPathIsRelative(path: Bytes)
    requires WalkPath(path)
    ensures !IsAbs(path)
  {
  }

  /**
   Fetching the archive of a walked tree succeeds exactly when every entry is extractable, and
   then feeds its hash the very bytes that hashing the tree does.
   */
  lemma {:induction false} FetchAgreesWithPublish(root: seq<Bytes>, entries: seq<Entry>)
    requires forall e | e in entries :: WalkEntry(e)
    ensures ExtractedAll(root, ArchiveOf(entries)) ==
            if forall e | e in entries :: Extractable(root, e) then Some(entries) else None
  {
    hide Extracted, Extractable, WalkEntry, HeaderOf;
    if entries == [] {
      assert ArchiveOf(entries) == [];
    } else {
      var front, last := entries[..|entries| - 1], entries[|entries| - 1];
      assert entries == front + [last];
      FetchAgreesWithPublish(root, front);
      HeaderRestored(root, last);
      assert ArchiveOf(entries)[..|entries| - 1] == ArchiveOf(front);
      assert ArchiveOf(entries)[|entries| - 1] == HeaderOf(last);
    }
  }

  /**
   The fetched digest is the published one exactly when what is fetched is the published tree without
   its root marker, which publication writes and hashing skips.
   */
  lemma DigestsAgreeExactly(root: seq<Bytes>, published: seq<Entry>, fetched: seq<Entry>)
    requires forall e | e in published :: WalkEntry(e)
    requires forall e | e in fetched :: WalkEntry(e) && Extractable(root, e)
    ensures ExtractedAll(root, ArchiveOf(fetched)).Some?
    ensures TreeBytes(ExtractedAll(root, ArchiveOf(fetched)).value) == TreeBytes(Hashed(published)) <==> fetched == Hashed(published)
  {
    hide Extractable, WalkEntry, TreeBytes;
    FetchAgreesWithPublish(root, fetched);
    TreeBytesInjective(fetched, Hashed(published));
  }

  /** A tree with a file named '..data' is published and hashed, but every fetch of it is refused. */
  lemma DotDotNameIsRefused(root: seq<Bytes>, content: Bytes)
    ensures var e := Entry(Ascii("..data"), 0x1A4, Regular(content));
            WalkEntry(e) && Hashed([e]) == [e] && ExtractedAll(root, ArchiveOf([e])).None?
  {
    var e := Entry(Ascii("..data"), 0x1A4, Regular(content));
    NoSlash(e.path);
    assert |e.path| == 6 && e.path[..2] == [DOT, DOT];
    assert e.path != MARKER by { assert |MARKER| != 6; }
    assert Hashed([]) == [];
    assert [e][..0] == [];
    assert Hashed([e]) == Hashed([e][..0]) + [e];
    FetchAgreesWithPublish(root, [e]);
    assert !Extractable(root, e);
    assert e in [e];
  }

  lemma {:induction false} NoSlash(s: Bytes)
    requires SLASH !in s
    ensures Split(s, SLASH) == [s]
  {
    if s != [] {
      NoSlash(s[1..]);
      assert s[0] in s;
      assert [s[0]] + s[1..] == s;
    }
  }
}
