/**
 Canonical percent-escaped request paths: the encoder, the validator, and what an accepted path
 means byte by byte and segment by segment.
 */
module EscapedPath {
  import opened Octets
  import opened Options
  import opened Encoding

  const SLASH: byte := 47
  const PERCENT: byte := 37
  const DOT: byte := 46
  const BACKSLASH: byte := 92
  const STAR: byte := 42
  const MAX_PATH_BYTES := 1024

  /** Letters, digits and /:@-._~!$&'()+,;= */
  predicate IsPathSafe(b: byte) {
    || 97 <= b <= 122 || 65 <= b <= 90 || 48 <= b <= 57
    || b in {47, 58, 64, 45, 46, 95, 126, 33, 36, 38, 39, 40, 41, 43, 44, 59, 61}
  }

  /**
   The safe bytes are what section 3.3 of RFC 3986 lets a path hold unescaped, '/' included, except '*':
   unreserved characters, sub-delimiters, ':' and '@'.
   */
  lemma SafeIsPathCharacter(b: byte)
    ensures IsPathSafe(b) <==> b != STAR && (Unreserved(b as char) || b as char in "!$&'()*+,;=" || b as char in ":@/")
  {
  }

  predicate Unreserved(c: char) {
    'a' <= c <= 'z' || 'A' <= c <= 'Z' || '0' <= c <= '9' || c == '-' || c == '.' || c == '_' || c == '~'
  }

  predicate IsUpperHex(b: byte) { 48 <= b <= 57 || 65 <= b <= 70 }

  predicate IsHex(b: byte) { IsUpperHex(b) || 97 <= b <= 102 }

  function HexValue(b: byte): nat
    requires IsHex(b)
    ensures HexValue(b) < 16
  {
    if b <= 57 then b - 48 else if b <= 70 then b - 55 else b - 87
  }

  function UpperHex(n: nat): (b: byte)
    requires n < 16
    ensures IsUpperHex(b) && HexValue(b) == n
  {
    if n < 10 then 48 + n else 55 + n
  }

  /** How one byte is written: as itself when safe, else as a percent-encoded octet. */
  function EscapeByte(b: byte): Bytes {
    if IsPathSafe(b) then [b] else [PERCENT, UpperHex(b / 16), UpperHex(b % 16)]
  }

  function Canonical(decoded: Bytes): Bytes {
    if decoded == [] then [] else EscapeByte(decoded[0]) + Canonical(decoded[1..])
  }

  method CanonicalEscapedPath(decoded: Bytes) returns (path: Bytes)
    ensures path == Canonical(decoded)
  {
    path := [];
    for i := 0 to |decoded|
      invariant path + Canonical(decoded[i..]) == Canonical(decoded)
    {
      var character := decoded[i];
      assert decoded[i..][1..] == decoded[i + 1..];
      Assoc(path, EscapeByte(character), Canonical(decoded[i + 1..]));
      if IsPathSafe(character) {
        path := path + [character];
        continue;
      }
      ghost var before := path;
      path := path + [PERCENT];
      path := path + [UpperHex(character / 16)];
      path := path + [UpperHex(character % 16)];
      assert path == before + EscapeByte(character);
    }
    assert decoded[|decoded|..] == [];
    assert path + [] == path;
  }

  /** url.PathUnescape */
  function Unescape(s: Bytes): Option<Bytes> {
    if s == [] then Some([])
    else if s[0] != PERCENT then
      (match Unescape(s[1..]) case Some(r) => Some([s[0]] + r) case None => None)
    else if |s| < 3 || !IsHex(s[1]) || !IsHex(s[2]) then None
    else
      (match Unescape(s[3..]) case Some(r) => Some([16 * HexValue(s[1]) + HexValue(s[2])] + r) case None => None)
  }

  lemma UnescapeEscaped(b: byte, rest: Bytes)
    ensures Unescape(EscapeByte(b) + rest) ==
            match Unescape(rest) case Some(r) => Some([b] + r) case None => None
  {
    var s := EscapeByte(b) + rest;
    assert !IsPathSafe(PERCENT);
    if IsPathSafe(b) {
      assert s[1..] == rest;
    } else {
      assert s[3..] == rest;
      assert b == 16 * (b / 16) + b % 16;
    }
  }

  /** Percent-decoding undoes the canonical encoding of every byte string. */
  lemma {:induction false} UnescapeCanonical(decoded: Bytes)
    ensures Unescape(Canonical(decoded)) == Some(decoded)
  {
    if decoded != [] {
      UnescapeCanonical(decoded[1..]);
      UnescapeEscaped(decoded[0], Canonical(decoded[1..]));
      assert decoded == [decoded[0]] + decoded[1..];
    }
  }

  // ----- The validator

  predicate HasDoubleSlash(s: Bytes) {
    |s| >= 2 && ((s[0] == SLASH && s[1] == SLASH) || HasDoubleSlash(s[1..]))
  }

  /** ASCII only; every '%' starts an upper-case octet that is not an encoded '.', '/', '\' or '%'. */
  predicate WellEscaped(s: Bytes) {
    if s == [] then true
    else if s[0] > 127 then false
    else if s[0] != PERCENT then WellEscaped(s[1..])
    else
      && |s| >= 3 && IsUpperHex(s[1]) && IsUpperHex(s[2])
      && 16 * HexValue(s[1]) + HexValue(s[2]) !in {DOT as int, SLASH as int, BACKSLASH as int, PERCENT as int}
      && WellEscaped(s[3..])
  }

  predicate NoDotSegments(segments: seq<Bytes>) {
    forall i | 0 <= i < |segments| :: segments[i] != [DOT] && segments[i] != [DOT, DOT]
  }

  /** Every check of the validator, in its order. */
  predicate Accepted(path: Bytes) {
    && 0 < |path| <= MAX_PATH_BYTES && path[0] == SLASH && !(|path| > 1 && path[1] == SLASH)
    && !HasDoubleSlash(path) && BACKSLASH !in path && 63 !in path && 35 !in path
    && (path == [SLASH] || path[|path| - 1] != SLASH)
    && WellEscaped(path)
    && NoDotSegments(Split(path, SLASH)[1..])
    && Unescape(path).Some?
    && STAR !in Unescape(path).value
    && Canonical(Unescape(path).value) == path
  }

  method ValidateCanonicalEscapedPath(path: Bytes) returns (ok: bool)
    ensures ok == Accepted(path)
  {
    if |path| == 0 || |path| > MAX_PATH_BYTES || path[0] != SLASH || (|path| > 1 && path[1] == SLASH) {
      return false;
    }
    if HasDoubleSlash(path) || BACKSLASH in path || 63 in path || 35 in path {
      return false;
    }
    if path != [SLASH] && path[|path| - 1] == SLASH {
      return false;
    }
    var index := 0;
    while index < |path|
      invariant 0 <= index <= |path|
      invariant WellEscaped(path) == WellEscaped(path[index..])
    {
      var character := path[index];
      assert path[index..][1..] == path[index + 1..];
      if character > 127 {
        return false;
      }
      if character != PERCENT {
        index := index + 1;
        continue;
      }
      if index + 2 >= |path| || !IsUpperHex(path[index + 1]) || !IsUpperHex(path[index + 2]) {
        return false;
      }
      assert path[index..][3..] == path[index + 3..];
      var decoded := 16 * HexValue(path[index + 1]) + HexValue(path[index + 2]);
      if decoded == DOT || decoded == SLASH || decoded == BACKSLASH || decoded == PERCENT {
        return false;
      }
      index := index + 3;
    }
    assert path[index..] == [];
    var segments := Split(path, SLASH)[1..];
    for i := 0 to |segments|
      invariant forall j | 0 <= j < i :: segments[j] != [DOT] && segments[j] != [DOT, DOT]
    {
      if segments[i] == [DOT] || segments[i] == [DOT, DOT] {
        return false;
      }
    }
    var decoded := Unescape(path);
    if decoded.None? {
      return false;
    }
    if STAR in decoded.value {
      return false;
    }
    var canonical := CanonicalEscapedPath(decoded.value);
    return canonical == path;
  }

  // ----- What an accepted path means

  function CanonicalAll(segments: seq<Bytes>): seq<Bytes> {
    seq(|segments|, i requires 0 <= i < |segments| => Canonical(segments[i]))
  }

  lemma EscapeHasNoSlash(b: byte)
    requires b != SLASH
    ensures SLASH !in EscapeByte(b)
  {
  }

  /** Putting bytes other than the separator in front extends the first part. */
  lemma {:induction false} SplitPrefix(p: Bytes, s: Bytes)
    requires SLASH !in p
    ensures var parts := Split(s, SLASH); Split(p + s, SLASH) == [p + parts[0]] + parts[1..]
  {
    var parts := Split(s, SLASH);
    if p == [] {
      assert p + s == s && p + parts[0] == parts[0];
      assert [parts[0]] + parts[1..] == parts;
    } else {
      assert p[0] in p;
      assert (p + s)[1..] == p[1..] + s;
      SplitPrefix(p[1..], s);
      assert p + parts[0] == [p[0]] + (p[1..] + parts[0]);
    }
  }

  lemma SplitCanonicalByte(b: byte, rest: Bytes)
    requires b != SLASH
    requires Split(Canonical(rest), SLASH) == CanonicalAll(Split(rest, SLASH))
    ensures var parts := Split(rest, SLASH);
            Split(EscapeByte(b) + Canonical(rest), SLASH) == CanonicalAll([[b] + parts[0]] + parts[1..])
  {
    hide EscapeByte, Canonical, Split;
    var parts := Split(rest, SLASH);
    EscapeHasNoSlash(b);
    SplitPrefix(EscapeByte(b), Canonical(rest));
    CanonicalAllFirst(b, parts);
  }

  lemma CanonicalAllFirst(b: byte, parts: seq<Bytes>)
    requires parts != []
    ensures var all := CanonicalAll(parts);
            CanonicalAll([[b] + parts[0]] + parts[1..]) == [EscapeByte(b) + all[0]] + all[1..]
  {
    CanonicalFirst(b, parts[0]);
    hide EscapeByte, Canonical;
  }

  lemma CanonicalFirst(b: byte, rest: Bytes)
    ensures Canonical([b] + rest) == EscapeByte(b) + Canonical(rest)
  {
    assert ([b] + rest)[1..] == rest;
  }

  /** Splitting at '/' commutes with the canonical encoding. */
  lemma {:induction false} SplitCanonical(decoded: Bytes)
    ensures Split(Canonical(decoded), SLASH) == CanonicalAll(Split(decoded, SLASH))
  {
    if decoded == [] {
      assert Canonical([]) == [];
      assert CanonicalAll([[]]) == [[]];
    } else {
      var b, rest := decoded[0], decoded[1..];
      var parts := Split(rest, SLASH);
      SplitCanonical(rest);
      var s := EscapeByte(b) + Canonical(rest);
      if b == SLASH {
        assert s[1..] == Canonical(rest);
        assert Canonical([]) == [];
        assert CanonicalAll([[]] + parts) == [[]] + CanonicalAll(parts);
      } else {
        SplitCanonicalByte(b, rest);
      }
    }
  }

  /** Dots are written as themselves, so a dot segment stays one in either form. */
  lemma DotSegments(segment: Bytes)
    ensures Canonical(segment) == [DOT] <==> segment == [DOT]
    ensures Canonical(segment) == [DOT, DOT] <==> segment == [DOT, DOT]
  {
    UnescapeCanonical(segment);
    assert [DOT, DOT][1..] == [DOT] && [DOT][1..] == [];
    assert IsPathSafe(DOT);
    assert Unescape([]) == Some([]);
    assert Unescape([DOT]) == Some([DOT] + []);
    assert Unescape([DOT, DOT]) == Some([DOT] + ([DOT] + []));
    assert Canonical([DOT]) == [DOT] + Canonical([]);
    assert Canonical([DOT, DOT]) == [DOT] + Canonical([DOT]);
  }

  /**
   For every accepted path, splitting at '/' commutes with decoding, and no decoded segment is
   '.' or '..'.
   */
  lemma AcceptedSegments(path: Bytes)
    requires Accepted(path)
    ensures var raw := Split(path, SLASH);
            var decoded := Split(Unescape(path).value, SLASH);
            && |raw| == |decoded|
            && (forall i | 0 <= i < |raw| :: Unescape(raw[i]) == Some(decoded[i]))
            && NoDotSegments(decoded)
  {
    var d := Unescape(path).value;
    SplitCanonical(d);
    var raw, decoded := Split(path, SLASH), Split(d, SLASH);
    forall i | 0 <= i < |raw|
      ensures Unescape(raw[i]) == Some(decoded[i]) && decoded[i] != [DOT] && decoded[i] != [DOT, DOT]
    {
      UnescapeCanonical(decoded[i]);
      DotSegments(decoded[i]);
      if i > 0 {
        assert raw[i] == raw[1..][i - 1];
      } else {
        assert raw[0] == [];
      }
    }
  }

  /** What the decoded form of an accepted path looks like, without any mention of escapes. */
  predicate GoodDecoded(d: Bytes) {
    && d != [] && d[0] == SLASH && !HasDoubleSlash(d)
    && (d == [SLASH] || d[|d| - 1] != SLASH)
    && BACKSLASH !in d && PERCENT !in d && STAR !in d
    && NoDotSegments(Split(d, SLASH))
    && |Canonical(d)| <= MAX_PATH_BYTES
  }

  lemma {:induction false} CanonicalEnds(d: Bytes)
    requires d != []
    ensures Canonical(d) != []
    ensures Canonical(d)[0] == SLASH <==> d[0] == SLASH
    ensures Canonical(d)[|Canonical(d)| - 1] == SLASH <==> d[|d| - 1] == SLASH
  {
    assert Canonical([]) == [];
    if |d| > 1 {
      CanonicalEnds(d[1..]);
    }
  }

  lemma {:induction false} DoubleSlashCanonical(d: Bytes)
    ensures HasDoubleSlash(Canonical(d)) <==> HasDoubleSlash(d)
  {
    if d != [] {
      var b, rest := d[0], Canonical(d[1..]);
      DoubleSlashCanonical(d[1..]);
      if |d| > 1 {
        CanonicalEnds(d[1..]);
      }
      if b == SLASH {
        assert ([SLASH] + rest)[1..] == rest;
      } else {
        EscapeHasNoSlash(b);
        NoSlashInFront(EscapeByte(b), rest);
      }
    }
  }

  lemma {:induction false} NoSlashInFront(p: Bytes, s: Bytes)
    requires SLASH !in p
    ensures HasDoubleSlash(p + s) <==> HasDoubleSlash(s)
  {
    if p == [] {
      assert p + s == s;
    } else {
      assert p[0] in p;
      assert (p + s)[1..] == p[1..] + s;
      NoSlashInFront(p[1..], s);
    }
  }

  lemma WellEscapedByte(b: byte, rest: Bytes)
    ensures WellEscaped(EscapeByte(b) + rest) <==> b != BACKSLASH && b != PERCENT && WellEscaped(rest)
  {
    var s := EscapeByte(b) + rest;
    if IsPathSafe(b) {
      assert s[1..] == rest;
    } else {
      assert s[3..] == rest;
      assert b == 16 * (b / 16) + b % 16;
    }
  }

  lemma {:induction false} WellEscapedCanonical(d: Bytes)
    ensures WellEscaped(Canonical(d)) <==> BACKSLASH !in d && PERCENT !in d
    ensures BACKSLASH !in Canonical(d) && 63 !in Canonical(d) && 35 !in Canonical(d)
  {
    if d != [] {
      WellEscapedCanonical(d[1..]);
      assert d == [d[0]] + d[1..];
      WellEscapedByte(d[0], Canonical(d[1..]));
      hide WellEscaped;
    }
  }

  /**
   A path is accepted exactly when it is the canonical encoding of a clean absolute path: one
   leading slash, no empty or dot segment, no trailing slash, none of '\', '%' and '*'.
   */
  lemma AcceptedExactly(path: Bytes)
    ensures Accepted(path) <==> exists d :: GoodDecoded(d) && path == Canonical(d)
  {
    if Accepted(path) {
      var d := Unescape(path).value;
      AcceptedSegments(path);
      assert d != [];
      CanonicalEnds(d);
      DoubleSlashCanonical(d);
      WellEscapedCanonical(d);
      if path == [SLASH] {
        assert Unescape([]) == Some([]);
        assert path[1..] == [];
        assert d == [SLASH] + [];
      }
      assert GoodDecoded(d);
    }
    if d :| GoodDecoded(d) && path == Canonical(d) {
      UnescapeCanonical(d);
      CanonicalEnds(d);
      DoubleSlashCanonical(d);
      WellEscapedCanonical(d);
      SplitCanonical(d);
      var segments := Split(d, SLASH);
      forall i | 1 <= i < |segments|
        ensures Split(path, SLASH)[i] != [DOT] && Split(path, SLASH)[i] != [DOT, DOT]
      {
        DotSegments(segments[i]);
      }
      if d == [SLASH] {
        assert Canonical([]) == [];
        assert Canonical(d) == [SLASH] + [];
      }
      assert Accepted(path);
    }
  }
}
