/**
 The identity of an execution limit: normalization of a shape and the byte string that is hashed.
 */
module Fingerprints {
  import opened Octets
  import opened Options
  import opened Encoding
  import Text

  const MAX_INPUT_POINTERS := 8
  const MAX_POINTER_BYTES := 256

  const DEFAULT_WORKSPACE: Bytes := Ascii("default")
  const APP: Bytes := Ascii("app")
  const ACTION: Bytes := Ascii("action")
  const CONCURRENCY: Bytes := Ascii("concurrency")
  const RATE: Bytes := Ascii("rate")
  const VERSION: Bytes := Ascii("v1")
  const DOMAIN: Bytes := Ascii("execution-limit-shape")

  datatype Shape = Shape(
    workspaceID: Bytes, appKey: Bytes, actionKey: Bytes, scope: Bytes, policyID: Bytes, kind: Bytes,
    inputPointers: seq<Bytes>, windowSeconds: int)

  predicate IsSpaceByte(b: byte) { 9 <= b <= 13 || b == 32 }

  /** The white-space characters that UTF-8 encodes in two and in three bytes. */
  predicate IsSpacePair(a: byte, b: byte) { a == 0xC2 && (b == 0x85 || b == 0xA0) }

  predicate IsSpaceTriple(a: byte, b: byte, c: byte) {
    || (a == 0xE1 && b == 0x9A && c == 0x80)
    || (a == 0xE2 && b == 0x80 && (0x80 <= c <= 0x8A || c == 0xA8 || c == 0xA9 || c == 0xAF))
    || (a == 0xE2 && b == 0x81 && c == 0x9F)
    || (a == 0xE3 && b == 0x80 && c == 0x80)
  }

  /** The length of the white-space character at the front, or zero. */
  function SpaceInFront(s: Bytes): (n: nat)
    ensures n <= |s|
  {
    if |s| >= 1 && IsSpaceByte(s[0]) then 1
    else if |s| >= 2 && IsSpacePair(s[0], s[1]) then 2
    else if |s| >= 3 && IsSpaceTriple(s[0], s[1], s[2]) then 3
    else 0
  }

  /** The length of the white-space character at the end, or zero. */
  function SpaceAtEnd(s: Bytes): (n: nat)
    ensures n <= |s|
  {
    var k := |s|;
    if k >= 1 && IsSpaceByte(s[k - 1]) then 1
    else if k >= 2 && IsSpacePair(s[k - 2], s[k - 1]) then 2
    else if k >= 3 && IsSpaceTriple(s[k - 3], s[k - 2], s[k - 1]) then 3
    else 0
  }

  function TrimFront(s: Bytes): Bytes {
    if SpaceInFront(s) == 0 then s else TrimFront(s[SpaceInFront(s)..])
  }

  function TrimEnd(s: Bytes): Bytes {
    if SpaceAtEnd(s) == 0 then s else TrimEnd(s[..|s| - SpaceAtEnd(s)])
  }

  /** strings.TrimSpace on UTF-8. */
  function TrimBytes(s: Bytes): Bytes { TrimEnd(TrimFront(s)) }

  function NormalizeWorkspace(value: Bytes): Bytes {
    var trimmed := TrimBytes(value);
    if |trimmed| == 0 then DEFAULT_WORKSPACE else trimmed
  }

  /** Every '~' of a pointer token starts '~0' or '~1'. */
  predicate ValidToken(token: Bytes) {
    if token == [] then true
    else if token[0] != 126 then ValidToken(token[1..])
    else |token| >= 2 && (token[1] == 48 || token[1] == 49) && ValidToken(token[2..])
  }

  predicate ValidPointer(utf8: Bytes -> bool, pointer: Bytes) {
    && pointer != [] && pointer[0] == 47
    && |pointer| <= MAX_POINTER_BYTES && utf8(pointer)
    && (forall t | t in Split(pointer[1..], 47) :: ValidToken(t))
  }

  /** Every '~' is followed by '0' or '1'. */
  ghost predicate Escaped(s: Bytes) {
    forall i | 0 <= i < |s| && s[i] == '~' as int :: i + 1 < |s| && (s[i + 1] == '0' as int || s[i + 1] == '1' as int)
  }

  lemma EscapedBehind(b: byte, s: Bytes)
    ensures Escaped([b] + s) <==> Escaped(s) && (b == 126 ==> s != [] && (s[0] == 48 || s[0] == 49))
  {
    var t := [b] + s;
    assert forall i | 0 <= i < |s| :: t[i + 1] == s[i];
    if Escaped(t) {
      forall i | 0 <= i < |s| && s[i] == 126
        ensures i + 1 < |s| && (s[i + 1] == 48 || s[i + 1] == 49)
      {
        assert t[i + 1] == 126;
        assert i + 2 < |t| && t[i + 2] == s[i + 1];
      }
      assert b == 126 ==> t[0] == 126;
    }
    if Escaped(s) && (b == 126 ==> s != [] && (s[0] == 48 || s[0] == 49)) {
      forall i | 0 <= i < |t| && t[i] == 126
        ensures i + 1 < |t| && (t[i + 1] == 48 || t[i + 1] == 49)
      {
        if i > 0 {
          assert s[i - 1] == 126;
          assert t[i + 1] == s[i];
        } else {
          assert t[1] == s[0];
        }
      }
    }
  }

  lemma {:induction false} TokenExactly(token: Bytes)
    ensures ValidToken(token) <==> Escaped(token)
    decreases |token|
  {
    if token != [] {
      assert token == [token[0]] + token[1..];
      EscapedBehind(token[0], token[1..]);
      hide Escaped;
      if token[0] != 126 {
        TokenExactly(token[1..]);
      } else if |token| >= 2 {
        assert token[1..] == [token[1]] + token[2..];
        EscapedBehind(token[1], token[2..]);
        TokenExactly(token[2..]);
      }
    }
  }

  /** A slash ends no escape, so the tokens are escaped exactly when the whole is. */
  lemma {:induction false} TokensExactly(s: Bytes)
    ensures (forall t | t in Split(s, 47) :: Escaped(t)) <==> Escaped(s)
    decreases |s|
  {
    if s != [] {
      var parts := Split(s[1..], 47);
      assert s == [s[0]] + s[1..];
      TokensExactly(s[1..]);
      EscapedBehind(s[0], s[1..]);
      FirstToken(s[1..]);
      EscapedBehind(s[0], parts[0]);
      hide Escaped;
      if s[0] == 47 {
        EscapedNothing();
        assert forall t :: t in [[]] + parts <==> t == [] || t in parts;
      } else {
        assert forall t :: t in [[s[0]] + parts[0]] + parts[1..] <==> t == [s[0]] + parts[0] || t in parts[1..];
        assert forall t :: t in parts <==> t == parts[0] || t in parts[1..] by { assert parts == [parts[0]] + parts[1..]; }
      }
    }
  }

  lemma EscapedNothing()
    ensures Escaped([])
  {
  }

  lemma FirstToken(s: Bytes)
    ensures var first := Split(s, 47)[0]; if s == [] || s[0] == 47 then first == [] else first != [] && first[0] == s[0]
  {
  }

  /** A pointer starts with a slash, is short enough and valid UTF-8, and escapes every '~'. */
  lemma PointerExactly(utf8: Bytes -> bool, pointer: Bytes)
    ensures ValidPointer(utf8, pointer) <==>
              pointer != [] && pointer[0] == '/' as int && |pointer| <= 256 && utf8(pointer) && Escaped(pointer)
  {
    hide Escaped;
    if pointer != [] && pointer[0] == 47 {
      forall t
        ensures ValidToken(t) <==> Escaped(t)
      {
        TokenExactly(t);
      }
      TokensExactly(pointer[1..]);
      assert pointer == [pointer[0]] + pointer[1..];
      EscapedBehind(pointer[0], pointer[1..]);
      hide ValidToken;
    }
  }

  /** Checks one pointer as the source does: token by token, byte by byte. */
  method ValidatePointer(utf8: Bytes -> bool, pointer: Bytes) returns (ok: bool)
    ensures ok == ValidPointer(utf8, pointer)
  {
    if pointer == [] || pointer[0] != 47 {
      return false;
    }
    if |pointer| > MAX_POINTER_BYTES || !utf8(pointer) {
      return false;
    }
    var tokens := Split(pointer[1..], 47);
    for i := 0 to |tokens|
      invariant forall j | 0 <= j < i :: ValidToken(tokens[j])
    {
      var token := tokens[i];
      var index := 0;
      while index < |token|
        invariant 0 <= index <= |token|
        invariant ValidToken(token) == ValidToken(token[index..])
      {
        if token[index] == 126 {
          if index + 1 >= |token| || (token[index + 1] != 48 && token[index + 1] != 49) {
            return false;
          }
          assert token[index..][2..] == token[index + 2..];
          index := index + 1;
        } else {
          assert token[index..][1..] == token[index + 1..];
        }
        index := index + 1;
      }
      assert token[index..] == [];
    }
    return true;
  }

  function Trimmed(shape: Shape): Shape {
    Shape(NormalizeWorkspace(shape.workspaceID), TrimBytes(shape.appKey), TrimBytes(shape.actionKey),
          TrimBytes(shape.scope), TrimBytes(shape.policyID), TrimBytes(shape.kind), shape.inputPointers, shape.windowSeconds)
  }

  /** The checks of normalization, on trimmed fields. */
  predicate Acceptable(utf8: Bytes -> bool, s: Shape) {
    && s.appKey != [] && s.policyID != []
    && (s.scope == APP || s.scope == ACTION)
    && (s.scope == ACTION ==> s.actionKey != [])
    && (s.kind == CONCURRENCY || s.kind == RATE)
    && (s.kind == CONCURRENCY ==> s.windowSeconds == 0)
    && (s.kind == RATE ==> s.windowSeconds > 0)
    && |s.inputPointers| <= MAX_INPUT_POINTERS
    && (forall p | p in s.inputPointers :: ValidPointer(utf8, p))
  }

  function Normalized(utf8: Bytes -> bool, shape: Shape): Option<Shape> {
    var s := Trimmed(shape);
    if !Acceptable(utf8, s) then None
    else Some(if s.scope == APP then s.(actionKey := []) else s)
  }

  lemma {:induction false} TrimFrontTrims(s: Bytes)
    ensures SpaceInFront(TrimFront(s)) == 0
    decreases |s|
  {
    if SpaceInFront(s) != 0 {
      TrimFrontTrims(s[SpaceInFront(s)..]);
    }
  }

  lemma {:induction false} TrimEndTrims(s: Bytes)
    ensures SpaceAtEnd(TrimEnd(s)) == 0
    ensures |TrimEnd(s)| <= |s| && TrimEnd(s) == s[..|TrimEnd(s)|]
    decreases |s|
  {
    if SpaceAtEnd(s) != 0 {
      var t := s[..|s| - SpaceAtEnd(s)];
      TrimEndTrims(t);
      assert t[..|TrimEnd(s)|] == s[..|TrimEnd(s)|];
    }
  }

  lemma TrimBytesIsTrimmed(s: Bytes)
    ensures SpaceInFront(TrimBytes(s)) == 0 && SpaceAtEnd(TrimBytes(s)) == 0
  {
    TrimFrontTrims(s);
    TrimEndTrims(TrimFront(s));
    var t, r := TrimFront(s), TrimBytes(s);
    assert forall i | 0 <= i < |r| :: r[i] == t[i];
  }

  lemma TrimBytesTwice(s: Bytes)
    ensures TrimBytes(TrimBytes(s)) == TrimBytes(s)
  {
    TrimBytesIsTrimmed(s);
    hide SpaceInFront, SpaceAtEnd;
  }

  /** Normalization is a projection: what it returns, it returns unchanged. */
  lemma NormalizedTwice(utf8: Bytes -> bool, shape: Shape)
    requires Normalized(utf8, shape).Some?
    ensures Normalized(utf8, Normalized(utf8, shape).value) == Normalized(utf8, shape)
  {
    hide TrimBytes, ValidPointer;
    TrimBytesTwice(shape.workspaceID);
    TrimBytesTwice(shape.appKey);
    TrimBytesTwice(shape.actionKey);
    TrimBytesTwice(shape.scope);
    TrimBytesTwice(shape.policyID);
    TrimBytesTwice(shape.kind);
    TrimKeeps(DEFAULT_WORKSPACE);
    TrimKeeps([]);
  }

  /** The bytes start with the UTF-8 encoding of the code point, which is below 0x10000. */
  predicate StartsWith(s: Bytes, c: int) {
    if c < 0x80 then |s| >= 1 && s[0] == c
    else if c < 0x800 then |s| >= 2 && s[0] == 0xC0 + c / 64 && s[1] == 0x80 + c % 64
    else |s| >= 3 && s[0] == 0xE0 + c / 4096 && s[1] == 0x80 + c / 64 % 64 && s[2] == 0x80 + c % 64
  }

  /** The white space in front is that of unicode.IsSpace, as UTF-8 encodes it. */
  lemma SpaceInFrontExactly(s: Bytes)
    ensures SpaceInFront(s) > 0 <==> exists c: char :: Text.IsSpace(c) && StartsWith(s, c as int)
  {
    var n := SpaceInFront(s);
    if n > 0 {
      var c := SpaceCode(s);
      assert Text.IsSpace(c as char) && StartsWith(s, (c as char) as int);
    }
    if c: char :| Text.IsSpace(c) && StartsWith(s, c as int) {
      SpaceIsSeen(s, c);
    }
  }

  lemma SpaceCode(s: Bytes) returns (c: int)
    requires SpaceInFront(s) > 0
    ensures 0 <= c < 0x10000 && !(0xD800 <= c < 0xE000) && Text.IsSpace(c as char) && StartsWith(s, c)
  {
    if SpaceInFront(s) == 1 {
      c := s[0];
    } else if SpaceInFront(s) == 2 {
      c := s[1];
    } else {
      c := (s[0] as int - 0xE0) * 4096 + (s[1] as int - 0x80) * 64 + (s[2] as int - 0x80);
    }
  }

  lemma SpaceIsSeen(s: Bytes, c: char)
    requires Text.IsSpace(c) && StartsWith(s, c as int)
    ensures SpaceInFront(s) > 0
  {
  }

  /** White space, in any of its encodings. */
  ghost predicate IsBlank(s: Bytes)
    decreases |s|
  {
    s == [] || (SpaceInFront(s) > 0 && IsBlank(s[SpaceInFront(s)..]))
  }

  /** Whether a white-space character is in front shows in its own bytes. */
  lemma SpaceInPrefix(s: Bytes, t: Bytes, n: nat)
    requires 0 < n == SpaceInFront(s) <= |t| && forall i | 0 <= i < n :: t[i] == s[i]
    ensures SpaceInFront(t) == n
  {
  }

  lemma SpaceAtEndIsSpace(s: Bytes, n: nat)
    requires 0 < n == SpaceAtEnd(s)
    ensures SpaceInFront(s[|s| - n..]) == n
  {
  }

  lemma BlankCons(space: Bytes, rest: Bytes)
    requires 0 < |space| == SpaceInFront(space) && IsBlank(rest)
    ensures IsBlank(space + rest)
  {
    SpaceInPrefix(space, space + rest, |space|);
    assert (space + rest)[|space|..] == rest;
    hide SpaceInFront;
  }

  lemma NothingIsBlank()
    ensures IsBlank([])
  {
  }

  lemma {:induction false} TrimFrontRemoves(s: Bytes) returns (cut: Bytes)
    ensures s == cut + TrimFront(s) && IsBlank(cut)
    decreases |s|
  {
    hide SpaceInFront, IsBlank;
    var n := SpaceInFront(s);
    if n == 0 {
      NothingIsBlank();
      cut := [];
    } else {
      var space, rest := s[..n], s[n..];
      var more := TrimFrontRemoves(rest);
      SpaceInPrefix(s, space, n);
      BlankCons(space, more);
      cut := space + more;
      hide TrimFront;
      Assoc(space, more, TrimFront(rest));
      assert s == space + rest;
      assert TrimFront(s) == TrimFront(rest);
    }
  }

  lemma {:induction false} BlankJoins(a: Bytes, b: Bytes)
    requires IsBlank(a) && IsBlank(b)
    ensures IsBlank(a + b)
    decreases |a|
  {
    hide SpaceInFront;
    if a == [] {
      assert a + b == b;
    } else {
      var n := SpaceInFront(a);
      SpaceInPrefix(a, a[..n], n);
      BlankJoins(a[n..], b);
      BlankCons(a[..n], a[n..] + b);
      assert a + b == a[..n] + (a[n..] + b);
    }
  }

  lemma BlankSpace(space: Bytes)
    requires 0 < |space| == SpaceInFront(space)
    ensures IsBlank(space)
  {
    hide SpaceInFront;
    BlankCons(space, []);
    assert space + [] == space;
  }

  lemma {:induction false} TrimEndRemoves(s: Bytes) returns (cut: Bytes)
    ensures s == TrimEnd(s) + cut && IsBlank(cut)
    decreases |s|
  {
    hide SpaceInFront, SpaceAtEnd, IsBlank;
    var n := SpaceAtEnd(s);
    if n == 0 {
      NothingIsBlank();
      cut := [];
    } else {
      var rest, space := s[..|s| - n], s[|s| - n..];
      var more := TrimEndRemoves(rest);
      SpaceAtEndIsSpace(s, n);
      BlankSpace(space);
      BlankJoins(more, space);
      cut := more + space;
      Assoc(TrimEnd(rest), more, space);
      assert s == rest + space;
    }
  }

  /** Trimming removes white space at both ends, and all of it. */
  lemma TrimBytesMeans(s: Bytes)
    ensures exists a, b :: IsBlank(a) && IsBlank(b) && s == a + TrimBytes(s) + b
    ensures SpaceInFront(TrimBytes(s)) == 0 && SpaceAtEnd(TrimBytes(s)) == 0
  {
    hide SpaceInFront, SpaceAtEnd, TrimFront, TrimEnd;
    TrimBytesIsTrimmed(s);
    var a := TrimFrontRemoves(s);
    var b := TrimEndRemoves(TrimFront(s));
    assert s == a + TrimBytes(s) + b;
  }

  /** Each field of a normalized shape is the trimmed field of that name; an app-wide shape names no action. */
  lemma NormalizedFields(utf8: Bytes -> bool, shape: Shape, s: Shape)
    requires Normalized(utf8, shape) == Some(s)
    ensures s.workspaceID == if TrimBytes(shape.workspaceID) == [] then Ascii("default") else TrimBytes(shape.workspaceID)
    ensures s.appKey == TrimBytes(shape.appKey) != [] && s.policyID == TrimBytes(shape.policyID) != []
    ensures s.scope == TrimBytes(shape.scope) && s.kind == TrimBytes(shape.kind)
    ensures s.actionKey == if s.scope == Ascii("app") then [] else TrimBytes(shape.actionKey)
    ensures s.inputPointers == shape.inputPointers && s.windowSeconds == shape.windowSeconds
  {
    hide TrimBytes, ValidPointer;
  }

  /** A shape is refused exactly for a blank name, an unknown scope or kind, a window that does not fit the kind, or its pointers. */
  lemma NormalizesExactly(utf8: Bytes -> bool, shape: Shape)
    ensures Normalized(utf8, shape).None? <==>
              || TrimBytes(shape.appKey) == [] || TrimBytes(shape.policyID) == []
              || TrimBytes(shape.scope) !in {Ascii("app"), Ascii("action")}
              || (TrimBytes(shape.scope) == Ascii("action") && TrimBytes(shape.actionKey) == [])
              || TrimBytes(shape.kind) !in {Ascii("concurrency"), Ascii("rate")}
              || (TrimBytes(shape.kind) == Ascii("concurrency") && shape.windowSeconds != 0)
              || (TrimBytes(shape.kind) == Ascii("rate") && shape.windowSeconds <= 0)
              || |shape.inputPointers| > 8 || exists p :: p in shape.inputPointers && !ValidPointer(utf8, p)
  {
    hide TrimBytes, ValidPointer;
  }

  function Tuple(s: Shape): (r: seq<Bytes>)
    ensures |r| == 8
  {
    [DOMAIN, VERSION, s.workspaceID, s.appKey, s.actionKey, s.scope, s.policyID, s.kind]
  }

  /** What is hashed for a normalized shape. */
  function Preimage(s: Shape): Bytes {
    Frames(Tuple(s) + s.inputPointers) + if s.kind == RATE then BigEndian32(s.windowSeconds) else []
  }

  /** The order of the frames, and the constants among them. */
  lemma PreimageSpelled(s: Shape)
    ensures Preimage(s) ==
            Frame(Ascii("execution-limit-shape")) + Frame(Ascii("v1")) + Frame(s.workspaceID) + Frame(s.appKey) + Frame(s.actionKey)
            + Frame(s.scope) + Frame(s.policyID) + Frame(s.kind) + Frames(s.inputPointers)
            + if s.kind == Ascii("rate") then BigEndian32(s.windowSeconds) else []
  {
    hide Frame, Frames, BigEndian32;
    FramesOfEight(Tuple(s));
    FramesAppend(Tuple(s), s.inputPointers);
  }

  /** Normalizes a shape and feeds its frames to the hash; returns the bytes fed. */
  method Fingerprint(utf8: Bytes -> bool, shape: Shape) returns (written: Option<Bytes>)
    ensures written == match Normalized(utf8, shape) case None => None case Some(s) => Some(Preimage(s))
  {
    hide TrimBytes, ValidPointer;
    var s := Trimmed(shape);
    if s.appKey == [] || s.policyID == [] {
      return None;
    }
    if s.scope != APP && s.scope != ACTION {
      return None;
    }
    if s.scope == ACTION && s.actionKey == [] {
      return None;
    }
    ghost var trimmed := s;
    if s.scope == APP {
      s := s.(actionKey := []);
    }
    if s.kind != CONCURRENCY && s.kind != RATE {
      return None;
    }
    if s.kind == CONCURRENCY && s.windowSeconds != 0 {
      return None;
    }
    if s.kind == RATE && s.windowSeconds <= 0 {
      return None;
    }
    if |s.inputPointers| > MAX_INPUT_POINTERS {
      return None;
    }
    for i := 0 to |s.inputPointers|
      invariant forall j | 0 <= j < i :: ValidPointer(utf8, s.inputPointers[j])
    {
      var ok := ValidatePointer(utf8, s.inputPointers[i]);
      if !ok {
        return None;
      }
    }
    assert Acceptable(utf8, trimmed);
    var bytes := WriteFrames(Tuple(s), []);
    assert bytes == Frames(Tuple(s));
    bytes := WriteFrames(s.inputPointers, bytes);
    FramesAppend(Tuple(s), s.inputPointers);
    assert bytes + [] == Frames(Tuple(s) + s.inputPointers);
    if s.kind == RATE {
      bytes := bytes + BigEndian32(s.windowSeconds);
    }
    return Some(bytes);
  }

  /** Appends one frame per value to what was written. */
  method WriteFrames(values: seq<Bytes>, before: Bytes) returns (written: Bytes)
    ensures written == before + Frames(values)
  {
    written := before;
    for i := 0 to |values|
      invariant written == before + Frames(values[..i])
    {
      assert values[..i + 1] == values[..i] + [values[i]];
      FramesAppend(values[..i], [values[i]]);
      written := written + BigEndian32(|values[i]|);
      written := written + values[i];
    }
    assert values[..|values|] == values;
  }

  /** No field is so long that its length does not fit the frame's four bytes. */
  predicate Framable(s: Shape) {
    Short(Tuple(s) + s.inputPointers) && s.windowSeconds < TWO_32
  }

  /**
   Normalized shapes with equal pre-images are equal, although the pointer list is not counted
   and the window is not framed.
   */
  lemma FingerprintInjective(utf8: Bytes -> bool, a: Shape, b: Shape, s: Shape, t: Shape)
    requires Normalized(utf8, a) == Some(s) && Normalized(utf8, b) == Some(t)
    requires Framable(s) && Framable(t)
    ensures Preimage(s) == Preimage(t) <==> s == t
  {
    hide Trimmed, ValidPointer, Preimage, Framable;
    if Preimage(s) == Preimage(t) {
      PreimageInjective(s, t);
    }
  }

  lemma PreimageInjective(s: Shape, t: Shape)
    requires Framable(s) && Framable(t) && 0 <= s.windowSeconds && 0 <= t.windowSeconds
    requires s.kind == RATE || s.windowSeconds == 0
    requires t.kind == RATE || t.windowSeconds == 0
    requires Preimage(s) == Preimage(t)
    ensures s == t
  {
    hide Tuple, Frames, BigEndian32;
    var p, q := Tuple(s) + s.inputPointers, Tuple(t) + t.inputPointers;
    var x := if s.kind == RATE then BigEndian32(s.windowSeconds) else [];
    var y := if t.kind == RATE then BigEndian32(t.windowSeconds) else [];
    HeadsAgree(Tuple(s), s.inputPointers, x, Tuple(t), t.inputPointers, y);
    TupleDetermines(s, t);
    FramesSplit(p, x, q, y);
    assert p[8..] == s.inputPointers && q[8..] == t.inputPointers;
    if s.kind == RATE {
      BigEndian32Injective(s.windowSeconds, t.windowSeconds);
    }
  }

  lemma TupleDetermines(s: Shape, t: Shape)
    requires Tuple(s) == Tuple(t)
    ensures s == t.(inputPointers := s.inputPointers, windowSeconds := s.windowSeconds)
  {
    assert Tuple(s)[2] == Tuple(t)[2] && Tuple(s)[3] == Tuple(t)[3] && Tuple(s)[4] == Tuple(t)[4];
    assert Tuple(s)[5] == Tuple(t)[5] && Tuple(s)[6] == Tuple(t)[6] && Tuple(s)[7] == Tuple(t)[7];
  }

  /** Frame lists of one known length are determined whatever follows them. */
  lemma {:induction false} HeadsAgree(a: seq<Bytes>, a': seq<Bytes>, x: Bytes, b: seq<Bytes>, b': seq<Bytes>, y: Bytes)
    requires |a| == |b| && Short(a + a') && Short(b + b')
    requires Frames(a + a') + x == Frames(b + b') + y
    ensures a == b
  {
    if a != [] {
      assert (a + a')[1..] == a[1..] + a' && (b + b')[1..] == b[1..] + b';
      assert Frames(a + a') + x == Frame(a[0]) + (Frames(a[1..] + a') + x);
      assert Frames(b + b') + y == Frame(b[0]) + (Frames(b[1..] + b') + y);
      assert (a + a')[0] in a + a' && (b + b')[0] in b + b';
      FrameSplits(a[0], Frames(a[1..] + a') + x, b[0], Frames(b[1..] + b') + y);
      HeadsAgree(a[1..], a', x, b[1..], b', y);
    }
  }

  /** The value starts and ends with an ASCII character that is no white space. */
  predicate Solid(v: Bytes) {
    v != [] && v[0] < 128 && !IsSpaceByte(v[0]) && v[|v| - 1] < 128 && !IsSpaceByte(v[|v| - 1])
  }

  lemma TrimKeeps(v: Bytes)
    requires Solid(v) || v == []
    ensures TrimBytes(v) == v
  {
  }

  /** A value that ends with a frame of the right length has the frame of two values. */
  lemma FrameInFrame(a: Bytes, b: Bytes)
    requires |b| == TWO_32 - 4
    ensures Frame(a + BigEndian32(|b|) + b) == Frame(a) + Frame(b)
  {
    var long := a + BigEndian32(|b|) + b;
    assert |long| == |a| + TWO_32;
    assert |long| % TWO_32 == |a| % TWO_32;
    assert BigEndian32(|long|) == BigEndian32(|a|);
  }

  function Xs(n: nat): Bytes { seq(n, i => 120) }

  /** A shape whose fields are given as they are. */
  function Plain(app: Bytes, action: Bytes, policy: Bytes): Shape {
    Shape(APP, app, action, ACTION, policy, CONCURRENCY, [], 0)
  }

  /** A field of 4 GiB or more can pass for two fields: its length wraps around in the frame. */
  lemma LongFieldsCollide(utf8: Bytes -> bool)
    ensures exists s, t :: Normalized(utf8, s) == Some(s) && Normalized(utf8, t) == Some(t)
                           && !Framable(s) && !Framable(t) && s != t && Preimage(s) == Preimage(t)
  {
    var y := Xs(TWO_32 - 4);
    hide Xs, Normalized, Framable, Preimage;
    CollidingPair(utf8, [120], y);
  }

  lemma CollidingPair(utf8: Bytes -> bool, app: Bytes, y: Bytes)
    requires |y| == TWO_32 - 4 && Solid(app) && Solid(y)
    ensures var s := Plain(app + BigEndian32(|y|) + y, ACTION, y);
            var t := Plain(app, y, ACTION + BigEndian32(|y|) + y);
            && Normalized(utf8, s) == Some(s) && Normalized(utf8, t) == Some(t)
            && !Framable(s) && !Framable(t) && s != t && Preimage(s) == Preimage(t)
  {
    var longApp, longPolicy := app + BigEndian32(|y|) + y, ACTION + BigEndian32(|y|) + y;
    assert Solid(longApp) && Solid(ACTION) && Solid(longPolicy);
    NotFramable(longApp, ACTION, y);
    NotFramable(app, y, longPolicy);
    hide Normalized, Framable, Preimage, Frame, Frames, BigEndian32, Solid;
    PlainIsNormal(utf8, longApp, ACTION, y);
    PlainIsNormal(utf8, app, y, longPolicy);
    FrameInFrame(app, y);
    FrameInFrame(ACTION, y);
    PlainFrames(longApp, ACTION, y);
    PlainFrames(app, y, longPolicy);
    SameFrames(Frame(app), Frame(y), Frame(ACTION), Frame(DOMAIN) + Frame(VERSION) + Frame(APP), Frame(CONCURRENCY));
    assert |longApp| > |app|;
  }

  lemma NotFramable(app: Bytes, action: Bytes, policy: Bytes)
    requires |app| >= TWO_32 || |policy| >= TWO_32
    ensures !Framable(Plain(app, action, policy))
  {
    var all := Tuple(Plain(app, action, policy)) + [];
    assert all[3] == app && all[6] == policy;
    assert app in all && policy in all;
  }

  lemma SameFrames(app: Bytes, y: Bytes, action: Bytes, head: Bytes, tail: Bytes)
    ensures head + (app + y) + action + action + y + tail == head + app + y + action + (action + y) + tail
  {
  }

  lemma PlainFrames(app: Bytes, action: Bytes, policy: Bytes)
    ensures var head := Frame(DOMAIN) + Frame(VERSION) + Frame(APP);
            Preimage(Plain(app, action, policy)) ==
            head + Frame(app) + Frame(action) + Frame(ACTION) + Frame(policy) + Frame(CONCURRENCY)
  {
    hide Frame, Frames;
    var s := Plain(app, action, policy);
    FramesOfEight(Tuple(s));
    assert Tuple(s) + [] == Tuple(s);
    assert CONCURRENCY[0] != RATE[0];
    assert Preimage(s) == Frames(Tuple(s)) + [];
  }

  lemma PlainIsNormal(utf8: Bytes -> bool, app: Bytes, action: Bytes, policy: Bytes)
    requires Solid(app) && Solid(action) && Solid(policy)
    ensures Normalized(utf8, Plain(app, action, policy)) == Some(Plain(app, action, policy))
  {
    hide Solid, TrimBytes, ValidPointer, NormalizeWorkspace;
    ConstantsTrimmed();
    TrimKeeps(app);
    TrimKeeps(action);
    TrimKeeps(policy);
    assert app != [] && action != [] && policy != [] by {
      SolidIsNotEmpty(app);
      SolidIsNotEmpty(action);
      SolidIsNotEmpty(policy);
    }
  }

  lemma SolidIsNotEmpty(v: Bytes)
    requires Solid(v)
    ensures v != []
  {
  }

  lemma ConstantsTrimmed()
    ensures NormalizeWorkspace(APP) == APP && TrimBytes(ACTION) == ACTION && TrimBytes(CONCURRENCY) == CONCURRENCY
    ensures ACTION != APP && CONCURRENCY != RATE
  {
    hide TrimBytes;
    TrimKeeps(APP);
    TrimKeeps(ACTION);
    TrimKeeps(CONCURRENCY);
    assert |ACTION| != |APP| && |CONCURRENCY| != |RATE|;
  }

  lemma FramesOfEight(v: seq<Bytes>)
    requires |v| == 8
    ensures Frames(v) == Frame(v[0]) + Frame(v[1]) + Frame(v[2]) + Frame(v[3]) + Frame(v[4]) + Frame(v[5]) + Frame(v[6]) + Frame(v[7])
  {
    hide Frame;
    FramesOfFour(v[..4]);
    FramesOfFour(v[4..]);
    assert v == v[..4] + v[4..];
    FramesAppend(v[..4], v[4..]);
  }

  lemma FramesOfFour(v: seq<Bytes>)
    requires |v| == 4
    ensures Frames(v) == Frame(v[0]) + Frame(v[1]) + Frame(v[2]) + Frame(v[3])
  {
    hide Frame;
    assert v[1..][1..] == v[2..] && v[2..][1..] == v[3..] && v[3..][1..] == [];
    assert Frames(v[3..]) == Frame(v[3]) + [];
    assert Frames(v[2..]) == Frame(v[2]) + Frames(v[3..]);
    assert Frames(v[1..]) == Frame(v[1]) + Frames(v[2..]);
  }
}
