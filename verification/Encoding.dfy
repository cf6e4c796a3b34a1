/**
 Length-framed and decimal encodings of byte strings, and why they can be taken apart again.
 */
module Encoding {
  import opened Octets

  type Bytes = seq<byte>

  const TWO_32 := 0x1_0000_0000

  /** The bytes of an ASCII literal. */
  function Ascii(s: string): (r: Bytes)
    requires forall i | 0 <= i < |s| :: s[i] < '\U{0080}'
    ensures |r| == |s|
  {
    seq(|s|, i requires 0 <= i < |s| => s[i] as int)
  }

  /** binary.BigEndian.PutUint32 of an integer converted to uint32. */
  function BigEndian32(n: int): (r: Bytes)
    ensures |r| == 4
  {
    var m := n % TWO_32;
    [m / 0x100_0000, m / 0x1_0000 % 0x100, m / 0x100 % 0x100, m % 0x100]
  }

  lemma BigEndian32Injective(m: int, n: int)
    requires BigEndian32(m) == BigEndian32(n)
    ensures m % TWO_32 == n % TWO_32
  {
    var a, b := m % TWO_32, n % TWO_32;
    assert BigEndian32(m)[0] == a / 0x100_0000 && BigEndian32(n)[0] == b / 0x100_0000;
    assert BigEndian32(m)[1] == a / 0x1_0000 % 0x100 && BigEndian32(n)[1] == b / 0x1_0000 % 0x100;
    assert BigEndian32(m)[2] == a / 0x100 % 0x100 && BigEndian32(n)[2] == b / 0x100 % 0x100;
    assert BigEndian32(m)[3] == a % 0x100 && BigEndian32(n)[3] == b % 0x100;
    Digits256(a);
    Digits256(b);
  }

  lemma Digits256(a: nat)
    requires a < TWO_32
    ensures a == 0x100_0000 * (a / 0x100_0000) + 0x1_0000 * (a / 0x1_0000 % 0x100) + 0x100 * (a / 0x100 % 0x100) + a % 0x100
  {
    var q := a / 0x100;
    var r := q / 0x100;
    assert a == 0x100 * q + a % 0x100 && q == 0x100 * r + q % 0x100 && r == 0x100 * (r / 0x100) + r % 0x100;
    assert a / 0x1_0000 == r && a / 0x100_0000 == r / 0x100;
  }

  /** A value preceded by its length. */
  function Frame(value: Bytes): Bytes {
    BigEndian32(|value|) + value
  }

  /** Frames of values shorter than 4 GiB can be split off the front of a string in one way only. */
  lemma FrameSplits(a: Bytes, x: Bytes, b: Bytes, y: Bytes)
    requires |a| < TWO_32 && |b| < TWO_32
    requires Frame(a) + x == Frame(b) + y
    ensures a == b && x == y
  {
    var s := Frame(a) + x;
    assert s[..4] == BigEndian32(|a|);
    assert s[..4] == BigEndian32(|b|);
    BigEndian32Injective(|a|, |b|);
    assert s[4..4 + |a|] == a;
    assert s[4..4 + |b|] == b;
    assert s[4 + |a|..] == x;
    assert s[4 + |b|..] == y;
  }

  lemma Assoc(a: Bytes, b: Bytes, c: Bytes)
    ensures a + b + c == a + (b + c)
  {
  }

  lemma SameLengthSplits(a: Bytes, x: Bytes, b: Bytes, y: Bytes)
    requires a + x == b + y && |a| == |b|
    ensures a == b && x == y
  {
    assert (a + x)[..|a|] == a && (b + y)[..|b|] == b;
    assert (a + x)[|a|..] == x && (b + y)[|b|..] == y;
  }

  predicate Short(values: seq<Bytes>) {
    forall v | v in values :: |v| < TWO_32
  }

  function Frames(values: seq<Bytes>): Bytes {
    if values == [] then [] else Frame(values[0]) + Frames(values[1..])
  }

  lemma {:induction false} FramesAppend(a: seq<Bytes>, b: seq<Bytes>)
    ensures Frames(a + b) == Frames(a) + Frames(b)
  {
    hide Frame;
    if a == [] {
      assert a + b == b;
    } else {
      assert (a + b)[1..] == a[1..] + b;
      FramesAppend(a[1..], b);
      Assoc(Frame(a[0]), Frames(a[1..]), Frames(b));
    }
  }

  /**
   Frame lists need no count and no closing mark: with unframed tails of one common length, at
   most four bytes long, list and tail are both determined.
   */
  lemma {:induction false} FramesSplit(a: seq<Bytes>, x: Bytes, b: seq<Bytes>, y: Bytes)
    requires Short(a) && Short(b) && |x| == |y| <= 4
    requires Frames(a) + x == Frames(b) + y
    ensures a == b && x == y
    decreases |a|
  {
    if a == [] || b == [] {
      assert Frames([]) + x == x && Frames([]) + y == y;
    } else {
      Assoc(Frame(a[0]), Frames(a[1..]), x);
      Assoc(Frame(b[0]), Frames(b[1..]), y);
      FrameSplits(a[0], Frames(a[1..]) + x, b[0], Frames(b[1..]) + y);
      FramesSplit(a[1..], x, b[1..], y);
      assert a == [a[0]] + a[1..];
    }
  }

  /** strconv.FormatUint in the given base; digits are ASCII. */
  function Digits(n: nat, base: nat): (r: Bytes)
    requires 2 <= base <= 10
    ensures r != []
    ensures forall i | 0 <= i < |r| :: IsDigit(r[i])
    decreases n
  {
    if n < base then [48 + n] else Digits(n / base, base) + [48 + n % base]
  }

  predicate IsDigit(b: byte) { 48 <= b < 58 }

  function DigitsValue(s: Bytes, base: nat): int {
    if s == [] then 0 else DigitsValue(s[..|s| - 1], base) * base + (s[|s| - 1] as int - 48)
  }

  lemma {:induction false} DigitsRoundTrip(n: nat, base: nat)
    requires 2 <= base <= 10
    ensures DigitsValue(Digits(n, base), base) == n
    decreases n
  {
    var s := Digits(n, base);
    if n < base {
      assert s[..|s| - 1] == [];
    } else {
      DigitsRoundTrip(n / base, base);
      DigitsSnoc(Digits(n / base, base), n % base, base);
      QuotientAndRest(n, base);
      hide DigitsValue;
    }
  }

  lemma QuotientAndRest(n: nat, base: nat)
    requires base > 0
    ensures n / base * base + n % base == n
  {
  }

  lemma DigitsSnoc(s: Bytes, d: nat, base: nat)
    requires d < base <= 10
    ensures DigitsValue(s + [48 + d], base) == DigitsValue(s, base) * base + d
  {
    assert (s + [48 + d])[..|s|] == s;
  }

  /** Two digit strings each followed by a byte that is no digit split at the same place. */
  lemma {:induction false} DigitsSplit(a: Bytes, x: Bytes, b: Bytes, y: Bytes)
    requires forall i | 0 <= i < |a| :: IsDigit(a[i])
    requires forall i | 0 <= i < |b| :: IsDigit(b[i])
    requires x != [] && !IsDigit(x[0]) && y != [] && !IsDigit(y[0])
    requires a + x == b + y
    ensures a == b && x == y
  {
    var s := a + x;
    assert s[|a|] == x[0] && (b + y)[|b|] == y[0];
    assert forall i | 0 <= i < |a| :: s[i] == a[i];
    assert forall i | 0 <= i < |b| :: s[i] == b[i];
    assert |a| == |b|;
    assert s[..|a|] == a && s[..|b|] == b;
    assert s[|a|..] == x && s[|b|..] == y;
  }

  /** A value in a hashed tree: decimal length, colon, value, NUL. */
  function HashString(value: Bytes): Bytes {
    Digits(|value|, 10) + [58] + value + [0]
  }

  /** Such values, too, split off the front of a string in one way only, whatever their length. */
  lemma HashStringSplits(a: Bytes, x: Bytes, b: Bytes, y: Bytes)
    requires HashString(a) + x == HashString(b) + y
    ensures a == b && x == y
  {
    var restA, restB := [58] + a + [0] + x, [58] + b + [0] + y;
    assert HashString(a) + x == Digits(|a|, 10) + restA;
    assert HashString(b) + y == Digits(|b|, 10) + restB;
    DigitsSplit(Digits(|a|, 10), restA, Digits(|b|, 10), restB);
    DigitsRoundTrip(|a|, 10);
    DigitsRoundTrip(|b|, 10);
    assert restA[1..1 + |a|] == a && restB[1..1 + |b|] == b;
    assert restA[2 + |a|..] == x && restB[2 + |b|..] == y;
  }

  /** strings.Split at one byte. */
  function Split<T(==)>(s: seq<T>, at: T): (r: seq<seq<T>>)
    ensures r != []
  {
    if s == [] then [[]]
    else
      var rest := Split(s[1..], at);
      if s[0] == at then [[]] + rest else [[s[0]] + rest[0]] + rest[1..]
  }

  /** No part of what was split holds the separator. */
  lemma {:induction false} SplitParts<T>(s: seq<T>, at: T)
    ensures forall part | part in Split(s, at) :: at !in part
  {
    if s != [] {
      SplitParts(s[1..], at);
    }
  }

  /** strings.Join with one character. */
  function Join<T>(parts: seq<seq<T>>, at: T): seq<T> {
    if parts == [] then []
    else if |parts| == 1 then parts[0]
    else parts[0] + [at] + Join(parts[1..], at)
  }

  lemma JoinFirst<T>(part: seq<T>, parts: seq<seq<T>>, at: T)
    requires parts != []
    ensures Join([part] + parts, at) == part + [at] + Join(parts, at)
  {
    assert ([part] + parts)[1..] == parts;
  }

  lemma JoinSingle<T>(part: seq<T>, at: T)
    ensures Join([part], at) == part
  {
  }

  lemma Regroup<T>(b: T, part: seq<T>, at: T, rest: seq<T>)
    ensures ([b] + part) + [at] + rest == [b] + (part + [at] + rest)
  {
  }

  lemma JoinOne<T>(b: T, parts: seq<seq<T>>, at: T)
    requires parts != []
    ensures Join([[b] + parts[0]] + parts[1..], at) == [b] + Join(parts, at)
  {
    hide Join;
    if |parts| == 1 {
      JoinSingle([b] + parts[0], at);
      JoinSingle(parts[0], at);
      assert parts == [parts[0]] && [[b] + parts[0]] + parts[1..] == [[b] + parts[0]];
    } else {
      JoinFirst([b] + parts[0], parts[1..], at);
      JoinFirst(parts[0], parts[1..], at);
      assert parts == [parts[0]] + parts[1..];
      Regroup(b, parts[0], at, Join(parts[1..], at));
    }
  }

  /** Joining what was split gives it back. */
  lemma {:induction false} JoinSplit<T>(s: seq<T>, at: T)
    ensures Join(Split(s, at), at) == s
  {
    if s != [] {
      var parts := Split(s[1..], at);
      JoinSplit(s[1..], at);
      if s[0] == at {
        JoinFirst([], parts, at);
      } else {
        JoinOne(s[0], parts, at);
      }
      hide Join;
      assert s == [s[0]] + s[1..];
    }
  }

  lemma {:induction false} SplitBefore<T>(part: seq<T>, s: seq<T>, at: T)
    requires at !in part
    ensures Split(part, at) == [part] && Split(part + [at] + s, at) == [part] + Split(s, at)
  {
    if part == [] {
      assert ([] + [at] + s)[1..] == s;
    } else {
      var all, rest := part + [at] + s, part[1..];
      assert part[0] in part && forall b | b in rest :: b in part;
      assert all[1..] == rest + [at] + s;
      SplitBefore(rest, s, at);
      assert [part[0]] + rest == part;
    }
  }

  /** Splitting what was joined gives it back, if no part holds the separator. */
  lemma {:induction false} SplitJoin<T>(parts: seq<seq<T>>, at: T)
    requires parts != [] && forall p | p in parts :: at !in p
    ensures Split(Join(parts, at), at) == parts
    decreases |parts|
  {
    assert parts[0] in parts;
    if |parts| == 1 {
      SplitBefore(parts[0], [], at);
      assert parts == [parts[0]];
    } else {
      assert forall p | p in parts[1..] :: p in parts;
      SplitJoin(parts[1..], at);
      SplitBefore(parts[0], Join(parts[1..], at), at);
      assert parts == [parts[0]] + parts[1..];
    }
  }
}
