/**
 The key material of an execution limit: the values that a list of JSON pointers selects from an
 input, in a canonical spelling, each framed by its length.
 */
module KeyMaterial {
  import opened Octets
  import opened Options
  import opened Encoding
  import opened Fingerprints

  const MAX_COMPONENT_BYTES := 4096

  /** A fraction as parsed, not reduced. */
  datatype Rational = Rational(numerator: int, denominator: nat) {
    ghost predicate Valid() { denominator > 0 }
  }

  datatype Json =
    | Null
    | Bool(value: bool)
    | Number(token: Bytes)
    | Text(text: Bytes)
    | Items(items: seq<Json>)
    | Members(members: map<Bytes, Json>)

  /** What the standard library does: UTF-8 validity, and big.Rat.SetString. */
  datatype Library = Library(utf8: Bytes -> bool, rational: Bytes -> Option<Rational>) {
    ghost predicate Valid() {
      forall t | rational(t).Some? :: rational(t).value.Valid()
    }
  }

  // ----- Canonical spelling of one value

  function Hex(n: nat): byte
    requires n < 16
  {
    if n < 10 then 48 + n else 87 + n
  }

  /** The escape json.Marshal writes for one byte inside a string. */
  function Escape(b: byte): Bytes {
    if b == 34 || b == 92 then [92, b]
    else if b == 8 then [92, 98]
    else if b == 12 then [92, 102]
    else if b == 10 then [92, 110]
    else if b == 13 then [92, 114]
    else if b == 9 then [92, 116]
    else if b < 32 || b == 60 || b == 62 || b == 38 then [92, 117, 48, 48, Hex(b / 16), Hex(b % 16)]
    else [b]
  }

  /** U+2028 and U+2029, the two line separators that are escaped although they are not ASCII. */
  predicate Separator(s: Bytes) {
    |s| >= 3 && s[0] == 226 && s[1] == 128 && (s[2] == 168 || s[2] == 169)
  }

  function Body(s: Bytes): Bytes {
    if s == [] then []
    else if Separator(s) then [92, 117, 50, 48, 50, s[2] - 112] + Body(s[3..])
    else Escape(s[0]) + Body(s[1..])
  }

  function Quote(s: Bytes): Bytes { [34] + Body(s) + [34] }

  function Unhex(b: byte): int { if b < 58 then b as int - 48 else b as int - 87 }

  /** Reads one escape: the bytes it stands for and the length it takes. */
  function Unit(z: Bytes): (Bytes, nat)
    requires z != []
  {
    if z[0] != 92 || |z| < 2 then ([z[0]], 1)
    else if z[1] == 98 then ([8], 2)
    else if z[1] == 102 then ([12], 2)
    else if z[1] == 110 then ([10], 2)
    else if z[1] == 114 then ([13], 2)
    else if z[1] == 116 then ([9], 2)
    else if z[1] != 117 || |z| < 6 then ([z[1]], 2)
    else if z[2] == 50 then ([226, 128, (z[5] as int + 112) % 256], 6)
    else ([(Unhex(z[4]) * 16 + Unhex(z[5])) % 256], 6)
  }

  function Unbody(z: Bytes): Bytes
    decreases |z|
  {
    if z == [] then []
    else if Unit(z).1 > |z| then []
    else Unit(z).0 + Unbody(z[Unit(z).1..])
  }

  lemma UnitOfEscape(b: byte, x: Bytes)
    ensures Unit(Escape(b) + x) == ([b], |Escape(b)|)
  {
    var z := Escape(b) + x;
    if b < 32 || b == 60 || b == 62 || b == 38 {
      assert b == 16 * (b / 16) + b % 16;
    }
  }

  /** Reading back a quoted string gives the string: quoting loses nothing. */
  lemma {:induction false} UnbodyBody(s: Bytes)
    ensures Unbody(Body(s)) == s
  {
    if s == [] {
    } else if Separator(s) {
      var code: Bytes := [92, 117, 50, 48, 50, s[2] - 112];
      var z := code + Body(s[3..]);
      assert z[6..] == Body(s[3..]);
      assert Unit(z) == ([226, 128, s[2]], 6);
      UnbodyBody(s[3..]);
      assert s == [226, 128, s[2]] + s[3..];
    } else {
      var z := Escape(s[0]) + Body(s[1..]);
      assert z[|Escape(s[0])|..] == Body(s[1..]);
      UnitOfEscape(s[0], Body(s[1..]));
      UnbodyBody(s[1..]);
      assert s == [s[0]] + s[1..];
    }
  }

  lemma QuoteInjective(s: Bytes, t: Bytes)
    requires Quote(s) == Quote(t)
    ensures s == t
  {
    assert Quote(s)[1..|Quote(s)| - 1] == Body(s);
    assert Quote(t)[1..|Quote(t)| - 1] == Body(t);
    UnbodyBody(s);
    UnbodyBody(t);
  }

  /** The smallest denominator, from q on, over which the fraction can be written. */
  function Reduce(r: Rational, q: nat): (d: nat)
    requires 0 < q <= r.denominator
    ensures q <= d <= r.denominator && r.numerator * d % r.denominator == 0
    ensures forall e | q <= e < d :: r.numerator * e % r.denominator != 0
    decreases r.denominator - q
  {
    if r.numerator * q % r.denominator == 0 then q
    else
      WholeMultiple(r.numerator, r.denominator);
      Reduce(r, q + 1)
  }

  lemma WholeMultiple(n: int, d: nat)
    requires d > 0
    ensures n * d % d == 0
  {
    MultipleMod(n, d);
  }

  lemma MultipleMod(k: int, d: nat)
    requires d > 0
    ensures (k * d) % d == 0 && (k * d) / d == k
  {
    var q, m := (k * d) / d, (k * d) % d;
    assert k * d == q * d + m;
    assert (k - q) * d == m;
    if k - q >= 1 {
      MulMonotone(1, k - q, d);
    } else if k - q <= -1 {
      MulMonotone(k - q, -1, d);
    }
  }

  lemma MulMonotone(a: int, b: int, d: nat)
    requires a <= b
    ensures a * d <= b * d
  {
  }

  function Denominator(r: Rational): nat
    requires r.Valid()
  {
    Reduce(r, 1)
  }

  function Numerator(r: Rational): int
    requires r.Valid()
  {
    r.numerator * Denominator(r) / r.denominator
  }

  ghost predicate SameNumber(a: Rational, b: Rational) {
    a.numerator * b.denominator == b.numerator * a.denominator
  }

  /** big.Rat.RatString: lowest terms, without a denominator of one. */
  function RatString(r: Rational): Bytes
    requires r.Valid()
  {
    Fraction(Numerator(r), Denominator(r))
  }

  function Fraction(p: int, q: nat): Bytes {
    Signed(p) + Over(q)
  }

  function Signed(p: int): Bytes {
    if p < 0 then [45] + Digits(Abs(p), 10) else Digits(Abs(p), 10)
  }

  function Over(q: nat): Bytes {
    if q == 1 then [] else [47] + Digits(q, 10)
  }

  lemma FractionInjective(p: int, q: nat, p': int, q': nat)
    requires Fraction(p, q) == Fraction(p', q')
    ensures p == p' && q == q'
  {
    hide Digits;
    assert Signed(p) + (Over(q) + [0]) == Fraction(p, q) + [0];
    assert Signed(p') + (Over(q') + [0]) == Fraction(p', q') + [0];
    SignedSplits(p, Over(q) + [0], p', Over(q') + [0]);
    OverInjective(q, q');
  }

  lemma SignedSplits(p: int, x: Bytes, p': int, y: Bytes)
    requires x != [] && !IsDigit(x[0]) && y != [] && !IsDigit(y[0])
    requires Signed(p) + x == Signed(p') + y
    ensures p == p' && x == y
  {
    hide Digits;
    var d, d' := Digits(Abs(p), 10), Digits(Abs(p'), 10);
    SignedParts(p, x);
    SignedParts(p', y);
    DigitsSplit(d, x, d', y);
    DigitsRoundTrip(Abs(p), 10);
    DigitsRoundTrip(Abs(p'), 10);
  }

  /** The sign shows in the first byte; the digits follow it. */
  lemma SignedParts(p: int, x: Bytes)
    ensures var s := Signed(p) + x;
            var d := Digits(Abs(p), 10);
            s != [] && (s[0] == 45 <==> p < 0) && (if p < 0 then s[1..] else s) == d + x
  {
    hide Digits;
    var d := Digits(Abs(p), 10);
    assert IsDigit(d[0]);
  }

  function Abs(p: int): nat { if p < 0 then -p else p }

  lemma OverInjective(q: nat, q': nat)
    requires Over(q) + [0] == Over(q') + [0]
    ensures q == q'
  {
    hide Digits;
    var e, e' := Digits(q, 10), Digits(q', 10);
    assert (Over(q) + [0])[0] == if q == 1 then 0 else 47;
    assert (Over(q') + [0])[0] == if q' == 1 then 0 else 47;
    if q != 1 {
      assert (Over(q) + [0])[1..] == e + [0];
      assert (Over(q') + [0])[1..] == e' + [0];
      DigitsSplit(e, [0], e', [0]);
      DigitsRoundTrip(q, 10);
      DigitsRoundTrip(q', 10);
    }
  }

  /** d is a denominator of one fraction exactly when it is one of an equal fraction. */
  lemma SharedDenominator(a: Rational, b: Rational, d: nat)
    requires a.Valid() && b.Valid() && SameNumber(a, b)
    requires a.numerator * d % a.denominator == 0
    ensures b.numerator * d % b.denominator == 0
    ensures b.numerator * d / b.denominator == a.numerator * d / a.denominator
  {
    var k := a.numerator * d / a.denominator;
    assert a.numerator * d == k * a.denominator;
    calc {
      (b.numerator * d) * a.denominator;
      (b.numerator * a.denominator) * d;
      (a.numerator * b.denominator) * d;
      (a.numerator * d) * b.denominator;
      (k * a.denominator) * b.denominator;
      (k * b.denominator) * a.denominator;
    }
    Cancel(b.numerator * d, k * b.denominator, a.denominator);
    MultipleMod(k, b.denominator);
  }

  lemma Cancel(x: int, y: int, d: nat)
    requires d > 0 && x * d == y * d
    ensures x == y
  {
    assert (x - y) * d == 0;
    if x > y {
      MulMonotone(1, x - y, d);
    } else if x < y {
      MulMonotone(1, y - x, d);
    }
  }

  /** Equal numbers have the same smallest denominator and the same numerator over it. */
  lemma LowestTermsAgree(a: Rational, b: Rational)
    requires a.Valid() && b.Valid() && SameNumber(a, b)
    ensures Numerator(a) == Numerator(b) && Denominator(a) == Denominator(b)
  {
    SharedDenominator(a, b, Denominator(a));
    SharedDenominator(b, a, Denominator(b));
  }

  /** Lowest terms determine the number. */
  lemma LowestTermsDetermine(a: Rational, b: Rational)
    requires a.Valid() && b.Valid()
    requires Numerator(a) == Numerator(b) && Denominator(a) == Denominator(b)
    ensures SameNumber(a, b)
  {
    var p, q := Numerator(a), Denominator(a);
    assert a.numerator * q == p * a.denominator;
    assert b.numerator * q == p * b.denominator;
    CrossMultiply(a.numerator, a.denominator, b.numerator, b.denominator, p, q);
  }

  lemma CrossMultiply(m: int, d: nat, n: int, e: nat, p: int, q: nat)
    requires q > 0 && m * q == p * d && n * q == p * e
    ensures m * e == n * d
  {
    calc {
      (m * e) * q;
      (m * q) * e;
      (p * d) * e;
      (p * e) * d;
      (n * q) * d;
      (n * d) * q;
    }
    Cancel(m * e, n * d, q);
  }

  /** The canonical spelling of a number depends on its value and determines it. */
  lemma RatStringCanonical(a: Rational, b: Rational)
    requires a.Valid() && b.Valid()
    ensures RatString(a) == RatString(b) <==> SameNumber(a, b)
  {
    hide SameNumber, Numerator, Denominator, Fraction;
    if SameNumber(a, b) {
      LowestTermsAgree(a, b);
    }
    if RatString(a) == RatString(b) {
      FractionInjective(Numerator(a), Denominator(a), Numerator(b), Denominator(b));
      LowestTermsDetermine(a, b);
    }
  }

  /** The terms are those of the number, and the denominator is the smallest there is. */
  ghost predicate LowestTerms(r: Rational, p: int, q: nat)
    requires r.Valid()
  {
    q > 0 && p * r.denominator == r.numerator * q && forall k: nat | 0 < k < q :: r.numerator * k % r.denominator != 0
  }

  /** A number is written in lowest terms, a whole one without a denominator. */
  lemma RatStringMeans(r: Rational) returns (p: int, q: nat)
    requires r.Valid()
    ensures LowestTerms(r, p, q)
    ensures RatString(r) == (if p < 0 then Ascii("-") + Digits(-p, 10) else Digits(p, 10)) + (if q == 1 then [] else Ascii("/") + Digits(q, 10))
  {
    hide Digits;
    p, q := Numerator(r), Denominator(r);
    assert Ascii("-") == [45] && Ascii("/") == [47];
  }

  const STRING_TAG: Bytes := Ascii("string:")
  const TRUE_COMPONENT: Bytes := Ascii("boolean:true")
  const FALSE_COMPONENT: Bytes := Ascii("boolean:false")
  const NUMBER_TAG: Bytes := Ascii("number:")

  /** The canonical bytes of a scalar; None for null, containers and numbers out of range. */
  function Component(lib: Library, value: Json): Option<Bytes>
    requires lib.Valid()
  {
    match value
    case Text(t) => Some(STRING_TAG + Quote(t))
    case Bool(b) => Some(if b then TRUE_COMPONENT else FALSE_COMPONENT)
    case Number(token) =>
      (match lib.rational(token)
       case Some(r) => Some(NUMBER_TAG + RatString(r))
       case None => None)
    case _ => None
  }

  /** Same type and same value; numbers by their rational value, whatever their spelling. */
  ghost predicate SameValue(lib: Library, a: Json, b: Json) {
    match (a, b)
    case (Text(s), Text(t)) => s == t
    case (Bool(x), Bool(y)) => x == y
    case (Number(s), Number(t)) =>
      lib.rational(s).Some? && lib.rational(t).Some? && SameNumber(lib.rational(s).value, lib.rational(t).value)
    case _ => false
  }

  lemma ComponentCanonical(lib: Library, a: Json, b: Json)
    requires lib.Valid() && Component(lib, a).Some? && Component(lib, b).Some?
    ensures Component(lib, a) == Component(lib, b) <==> SameValue(lib, a, b)
  {
    var x, y := Component(lib, a).value, Component(lib, b).value;
    assert x[0] == if a.Text? then 115 else if a.Bool? then 98 else 110;
    assert y[0] == if b.Text? then 115 else if b.Bool? then 98 else 110;
    match (a, b)
    case (Text(s), Text(t)) =>
      assert x[7..] == Quote(s) && y[7..] == Quote(t);
      if x == y {
        QuoteInjective(s, t);
      }
    case (Number(s), Number(t)) =>
      assert x[7..] == RatString(lib.rational(s).value) && y[7..] == RatString(lib.rational(t).value);
      RatStringCanonical(lib.rational(s).value, lib.rational(t).value);
    case (Bool(s), Bool(t)) =>
      assert |TRUE_COMPONENT| != |FALSE_COMPONENT|;
    case _ =>
  }

  // ----- Selecting values

  /** strings.ReplaceAll of '~' followed by `second` with one byte. */
  function ReplaceEscape(s: Bytes, second: byte, replacement: byte): Bytes {
    if |s| < 2 then s
    else if s[0] == 126 && s[1] == second then [replacement] + ReplaceEscape(s[2..], second, replacement)
    else [s[0]] + ReplaceEscape(s[1..], second, replacement)
  }

  /** The two passes of the source: '~1' first, then '~0'. */
  function UnescapeToken(token: Bytes): Bytes {
    ReplaceEscape(ReplaceEscape(token, 49, 47), 48, 126)
  }

  /** The meaning section 4 of RFC 6901 gives a valid token: each escape read once, left to right. */
  function TokenMeaning(token: Bytes): Bytes
    requires ValidToken(token)
  {
    if token == [] then []
    else if token[0] != 126 then [token[0]] + TokenMeaning(token[1..])
    else [if token[1] == 49 then 47 else 126] + TokenMeaning(token[2..])
  }

  /** Two global passes in this order agree with reading each escape once, on every valid token. */
  lemma {:induction false} PassesReadOnce(token: Bytes)
    requires ValidToken(token)
    ensures UnescapeToken(token) == TokenMeaning(token)
  {
    if token == [] {
    } else if token[0] != 126 {
      PassesReadOnce(token[1..]);
      PassKeepsByte(token[0], token[1..], 49, 47);
      PassKeepsByte(token[0], ReplaceEscape(token[1..], 49, 47), 48, 126);
      assert token == [token[0]] + token[1..];
    } else {
      PassesReadOnce(token[2..]);
      var rest := ReplaceEscape(token[2..], 49, 47);
      assert token == [126, token[1]] + token[2..];
      if token[1] == 49 {
        PassKeepsByte(47, rest, 48, 126);
      } else {
        assert token[1..] == [48] + token[2..];
        PassKeepsByte(48, token[2..], 49, 47);
        assert ReplaceEscape(token, 49, 47) == [126] + ([48] + rest);
        assert ([126] + ([48] + rest))[2..] == rest;
      }
    }
  }

  lemma PassKeepsByte(b: byte, s: Bytes, second: byte, replacement: byte)
    requires b != 126
    ensures ReplaceEscape([b] + s, second, replacement) == [b] + ReplaceEscape(s, second, replacement)
  {
    assert ([b] + s)[1..] == s;
  }

  predicate AllDigits(s: Bytes) { s != [] && forall i | 0 <= i < |s| :: IsDigit(s[i]) }

  /** strconv.Atoi without its range check: an optional sign and decimal digits. */
  function Atoi(token: Bytes): Option<int> {
    var digits := if token != [] && (token[0] == 43 || token[0] == 45) then token[1..] else token;
    if !AllDigits(digits) then None
    else if token[0] == 45 then Some(-DigitsValue(digits, 10)) else Some(DigitsValue(digits, 10))
  }

  datatype Selection = Selected(value: Json) | InvalidPointer | NoMember | BadIndex | OutOfRange | Scalar

  /** One step of the walk from a value along a decoded token. */
  function Child(current: Json, token: Bytes): Selection {
    match current
    case Members(members) => if token in members then Selected(members[token]) else NoMember
    case Items(items) =>
      if token == [45] || (|token| > 1 && token[0] == 48) then BadIndex
      else
        (match Atoi(token)
         case None => OutOfRange
         case Some(i) => if 0 <= i < |items| then Selected(items[i]) else OutOfRange)
    case _ => Scalar
  }

  lemma {:induction false} DigitsValueIsNatural(s: Bytes)
    requires forall i | 0 <= i < |s| :: IsDigit(s[i])
    ensures DigitsValue(s, 10) >= 0
  {
    if s != [] {
      DigitsValueIsNatural(s[..|s| - 1]);
    }
  }

  lemma {:induction false} NoLeadingZero(n: nat)
    ensures n > 0 ==> Digits(n, 10)[0] != 48
    ensures n == 0 ==> Digits(n, 10) == [48]
    decreases n
  {
    if n >= 10 {
      NoLeadingZero(n / 10);
    }
  }

  /** Digits without a leading zero are the decimal spelling of their value. */
  lemma {:induction false} SpelledByValue(s: Bytes)
    requires AllDigits(s) && (s[0] != 48 || |s| == 1)
    ensures DigitsValue(s, 10) >= 0 && Digits(DigitsValue(s, 10), 10) == s && (s[0] != 48 ==> DigitsValue(s, 10) > 0)
    decreases |s|
  {
    var front, d := s[..|s| - 1], s[|s| - 1];
    assert s == front + [d] && IsDigit(d);
    if front == [] {
      assert DigitsValue([], 10) == 0;
    } else {
      assert front[0] == s[0];
      SpelledByValue(front);
      assert DigitsValue(s, 10) == DigitsValue(front, 10) * 10 + (d as int - 48);
      assert DigitsValue(s, 10) / 10 == DigitsValue(front, 10) && DigitsValue(s, 10) % 10 == d as int - 48;
    }
  }

  /** A token stands for an array index: in decimal without leading zeros, or with a sign in front of digits. */
  ghost predicate Indexes(token: Bytes, i: nat) {
    || token == Digits(i, 10)
    || (|token| > 1 && token[0] == 43 && AllDigits(token[1..]) && DigitsValue(token[1..], 10) == i)
    || (|token| > 1 && token[0] == 45 && AllDigits(token[1..]) && DigitsValue(token[1..], 10) == 0 == i)
  }

  lemma UnsignedAtoi(token: Bytes)
    requires AllDigits(token)
    ensures Atoi(token) == Some(DigitsValue(token, 10)) && DigitsValue(token, 10) >= 0
  {
    DigitsValueIsNatural(token);
    assert IsDigit(token[0]);
  }

  lemma DecimalIsChild(items: seq<Json>, i: nat)
    ensures Child(Items(items), Digits(i, 10)) == if i < |items| then Selected(items[i]) else OutOfRange
  {
    NoLeadingZero(i);
    DigitsRoundTrip(i, 10);
    UnsignedAtoi(Digits(i, 10));
    assert IsDigit(Digits(i, 10)[0]);
    hide Digits, DigitsValue, Atoi;
  }

  /** Of an array a token selects the item that it is the index of, and nothing else. */
  lemma ChildOfItems(items: seq<Json>, token: Bytes, v: Json)
    ensures Child(Items(items), token) == Selected(v) <==> exists i: nat :: i < |items| && Indexes(token, i) && v == items[i]
  {
    if Child(Items(items), token) == Selected(v) {
      var i := IndexOf(items, token);
      assert Indexes(token, i);
    }
    if i: nat :| i < |items| && Indexes(token, i) && v == items[i] {
      hide Digits, DigitsValue;
      if token == Digits(i, 10) {
        DecimalIsChild(items, i);
      } else {
        assert !IsDigit(token[0]);
      }
    }
  }

  lemma IndexOf(items: seq<Json>, token: Bytes) returns (i: nat)
    requires Child(Items(items), token).Selected?
    ensures i < |items| && Indexes(token, i) && Child(Items(items), token) == Selected(items[i])
  {
    i := Atoi(token).value;
    if token[0] != 43 && token[0] != 45 {
      SpelledByValue(token);
    } else {
      DigitsValueIsNatural(token[1..]);
    }
    hide Digits, DigitsValue;
  }

  /** Of an object a token selects the member of that name, and of a scalar nothing. */
  lemma ChildOfMembers(members: map<Bytes, Json>, token: Bytes, v: Json)
    ensures Child(Members(members), token) == Selected(v) <==> token in members && members[token] == v
    ensures token !in members ==> Child(Members(members), token) == NoMember
  {
  }

  function Walk(current: Json, tokens: seq<Bytes>): Selection {
    if tokens == [] then Selected(current)
    else match Child(current, UnescapeToken(tokens[0]))
      case Selected(v) => Walk(v, tokens[1..])
      case error => error
  }

  function Select(lib: Library, root: Json, pointer: Bytes): Selection {
    if ValidPointer(lib.utf8, pointer) then Walk(root, Split(pointer[1..], 47)) else InvalidPointer
  }

  method ResolvePointer(lib: Library, root: Json, pointer: Bytes) returns (r: Selection)
    ensures r == Select(lib, root, pointer)
  {
    hide UnescapeToken, Atoi, Split, ValidToken;
    var ok := ValidatePointer(lib.utf8, pointer);
    if !ok {
      return InvalidPointer;
    }
    var current := root;
    var tokens := Split(pointer[1..], 47);
    for i := 0 to |tokens|
      invariant Walk(root, tokens) == Walk(current, tokens[i..])
    {
      assert tokens[i..][0] == tokens[i] && tokens[i..][1..] == tokens[i + 1..];
      var token := UnescapeToken(tokens[i]);
      match current
      case Members(members) =>
        if token !in members {
          return NoMember;
        }
        current := members[token];
      case Items(items) =>
        if token == [45] || (|token| > 1 && token[0] == 48) {
          return BadIndex;
        }
        var index := Atoi(token);
        if index.None? || index.value < 0 || index.value >= |items| {
          return OutOfRange;
        }
        current := items[index.value];
      case _ =>
        return Scalar;
    }
    return Selected(current);
  }

  /** The component one pointer contributes; None when selection or spelling fails or it is too long. */
  function PointerComponent(lib: Library, root: Json, pointer: Bytes): Option<Bytes>
    requires lib.Valid()
  {
    match Select(lib, root, pointer)
    case Selected(v) =>
      (match Component(lib, v)
       case Some(c) => if |c| > MAX_COMPONENT_BYTES then None else Some(c)
       case None => None)
    case _ => None
  }

  /** The components of all pointers, or None when one fails. */
  function Components(lib: Library, root: Json, pointers: seq<Bytes>): Option<seq<Bytes>>
    requires lib.Valid()
  {
    if pointers == [] then Some([])
    else
      match (Components(lib, root, pointers[..|pointers| - 1]), PointerComponent(lib, root, pointers[|pointers| - 1]))
      case (Some(cs), Some(c)) => Some(cs + [c])
      case _ => None
  }

  /** Builds the key material pointer by pointer; fails at the first pointer without a component. */
  method ResolveKeyMaterial(lib: Library, root: Json, pointers: seq<Bytes>) returns (material: Option<Bytes>)
    requires lib.Valid()
    ensures material == match Components(lib, root, pointers) case Some(cs) => Some(Frames(cs)) case None => None
  {
    hide Component, Frame, BigEndian32, Select;
    var written: Bytes := [];
    for i := 0 to |pointers|
      invariant Components(lib, root, pointers[..i]).Some?
      invariant written == Frames(Components(lib, root, pointers[..i]).value)
    {
      assert pointers[..i + 1][..i] == pointers[..i];
      var selection := ResolvePointer(lib, root, pointers[i]);
      var canonical := if selection.Selected? then Component(lib, selection.value) else None;
      if canonical.None? || |canonical.value| > MAX_COMPONENT_BYTES {
        FailsLater(lib, root, pointers, i + 1);
        return None;
      }
      ghost var cs := Components(lib, root, pointers[..i]).value;
      written := WriteFrames([canonical.value], written);
      FramesAppend(cs, [canonical.value]);
    }
    assert pointers[..|pointers|] == pointers;
    return Some(written);
  }

  lemma {:induction false} FailsLater(lib: Library, root: Json, pointers: seq<Bytes>, n: nat)
    requires lib.Valid() && n <= |pointers| && Components(lib, root, pointers[..n]).None?
    ensures Components(lib, root, pointers).None?
    decreases |pointers|
  {
    if n < |pointers| {
      var front := pointers[..|pointers| - 1];
      assert front[..n] == pointers[..n];
      FailsLater(lib, root, front, n);
    } else {
      assert pointers[..n] == pointers;
    }
  }

  lemma {:induction false} ComponentsAt(lib: Library, root: Json, pointers: seq<Bytes>, i: nat)
    requires lib.Valid() && Components(lib, root, pointers).Some? && i < |pointers|
    ensures |Components(lib, root, pointers).value| == |pointers|
    ensures PointerComponent(lib, root, pointers[i]) == Some(Components(lib, root, pointers).value[i])
    decreases |pointers|
  {
    hide PointerComponent;
    var front := pointers[..|pointers| - 1];
    if i < |front| {
      ComponentsAt(lib, root, front, i);
    } else if i > 0 {
      ComponentsAt(lib, root, front, i - 1);
    }
  }

  /** What a scalar contributes is its type and its spelling; nothing else contributes. */
  lemma ComponentMeans(lib: Library, value: Json)
    requires lib.Valid()
    ensures Component(lib, value).Some? <==> value.Text? || value.Bool? || (value.Number? && lib.rational(value.token).Some?)
    ensures value.Text? ==> Component(lib, value) == Some(Ascii("string:") + Quote(value.text))
    ensures value.Bool? ==> Component(lib, value) == Some(Ascii(if value.value then "boolean:true" else "boolean:false"))
    ensures value.Number? && lib.rational(value.token).Some? ==>
              Component(lib, value) == Some(Ascii("number:") + RatString(lib.rational(value.token).value))
  {
  }

  /** Key material fails exactly when some pointer selects nothing, no scalar, or one whose component is too long. */
  lemma {:induction false} FailsExactly(lib: Library, root: Json, pointers: seq<Bytes>)
    requires lib.Valid()
    ensures Components(lib, root, pointers).None? <==>
              exists p :: p in pointers &&
                !(Select(lib, root, p).Selected? && Component(lib, Select(lib, root, p).value).Some?
                  && |Component(lib, Select(lib, root, p).value).value| <= 4096)
    decreases |pointers|
  {
    hide Component, Select;
    if pointers != [] {
      var front, last := pointers[..|pointers| - 1], pointers[|pointers| - 1];
      FailsExactly(lib, root, front);
      assert pointers == front + [last];
    }
  }

  /** Two inputs hold the same value, in type and content, at a pointer. */
  ghost predicate SameAt(lib: Library, a: Json, b: Json, pointer: Bytes) {
    && Select(lib, a, pointer).Selected? && Select(lib, b, pointer).Selected?
    && SameValue(lib, Select(lib, a, pointer).value, Select(lib, b, pointer).value)
  }

  /**
   For one pointer list, two inputs get the same key material exactly when every pointer holds
   the same value in both, numbers compared as rationals.
   */
  lemma SameMaterialExactly(lib: Library, a: Json, b: Json, pointers: seq<Bytes>)
    requires lib.Valid()
    requires Components(lib, a, pointers).Some? && Components(lib, b, pointers).Some?
    ensures Frames(Components(lib, a, pointers).value) == Frames(Components(lib, b, pointers).value) <==>
            forall p | p in pointers :: SameAt(lib, a, b, p)
  {
    hide SameValue, Select, Component, Frames;
    var cs, ds := Components(lib, a, pointers).value, Components(lib, b, pointers).value;
    if pointers == [] {
      assert cs == ds;
    } else {
      ComponentsAt(lib, a, pointers, 0);
      ComponentsAt(lib, b, pointers, 0);
    }
    forall i | 0 <= i < |pointers|
      ensures |cs[i]| <= MAX_COMPONENT_BYTES && |ds[i]| <= MAX_COMPONENT_BYTES
      ensures cs[i] == ds[i] <==> SameAt(lib, a, b, pointers[i])
    {
      ComponentsAt(lib, a, pointers, i);
      ComponentsAt(lib, b, pointers, i);
      ComponentCanonical(lib, Select(lib, a, pointers[i]).value, Select(lib, b, pointers[i]).value);
    }
    if Frames(cs) == Frames(ds) {
      assert Frames(cs) + [] == Frames(ds) + [];
      FramesSplit(cs, [], ds, []);
    }
    if forall p | p in pointers :: SameAt(lib, a, b, p) {
      assert forall i | 0 <= i < |pointers| :: pointers[i] in pointers && cs[i] == ds[i];
      assert cs == ds;
    }
  }
}
