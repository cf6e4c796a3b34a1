/**
 What masking means, without any automaton: occurrences of patterns in a text, the bytes
 they cover, and the longest pattern that ends at the end of a text.
 */
module MaskText {

  import opened Octets

  /** The byte '*' that replaces every covered byte. */
  const REPLACEMENT: byte := 42

  ghost predicate OccursAt(p: seq<byte>, text: seq<byte>, at: int) {
    0 <= at && at + |p| <= |text| && text[at..at + |p|] == p
  }

  ghost predicate Covered(patterns: set<seq<byte>>, text: seq<byte>, i: int) {
    exists p, at :: p in patterns && OccursAt(p, text, at) && at <= i < at + |p|
  }

  /** The reference definition of masking a whole text with a set of patterns. */
  ghost function Masked(patterns: set<seq<byte>>, text: seq<byte>): (r: seq<byte>) {
    seq(|text|, i requires 0 <= i < |text| => if Covered(patterns, text, i) then REPLACEMENT else text[i])
  }

  predicate IsSuffix(w: seq<byte>, t: seq<byte>) {
    |w| <= |t| && t[|t| - |w|..] == w
  }

  ghost function LongestUpTo(patterns: set<seq<byte>>, t: seq<byte>, k: nat): nat
    requires k <= |t|
  {
    if k == 0 then 0
    else if t[|t| - k..] in patterns then k
    else LongestUpTo(patterns, t, k - 1)
  }

  /** Length of the longest non-empty pattern that is a suffix of t; 0 when there is none. */
  ghost function Longest(patterns: set<seq<byte>>, t: seq<byte>): nat {
    LongestUpTo(patterns, t, |t|)
  }

  lemma {:induction false} LongestUpToBounds(patterns: set<seq<byte>>, t: seq<byte>, k: nat)
    requires k <= |t|
    ensures LongestUpTo(patterns, t, k) <= k
    ensures var n := LongestUpTo(patterns, t, k); n > 0 ==> t[|t| - n..] in patterns
    ensures forall p | p in patterns && IsSuffix(p, t) && |p| <= k :: |p| <= LongestUpTo(patterns, t, k)
  {
    if k > 0 && t[|t| - k..] !in patterns {
      LongestUpToBounds(patterns, t, k - 1);
    }
  }

  /** Longest is characterised by being attained by a pattern and bounding all of them. */
  lemma LongestBounds(patterns: set<seq<byte>>, t: seq<byte>)
    ensures Longest(patterns, t) <= |t|
    ensures var n := Longest(patterns, t); n > 0 ==> t[|t| - n..] in patterns
    ensures forall p | p in patterns && IsSuffix(p, t) :: |p| <= Longest(patterns, t)
  {
    LongestUpToBounds(patterns, t, |t|);
  }

  lemma LongestUnique(patterns: set<seq<byte>>, t: seq<byte>, n: nat)
    requires n <= |t|
    requires n > 0 ==> t[|t| - n..] in patterns
    requires forall p | p in patterns && IsSuffix(p, t) :: |p| <= n
    ensures n == Longest(patterns, t)
  {
    LongestBounds(patterns, t);
    var k := Longest(patterns, t);
    if k > 0 {
      assert IsSuffix(t[|t| - k..], t);
    }
    if n > 0 {
      assert IsSuffix(t[|t| - n..], t);
    }
  }

  lemma SuffixTransitive(a: seq<byte>, b: seq<byte>, c: seq<byte>)
    requires IsSuffix(a, b) && IsSuffix(b, c)
    ensures IsSuffix(a, c)
  {
    assert c[|c| - |a|..] == c[|c| - |b|..][|b| - |a|..];
  }

  lemma SuffixLinear(a: seq<byte>, b: seq<byte>, c: seq<byte>)
    requires IsSuffix(a, c) && IsSuffix(b, c) && |a| <= |b|
    ensures IsSuffix(a, b)
  {
    assert c[|c| - |a|..] == c[|c| - |b|..][|b| - |a|..];
  }

  lemma SuffixSnoc(w: seq<byte>, t: seq<byte>, c: byte)
    ensures IsSuffix(w + [c], t + [c]) <==> IsSuffix(w, t)
  {
    if |w| <= |t| {
      assert (t + [c])[|t| - |w|..] == t[|t| - |w|..] + [c];
      assert (w + [c])[..|w|] == w;
      assert (t[|t| - |w|..] + [c])[..|w|] == t[|t| - |w|..];
    }
  }

  lemma SuffixSnocInverse(w: seq<byte>, t: seq<byte>, c: byte)
    requires w != [] && IsSuffix(w, t + [c])
    ensures w == w[..|w| - 1] + [c] && IsSuffix(w[..|w| - 1], t)
  {
    assert w[|w| - 1] == (t + [c])[|t|];
    assert w == w[..|w| - 1] + [c];
    SuffixSnoc(w[..|w| - 1], t, c);
  }

  /** An occurrence inside a prefix is an occurrence of the whole text, and conversely. */
  lemma OccursInPrefix(p: seq<byte>, text: seq<byte>, upTo: nat, at: int)
    requires upTo <= |text|
    ensures OccursAt(p, text[..upTo], at) <==> OccursAt(p, text, at) && at + |p| <= upTo
  {
    if 0 <= at && at + |p| <= upTo {
      assert text[..upTo][at..at + |p|] == text[at..at + |p|];
    }
  }

  /** Ending at `end` and being a suffix of the text cut at `end` are the same thing. */
  lemma SuffixIsOccurrence(p: seq<byte>, text: seq<byte>, end: nat)
    requires end <= |text|
    ensures IsSuffix(p, text[..end]) <==> OccursAt(p, text, end - |p|)
  {
    if |p| <= end {
      assert text[..end][end - |p|..] == text[end - |p|..end];
    }
  }
}
