/**
 What the bytes of a masked stream may and must hide, independent of buffers: `first` says, for
 each pattern the stream has seen, how many bytes had left the buffer when it first saw it.
 */
module MaskLog {
  import opened Octets
  import opened MaskText
  import opened Marks
  import opened Matching
  import opened SecretRegistry

  type First = map<seq<byte>, nat>

  /** Some occurrence that starts no earlier than its pattern was first seen covers position i. */
  ghost predicate CoveredSince(first: First, text: seq<byte>, i: int) {
    exists p, at :: p in first && OccursAt(p, text, at) && first[p] <= at <= i < at + |p|
  }

  /** The reference output of a stream: exactly the positions covered since are replaced. */
  ghost function MaskedSince(first: First, text: seq<byte>): (r: seq<byte>) {
    seq(|text|, i requires 0 <= i < |text| => if CoveredSince(first, text, i) then REPLACEMENT else text[i])
  }

  ghost predicate AllHit(hit: seq<bool>, start: int, end: int) {
    forall i | start <= i < end && 0 <= i < |hit| :: hit[i]
  }

  ghost predicate Sound(first: First, text: seq<byte>, hit: seq<bool>) {
    |hit| == |text| && forall i | 0 <= i < |hit| && hit[i] :: CoveredSince(first, text, i)
  }

  /** Every occurrence ending by `upTo` that starts after its pattern was seen and after the last flush is hidden. */
  ghost predicate Complete(first: First, lastFlush: nat, text: seq<byte>, hit: seq<bool>, upTo: nat) {
    && |hit| == |text|
    && (forall p, at {:trigger OccursAt(p, text, at)} ::
          p in first && OccursAt(p, text, at) && first[p] <= at && lastFlush <= at && at + |p| <= upTo
          ==> AllHit(hit, at, at + |p|))
  }

  /** A buffer from which bytes have left still holds all but one byte of any pattern seen before. */
  ghost predicate Retained(first: First, lastFlush: nat, emitted: nat, held: nat) {
    forall p | p in first && first[p] < emitted && lastFlush < emitted :: |p| <= held + 1
  }

  /** `hit'` is `hit` plus the marks of scanning text[from..] after text[resetAt..from]. */
  ghost predicate Scanned(patterns: set<seq<byte>>, text: seq<byte>, resetAt: nat, from: nat, emitted: nat, hit: seq<bool>, hit': seq<bool>)
    requires resetAt <= from <= |text| && emitted <= from
  {
    && |hit| == |hit'| == |text|
    && (forall i | 0 <= i < emitted :: hit'[i] == hit[i])
    && (forall i | emitted <= i < |text| ::
          hit'[i] <==> hit[i] || Hits(patterns, text[resetAt..from], text[from..], from - emitted, |text| - from, i - emitted) > 0)
  }

  /** In terms of the whole text, a match of the scan is an occurrence inside the scanned window. */
  lemma EndsAtOccurs(patterns: set<seq<byte>>, text: seq<byte>, resetAt: nat, from: nat, emitted: nat, i: int, p: seq<byte>, k: int)
    requires resetAt <= from <= |text| && emitted <= from && 0 < k <= |text| - from
    ensures EndsAt(patterns, text[resetAt..from], text[from..], from - emitted, i - emitted, p, k) <==>
            p in patterns && OccursAt(p, text, from + k - |p|) && resetAt <= from + k - |p| && InMark(from + k - |p|, from + k, i)
  {
    var t := text[resetAt..from] + text[from..][..k];
    assert t == text[resetAt..from + k];
    if |p| <= |t| {
      assert t[|t| - |p|..] == text[from + k - |p|..from + k];
    }
  }

  lemma ScanIsSound(first: First, text: seq<byte>, resetAt: nat, from: nat, emitted: nat, hit: seq<bool>, hit': seq<bool>)
    requires resetAt <= from <= |text| && emitted <= from && [] !in first
    requires Sound(first, text, hit) && Scanned(first.Keys, text, resetAt, from, emitted, hit, hit')
    requires forall p | p in first :: first[p] <= resetAt
    ensures Sound(first, text, hit')
  {
    forall i | 0 <= i < |hit'| && hit'[i]
      ensures CoveredSince(first, text, i)
    {
      if !hit[i] {
        HitsAreOccurrences(first.Keys, text[resetAt..from], text[from..], from - emitted, |text| - from, i - emitted);
        var p, k :| k <= |text| - from && EndsAt(first.Keys, text[resetAt..from], text[from..], from - emitted, i - emitted, p, k);
        EndsAtOccurs(first.Keys, text, resetAt, from, emitted, i, p, k);
        assert OccursAt(p, text, from + k - |p|);
      }
    }
  }

  /** An occurrence inside the scanned window that ends in freshly scanned bytes is marked throughout. */
  lemma WindowIsHit(patterns: set<seq<byte>>, text: seq<byte>, resetAt: nat, from: nat, emitted: nat, hit: seq<bool>, hit': seq<bool>, p: seq<byte>, at: int)
    requires resetAt <= from <= |text| && emitted <= from && [] !in patterns
    requires Scanned(patterns, text, resetAt, from, emitted, hit, hit')
    requires p in patterns && OccursAt(p, text, at)
    requires resetAt <= at && emitted <= at && from < at + |p|
    ensures AllHit(hit', at, at + |p|)
  {
    var k := at + |p| - from;
    forall i | at <= i < at + |p|
      ensures hit'[i]
    {
      EndsAtOccurs(patterns, text, resetAt, from, emitted, i, p, k);
      assert EndsAt(patterns, text[resetAt..from], text[from..], from - emitted, i - emitted, p, k);
      HitsAreOccurrences(patterns, text[resetAt..from], text[from..], from - emitted, |text| - from, i - emitted);
    }
  }

  /**
   One write: everything complete up to `old` stays so, and scanning from `from` completes the
   rest. A pattern is either old, or new and scanned from the start of the buffer.
   */
  lemma ScanIsComplete(first0: First, first: First, lastFlush: nat, text: seq<byte>, resetAt: nat, from: nat, emitted: nat, before: nat, hit: seq<bool>, hit': seq<bool>)
    requires resetAt <= emitted <= from <= before <= |text| && [] !in first
    requires Complete(first0, lastFlush, text, hit, before)
    requires Scanned(first.Keys, text, resetAt, from, emitted, hit, hit')
    requires Retained(first0, lastFlush, emitted, before - emitted)
    requires forall p | p in first :: if p in first0 then first[p] == first0[p] else first[p] == from == emitted
    ensures Complete(first, lastFlush, text, hit', |text|)
  {
    forall p, at | p in first && OccursAt(p, text, at) && first[p] <= at && lastFlush <= at
      ensures AllHit(hit', at, at + |p|)
    {
      if p in first0 && at + |p| <= before {
        assert AllHit(hit, at, at + |p|);
      } else {
        WindowIsHit(first.Keys, text, resetAt, from, emitted, hit, hit', p, at);
      }
    }
  }

  /** Longer texts keep what was established about their prefix. */
  lemma Extend(first: First, lastFlush: nat, text: seq<byte>, more: seq<byte>, hit: seq<bool>)
    requires Sound(first, text, hit) && Complete(first, lastFlush, text, hit, |text|)
    ensures var hit' := hit + seq(|more|, i => false);
            Sound(first, text + more, hit') && Complete(first, lastFlush, text + more, hit', |text|)
  {
    var text', hit' := text + more, hit + seq(|more|, i => false);
    assert text'[..|text|] == text;
    forall i | 0 <= i < |hit'| && hit'[i]
      ensures CoveredSince(first, text', i)
    {
      assert CoveredSince(first, text, i);
      var p, at :| p in first && OccursAt(p, text, at) && first[p] <= at <= i < at + |p|;
      OccursInPrefix(p, text', |text|, at);
    }
    forall p, at | p in first && OccursAt(p, text', at) && first[p] <= at && lastFlush <= at && at + |p| <= |text|
      ensures AllHit(hit', at, at + |p|)
    {
      OccursInPrefix(p, text', |text|, at);
      assert AllHit(hit, at, at + |p|);
    }
  }

  /** A stream never flushed midway hides exactly the positions covered since. */
  lemma HitIsCoveredSince(first: First, text: seq<byte>, hit: seq<bool>, i: int)
    requires Sound(first, text, hit) && Complete(first, 0, text, hit, |text|)
    requires 0 <= i < |text|
    ensures hit[i] <==> CoveredSince(first, text, i)
  {
    if CoveredSince(first, text, i) {
      var p, at :| p in first && OccursAt(p, text, at) && first[p] <= at <= i < at + |p|;
      assert AllHit(hit, at, at + |p|);
    }
  }

  /** With every pattern seen from the start, stream masking and whole-text masking agree. */
  lemma FromTheStart(first: First, text: seq<byte>)
    requires forall p | p in first :: first[p] == 0
    ensures MaskedSince(first, text) == Masked(first.Keys, text)
  {
    forall i | 0 <= i < |text|
      ensures CoveredSince(first, text, i) <==> Covered(first.Keys, text, i)
    {
      if Covered(first.Keys, text, i) {
        var p, at :| p in first.Keys && OccursAt(p, text, at) && at <= i < at + |p|;
      }
    }
  }
}
