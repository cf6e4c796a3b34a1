/**
 Range marks kept as a difference array: adding one mark touches two cells, and the sum of a
 prefix of the cells counts the marks that cover a position.
 */
module Marks {
  import opened Octets
  import opened MaskText

  function Sum(deltas: seq<int>): int {
    if deltas == [] then 0 else Sum(deltas[..|deltas| - 1]) + deltas[|deltas| - 1]
  }

  /** Number of marks covering position i. */
  function Level(deltas: seq<int>, i: int): int
    requires 0 <= i < |deltas|
  {
    Sum(deltas[..i + 1])
  }

  lemma {:induction false} SumAppend(a: seq<int>, b: seq<int>)
    ensures Sum(a + b) == Sum(a) + Sum(b)
  {
    if b == [] {
      assert a + b == a;
    } else {
      assert (a + b)[..|a + b| - 1] == a + b[..|b| - 1];
      SumAppend(a, b[..|b| - 1]);
    }
  }

  lemma {:induction false} SumZeros(n: nat)
    ensures Sum(seq(n, i => 0)) == 0
  {
    if n > 0 {
      assert seq(n, i => 0)[..n - 1] == seq(n - 1, i => 0);
      SumZeros(n - 1);
    }
  }

  lemma {:induction false} SumUpdate(deltas: seq<int>, at: nat, step: int)
    requires at < |deltas|
    ensures Sum(deltas[at := deltas[at] + step]) == Sum(deltas) + step
  {
    var d := deltas[at := deltas[at] + step];
    if at < |deltas| - 1 {
      assert d[..|d| - 1] == deltas[..|deltas| - 1][at := deltas[at] + step];
      SumUpdate(deltas[..|deltas| - 1], at, step);
    } else {
      assert d[..|d| - 1] == deltas[..|deltas| - 1];
    }
  }

  /** Adding `step` to one cell raises the level of that position and of all later ones. */
  lemma LevelUpdate(deltas: seq<int>, at: nat, step: int, i: nat)
    requires at < |deltas| && i < |deltas|
    ensures Level(deltas[at := deltas[at] + step], i) == Level(deltas, i) + if at <= i then step else 0
  {
    var d := deltas[at := deltas[at] + step];
    if at <= i {
      assert d[..i + 1] == deltas[..i + 1][at := deltas[at] + step];
      SumUpdate(deltas[..i + 1], at, step);
    } else {
      assert d[..i + 1] == deltas[..i + 1];
    }
  }

  /** A zero extension leaves old levels alone; new positions have the total as their level. */
  lemma LevelExtend(deltas: seq<int>, n: nat, i: nat)
    requires i < |deltas| + n
    ensures Level(deltas + seq(n, k => 0), i) == if i < |deltas| then Level(deltas, i) else Sum(deltas)
  {
    var d := deltas + seq(n, k => 0);
    if i < |deltas| {
      assert d[..i + 1] == deltas[..i + 1];
    } else {
      var k := i + 1 - |deltas|;
      assert d[..i + 1] == deltas + seq(k, j => 0);
      SumZeros(k);
      SumAppend(deltas, seq(k, j => 0));
    }
  }

  /** Dropping a prefix and folding its sum into the first kept cell shifts the levels. */
  lemma LevelShift(deltas: seq<int>, size: nat, i: nat)
    requires size + i < |deltas|
    ensures Level(deltas[size..][0 := Sum(deltas[..size]) + deltas[size]], i) == Level(deltas, size + i)
  {
    var rest := deltas[size..];
    LevelUpdate(rest, 0, Sum(deltas[..size]), i);
    assert deltas[..size + i + 1] == deltas[..size] + rest[..i + 1];
    SumAppend(deltas[..size], rest[..i + 1]);
  }

  predicate InMark(start: int, end: int, i: int) { start <= i < end }

  /** Marks [start, end), clipped to the array: exactly the positions inside gain one level. */
  method MarkRange(deltas: array<int>, start: int, end: int)
    modifies deltas
    ensures forall i | 0 <= i < deltas.Length - 1 ::
              Level(deltas[..], i) == old(Level(deltas[..], i)) + if InMark(start, end, i) then 1 else 0
    ensures Sum(deltas[..]) == old(Sum(deltas[..]))
  {
    var start', end' := start, end;
    if start' < 0 {
      start' := 0;
    }
    if end' > deltas.Length - 1 {
      end' := deltas.Length - 1;
    }
    if start' >= end' {
      return;
    }
    ghost var d0 := deltas[..];
    deltas[start'] := deltas[start'] + 1;
    ghost var d1 := deltas[..];
    assert d1 == d0[start' := d0[start'] + 1];
    deltas[end'] := deltas[end'] - 1;
    ghost var d2 := deltas[..];
    assert d2 == d1[end' := d1[end'] + -1];
    SumUpdate(d0, start', 1);
    SumUpdate(d1, end', -1);
    forall i | 0 <= i < deltas.Length - 1
      ensures Level(d2, i) == Level(d0, i) + if InMark(start, end, i) then 1 else 0
    {
      LevelUpdate(d0, start', 1, i);
      LevelUpdate(d1, end', -1, i);
    }
  }

  /** Replaces every byte with a positive level by '*'; returns the sum of the cells it passed. */
  method ApplyRangeMarks(value: array<byte>, deltas: seq<int>) returns (active: int)
    requires value.Length <= |deltas|
    modifies value
    ensures active == Sum(deltas[..value.Length])
    ensures forall i | 0 <= i < value.Length ::
              value[i] == if Level(deltas, i) > 0 then REPLACEMENT else old(value[i])
  {
    active := 0;
    for index := 0 to value.Length
      invariant active == Sum(deltas[..index])
      invariant forall i | 0 <= i < index ::
                  value[i] == if Level(deltas, i) > 0 then REPLACEMENT else old(value[i])
      invariant forall i | index <= i < value.Length :: value[i] == old(value[i])
    {
      assert deltas[..index + 1][..index] == deltas[..index];
      active := active + deltas[index];
      if active > 0 {
        value[index] := REPLACEMENT;
      }
    }
  }
}
