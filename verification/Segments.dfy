/** Cutting a request into segments and putting the answers together again. */
module Segments {
  import opened Wrappers

  datatype Segment = Segment(fromByte: nat, toByte: nat, posInArray: nat)

  function Min(a: int, b: int): int {
    if a <= b then a else b
  }

  function Max(a: int, b: int): int {
    if a >= b then a else b
  }

  /** Consecutive segments from 0 to `size`, each filed under its place; empty ones allowed. */
  ghost predicate Covers(segments: seq<Segment>, size: nat) {
    && segments != [] && segments[0].fromByte == 0 && segments[|segments| - 1].toByte == size
    && (forall i: nat :: i < |segments| ==> segments[i].posInArray == i && segments[i].fromByte <= segments[i].toByte)
    && forall i: nat :: i + 1 < |segments| ==> segments[i].toByte == segments[i + 1].fromByte
  }

  ghost predicate NoneEmpty(segments: seq<Segment>) {
    forall i: nat :: i < |segments| ==> segments[i].fromByte < segments[i].toByte
  }

  /** The size of every segment but the last. */
  function Step(countSegments: nat, size: nat, minSize: nat): int
    requires countSegments > 0
  {
    Min(size, Max(size / countSegments, minSize))
  }

  /** n * step, by addition. */
  function Times(n: nat, step: nat): nat {
    if n == 0 then 0 else Times(n - 1, step) + step
  }

  /** Where segment k starts. */
  function Start(k: nat, step: nat, size: nat): nat {
    Min(Times(k, step), size)
  }

  /** Segments of `step` bytes until `size` is reached. None is empty exactly when the count is not more
      than the minimal segment size leaves room for. */
  method MakeSegments(countSegments: nat, size: nat, minSize: nat) returns (answer: Option<seq<Segment>>)
    requires countSegments > 0
    ensures answer.None? <==> size == 0 || (minSize == 0 && size < countSegments)
    ensures answer.Some? ==> |answer.value| == countSegments && Covers(answer.value, size)
    ensures answer.Some? ==> (NoneEmpty(answer.value) <==> (countSegments - 1) * minSize < size)
    ensures answer.Some? ==> forall i: nat :: i + 1 < countSegments ==>
      var s := answer.value[i];
      s.toByte - s.fromByte == Step(countSegments, size, minSize) || s.toByte == size
  {
    hide Start;
    StepIsZero(countSegments, size, minSize);
    var step := Min(size, Max(size / countSegments, minSize));
    if step == 0 { return None; }
    var segments: seq<Segment> := [];
    var prevByte := 0;
    StartAt(0, step, size);
    for i := 0 to countSegments - 1
      invariant |segments| == i && prevByte == Start(i, step, size)
      invariant forall k: nat :: k < i ==>
        segments[k] == Segment(Start(k, step, size), Start(k + 1, step, size), k)
    {
      StartAt(i, step, size);
      var nextByte := Min(prevByte + step, size);
      segments := segments + [Segment(prevByte, nextByte, i)];
      prevByte := nextByte;
    }
    segments := segments + [Segment(prevByte, size, countSegments - 1)];
    Cut(segments, countSegments, step, size);
    RoomForAll(countSegments, size, minSize);
    return Some(segments);
  }

  lemma StepIsZero(count: nat, size: nat, minSize: nat)
    requires count > 0
    ensures Step(count, size, minSize) == 0 <==> size == 0 || (minSize == 0 && size < count)
  {
    assert size / count == 0 <==> size < count by {
      assert count * (size / count) <= size < count * (size / count) + count;
      if size / count >= 1 { assert count * (size / count) >= count; }
    }
  }

  lemma StartAt(k: nat, step: nat, size: nat)
    ensures Start(0, step, size) == 0
    ensures Start(k + 1, step, size) == Min(Start(k, step, size) + step, size)
    ensures Start(k, step, size) <= size
  {}

  /** Segment k of the cut. */
  function Piece(k: nat, count: nat, step: nat, size: nat): Segment {
    Segment(Start(k, step, size), if k + 1 < count then Start(k + 1, step, size) else size, k)
  }

  /** What the loop and its last segment leave behind. */
  lemma Cut(segments: seq<Segment>, count: nat, step: nat, size: nat)
    requires |segments| == count > 0 && step > 0
    requires forall k: nat :: k < count ==> segments[k] == Piece(k, count, step, size)
    ensures Covers(segments, size)
    ensures NoneEmpty(segments) <==> Start(count - 1, step, size) < size
    ensures forall i: nat :: i + 1 < count ==>
      segments[i].toByte - segments[i].fromByte == step || segments[i].toByte == size
  {
    hide Start;
    forall k: nat | k < count
      ensures segments[k].posInArray == k && segments[k].fromByte <= segments[k].toByte
      ensures Start(count - 1, step, size) < size ==> segments[k].fromByte < segments[k].toByte
      ensures k + 1 < count ==> segments[k].toByte == segments[k + 1].fromByte
      ensures k + 1 < count ==> segments[k].toByte - segments[k].fromByte == step || segments[k].toByte == size
    {
      PieceIsInside(k, count, step, size);
    }
    StartAt(0, step, size);
    assert segments[count - 1].toByte == size && segments[count - 1].fromByte == Start(count - 1, step, size);
  }

  lemma PieceIsInside(k: nat, count: nat, step: nat, size: nat)
    requires k < count
    ensures var s := Piece(k, count, step, size);
      && s.fromByte <= s.toByte
      && (Start(count - 1, step, size) < size && step > 0 ==> s.fromByte < s.toByte)
      && (k + 1 < count ==> s.toByte - s.fromByte == step || s.toByte == size)
  {
    hide Start;
    StartAt(k, step, size);
    StartsGrow(k, count - 1, step, size);
  }

  lemma {:induction false} StartsGrow(j: nat, k: nat, step: nat, size: nat)
    requires j <= k
    ensures Start(j, step, size) <= Start(k, step, size)
  {
    if j < k {
      StartsGrow(j, k - 1, step, size);
      StartAt(k - 1, step, size);
    }
  }

  lemma {:induction false} TimesIsProduct(n: nat, step: nat)
    ensures Times(n, step) == n * step
  {
    if n > 0 {
      TimesIsProduct(n - 1, step);
      assert n * step == (n - 1) * step + step;
    }
  }

  lemma {:induction false} TimesGrows(n: nat, a: nat, b: nat)
    requires a <= b
    ensures Times(n, a) <= Times(n, b)
    ensures n > 0 ==> a <= Times(n, a)
  {
    if n > 0 { TimesGrows(n - 1, a, b); }
  }

  /** The last segment starts before the end exactly when the minimal size leaves room for it. */
  lemma RoomForAll(count: nat, size: nat, minSize: nat)
    requires count > 0 && Step(count, size, minSize) > 0
    ensures Start(count - 1, Step(count, size, minSize), size) < size <==> (count - 1) * minSize < size
  {
    hide Start, Times;
    TimesIsProduct(count - 1, minSize);
    TimesIsProduct(count, size / count);
    RoomForStep(count, size, minSize, size / count);
  }

  lemma RoomForStep(count: nat, size: nat, minSize: nat, each: nat)
    requires count > 0 && Times(count, each) <= size && Min(size, Max(each, minSize)) > 0
    ensures Start(count - 1, Min(size, Max(each, minSize)), size) < size <==> Times(count - 1, minSize) < size
  {
    TimesGrows(count - 1, minSize, Max(minSize, each));
    TimesGrows(count - 1, Min(minSize, size), minSize);
    TimesGrows(count, each, each);
    TimesGrows(count - 1, size, size);
  }
}
