/** The coordinate history of one finger: a circular buffer with an optional position filter. */
module CoordBuffer {

  datatype Point = Point(x: int, y: int)

  /** One axis of the position filter: a raw value is pulled one unit toward the previous stored one. */
  function Pull(prev: int, raw: int): (v: int)
    ensures -1 <= v - raw <= 1
    ensures prev <= v <= raw || raw <= v <= prev
    ensures v == raw <==> raw == prev
    ensures v == prev <==> -1 <= raw - prev <= 1
  {
    if raw < prev then raw + 1 else if raw > prev then raw - 1 else raw
  }

  /** What is stored for `raw` when `samples` have been stored since the last reset. */
  function Stored(filter: bool, samples: seq<Point>, raw: Point): Point {
    if filter && samples != [] then
      var prev := samples[|samples| - 1];
      Point(Pull(prev.x, raw.x), Pull(prev.y, raw.y))
    else
      raw
  }

  function Record(filter: bool, samples: seq<Point>, raw: Point): seq<Point> {
    samples + [Stored(filter, samples, raw)]
  }

  /** Everything stored when the raw points `raws` arrive, in order, after a reset. */
  function Replay(filter: bool, raws: seq<Point>): (samples: seq<Point>)
    ensures |samples| == |raws|
  {
    if raws == [] then [] else
      Record(filter, Replay(filter, raws[..|raws| - 1]), raws[|raws| - 1])
  }

  /** The newest `size` elements of `s`. */
  function Newest<T>(s: seq<T>, size: nat): seq<T> {
    if |s| <= size then s else s[|s| - size..]
  }

  lemma {:induction false} ReplayOfPrefix(filter: bool, raws: seq<Point>, k: nat)
    requires k <= |raws|
    ensures Replay(filter, raws[..k]) == Replay(filter, raws)[..k]
  {
    if k == |raws| {
      assert raws[..k] == raws;
    } else {
      var front := raws[..|raws| - 1];
      ReplayOfPrefix(filter, front, k);
      assert front[..k] == raws[..k];
    }
  }

  lemma ReplayAt(filter: bool, raws: seq<Point>, i: nat)
    requires i < |raws|
    ensures Replay(filter, raws)[i] == Stored(filter, Replay(filter, raws)[..i], raws[i])
  {
    ReplayOfPrefix(filter, raws, i + 1);
    ReplayOfPrefix(filter, raws, i);
    assert raws[..i + 1][..i] == raws[..i];
  }

  predicate Between(v: int, a: int, b: int) {
    a <= v <= b || b <= v <= a
  }

  predicate Within(p: Point, lo: Point, hi: Point) {
    lo.x <= p.x <= hi.x && lo.y <= p.y <= hi.y
  }

  predicate Close(p: Point, q: Point) {
    -1 <= p.x - q.x <= 1 && -1 <= p.y - q.y <= 1
  }

  /** Each stored point is within one unit of its raw point and between it and its predecessor, so with the filter on
      an axis that moves falls short of the raw value by exactly one unit; the first point is exact. */
  lemma FilterFollowsInput(filter: bool, raws: seq<Point>, i: nat)
    requires i < |raws|
    ensures var s := Replay(filter, raws);
            && Close(s[i], raws[i])
            && (!filter || i == 0 ==> s[i] == raws[i])
            && (i > 0 ==> Between(s[i].x, s[i - 1].x, raws[i].x) && Between(s[i].y, s[i - 1].y, raws[i].y))
            && (filter && i > 0 ==> (s[i].x == raws[i].x <==> s[i - 1].x == raws[i].x)
                                    && (s[i].y == raws[i].y <==> s[i - 1].y == raws[i].y))
  {
    ReplayAt(filter, raws, i);
  }

  /** A rectangle enclosing every raw point encloses every stored one. */
  lemma {:induction false} FilterKeepsRange(filter: bool, raws: seq<Point>, lo: Point, hi: Point)
    requires forall r :: r in raws ==> Within(r, lo, hi)
    ensures forall p :: p in Replay(filter, raws) ==> Within(p, lo, hi)
  {
    if raws != [] {
      var front := raws[..|raws| - 1];
      FilterKeepsRange(filter, front, lo, hi);
      assert raws[|raws| - 1] in raws;
      var before := Replay(filter, front);
      assert before != [] ==> before[|before| - 1] in before;
    }
  }

  /** With the filter on, the stored position stands still exactly as long as the raw points
      stay within one unit of it. */
  lemma {:induction false} FilterHoldsStill(raws: seq<Point>, j: nat, k: nat)
    requires j <= k < |raws|
    ensures (forall i :: j < i <= k ==> Close(raws[i], Replay(true, raws)[j]))
            <==> (forall i :: j < i <= k ==> Replay(true, raws)[i] == Replay(true, raws)[j])
  {
    if j < k {
      FilterHoldsStill(raws, j, k - 1);
      ReplayAt(true, raws, k);
      var s := Replay(true, raws);
      assert s[..k][k - 1] == s[k - 1];
      assert s[k - 1] == s[j] ==> (s[k] == s[j] <==> Close(raws[k], s[j]));
    }
  }

  /** Where slot number `i` counted from `head` lies in a buffer of `size` slots. */
  function Slot(head: int, i: int, size: int): int {
    if head + i < size then head + i else head + i - size
  }

  lemma WrapAround(a: int, size: int)
    requires 0 < size && 0 <= a < 2 * size
    ensures a % size == if a < size then a else a - size
  {
    if a < size {
      assert a / size == 0;
    } else {
      assert a == size * 1 + (a - size);
      assert a / size == 1;
    }
  }

  /** Read circularly from `head`, `n` slots are the last `n` samples. */
  ghost predicate Holds(slots: seq<Point>, head: int, n: int, samples: seq<Point>) {
    && 0 <= head < |slots|
    && 0 <= n <= |slots| && n <= |samples|
    && forall i :: 0 <= i < n ==> slots[Slot(head, i, |slots|)] == samples[|samples| - n + i]
  }

  function NextSlot(i: int, size: int): (r: int)
    requires 0 <= i < size
    ensures r == Slot(i, 1, size)
  {
    WrapAround(i + 1, size);
    (i + 1) % size
  }

  lemma NewestSlot(slots: seq<Point>, head: int, n: int, samples: seq<Point>)
    requires Holds(slots, head, n, samples) && 0 < n
    ensures 0 <= Slot(head, n - 1, |slots|) < |slots|
    ensures slots[Slot(head, n - 1, |slots|)] == samples[|samples| - 1]
  {}

  /** Writing the slot after the last used one, and dropping the oldest if all are used, appends a sample. */
  lemma WriteAppends(slots: seq<Point>, head: int, n: int, samples: seq<Point>, p: Point)
    requires Holds(slots, head, n, samples)
    ensures var tail := Slot(head, n, |slots|);
            Holds(slots[tail := p],
                  if n == |slots| then Slot(head, 1, |slots|) else head,
                  if n < |slots| then n + 1 else n,
                  samples + [p])
  {
    var size := |slots|;
    var tail := Slot(head, n, size);
    var slots', samples' := slots[tail := p], samples + [p];
    var head' := if n == size then Slot(head, 1, size) else head;
    var n' := if n < size then n + 1 else n;
    forall i | 0 <= i < n'
      ensures slots'[Slot(head', i, size)] == samples'[|samples'| - n' + i]
    {
      if i == n' - 1 {
        assert Slot(head', i, size) == tail;
      } else if n == size {
        assert Slot(head', i, size) == Slot(head, i + 1, size) != tail;
      } else {
        assert Slot(head, i, size) != tail;
      }
    }
  }

  /** The first `n` slots met when reading circularly from `head`. */
  function ReadSlots(slots: seq<Point>, head: nat, n: nat): (w: seq<Point>)
    requires slots != []
    ensures |w| == n
  {
    seq(n, i requires 0 <= i < n => slots[(head + i) % |slots|])
  }

  class CoordBuf {
    const size: int
    const pCoords: array<Point>
    var head: int
    var tail: int
    var numItems: int

    /** Everything stored since the last reset. */
    ghost var samples: seq<Point>

    ghost predicate Valid()
      reads this, pCoords
    {
      && 1 <= size == pCoords.Length
      && 0 <= head < size
      && numItems == (if |samples| < size then |samples| else size)
      && tail == Slot(head, numItems, size)
      && Holds(pCoords[..], head, numItems, samples)
    }

    /** The used slots, read in order from `head`. */
    ghost function Window(): (w: seq<Point>)
      requires Valid()
      reads this, pCoords
    {
      ReadSlots(pCoords[..], head, numItems)
    }

    /** The buffer holds the newest samples, oldest first, and `tail` is the slot after them. */
    lemma WindowIsNewest()
      requires Valid()
      ensures Window() == Newest(samples, size)
      ensures tail == (head + numItems) % size
    {
      WrapAround(head + numItems, size);
      forall i | 0 <= i < numItems
        ensures Window()[i] == Newest(samples, size)[i]
      {
        WrapAround(head + i, size);
        assert Window()[i] == pCoords[Slot(head, i, size)];
      }
    }

    constructor (bufSize: int)
      requires bufSize >= 1
      ensures Valid() && size == bufSize && samples == [] && fresh(pCoords)
    {
      size := bufSize;
      pCoords := new Point[bufSize](_ => Point(0, 0));
      head, tail, numItems := 0, 0, 0;
      samples := [];
    }

    method Reset()
      requires Valid()
      modifies this
      ensures Valid() && samples == []
    {
      head, tail, numItems := 0, 0, 0;
      samples := [];
    }

    /** The two adjustments the filter makes. */
    static method FilterAgainst(prev: Point, xRaw: int, yRaw: int) returns (x: int, y: int)
      ensures x == Pull(prev.x, xRaw) && y == Pull(prev.y, yRaw)
    {
      x, y := xRaw, yRaw;
      if x < prev.x {
        x := x + 1;
      } else if x > prev.x {
        x := x - 1;
      }
      if y < prev.y {
        y := y + 1;
      } else if y > prev.y {
        y := y - 1;
      }
    }

    method Update(filter: bool, xRaw: int, yRaw: int)
      requires Valid()
      modifies this, pCoords
      ensures Valid()
      ensures samples == Record(filter, old(samples), Point(xRaw, yRaw))
    {
      var xCoord, yCoord := xRaw, yRaw;
      hide Holds, NextSlot;
      if head == tail && numItems == size {
        head := NextSlot(head, size);
      }
      var index := tail;
      if filter && numItems != 0 {
        var prev := if index != 0 then index - 1 else size - 1;
        NewestSlot(pCoords[..], old(head), numItems, samples);
        assert prev == Slot(old(head), numItems - 1, size);
        xCoord, yCoord := FilterAgainst(pCoords[prev], xCoord, yCoord);
      }
      assert Point(xCoord, yCoord) == Stored(filter, samples, Point(xRaw, yRaw));
      WriteAppends(pCoords[..], old(head), numItems, samples, Point(xCoord, yCoord));
      pCoords[index] := Point(xCoord, yCoord);
      assert pCoords[..] == old(pCoords[..])[index := Point(xCoord, yCoord)];
      if numItems < size {
        numItems := numItems + 1;
      }
      tail := NextSlot(tail, size);
      samples := samples + [Point(xCoord, yCoord)];
    }

    /** The newest sample, which exists whenever anything was stored since the last reset. */
    method GetLast() returns (x: int, y: int)
      requires Valid() && samples != []
      ensures Point(x, y) == samples[|samples| - 1]
    {
      WrapAround(head + numItems - 1, size);
      var previndex := (head + numItems - 1) % size;
      assert previndex == Slot(head, numItems - 1, size);
      x, y := pCoords[previndex].x, pCoords[previndex].y;
    }
  }
}
