/** The fixed-capacity ring buffer of trail points (CircularTrail). The
    points live in an array of `capacity` slots; `head` is the slot the
    next point is written to and `size` counts the stored points. The ghost
    field Contents is the chronological view: index 0 is the oldest point,
    index size-1 the newest. */
module Trails {
  import opened Numerics

  const DefaultCapacity: int := 100

  /** The chronological effect of storing `p` in a buffer of capacity `cap`
      that already holds `s`: append, dropping the oldest point when full. */
  function Appended(s: seq<Vec2>, p: Vec2, cap: int): seq<Vec2>
    requires 1 <= cap && |s| <= cap
  {
    if |s| < cap then s + [p] else s[1..] + [p]
  }

  lemma ModSmall(x: int, c: int)
    requires 0 < c && 0 <= x < 3 * c
    ensures x % c == if x < c then x else if x < 2 * c then x - c else x - 2 * c
  {
    if x < c {
      ModInRange(x, c, 0);
    } else if x < 2 * c {
      ModInRange(x, c, 1);
    } else {
      ModInRange(x, c, 2);
    }
  }

  /** An iterator over a trail: the trail it walks and a logical index. */
  datatype Cursor = Cursor(trail: CircularTrail, index: int)

  /** operator*: the point under the cursor; the C++ code throws
      out_of_range (through GetPoint) when the index is outside the trail. */
  function Deref(c: Cursor): Option<Vec2>
    reads c.trail, c.trail.points
    requires c.trail.Coherent()
  {
    c.trail.GetPoint(c.index)
  }

  /** operator++ */
  function Next(c: Cursor): Cursor {
    Cursor(c.trail, c.index + 1)
  }

  function Advance(c: Cursor, k: nat): Cursor {
    if k == 0 then c else Next(Advance(c, k - 1))
  }

  /** Walking from begin() with ++ visits the points oldest first, and
      after `size` steps the cursor equals end(). */
  lemma {:induction false} IterationVisitsContents(t: CircularTrail, k: nat)
    requires t.Coherent() && k <= t.size
    ensures Advance(t.Begin(), k) == Cursor(t, k)
    ensures k < t.size ==> Deref(Advance(t.Begin(), k)) == Some(t.Contents[k])
    ensures k == t.size ==> Advance(t.Begin(), k) == t.End()
  {
    if k > 0 {
      IterationVisitsContents(t, k - 1);
    }
  }

  class CircularTrail {
    var points: array<Vec2>
    var head: int
    var size: int
    var capacity: int
    ghost var Contents: seq<Vec2>

    /** The field ranges every method keeps. */
    ghost predicate Shaped()
      reads this
    {
      1 <= capacity && points.Length == capacity && 0 <= size <= capacity && 0 <= head <= capacity
    }

    /** The array, read through LogicalToPhysical, holds Contents. */
    ghost predicate Coherent()
      reads this, points
    {
      && Shaped()
      && |Contents| == size
      && forall i :: 0 <= i < size ==> Contents[i] == points[LogicalToPhysical(i)]
    }

    /** The documented invariant: head is a slot of the buffer. */
    ghost predicate Valid()
      reads this, points
    {
      Coherent() && head < capacity
    }

    /** The physical slot of logical index i: start at the oldest point,
        which lies `size` slots behind the head, and walk forward. */
    function LogicalToPhysical(logicalIndex: int): (p: int)
      reads this
      requires Shaped() && 0 <= logicalIndex
      ensures 0 <= p < capacity
      ensures logicalIndex < capacity ==>
        p == (if head - size + logicalIndex < 0 then head - size + logicalIndex + capacity
              else if head - size + logicalIndex < capacity then head - size + logicalIndex
              else head - size + logicalIndex - capacity)
    {
      var startPos := (head - size + capacity) % capacity;
      if logicalIndex < capacity then
        ModSmall(head - size + capacity, capacity);
        ModSmall(startPos + logicalIndex, capacity);
        (startPos + logicalIndex) % capacity
      else
        (startPos + logicalIndex) % capacity
    }

    /** The newest point sits one slot behind the head (cyclically), and
        distinct logical indices occupy distinct slots. */
    lemma NewestBehindHead()
      requires Shaped() && 0 < size
      ensures LogicalToPhysical(size - 1) == (if head == 0 then capacity - 1 else head - 1)
    {
    }

    lemma SlotsDistinct(i: int, j: int)
      requires Shaped() && 0 <= i < j < size
      ensures LogicalToPhysical(i) != LogicalToPhysical(j)
    {
    }

    constructor Default()
      ensures Valid() && fresh(points)
      ensures capacity == DefaultCapacity && head == 0 && size == 0 && Contents == []
    {
      points := new Vec2[DefaultCapacity];
      head, size, capacity := 0, 0, DefaultCapacity;
      Contents := [];
    }

    constructor (requested: int)
      ensures Valid() && fresh(points)
      ensures capacity == MaxInt(1, requested) && head == 0 && size == 0 && Contents == []
    {
      var c := MaxInt(1, requested);
      points := new Vec2[c];
      head, size, capacity := 0, 0, c;
      Contents := [];
    }

    function GetCapacity(): (r: int)
      reads this, points
      requires Coherent()
      ensures 1 <= r && |Contents| <= r
    {
      capacity
    }

    function GetSize(): (r: int)
      reads this, points
      requires Coherent()
      ensures r == |Contents|
    {
      size
    }

    function IsEmpty(): (r: bool)
      reads this, points
      requires Coherent()
      ensures r <==> Contents == []
    {
      size == 0
    }

    function IsFull(): (r: bool)
      reads this, points
      requires Coherent()
      ensures r <==> |Contents| == capacity
    {
      size == capacity
    }

    /** GetPoint(index): index 0 is the oldest point and size-1 the newest;
        an index outside [0, size) is the out_of_range error. */
    function GetPoint(index: int): (r: Option<Vec2>)
      reads this, points
      requires Coherent()
      ensures r.Some? <==> 0 <= index < |Contents|
      ensures r.Some? ==> r.value == Contents[index]
    {
      if index < 0 || index >= size then None else Some(points[LogicalToPhysical(index)])
    }

    function Begin(): Cursor {
      Cursor(this, 0)
    }

    function End(): (c: Cursor)
      reads this
    {
      Cursor(this, size)
    }

    method GetOrderedPoints() returns (result: seq<Vec2>)
      requires Coherent()
      ensures result == Contents
    {
      result := [];
      var i := 0;
      while i < size
        invariant 0 <= i <= size
        invariant result == Contents[..i]
      {
        var p := GetPoint(i);
        result := result + [p.value];
        i := i + 1;
      }
    }

    /** AddPoint: write at the head, advance the head modulo the capacity,
        and grow the size until it reaches the capacity. */
    method AddPoint(point: Vec2)
      requires Valid()
      modifies this, points
      ensures Valid() && points == old(points) && capacity == old(capacity)
      ensures size == if old(size) < capacity then old(size) + 1 else capacity
      ensures Contents == Appended(old(Contents), point, capacity)
    {
      ghost var c0, h0, n0 := Contents, head, size;
      points[head] := point;
      head := (head + 1) % capacity;
      ModSmall(h0 + 1, capacity);
      if size < capacity {
        size := size + 1;
      }
      Contents := Appended(Contents, point, capacity);
      forall i | 0 <= i < size
        ensures Contents[i] == points[LogicalToPhysical(i)]
      {
        if n0 < capacity {
          if i < n0 {
            assert LogicalToPhysical(i) == old(LogicalToPhysical(i));
            assert old(LogicalToPhysical(i)) != h0;
          }
        } else {
          if i < n0 - 1 {
            assert LogicalToPhysical(i) == old(LogicalToPhysical(i + 1));
            assert Contents[i] == c0[i + 1];
          }
        }
      }
    }

    /** Clear forgets every point but keeps the capacity and the buffer. */
    method Clear()
      requires Coherent()
      modifies this
      ensures Valid() && points == old(points) && capacity == old(capacity)
      ensures Contents == []
    {
      head := 0;
      size := 0;
      Contents := [];
    }

    /** A fresh buffer of `newCapacity` slots holding Contents[from..from+count]
        at slots 0..count-1 (the copy loops of SetCapacity). */
    method CopyOrdered(from: int, count: int, newCapacity: int) returns (a: array<Vec2>)
      requires Coherent() && 0 <= from && 0 <= count <= newCapacity && from + count <= size
      ensures fresh(a) && a.Length == newCapacity
      ensures forall k :: 0 <= k < count ==> a[k] == Contents[from + k]
    {
      a := new Vec2[newCapacity];
      var i := 0;
      while i < count
        invariant 0 <= i <= count
        invariant forall k :: 0 <= k < i ==> a[k] == Contents[from + k]
      {
        var p := GetPoint(from + i);
        a[i] := p.value;
        i := i + 1;
      }
    }

    /** After the buffer is rebuilt with the points at slots 0..size-1 and
        the head at `size` (or at 0 when full), the array holds Contents. */
    lemma RebuiltIsCoherent()
      requires Shaped() && |Contents| == size
      requires head == (if size < capacity then size else 0)
      requires forall k :: 0 <= k < size ==> points[k] == Contents[k]
      ensures Coherent()
    {
      forall i | 0 <= i < size
        ensures LogicalToPhysical(i) == i
      {
      }
    }

    /** SetCapacity: grow, or shrink keeping the newest points, preserving
        their chronological order; the head becomes the next free slot, or
        slot 0 when the rebuilt buffer is full. */
    method SetCapacity(requested: int)
      requires Valid()
      modifies this
      ensures Valid()
      ensures capacity == MaxInt(1, requested)
      ensures old(size) <= capacity ==> Contents == old(Contents)
      ensures capacity < old(size) ==> Contents == old(Contents)[old(size) - capacity..]
      ensures capacity == old(capacity) ==> points == old(points) && head == old(head)
      ensures capacity != old(capacity) ==> fresh(points)
    {
      var newCapacity := MaxInt(1, requested);
      if newCapacity == capacity {
        return;
      }
      if newCapacity > capacity {
        var newPoints := CopyOrdered(0, size, newCapacity);
        points := newPoints;
        head := size;
        capacity := newCapacity;
        RebuiltIsCoherent();
      } else if newCapacity < size {
        var startIndex := size - newCapacity;
        var newPoints := CopyOrdered(startIndex, newCapacity, newCapacity);
        points := newPoints;
        head := 0;
        size := newCapacity;
        Contents := Contents[startIndex..];
        capacity := newCapacity;
        RebuiltIsCoherent();
      } else {
        var newPoints := CopyOrdered(0, size, newCapacity);
        points := newPoints;
        ModSmall(size, newCapacity);
        head := size % newCapacity;
        capacity := newCapacity;
        RebuiltIsCoherent();
      }
    }

    /** SetCapacity exactly as the C++ code writes it: the shrink branch that
        still holds every point sets head = size even when size equals the
        new capacity, leaving the head one past the last slot. */
    method SetCapacityAsWritten(requested: int)
      requires Valid()
      modifies this
      ensures Coherent()
      ensures capacity == MaxInt(1, requested)
      ensures old(size) <= capacity ==> Contents == old(Contents)
      ensures capacity < old(size) ==> Contents == old(Contents)[old(size) - capacity..]
      ensures capacity < old(capacity) && capacity == old(size) ==> head == capacity
      ensures !(capacity < old(capacity) && capacity == old(size)) ==> Valid()
    {
      var newCapacity := MaxInt(1, requested);
      if newCapacity == capacity {
        return;
      }
      if newCapacity > capacity {
        var newPoints := CopyOrdered(0, size, newCapacity);
        points := newPoints;
        head := size;
        capacity := newCapacity;
        RebuiltIsCoherent();
      } else {
        if newCapacity < size {
          var startIndex := size - newCapacity;
          var newPoints := CopyOrdered(startIndex, newCapacity, newCapacity);
          points := newPoints;
          head := 0;
          size := newCapacity;
          Contents := Contents[startIndex..];
          capacity := newCapacity;
          RebuiltIsCoherent();
        } else {
          var newPoints := CopyOrdered(0, size, newCapacity);
          points := newPoints;
          head := size;
          capacity := newCapacity;
          if size < capacity {
            RebuiltIsCoherent();
          } else {
            forall i | 0 <= i < size
              ensures LogicalToPhysical(i) == i
            {
            }
          }
        }
      }
    }

    /** Reserve only ever grows the buffer. */
    method Reserve(requested: int)
      requires Valid()
      modifies this
      ensures Valid()
      ensures capacity == if requested > old(capacity) then requested else old(capacity)
      ensures Contents == old(Contents)
    {
      if requested > capacity {
        SetCapacity(requested);
      }
    }
  }

  /** A trail of capacity 3 holding two points, shrunk to capacity 2 by the
      SetCapacity of the C++ code, is left with its head outside the buffer, so the
      next AddPoint would write past the end of the array. */
  method ShrinkToSizeLeavesHeadOutside() returns (headInRange: bool)
    ensures !headInRange
  {
    var t := new CircularTrail(3);
    t.AddPoint(Vec2(1.0, 0.0));
    t.AddPoint(Vec2(2.0, 0.0));
    t.SetCapacityAsWritten(2);
    headInRange := 0 <= t.head < t.capacity;
  }

  /** The corrected SetCapacity keeps the head inside on the same input. */
  method ShrinkToSizeKeepsHeadInside() returns (headInRange: bool)
    ensures headInRange
  {
    var t := new CircularTrail(3);
    t.AddPoint(Vec2(1.0, 0.0));
    t.AddPoint(Vec2(2.0, 0.0));
    t.SetCapacity(2);
    headInRange := 0 <= t.head < t.capacity;
    t.AddPoint(Vec2(3.0, 0.0));
  }
}
