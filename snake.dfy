/** The snake: an ordered list of cells (head first), a direction and a
    one-change-per-tick lock, updated in place by its methods. */
module Snakes {
  import opened Grid

  /** The body after one step: every segment takes the place of the one in
      front of it, the head steps along `dir`, and the old tail is gone. */
  function Advance(segs: seq<Cell>, dir: Cell): (r: seq<Cell>)
    requires |segs| >= 1
    ensures |r| == |segs|
    ensures r[0] == Add(segs[0], dir)
    ensures forall i :: 1 <= i < |r| ==> r[i] == segs[i - 1]
  {
    [Add(segs[0], dir)] + segs[..|segs| - 1]
  }

  /** A step only trades the old tail cell for the new head cell. */
  lemma AdvanceTradesTailForHead(segs: seq<Cell>, dir: Cell)
    requires |segs| >= 1
    ensures multiset(Advance(segs, dir))
         == multiset(segs) - multiset{segs[|segs| - 1]} + multiset{Add(segs[0], dir)}
  {
    var n := |segs|;
    assert segs == segs[..n - 1] + [segs[n - 1]];
    assert multiset(segs) == multiset(segs[..n - 1]) + multiset{segs[n - 1]};
    assert Advance(segs, dir) == [Add(segs[0], dir)] + segs[..n - 1];
  }

  /** The body after growing: one more cell behind the tail, one step further
      along the line from the second-to-last segment to the last. */
  function Extend(segs: seq<Cell>): (r: seq<Cell>)
    requires |segs| >= 2
    ensures |r| == |segs| + 1
    ensures r[..|segs|] == segs
    ensures Sub(r[|segs|], r[|segs| - 1]) == Sub(segs[|segs| - 1], segs[|segs| - 2])
  {
    var last, secondLast := segs[|segs| - 1], segs[|segs| - 2];
    segs + [(last.0 + (last.0 - secondLast.0), last.1 + (last.1 - secondLast.1))]
  }

  /** When the last two segments are neighbours, so are the old and the new tail. */
  lemma ExtendKeepsTailContiguous(segs: seq<Cell>)
    requires |segs| >= 2
    requires var d := Sub(segs[|segs| - 1], segs[|segs| - 2]);
             d in {(1, 0), (-1, 0), (0, 1), (0, -1)}
    ensures var r := Extend(segs);
            Sub(r[|segs|], segs[|segs| - 1]) in {(1, 0), (-1, 0), (0, 1), (0, -1)}
  {
  }

  /** The direction after one change request: a locked tick and the exact
      reverse leave it alone; anything else is adopted. */
  function Steer(dir: Cell, locked: bool, wanted: Cell): (r: Cell)
    ensures locked ==> r == dir
    ensures wanted == Neg(dir) ==> r == dir
    ensures !locked && wanted != Neg(dir) ==> r == wanted
    ensures dir != (0, 0) ==> r != Neg(dir)
  {
    if !locked && wanted != Neg(dir) then wanted else dir
  }

  /** The head occurs again further down the body exactly when it occurs at
      least twice in the whole body. */
  lemma HeadRepeated(segs: seq<Cell>)
    requires |segs| >= 1
    ensures segs[0] in segs[1..] <==> multiset(segs)[segs[0]] >= 2
  {
    assert segs == [segs[0]] + segs[1..];
    assert multiset(segs) == multiset{segs[0]} + multiset(segs[1..]);
  }

  class Snake {
    var segments: seq<Cell>
    var direction: Cell
    var blockDirection: bool

    /** Every operation keeps at least a head and one more segment. */
    ghost predicate Valid()
      reads this
    {
      |segments| >= 2
    }

    constructor (position: Cell, direction: Cell)
      ensures Valid()
      ensures segments == [position, Sub(position, direction)]
      ensures this.direction == direction && !blockDirection
    {
      segments := [position, (position.0 - direction.0, position.1 - direction.1)];
      this.direction := direction;
      blockDirection := false;
    }

    method ChangeDirection(newDirection: Cell)
      modifies this
      ensures direction == Steer(old(direction), old(blockDirection), newDirection)
      ensures blockDirection
      ensures segments == old(segments)
    {
      if !blockDirection {
        if newDirection != (-direction.0, -direction.1) {
          direction := newDirection;
        }
      }
      blockDirection := true;
    }

    /** The cell the head moves to next; starts a new tick by clearing the lock. */
    method GetNextPosition() returns (next: Cell)
      requires Valid()
      modifies this
      ensures Valid()
      ensures next == Add(segments[0], direction)
      ensures !blockDirection
      ensures segments == old(segments) && direction == old(direction)
    {
      blockDirection := false;
      next := (segments[0].0 + direction.0, segments[0].1 + direction.1);
    }

    method Move()
      requires Valid()
      modifies this
      ensures Valid()
      ensures segments == Advance(old(segments), old(direction))
      ensures direction == old(direction) && !blockDirection
    {
      var next := GetNextPosition();
      segments := segments[..|segments| - 1];
      segments := [next] + segments;
    }

    function IsCollision(): (c: bool)
      reads this
      requires Valid()
      ensures c <==> exists i :: 1 <= i < |segments| && segments[i] == segments[0]
      ensures c <==> multiset(segments)[segments[0]] >= 2
    {
      HeadRepeated(segments);
      GetHead() in segments[1..]
    }

    function GetHead(): (h: Cell)
      reads this
      requires Valid()
      ensures h == segments[0] && h in segments
    {
      segments[0]
    }

    function GetSegments(): (s: seq<Cell>)
      reads this
      ensures s == segments
    {
      segments
    }

    method Grow()
      requires Valid()
      modifies this
      ensures Valid()
      ensures segments == Extend(old(segments))
      ensures direction == old(direction) && blockDirection == old(blockDirection)
    {
      var lastSegment := segments[|segments| - 1];
      var secondLastSegment := segments[|segments| - 2];
      var deltaX := lastSegment.1 - secondLastSegment.1;
      var deltaY := lastSegment.0 - secondLastSegment.0;
      var newSegment := (lastSegment.0 + deltaY, lastSegment.1 + deltaX);
      segments := segments + [newSegment];
    }

    function GetLength(): (n: nat)
      reads this
      ensures n == |segments|
      ensures Valid() ==> n >= 2
    {
      |segments|
    }
  }
}
