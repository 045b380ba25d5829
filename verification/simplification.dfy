/** Ramer-Douglas-Peucker with an explicit stack. The norm is a parameter: the loop is right for any, and for
    the Euclidean one it is said in terms of points and lines what the outline is. */
module Simplification {

  datatype Point = Point(x: real, y: real)

  /** A stretch of the outline, by the indices of its ends. */
  datatype Segment = Segment(first: nat, last: nat)

  type Norm = (real, real) -> real

  function Abs(r: real): real {
    if r < 0.0 then -r else r
  }

  function Minus(a: Point, b: Point): Point {
    Point(a.x - b.x, a.y - b.y)
  }

  function Cross(a: Point, b: Point): real {
    a.x * b.y - a.y * b.x
  }

  function Length(v: Point, norm: Norm): real {
    norm(v.x, v.y)
  }

  /** The distance the code measures a point by: to the line through a chord's ends, or to the chord's
      start when the chord has no length. */
  function Distance(start: Point, end: Point, p: Point, norm: Norm): real {
    var segment, span := Minus(end, start), Minus(p, start);
    var length := Length(segment, norm);
    if length == 0.0 then Length(span, norm) else Abs(Cross(segment, span)) / length
  }

  // ------------------------------------------------------------- what the distance measures

  /** The norm the program computes with, but for rounding. */
  ghost predicate Euclidean(norm: Norm) {
    forall x, y :: norm(x, y) >= 0.0 && norm(x, y) * norm(x, y) == x * x + y * y
  }

  /** A point of the line through a chord's ends; of the chord itself, for t from 0 to 1. */
  function OnLine(start: Point, end: Point, t: real): Point {
    Point(start.x + t * (end.x - start.x), start.y + t * (end.y - start.y))
  }

  /** A product by name: squares written out are simplified away by the prover. */
  lemma Signs(a: real, b: real, product: real)
    requires product == a * b
    ensures (a > 0.0 && b > 0.0) || (a < 0.0 && b < 0.0) ==> product > 0.0
    ensures a >= 0.0 && b >= 0.0 ==> product >= 0.0
  {
  }

  function Square(a: real): (s: real)
    ensures s >= 0.0
    ensures s == 0.0 <==> a == 0.0
  {
    var s := a * a;
    Signs(a, a, s);
    s
  }

  function Dot(a: Point, b: Point): real {
    a.x * b.x + a.y * b.y
  }

  lemma LengthIs(v: Point, norm: Norm)
    requires Euclidean(norm)
    ensures Length(v, norm) >= 0.0 && Square(Length(v, norm)) == Dot(v, v) == Square(v.x) + Square(v.y)
  {
  }

  lemma RootsAscend(a: real, b: real)
    requires b >= 0.0 && Square(a) <= Square(b)
    ensures a <= b
  {
    if a > b {
      SquaresAscend(a, b, (a - b) * a, (a - b) * b);
    }
  }

  lemma SquaresAscend(a: real, b: real, above: real, below: real)
    requires 0.0 <= b < a && above == (a - b) * a && below == (a - b) * b
    ensures Square(b) < Square(a)
  {
    Signs(a - b, a, above);
    Signs(a - b, b, below);
    assert above + below == Square(a) - Square(b);
  }

  lemma ScaledDown(a: real, b: real, c: real)
    requires c > 0.0 && a * c <= b * c
    ensures a <= b
  {
    Signs(a - b, c, (a - b) * c);
  }

  lemma SameSquare(a: real)
    ensures Square(Abs(a)) == Square(a) && Abs(a) >= 0.0
  {
  }

  lemma SquareOfProduct(a: real, b: real)
    ensures Square(b * a) == Square(a) * Square(b)
  {
  }

  /** The chord's squared length times that of what leads from a point of its line to p. */
  lemma Lagrange(start: Point, end: Point, p: Point, t: real)
    ensures var s, way := Minus(end, start), Minus(p, OnLine(start, end, t));
      Dot(s, s) * Dot(way, way) == Square(Cross(s, Minus(p, start))) + Square(Dot(s, way))
  {
    var s, d, way := Minus(end, start), Minus(p, start), Minus(p, OnLine(start, end, t));
    assert way == Point(d.x - t * s.x, d.y - t * s.y);
    assert Cross(s, way) == Cross(s, d);
    Brahmagupta(s, way);
  }

  lemma Brahmagupta(a: Point, b: Point)
    ensures Dot(a, a) * Dot(b, b) == Square(Cross(a, b)) + Square(Dot(a, b))
  {
  }

  /** The same in lengths: across is the distance times the chord's length. */
  lemma LengthsCompare(length: real, far: real, across: real, along: real)
    requires length > 0.0 && far >= 0.0
    requires Square(length) * Square(far) == Square(across) + Square(along)
    ensures Abs(across) / length <= far
    ensures along == 0.0 ==> Abs(across) / length == far
  {
    var d := Abs(across) / length;
    assert d * length == Abs(across);
    SameSquare(across);
    SquareOfProduct(length, far);
    Signs(far, length, far * length);
    hide Square, Abs;
    RootsAscend(d * length, far * length);
    ScaledDown(d, far, length);
    if along == 0.0 {
      RootsAscend(far * length, d * length);
      ScaledDown(far, d, length);
    }
  }

  /** What is measured, against a point of the line; as much when the way from there is square to the chord. */
  lemma AgainstPoint(start: Point, end: Point, p: Point, norm: Norm, t: real)
    requires Euclidean(norm) && Length(Minus(end, start), norm) != 0.0
    ensures var way := Minus(p, OnLine(start, end, t));
      && Distance(start, end, p, norm) <= Length(way, norm)
      && (Dot(Minus(end, start), way) == 0.0 ==> Distance(start, end, p, norm) == Length(way, norm))
  {
    var s, way := Minus(end, start), Minus(p, OnLine(start, end, t));
    hide Square, Cross, Dot, Abs, OnLine, Minus, Length, Euclidean;
    LengthIs(s, norm);
    LengthIs(way, norm);
    Lagrange(start, end, p, t);
    LengthsCompare(Length(s, norm), Length(way, norm), Cross(s, Minus(p, start)), Dot(s, way));
  }

  /** A chord of no length is a point. */
  lemma OnPoint(start: Point, end: Point, p: Point, norm: Norm, t: real)
    requires Euclidean(norm) && Length(Minus(end, start), norm) == 0.0
    ensures Distance(start, end, p, norm) == Length(Minus(p, OnLine(start, end, t)), norm)
  {
    NoLength(Minus(end, start), norm);
    assert start == end;
    StaysPut(start, t);
    hide OnLine, Minus, Length, Euclidean;
  }

  lemma NoLength(v: Point, norm: Norm)
    requires Euclidean(norm) && Length(v, norm) == 0.0
    ensures v == Point(0.0, 0.0)
  {
    LengthIs(v, norm);
    hide *;
    assert Square(v.x) == 0.0 && Square(v.y) == 0.0;
  }

  lemma StaysPut(p: Point, t: real)
    ensures OnLine(p, p, t) == p
  {
  }

  /** What the program measures is the distance to the line: no point of the line is nearer. */
  lemma DistanceIsLeast(start: Point, end: Point, p: Point, norm: Norm, t: real)
    requires Euclidean(norm)
    ensures Distance(start, end, p, norm) <= Length(Minus(p, OnLine(start, end, t)), norm)
  {
    hide *;
    if Length(Minus(end, start), norm) == 0.0 {
      OnPoint(start, end, p, norm, t);
    } else {
      AgainstPoint(start, end, p, norm, t);
    }
  }

  /** And one is as near: the foot of the perpendicular. */
  lemma DistanceIsReached(start: Point, end: Point, p: Point, norm: Norm) returns (t: real)
    requires Euclidean(norm)
    ensures Distance(start, end, p, norm) == Length(Minus(p, OnLine(start, end, t)), norm)
  {
    hide *;
    if Length(Minus(end, start), norm) == 0.0 {
      t := 0.0;
      OnPoint(start, end, p, norm, t);
    } else {
      LengthIs(Minus(end, start), norm);
      t := Foot(start, end, p);
      AgainstPoint(start, end, p, norm, t);
    }
  }

  /** So comparing what is measured with the tolerance tells whether the line comes as near as that. */
  lemma NearIffMeasured(a: Point, b: Point, p: Point, tolerance: real, norm: Norm)
    requires Euclidean(norm)
    ensures Near(a, b, p, tolerance, norm) <==> Distance(a, b, p, norm) <= tolerance
  {
    hide Euclidean, Distance, Length, Minus, OnLine;
    if Near(a, b, p, tolerance, norm) {
      var t :| Length(Minus(p, OnLine(a, b, t)), norm) <= tolerance;
      DistanceIsLeast(a, b, p, norm, t);
    }
    var t := DistanceIsReached(a, b, p, norm);
  }

  lemma Foot(start: Point, end: Point, p: Point) returns (t: real)
    requires Dot(Minus(end, start), Minus(end, start)) != 0.0
    ensures Dot(Minus(end, start), Minus(p, OnLine(start, end, t))) == 0.0
  {
    var s, d := Minus(end, start), Minus(p, start);
    t := Dot(s, d) / Dot(s, s);
    assert t * Dot(s, s) == Dot(s, d);
    var way := Minus(p, OnLine(start, end, t));
    assert way == Point(d.x - t * s.x, d.y - t * s.y);
    assert Dot(s, way) == Dot(s, d) - t * Dot(s, s);
  }

  /** The distances of the points strictly inside a segment. */
  function Distances(points: seq<Point>, first: nat, last: nat, norm: Norm): (d: seq<real>)
    requires first + 1 < last < |points|
    ensures |d| == last - first - 1
  {
    seq(last - first - 1, k requires 0 <= k < last - first - 1 =>
      Distance(points[first], points[last], points[first + 1 + k], norm))
  }

  /** The first index of the greatest. */
  function ArgMax(d: seq<real>): (m: nat)
    requires d != []
    ensures m < |d|
    ensures forall j | 0 <= j < |d| :: d[j] <= d[m]
    ensures forall j | 0 <= j < m :: d[j] < d[m]
  {
    if |d| == 1 then 0
    else
      var m := ArgMax(d[..|d| - 1]);
      if d[|d| - 1] > d[m] then |d| - 1 else m
  }

  /** The inner points kept of a segment, recursively. */
  function Kept(points: seq<Point>, tolerance: real, norm: Norm, first: nat, last: nat): (kept: set<int>)
    requires first <= last < |points|
    ensures forall i | i in kept :: first < i < last
    decreases last - first
  {
    if last <= first + 1 then {}
    else
      var d := Distances(points, first, last, norm);
      var index := first + 1 + ArgMax(d);
      if d[ArgMax(d)] > tolerance then
        {index} + Kept(points, tolerance, norm, first, index) + Kept(points, tolerance, norm, index, last)
      else {}
  }

  /** The points a mask selects. */
  function Masked(points: seq<Point>, keep: seq<bool>): seq<Point>
    requires |points| == |keep|
  {
    if points == [] then []
    else
      var n := |points| - 1;
      Masked(points[..n], keep[..n]) + if keep[n] then [points[n]] else []
  }

  datatype Result = Simplified(points: seq<Point>) | IndexError

  /** The set a mask stands for. */
  predicate MaskIs(keep: seq<bool>, indices: set<int>) {
    forall i | 0 <= i < |keep| :: keep[i] <==> i in indices
  }

  ghost predicate OnStack(stack: seq<Segment>, n: nat) {
    forall s | s in stack :: s.first <= s.last < n
  }

  /** What the segments on the stack will still keep. */
  ghost function Pending(points: seq<Point>, tolerance: real, norm: Norm, stack: seq<Segment>): set<int>
    requires OnStack(stack, |points|)
  {
    if stack == [] then {}
    else
      var s := stack[|stack| - 1];
      Pending(points, tolerance, norm, stack[..|stack| - 1]) + Kept(points, tolerance, norm, s.first, s.last)
  }

  /** An upper bound on the iterations a stack takes. */
  ghost function Work(stack: seq<Segment>): nat {
    if stack == [] then 0
    else
      var s := stack[|stack| - 1];
      Work(stack[..|stack| - 1]) + if s.last <= s.first then 1 else 2 * (s.last - s.first) - 1
  }

  /** The outline runs through the points at these places, in their order, from the first to the last. */
  ghost predicate RunsThrough(points: seq<Point>, outline: seq<Point>, at: seq<nat>) {
    && |at| == |outline| > 0 && at[0] == 0 && at[|at| - 1] == |points| - 1
    && (forall i, j | 0 <= i < j < |at| :: at[i] < at[j])
    && (forall i | 0 <= i < |at| :: at[i] < |points| && outline[i] == points[at[i]])
  }

  /** And every point passed over is within tolerance of the chord that passes it. */
  ghost predicate Outlines(points: seq<Point>, tolerance: real, norm: Norm, outline: seq<Point>, at: seq<nat>) {
    && RunsThrough(points, outline, at)
    && (forall i, j | 0 <= i < |at| - 1 && at[i] < j < at[i + 1] ::
          Distance(outline[i], outline[i + 1], points[j], norm) <= tolerance)
  }

  /** Some point of the line through a and b is within tolerance of p. */
  ghost predicate Near(a: Point, b: Point, p: Point, tolerance: real, norm: Norm) {
    exists t :: Length(Minus(p, OnLine(a, b, t)), norm) <= tolerance
  }

  /** In terms of the norm alone: the points passed over are near the line through the kept ones around them,
      and every kept one but the ends is not near the line through two others around it. */
  ghost predicate Approximates(points: seq<Point>, tolerance: real, norm: Norm, outline: seq<Point>, at: seq<nat>) {
    && RunsThrough(points, outline, at)
    && (forall i, j | 0 <= i < |at| - 1 && at[i] < j < at[i + 1] ::
          Near(outline[i], outline[i + 1], points[j], tolerance, norm))
    && (forall i | 0 < i < |at| - 1 :: StandsOut(outline, i, tolerance, norm))
  }

  ghost predicate StandsOut(outline: seq<Point>, i: nat, tolerance: real, norm: Norm)
    requires i < |outline|
  {
    exists a, b :: 0 <= a < i < b < |outline| && !Near(outline[a], outline[b], outline[i], tolerance, norm)
  }

  /** The explicit stack keeps the ends and what the recursion keeps, in the order of the points, and so
      the outline stays within tolerance of every point. */
  method Simplify(points: seq<Point>, tolerance: real, norm: Norm) returns (r: Result)
    ensures points == [] ==> r == IndexError
    ensures points != [] ==> exists keep: seq<bool> ::
      && |keep| == |points|
      && MaskIs(keep, {0, |points| - 1} + Kept(points, tolerance, norm, 0, |points| - 1))
      && r == Simplified(Masked(points, keep))
    ensures points != [] ==> r.Simplified? && exists at ::
      && Outlines(points, tolerance, norm, r.points, at)
      && (Euclidean(norm) ==> Approximates(points, tolerance, norm, r.points, at))
  {
    if |points| == 0 {
      return IndexError;
    }
    var n := |points|;
    var keep := new bool[n](_ => false);
    keep[0] := true;
    keep[n - 1] := true;
    var stack := [Segment(0, n - 1)];
    ghost var goal := {0, n - 1} + Kept(points, tolerance, norm, 0, n - 1);
    assert MaskIs(keep[..], {0, n - 1});
    hide *;
    Start(points, tolerance, norm, keep[..]);
    while stack != []
      invariant Accounted(points, tolerance, norm, keep[..], stack, goal)
      decreases Work(stack)
    {
      OneSegment(points, tolerance, norm, keep[..], stack, goal);
      var segment := stack[|stack| - 1];
      stack := stack[..|stack| - 1];
      var pushed := Visit(points, tolerance, norm, segment, keep);
      stack := stack + pushed;
    }
    NothingPending(points, tolerance, norm, keep[..], goal);
    var mask := keep[..];
    r := Simplified(Masked(points, mask));
    MaskOutlines(points, tolerance, norm, mask);
    MaskApproximates(points, tolerance, norm, mask);
  }

  predicate Splits(points: seq<Point>, tolerance: real, norm: Norm, first: nat, last: nat)
    requires first <= last < |points|
  {
    last > first + 1
    && var d := Distances(points, first, last, norm); d[ArgMax(d)] > tolerance
  }

  /** A popped segment: its farthest point, if it is too far, is kept and splits it. */
  method Visit(points: seq<Point>, tolerance: real, norm: Norm, segment: Segment, keep: array<bool>)
    returns (pushed: seq<Segment>)
    requires segment.first <= segment.last < |points| == keep.Length
    modifies keep
    ensures keep[..] == Marked(points, tolerance, norm, segment, old(keep[..]))
    ensures pushed == Parts(points, tolerance, norm, segment)
  {
    var Segment(first, last) := segment;
    pushed := [];
    if last <= first + 1 {
      return;
    }
    hide ArgMax, Distances;
    var distances := Distances(points, first, last, norm);
    var index := ArgMax(distances);
    if distances[index] > tolerance {
      index := index + first + 1;
      keep[index] := true;
      pushed := pushed + [Segment(first, index)];
      pushed := pushed + [Segment(index, last)];
    }
  }

  function Parts(points: seq<Point>, tolerance: real, norm: Norm, s: Segment): seq<Segment>
    requires s.first <= s.last < |points|
  {
    if Splits(points, tolerance, norm, s.first, s.last) then
      var index := ArgMax(Distances(points, s.first, s.last, norm)) + s.first + 1;
      [Segment(s.first, index), Segment(index, s.last)]
    else []
  }

  function Marked(points: seq<Point>, tolerance: real, norm: Norm, s: Segment, keep: seq<bool>): seq<bool>
    requires s.first <= s.last < |points| == |keep|
  {
    if Splits(points, tolerance, norm, s.first, s.last) then
      keep[ArgMax(Distances(points, s.first, s.last, norm)) + s.first + 1 := true]
    else keep
  }

  /** What is kept so far and what the stack will keep make up the goal. */
  ghost predicate Accounted(points: seq<Point>, tolerance: real, norm: Norm,
                            keep: seq<bool>, stack: seq<Segment>, goal: set<int>) {
    && |keep| == |points|
    && OnStack(stack, |points|)
    && forall i | 0 <= i < |keep| :: i in goal <==> keep[i] || i in Pending(points, tolerance, norm, stack)
  }

  lemma NothingPending(points: seq<Point>, tolerance: real, norm: Norm, keep: seq<bool>, goal: set<int>)
    requires Accounted(points, tolerance, norm, keep, [], goal)
    ensures MaskIs(keep, goal)
  {
  }

  lemma Start(points: seq<Point>, tolerance: real, norm: Norm, keep: seq<bool>)
    requires |keep| == |points| > 0
    requires MaskIs(keep, {0, |keep| - 1})
    ensures var last := |points| - 1;
      Accounted(points, tolerance, norm, keep, [Segment(0, last)], {0, last} + Kept(points, tolerance, norm, 0, last))
  {
    StackOfOne(points, tolerance, norm, [Segment(0, |points| - 1)]);
  }

  lemma Top(points: seq<Point>, tolerance: real, norm: Norm, keep: seq<bool>, stack: seq<Segment>, goal: set<int>)
    requires stack != [] && Accounted(points, tolerance, norm, keep, stack, goal)
    ensures |keep| == |points|
    ensures var s := stack[|stack| - 1]; s.first <= s.last < |points|
  {
  }

  /** A segment that is done: nothing is lost and the work shrinks. */
  lemma DropSegment(points: seq<Point>, tolerance: real, norm: Norm,
                    keep: seq<bool>, stack: seq<Segment>, goal: set<int>)
    requires stack != [] && Accounted(points, tolerance, norm, keep, stack, goal)
    requires var s := stack[|stack| - 1];
      s.first <= s.last < |points| && !Splits(points, tolerance, norm, s.first, s.last)
    ensures Accounted(points, tolerance, norm, keep, stack[..|stack| - 1], goal)
    ensures Work(stack[..|stack| - 1]) < Work(stack)
  {
    hide Kept, Pending, Work, ArgMax, Distances;
    Popped(points, tolerance, norm, stack);
    var s := stack[|stack| - 1];
    KeptStep(points, tolerance, norm, s.first, s.last);
  }

  /** A segment that is split at its farthest point: likewise. */
  lemma SplitSegment(points: seq<Point>, tolerance: real, norm: Norm,
                     keep: seq<bool>, stack: seq<Segment>, goal: set<int>)
    requires stack != [] && Accounted(points, tolerance, norm, keep, stack, goal)
    requires var s := stack[|stack| - 1];
      s.first <= s.last < |points| && Splits(points, tolerance, norm, s.first, s.last)
    ensures |keep| == |points|
    ensures var s := stack[|stack| - 1];
      var index := ArgMax(Distances(points, s.first, s.last, norm)) + s.first + 1;
      var pushed := stack[..|stack| - 1] + [Segment(s.first, index)] + [Segment(index, s.last)];
      && Accounted(points, tolerance, norm, keep[index := true], pushed, goal)
      && Work(pushed) < Work(stack)
  {
    hide Kept, Pending, Work, ArgMax, Distances;
    Popped(points, tolerance, norm, stack);
    var s := stack[|stack| - 1];
    KeptStep(points, tolerance, norm, s.first, s.last);
    var index := s.first + 1 + ArgMax(Distances(points, s.first, s.last, norm));
    StackOfTwo(points, tolerance, norm, stack[..|stack| - 1], Segment(s.first, index), Segment(index, s.last));
  }

  lemma OneSegment(points: seq<Point>, tolerance: real, norm: Norm,
                   keep: seq<bool>, stack: seq<Segment>, goal: set<int>)
    requires stack != [] && Accounted(points, tolerance, norm, keep, stack, goal)
    ensures |keep| == |points|
    ensures var s := stack[|stack| - 1];
      && s.first <= s.last < |points|
      && var next := stack[..|stack| - 1] + Parts(points, tolerance, norm, s);
         && Accounted(points, tolerance, norm, Marked(points, tolerance, norm, s, keep), next, goal)
         && Work(next) < Work(stack)
  {
    hide Accounted, Work, Splits, ArgMax, Distances;
    Top(points, tolerance, norm, keep, stack, goal);
    var s, rest := stack[|stack| - 1], stack[..|stack| - 1];
    if Splits(points, tolerance, norm, s.first, s.last) {
      SplitSegment(points, tolerance, norm, keep, stack, goal);
      var index := ArgMax(Distances(points, s.first, s.last, norm)) + s.first + 1;
      assert rest + [Segment(s.first, index)] + [Segment(index, s.last)]
          == rest + [Segment(s.first, index), Segment(index, s.last)];
    } else {
      DropSegment(points, tolerance, norm, keep, stack, goal);
      assert rest + [] == rest;
    }
  }

  lemma Popped(points: seq<Point>, tolerance: real, norm: Norm, stack: seq<Segment>)
    requires stack != [] && OnStack(stack, |points|)
    ensures var s, rest := stack[|stack| - 1], stack[..|stack| - 1];
      && OnStack(rest, |points|)
      && Pending(points, tolerance, norm, stack)
         == Pending(points, tolerance, norm, rest) + Kept(points, tolerance, norm, s.first, s.last)
      && Work(stack) == Work(rest) + if s.last <= s.first then 1 else 2 * (s.last - s.first) - 1
  {
  }

  lemma KeptStep(points: seq<Point>, tolerance: real, norm: Norm, first: nat, last: nat)
    requires first <= last < |points|
    ensures last <= first + 1 ==> Kept(points, tolerance, norm, first, last) == {}
    ensures last > first + 1 ==>
      var d := Distances(points, first, last, norm);
      var index := first + 1 + ArgMax(d);
      Kept(points, tolerance, norm, first, last)
      == if d[ArgMax(d)] > tolerance then
           {index} + Kept(points, tolerance, norm, first, index) + Kept(points, tolerance, norm, index, last)
         else {}
  {
  }

  lemma StackOfOne(points: seq<Point>, tolerance: real, norm: Norm, stack: seq<Segment>)
    requires |stack| == 1 && OnStack(stack, |points|)
    ensures Pending(points, tolerance, norm, stack) == Kept(points, tolerance, norm, stack[0].first, stack[0].last)
  {
  }

  /** Two segments pushed. */
  lemma StackOfTwo(points: seq<Point>, tolerance: real, norm: Norm, rest: seq<Segment>, s: Segment, t: Segment)
    requires OnStack(rest, |points|) && s.first < s.last < |points| && t.first < t.last < |points|
    ensures var stack := rest + [s] + [t];
      && OnStack(stack, |points|)
      && Pending(points, tolerance, norm, stack)
         == Pending(points, tolerance, norm, rest)
            + Kept(points, tolerance, norm, s.first, s.last) + Kept(points, tolerance, norm, t.first, t.last)
      && Work(stack) == Work(rest) + 2 * (s.last - s.first) - 1 + 2 * (t.last - t.first) - 1
  {
    var one := rest + [s];
    var two := one + [t];
    assert one[..|one| - 1] == rest && two[..|two| - 1] == one;
  }

  // ------------------------------------------------------------- what is dropped lies close

  ghost function Vertices(points: seq<Point>, tolerance: real, norm: Norm, first: nat, last: nat): set<int>
    requires first <= last < |points|
  {
    {first, last} + Kept(points, tolerance, norm, first, last)
  }

  /** Every dropped point is within tolerance of the chord of the kept points around it. */
  lemma {:induction false} DroppedPointsAreClose(points: seq<Point>, tolerance: real, norm: Norm,
                                                 first: nat, last: nat, a: nat, b: nat, j: nat)
    requires first <= last < |points|
    requires a in Vertices(points, tolerance, norm, first, last) && b in Vertices(points, tolerance, norm, first, last)
    requires forall i | a < i < b :: i !in Vertices(points, tolerance, norm, first, last)
    requires a < j < b
    ensures Distance(points[a], points[b], points[j], norm) <= tolerance
    decreases last - first
  {
    hide Distance;
    var d := Distances(points, first, last, norm);
    var m := ArgMax(d);
    var index := first + 1 + m;
    if d[m] > tolerance {
      assert index in Vertices(points, tolerance, norm, first, last);
      if b <= index {
        DroppedPointsAreClose(points, tolerance, norm, first, index, a, b, j);
      } else {
        DroppedPointsAreClose(points, tolerance, norm, index, last, a, b, j);
      }
    } else {
      assert d[j - first - 1] <= d[m];
    }
  }

  /** The places a mask selects. */
  function Places(keep: seq<bool>): (at: seq<nat>)
    ensures |at| <= |keep|
  {
    if keep == [] then []
    else
      var n := |keep| - 1;
      Places(keep[..n]) + if keep[n] then [n] else []
  }

  lemma {:induction false} PlacesAscend(keep: seq<bool>)
    ensures forall i, j | 0 <= i < j < |Places(keep)| :: Places(keep)[i] < Places(keep)[j]
    ensures forall x :: x in Places(keep) <==> 0 <= x < |keep| && keep[x]
  {
    if keep != [] {
      var n := |keep| - 1;
      PlacesAscend(keep[..n]);
      var before := Places(keep[..n]);
      forall i, j | 0 <= i < j < |Places(keep)| ensures Places(keep)[i] < Places(keep)[j] {
        assert before[i] in before;
      }
      forall x ensures x in Places(keep) <==> 0 <= x < |keep| && keep[x] {
        assert x in Places(keep) <==> x in before || (x == n && keep[n]);
      }
    }
  }

  lemma {:induction false} MaskedAtPlaces(points: seq<Point>, keep: seq<bool>)
    requires |points| == |keep|
    ensures |Masked(points, keep)| == |Places(keep)|
    ensures forall i | 0 <= i < |Places(keep)| ::
      Places(keep)[i] < |points| && Masked(points, keep)[i] == points[Places(keep)[i]]
  {
    if points != [] {
      var n := |points| - 1;
      MaskedAtPlaces(points[..n], keep[..n]);
      PlacesAscend(keep[..n]);
    }
  }

  lemma NoPlaceBetween(keep: seq<bool>, i: nat, x: int)
    requires i + 1 < |Places(keep)| && Places(keep)[i] < x < Places(keep)[i + 1]
    ensures 0 <= x < |keep| && !keep[x]
  {
    PlacesAscend(keep);
    var at := Places(keep);
    hide Places;
    assert at[i] in at && at[i + 1] in at;
    forall p | 0 <= p < |at| ensures at[p] != x {
      assert p <= i ==> at[p] <= at[i];
      assert p > i ==> at[p] >= at[i + 1];
    }
    assert x !in at;
  }

  lemma PlacesHaveEnds(keep: seq<bool>)
    requires keep != [] && keep[0] && keep[|keep| - 1]
    ensures var at := Places(keep); at != [] && at[0] == 0 && at[|at| - 1] == |keep| - 1
  {
    PlacesAscend(keep);
    var at := Places(keep);
    hide Places;
    assert 0 in at && |keep| - 1 in at;
    assert at[0] in at && at[|at| - 1] in at;
  }

  /** The points that the mask of the recursion selects are such an outline. */
  lemma MaskOutlines(points: seq<Point>, tolerance: real, norm: Norm, keep: seq<bool>)
    requires points != [] && |keep| == |points|
    requires MaskIs(keep, {0, |points| - 1} + Kept(points, tolerance, norm, 0, |points| - 1))
    ensures Outlines(points, tolerance, norm, Masked(points, keep), Places(keep))
  {
    hide Kept, Places, Masked, Distance;
    var last := |points| - 1;
    var at, outline := Places(keep), Masked(points, keep);
    PlacesAscend(keep);
    MaskedAtPlaces(points, keep);
    PlacesHaveEnds(keep);
    forall i, j | 0 <= i < |at| - 1 && at[i] < j < at[i + 1]
      ensures Distance(outline[i], outline[i + 1], points[j], norm) <= tolerance
    {
      assert at[i] in at && at[i + 1] in at;
      forall x | at[i] < x < at[i + 1] ensures x !in Vertices(points, tolerance, norm, 0, last) {
        NoPlaceBetween(keep, i, x);
      }
      DroppedPointsAreClose(points, tolerance, norm, 0, last, at[i], at[i + 1], j);
    }
  }

  /** And every inner point kept was too far from the chord of two other kept points around it, none
      between them farther. */
  lemma {:induction false} KeptPointsAreFar(points: seq<Point>, tolerance: real, norm: Norm,
                                            first: nat, last: nat, i: nat) returns (a: nat, b: nat)
    requires first <= last < |points|
    requires i in Kept(points, tolerance, norm, first, last)
    ensures a in Vertices(points, tolerance, norm, first, last) && b in Vertices(points, tolerance, norm, first, last)
    ensures a < i < b && Distance(points[a], points[b], points[i], norm) > tolerance
    ensures forall j | a < j < b ::
      Distance(points[a], points[b], points[j], norm) <= Distance(points[a], points[b], points[i], norm)
    decreases last - first
  {
    hide Distance, Distances, ArgMax;
    var d := Distances(points, first, last, norm);
    var index := first + 1 + ArgMax(d);
    if i == index {
      a, b := first, last;
      forall j | a < j < b
        ensures Distance(points[a], points[b], points[j], norm) <= d[index - first - 1]
      {
        DistanceAt(points, first, last, norm, j);
      }
      DistanceAt(points, first, last, norm, i);
    } else if i < index {
      a, b := KeptPointsAreFar(points, tolerance, norm, first, index, i);
    } else {
      a, b := KeptPointsAreFar(points, tolerance, norm, index, last, i);
    }
  }

  /** The selected points approximate the others, as the norm measures. */
  lemma MaskApproximates(points: seq<Point>, tolerance: real, norm: Norm, keep: seq<bool>)
    requires points != [] && |keep| == |points|
    requires MaskIs(keep, {0, |points| - 1} + Kept(points, tolerance, norm, 0, |points| - 1))
    ensures Euclidean(norm) ==> Approximates(points, tolerance, norm, Masked(points, keep), Places(keep))
  {
    if Euclidean(norm) {
      var at, outline := Places(keep), Masked(points, keep);
      MaskOutlines(points, tolerance, norm, keep);
      hide Euclidean, Near, Distance, StandsOut, Kept, Places, Masked, MaskIs;
      PassedAreNear(points, tolerance, norm, outline, at);
      forall i | 0 < i < |at| - 1 ensures StandsOut(outline, i, tolerance, norm) {
        KeptStandsOut(points, tolerance, norm, keep, i);
      }
    }
  }

  lemma KeptStandsOut(points: seq<Point>, tolerance: real, norm: Norm, keep: seq<bool>, i: nat)
    requires points != [] && |keep| == |points| && Euclidean(norm)
    requires MaskIs(keep, {0, |points| - 1} + Kept(points, tolerance, norm, 0, |points| - 1))
    requires RunsThrough(points, Masked(points, keep), Places(keep)) && 0 < i < |Places(keep)| - 1
    ensures StandsOut(Masked(points, keep), i, tolerance, norm)
  {
    var at, outline := Places(keep), Masked(points, keep);
    IsInner(points, keep, i);
    hide *;
    var low, high := FarInner(points, tolerance, norm, keep, at[i]);
    var a := PlaceOf(keep, low);
    var b := PlaceOf(keep, high);
    Ordered(keep, a, i);
    Ordered(keep, i, b);
    FarFromChord(points, tolerance, norm, outline, at, a, i, b);
  }

  lemma FarInner(points: seq<Point>, tolerance: real, norm: Norm, keep: seq<bool>, x: nat) returns (low: nat, high: nat)
    requires points != [] && |keep| == |points| && 0 < x < |points| - 1 && keep[x]
    requires MaskIs(keep, {0, |points| - 1} + Kept(points, tolerance, norm, 0, |points| - 1))
    ensures low < x < high < |points| && keep[low] && keep[high]
    ensures Distance(points[low], points[high], points[x], norm) > tolerance
  {
    hide Kept, Distance;
    low, high := KeptPointsAreFar(points, tolerance, norm, 0, |points| - 1, x);
  }

  lemma FarFromChord(points: seq<Point>, tolerance: real, norm: Norm, outline: seq<Point>, at: seq<nat>,
                     a: nat, i: nat, b: nat)
    requires Euclidean(norm) && RunsThrough(points, outline, at) && a < i < b < |at|
    requires Distance(points[at[a]], points[at[b]], points[at[i]], norm) > tolerance
    ensures StandsOut(outline, i, tolerance, norm)
  {
    hide Near, Distance, Euclidean;
    NearIffMeasured(outline[a], outline[b], outline[i], tolerance, norm);
  }

  lemma PassedAreNear(points: seq<Point>, tolerance: real, norm: Norm, outline: seq<Point>, at: seq<nat>)
    requires Euclidean(norm) && Outlines(points, tolerance, norm, outline, at)
    ensures forall i, j | 0 <= i < |at| - 1 && at[i] < j < at[i + 1] ::
      Near(outline[i], outline[i + 1], points[j], tolerance, norm)
  {
    hide Near, Distance, Euclidean;
    forall i, j | 0 <= i < |at| - 1 && at[i] < j < at[i + 1]
      ensures Near(outline[i], outline[i + 1], points[j], tolerance, norm)
    {
      NearIffMeasured(outline[i], outline[i + 1], points[j], tolerance, norm);
    }
  }

  lemma IsInner(points: seq<Point>, keep: seq<bool>, i: nat)
    requires |keep| == |points|
    requires RunsThrough(points, Masked(points, keep), Places(keep)) && 0 < i < |Places(keep)| - 1
    ensures 0 < Places(keep)[i] < |points| - 1 && keep[Places(keep)[i]]
  {
    PlacesAscend(keep);
    hide Places, Masked;
    assert Places(keep)[i] in Places(keep);
  }

  lemma PlaceOf(keep: seq<bool>, x: nat) returns (k: nat)
    requires x < |keep| && keep[x]
    ensures k < |Places(keep)| && Places(keep)[k] == x
  {
    PlacesAscend(keep);
    hide Places;
    assert x in Places(keep);
    k :| k < |Places(keep)| && Places(keep)[k] == x;
  }

  lemma Ordered(keep: seq<bool>, a: nat, b: nat)
    requires a < |Places(keep)| && b < |Places(keep)| && Places(keep)[a] < Places(keep)[b]
    ensures a < b
  {
    PlacesAscend(keep);
  }

  lemma DistanceAt(points: seq<Point>, first: nat, last: nat, norm: Norm, j: nat)
    requires first < j < last < |points|
    ensures Distances(points, first, last, norm)[j - first - 1]
         == Distance(points[first], points[last], points[j], norm)
  {
  }
}
