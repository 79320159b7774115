/** Line segments with integer coordinates, the exact intersection test and
    the Shamos–Hoey sweep that reports one intersecting pair.
    Points compare as (x, y) pairs. `cross()` lives in a header outside this
    model and is a parameter of the sweep; the active set, a std::set ordered
    by the segment comparator, is a sequence kept in that order. */
module LineSegmentIntersection {

  datatype Point = Point(x: int, y: int)

  /** The pair ordering of points: by x, then by y. */
  predicate PointLess(p: Point, q: Point)
  {
    p.x < q.x || (p.x == q.x && p.y < q.y)
  }

  datatype Segment = Segment(a: Point, b: Point, id: int)

  /** The constructor: the endpoints are swapped when a > b. The constructor
      leaves `id` unset; the model takes the value the field happens to hold. */
  function MakeSegment(a: Point, b: Point, id: int): (r: Segment)
    ensures !PointLess(r.b, r.a) && r.id == id
    ensures multiset{r.a, r.b} == multiset{a, b}
    ensures !PointLess(b, a) ==> r.a == a && r.b == b
  {
    if PointLess(b, a) then Segment(b, a, id) else Segment(a, b, id)
  }

  //---------------------------------------------------------------------------
  // The intersection test

  function Min(p: int, q: int): int
  {
    if p < q then p else q
  }

  function Max(p: int, q: int): int
  {
    if p < q then q else p
  }

  /** Which side of the line through s the point p lies on: the cross product
      of p - s.a with s.b - s.a, zero on the line. */
  function Side(s: Segment, p: Point): int
  {
    (p.x - s.a.x) * (s.b.y - s.a.y) - (p.y - s.a.y) * (s.b.x - s.a.x)
  }

  /** The axis-aligned bounding boxes of s and t are disjoint. */
  predicate BoxesApart(s: Segment, t: Segment)
  {
    Max(s.a.x, s.b.x) < Min(t.a.x, t.b.x) || Max(t.a.x, t.b.x) < Min(s.a.x, s.b.x) ||
    Max(s.a.y, s.b.y) < Min(t.a.y, t.b.y) || Max(t.a.y, t.b.y) < Min(s.a.y, s.b.y)
  }

  /** Both values are strictly negative or both strictly positive. */
  predicate SameStrictSign(z1: int, z2: int)
  {
    (z1 < 0 && z2 < 0) || (z1 > 0 && z2 > 0)
  }

  /** Both endpoints of t lie strictly on one side of the line through s. */
  predicate OneSide(s: Segment, t: Segment)
  {
    SameStrictSign(Side(s, t.a), Side(s, t.b))
  }

  /** `isIntersected`: the boxes meet and neither segment lies strictly on one
      side of the other's line. */
  function IsIntersected(s: Segment, t: Segment): (r: bool)
    ensures BoxesApart(s, t) ==> !r
    ensures OneSide(s, t) || OneSide(t, s) ==> !r
    ensures !BoxesApart(s, t) && !OneSide(s, t) && !OneSide(t, s) ==> r
  {
    if BoxesApart(s, t) then false
    else if SameStrictSign(Side(s, t.a), Side(s, t.b)) then false
    else if SameStrictSign(Side(t, s.a), Side(t, s.b)) then false
    else true
  }

  lemma IntersectedSymmetric(s: Segment, t: Segment)
    ensures IsIntersected(s, t) == IsIntersected(t, s)
  {
  }

  lemma IntersectedSelf(s: Segment)
    ensures IsIntersected(s, s)
  {
    assert Side(s, s.a) == 0;
    assert Side(s, s.b) == 0;
  }

  /** The rational point (X / D, Y / D) lies on s, at parameter l / D from s.a
      towards s.b. Every rational point of s has this form. */
  predicate OnSegment(s: Segment, X: int, Y: int, D: int, l: int)
  {
    0 < D && 0 <= l <= D &&
    X == D * s.a.x + l * (s.b.x - s.a.x) &&
    Y == D * s.a.y + l * (s.b.y - s.a.y)
  }

  /** A point between p and q, scaled by D, lies between D * p and D * q. */
  lemma Between(D: int, l: int, p: int, q: int)
    requires 0 < D && 0 <= l <= D
    ensures D * Min(p, q) <= D * p + l * (q - p) <= D * Max(p, q)
  {
    var w := D * p + l * (q - p);
    assert w == (D - l) * p + l * q;
    if p <= q {
      assert (D - l) * p <= (D - l) * q && l * p <= l * q;
      assert D * p == (D - l) * p + l * p;
      assert D * q == (D - l) * q + l * q;
    } else {
      assert (D - l) * q <= (D - l) * p && l * q <= l * p;
      assert D * p == (D - l) * p + l * p;
      assert D * q == (D - l) * q + l * q;
    }
  }

  lemma ScaleLess(D: int, p: int, q: int)
    requires 0 < D && p < q
    ensures D * p < D * q
  {
    assert D * q - D * p == D * (q - p);
  }

  /** A coordinate interval holding a common scaled coordinate cannot lie
      strictly before another holding it too. */
  lemma IntervalsMeet(D: int, l: int, m: int, p1: int, p2: int, p3: int, p4: int)
    requires 0 < D && 0 <= l <= D && 0 <= m <= D
    requires D * p1 + l * (p2 - p1) == D * p3 + m * (p4 - p3)
    ensures !(Max(p1, p2) < Min(p3, p4)) && !(Max(p3, p4) < Min(p1, p2))
  {
    Between(D, l, p1, p2);
    Between(D, m, p3, p4);
    if Max(p1, p2) < Min(p3, p4) {
      ScaleLess(D, Max(p1, p2), Min(p3, p4));
    }
    if Max(p3, p4) < Min(p1, p2) {
      ScaleLess(D, Max(p3, p4), Min(p1, p2));
    }
  }

  /** The side function is affine: at a point that splits c..d as
      (D - m) : m it is the same mix of its values at c and d. */
  lemma SideMix(D: int, m: int, cx: int, cy: int, dx: int, dy: int, ex: int, ey: int)
    ensures ((D - m) * cx + m * dx) * ey - ((D - m) * cy + m * dy) * ex
         == (D - m) * (cx * ey - cy * ex) + m * (dx * ey - dy * ex)
  {
    assert ((D - m) * cx + m * dx) * ey == (D - m) * (cx * ey) + m * (dx * ey);
    assert ((D - m) * cy + m * dy) * ex == (D - m) * (cy * ex) + m * (dy * ex);
  }

  /** A non-trivial mix of two values of one strict sign keeps that sign. */
  lemma MixSign(D: int, m: int, z1: int, z2: int)
    requires 0 < D && 0 <= m <= D && SameStrictSign(z1, z2)
    ensures (D - m) * z1 + m * z2 != 0
  {
    if m == 0 {
      assert (D - m) * z1 == D * z1;
    } else if z1 > 0 {
      assert (D - m) * z1 >= 0 && m * z2 > 0;
    } else {
      assert (D - m) * z1 <= 0 && m * z2 < 0;
    }
  }

  /** A scaled point on s has side zero with respect to s. */
  lemma OnLine(s: Segment, X: int, Y: int, D: int, l: int)
    requires OnSegment(s, X, Y, D, l)
    ensures (X - D * s.a.x) * (s.b.y - s.a.y) - (Y - D * s.a.y) * (s.b.x - s.a.x) == 0
  {
    var ex, ey := s.b.x - s.a.x, s.b.y - s.a.y;
    assert X - D * s.a.x == l * ex && Y - D * s.a.y == l * ey;
    assert (l * ex) * ey == (l * ey) * ex;
  }

  /** A scaled point of c..d, seen from the origin o. */
  lemma Recenter(D: int, m: int, X: int, o: int, c: int, d: int)
    requires X == D * c + m * (d - c)
    ensures X - D * o == (D - m) * (c - o) + m * (d - o)
  {
  }

  /** If the mix of c and d lies on the line through the origin along e, then
      c and d are not strictly on one side of that line. */
  lemma MixOnLine(D: int, m: int, px: int, py: int, cx: int, cy: int, dx: int, dy: int, ex: int, ey: int)
    requires 0 < D && 0 <= m <= D
    requires px == (D - m) * cx + m * dx && py == (D - m) * cy + m * dy
    requires px * ey - py * ex == 0
    ensures !SameStrictSign(cx * ey - cy * ex, dx * ey - dy * ex)
  {
    SideMix(D, m, cx, cy, dx, dy, ex, ey);
    if SameStrictSign(cx * ey - cy * ex, dx * ey - dy * ex) {
      MixSign(D, m, cx * ey - cy * ex, dx * ey - dy * ex);
    }
  }

  /** If a point of t lies on the line through s, the endpoints of t are not
      strictly on one side of that line. */
  lemma NotOneSide(s: Segment, t: Segment, X: int, Y: int, D: int, l: int, m: int)
    requires OnSegment(s, X, Y, D, l) && OnSegment(t, X, Y, D, m)
    ensures !OneSide(s, t)
  {
    Recenter(D, m, X, s.a.x, t.a.x, t.b.x);
    Recenter(D, m, Y, s.a.y, t.a.y, t.b.y);
    OnLine(s, X, Y, D, l);
    MixOnLine(D, m, X - D * s.a.x, Y - D * s.a.y, t.a.x - s.a.x, t.a.y - s.a.y,
              t.b.x - s.a.x, t.b.y - s.a.y, s.b.x - s.a.x, s.b.y - s.a.y);
  }

  /** The test never misses a common point: segments that share a point,
      rational or not on the grid, are reported as intersecting. */
  lemma CommonPointIntersects(s: Segment, t: Segment, X: int, Y: int, D: int, l: int, m: int)
    requires OnSegment(s, X, Y, D, l) && OnSegment(t, X, Y, D, m)
    ensures IsIntersected(s, t)
  {
    IntervalsMeet(D, l, m, s.a.x, s.b.x, t.a.x, t.b.x);
    IntervalsMeet(D, l, m, s.a.y, s.b.y, t.a.y, t.b.y);
    NotOneSide(s, t, X, Y, D, l, m);
    NotOneSide(t, s, X, Y, D, m, l);
  }

  /** Segments sharing the endpoint a intersect. */
  lemma SharedStartIntersects(s: Segment, t: Segment)
    requires s.a == t.a
    ensures IsIntersected(s, t)
  {
    CommonPointIntersects(s, t, s.a.x, s.a.y, 1, 0, 0);
  }

  //---------------------------------------------------------------------------
  // Sweep events

  /** An endpoint event; kind 0 starts segment id, kind 1 ends it. */
  datatype Event = Event(p: Point, kind: int, id: int)

  /** The event order: by x, then kind, then y. */
  predicate EventLess(e: Event, f: Event)
  {
    if e.p.x != f.p.x then e.p.x < f.p.x
    else if e.kind != f.kind then e.kind < f.kind
    else e.p.y < f.p.y
  }

  /** The event order is a strict weak order whose ties are exactly the events
      with the same point and kind; at equal x every start precedes every end. */
  lemma EventOrder(e: Event, f: Event, g: Event)
    ensures !EventLess(e, e)
    ensures EventLess(e, f) && EventLess(f, g) ==> EventLess(e, g)
    ensures !EventLess(e, f) && !EventLess(f, e) <==> e.p == f.p && e.kind == f.kind
    ensures e.p.x == f.p.x && e.kind == 0 && f.kind == 1 ==> EventLess(e, f) && !EventLess(f, e)
  {
  }

  /** The 2n events in the order they are appended: start then end of each segment. */
  function Events(v: seq<Segment>): (r: seq<Event>)
    ensures |r| == 2 * |v|
    ensures forall i :: 0 <= i < |v| ==> r[2 * i] == Event(v[i].a, 0, i) && r[2 * i + 1] == Event(v[i].b, 1, i)
  {
    seq(2 * |v|, k requires 0 <= k < 2 * |v| =>
      if k % 2 == 0 then Event(v[k / 2].a, 0, k / 2) else Event(v[k / 2].b, 1, k / 2))
  }

  /** perm lists the positions of E in an order std::sort may produce: a
      permutation of E's positions with no later event less than an earlier one. */
  predicate SortsEvents(perm: seq<int>, E: seq<Event>)
  {
    |perm| == |E| &&
    (forall t :: 0 <= t < |perm| ==> 0 <= perm[t] < |E|) &&
    (forall t, u :: 0 <= t < u < |perm| ==> perm[t] != perm[u]) &&
    (forall t, u :: 0 <= t < u < |perm| ==> !EventLess(E[perm[u]], E[perm[t]]))
  }

  //---------------------------------------------------------------------------
  // The active set

  /** The segment comparator, for a given cross product `cross(o, p, q)`. */
  predicate SegmentLess(cross: (Point, Point, Point) -> int, s: Segment, t: Segment)
  {
    if s.a.x < t.a.x then
      var c := cross(s.a, s.b, t.a);
      c > 0 || (c == 0 && s.a.y < t.a.y)
    else
      var c := cross(t.a, t.b, s.a);
      c < 0 || (c == 0 && s.a.y < t.a.y)
  }

  /** With a cross product that vanishes on a segment's own endpoint, no
      segment is less than itself. */
  lemma SegmentLessIrreflexive(cross: (Point, Point, Point) -> int, s: Segment)
    requires cross(s.a, s.b, s.a) == 0
    ensures !SegmentLess(cross, s, s)
  {
  }

  /** `lower_bound`: the first position whose segment is not less than x. */
  function LowerBound(cross: (Point, Point, Point) -> int, S: seq<Segment>, x: Segment): (r: nat)
    ensures r <= |S|
    ensures forall k :: 0 <= k < r ==> SegmentLess(cross, S[k], x)
    ensures r < |S| ==> !SegmentLess(cross, S[r], x)
  {
    if |S| == 0 || !SegmentLess(cross, S[0], x) then 0
    else 1 + LowerBound(cross, S[1..], x)
  }

  /** The active segments: copies of numbered segments, with distinct ids. */
  ghost predicate Active(S: seq<Segment>, w: seq<Segment>, started: set<int>)
  {
    (forall k :: 0 <= k < |S| ==> 0 <= S[k].id < |w| && S[k] == w[S[k].id] && S[k].id in started) &&
    (forall k, k' :: 0 <= k < k' < |S| ==> S[k].id != S[k'].id)
  }

  /** A pair the sweep may report: two different segments that pass the test. */
  predicate Reported(w: seq<Segment>, r: (int, int))
  {
    0 <= r.0 < |w| && 0 <= r.1 < |w| && r.0 != r.1 && IsIntersected(w[r.0], w[r.1])
  }

  /** Inserting segment id, not yet started, keeps the active set well formed. */
  lemma InsertKeepsActive(S: seq<Segment>, w: seq<Segment>, started: set<int>, id: int, idx: int)
    requires Active(S, w, started) && 0 <= id < |w| && w[id].id == id && id !in started
    requires 0 <= idx <= |S|
    ensures Active(S[..idx] + [w[id]] + S[idx..], w, started + {id})
  {
    var S' := S[..idx] + [w[id]] + S[idx..];
    forall k | 0 <= k < |S'|
      ensures S'[k] == (if k < idx then S[k] else if k == idx then w[id] else S[k - 1])
    {
    }
  }

  /** Removing any active segment keeps the active set well formed. */
  lemma EraseKeepsActive(S: seq<Segment>, w: seq<Segment>, started: set<int>, idx: int)
    requires Active(S, w, started) && 0 <= idx < |S|
    ensures Active(S[..idx] + S[idx + 1..], w, started)
  {
    var S' := S[..idx] + S[idx + 1..];
    forall k | 0 <= k < |S'|
      ensures S'[k] == (if k < idx then S[k] else S[k + 1])
    {
    }
  }

  /** An active segment that meets the starting segment id makes a reportable pair. */
  lemma ReportNew(S: seq<Segment>, w: seq<Segment>, started: set<int>, k: int, id: int)
    requires Active(S, w, started) && 0 <= k < |S|
    requires 0 <= id < |w| && w[id].id == id && id !in started && IsIntersected(S[k], w[id])
    ensures Reported(w, (S[k].id, w[id].id))
  {
  }

  /** Two different active segments that meet make a reportable pair. */
  lemma ReportActive(S: seq<Segment>, w: seq<Segment>, started: set<int>, k: int, k': int)
    requires Active(S, w, started) && 0 <= k < |S| && 0 <= k' < |S| && k != k'
    requires IsIntersected(S[k], S[k'])
    ensures Reported(w, (S[k].id, S[k'].id))
  {
    if k' < k {
      assert S[k'].id != S[k].id;
    }
  }

  lemma ActiveGrows(S: seq<Segment>, w: seq<Segment>, started: set<int>, id: int)
    requires Active(S, w, started)
    ensures Active(S, w, started + {id})
  {
  }

  /** The segments numbered in place (`v[i].id = i`) and their events. */
  method Number(v: seq<Segment>) returns (w: seq<Segment>, e: seq<Event>)
    ensures |w| == |v| && forall i :: 0 <= i < |v| ==> w[i] == v[i].(id := i)
    ensures e == Events(v)
  {
    var n := |v|;
    e := [];
    w := v;
    var i := 0;
    while i < n
      invariant 0 <= i <= n && |w| == n && |e| == 2 * i
      invariant forall k :: 0 <= k < i ==> e[2 * k] == Event(v[k].a, 0, k) && e[2 * k + 1] == Event(v[k].b, 1, k)
      invariant forall k :: 0 <= k < i ==> w[k] == v[k].(id := k)
      invariant forall k :: i <= k < n ==> w[k] == v[k]
    {
      e := e + [Event(w[i].a, 0, i), Event(w[i].b, 1, i)];
      w := w[i := w[i].(id := i)];
      i := i + 1;
    }
    EventsAre(v, e);
  }

  /** A start event for segment id: probe the active segment lower_bound
      lands on and the one before it, then insert segment id unless an
      equivalent segment is present (std::set semantics). */
  method StartEvent(w: seq<Segment>, cross: (Point, Point, Point) -> int, S: seq<Segment>, id: int,
                    ghost started: set<int>)
    returns (S': seq<Segment>, r: (int, int))
    requires Active(S, w, started) && 0 <= id < |w| && w[id].id == id && id !in started
    ensures r == (-1, -1) ==> Active(S', w, started + {id})
    ensures r != (-1, -1) ==> Reported(w, r)
  {
    var idx := LowerBound(cross, S, w[id]);
    if idx < |S| && IsIntersected(S[idx], w[id]) {
      ReportNew(S, w, started, idx, id);
      return S, (S[idx].id, w[id].id);
    }
    if idx > 0 && IsIntersected(S[idx - 1], w[id]) {
      ReportNew(S, w, started, idx - 1, id);
      return S, (S[idx - 1].id, w[id].id);
    }
    if idx < |S| && !SegmentLess(cross, w[id], S[idx]) {
      ActiveGrows(S, w, started, id);
      S' := S;
    } else {
      InsertKeepsActive(S, w, started, id, idx);
      S' := S[..idx] + [w[id]] + S[idx..];
    }
    r := (-1, -1);
  }

  /** An end event for segment id: probe the two neighbours of the position
      lower_bound lands on, then erase the segment there. */
  method EndEvent(w: seq<Segment>, cross: (Point, Point, Point) -> int, S: seq<Segment>, id: int,
                  ghost started: set<int>)
    returns (S': seq<Segment>, r: (int, int))
    requires Active(S, w, started) && 0 <= id < |w|
    ensures r == (-1, -1) ==> Active(S', w, started)
    ensures r != (-1, -1) ==> Reported(w, r)
  {
    var idx := LowerBound(cross, S, w[id]);
    if 0 < idx && idx + 1 < |S| && IsIntersected(S[idx + 1], S[idx - 1]) {
      ReportActive(S, w, started, idx + 1, idx - 1);
      return S, (S[idx + 1].id, S[idx - 1].id);
    }
    if idx < |S| {
      EraseKeepsActive(S, w, started, idx);
      S' := S[..idx] + S[idx + 1..];
    } else {
      S' := S;
    }
    r := (-1, -1);
  }

  /** The sweep over the events in the order perm, stopping at the first
      pair found. */
  method Sweep(w: seq<Segment>, e: seq<Event>, cross: (Point, Point, Point) -> int, perm: seq<int>)
    returns (r: (int, int))
    requires forall i :: 0 <= i < |w| ==> w[i].id == i
    requires |e| == 2 * |w|
    requires forall i :: 0 <= i < |w| ==> e[2 * i].kind == 0 && e[2 * i].id == i && e[2 * i + 1].kind == 1 && e[2 * i + 1].id == i
    requires SortsEvents(perm, e)
    ensures r == (-1, -1) || Reported(w, r)
  {
    var S: seq<Segment> := [];
    ghost var started: set<int> := {};
    var t := 0;
    while t < |e|
      invariant 0 <= t <= |e|
      invariant Active(S, w, started)
      invariant StartedBy(perm, t, started)
    {
      var ev := e[perm[t]];
      EventAt(w, e, perm[t]);
      if ev.kind == 0 {
        FreshStart(perm, t, started, ev.id);
        S, r := StartEvent(w, cross, S, ev.id, started);
        if r != (-1, -1) {
          return;
        }
        StartedGrows(perm, t, started, ev.id);
        started := started + {ev.id};
      } else {
        S, r := EndEvent(w, cross, S, ev.id, started);
        if r != (-1, -1) {
          return;
        }
      }
      t := t + 1;
    }
    r := (-1, -1);
  }

  /** Started ids are those of start events already swept; as perm repeats
      no position, the start event at step t belongs to an id not yet started. */
  ghost predicate StartedBy(perm: seq<int>, t: int, started: set<int>)
  {
    forall j :: j in started ==> exists u :: 0 <= u < t && u < |perm| && perm[u] == 2 * j
  }

  lemma FreshStart(perm: seq<int>, t: int, started: set<int>, id: int)
    requires 0 <= t < |perm| && perm[t] == 2 * id && StartedBy(perm, t, started)
    requires forall u, u' :: 0 <= u < u' < |perm| ==> perm[u] != perm[u']
    ensures id !in started
  {
  }

  lemma StartedGrows(perm: seq<int>, t: int, started: set<int>, id: int)
    requires 0 <= t < |perm| && perm[t] == 2 * id && StartedBy(perm, t, started)
    ensures StartedBy(perm, t + 1, started + {id})
  {
  }

  /** The event at position q belongs to segment q / 2 and starts it exactly when q is even. */
  lemma EventAt(w: seq<Segment>, e: seq<Event>, q: int)
    requires |e| == 2 * |w| && 0 <= q < |e|
    requires forall i :: 0 <= i < |w| ==> e[2 * i].kind == 0 && e[2 * i].id == i && e[2 * i + 1].kind == 1 && e[2 * i + 1].id == i
    ensures 0 <= e[q].id < |w| && (e[q].kind == 0 <==> q == 2 * e[q].id)
  {
    var i := q / 2;
    assert q == 2 * i || q == 2 * i + 1;
  }

  /** `findIntersection`: numbers the segments, sweeps the events in the order
      perm, and returns the first pair found to intersect, or (-1, -1).
      w is the segment vector after the call, with ids set. */
  method FindIntersection(v: seq<Segment>, cross: (Point, Point, Point) -> int, perm: seq<int>)
    returns (w: seq<Segment>, r: (int, int))
    requires SortsEvents(perm, Events(v))
    ensures |w| == |v| && forall i :: 0 <= i < |v| ==> w[i] == v[i].(id := i)
    ensures r == (-1, -1) || Reported(w, r)
  {
    var e;
    w, e := Number(v);
    r := Sweep(w, e, cross, perm);
  }

  lemma EventsAre(v: seq<Segment>, e: seq<Event>)
    requires |e| == 2 * |v|
    requires forall k :: 0 <= k < |v| ==> e[2 * k] == Event(v[k].a, 0, k) && e[2 * k + 1] == Event(v[k].b, 1, k)
    ensures e == Events(v)
  {
    forall k | 0 <= k < |e|
      ensures e[k] == Events(v)[k]
    {
      var q := k / 2;
      assert k == 2 * q || k == 2 * q + 1;
    }
  }
}
