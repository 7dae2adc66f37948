/**
 The swept resolver: a body of a given radius moved from an old to a target
 position among solid regions, over the real numbers.
 */
module EntitySweep {
  import opened EntityModel
  import opened EntityContacts
  import opened EntityWorldState

  /** Stands for "never" in the slab test, as in the source. */
  const FAR: real := 1.0e300

  /** A solid region grown by the body's radius. */
  datatype Rect = Rect(left: real, right: real, top: real, bottom: real)

  /** The position reached and the displacement still to be made. */
  datatype Motion = Motion(px: real, py: real, dx: real, dy: real)

  /** Contact bits: floor 1, ceiling 2, right wall 4, left wall 8. */
  datatype Face = Floor | Ceiling | RightWall | LeftWall

  datatype Scan = Nothing | Struck(time: real, face: Face)

  /** A coordinate followed for time t, and what is left of its displacement then. */
  function At(p: real, d: real, t: real): real { p + d * t }
  function Rest(d: real, t: real): real { d * (1.0 - t) }

  // ------------------------------------------------------------------ solids

  function RectOf(v: EntityValue, r: EntityRegion, radius: real): Rect {
    var left := (v.x + LocalX(v, r)) as real / 256.0 - radius;
    var top := (v.y + r.y) as real / 256.0 - radius;
    Rect(left, left + r.width as real / 256.0 + radius * 2.0, top, top + r.height as real / 256.0 + radius * 2.0)
  }

  /** The solid ones among the first j regions of slot i. */
  function RegionSolids(w: World, radius: real, i: nat, j: nat): seq<Rect>
    requires i < |w.slots| && j <= |RegionsAt(w, i)|
  {
    if j == 0 then []
    else
      var r := RegionsAt(w, i)[j - 1];
      RegionSolids(w, radius, i, j - 1) + if r.role == Solid then [RectOf(w.slots[i].value, r, radius)] else []
  }

  /** The solids of the first i slots, in slot then region order. */
  function SolidsUpTo(w: World, radius: real, i: nat): seq<Rect>
    requires i <= |w.slots|
  {
    if i == 0 then []
    else
      var last := if w.slots[i - 1].active then RegionSolids(w, radius, i - 1, |RegionsAt(w, i - 1)|) else [];
      SolidsUpTo(w, radius, i - 1) + last
  }

  function Solids(w: World, radius: real): seq<Rect> {
    SolidsUpTo(w, radius, |w.slots|)
  }

  // --------------------------------------------------------------- slab test

  function Max(a: real, b: real): real { if a > b then a else b }
  function Min(a: real, b: real): real { if a < b then a else b }

  /** Entry and exit times of one coordinate into an interval. */
  function EnterTime(p: real, d: real, low: real, high: real): real {
    if d == 0.0 then -FAR else if d > 0.0 then (low - p) / d else (high - p) / d
  }

  function ExitTime(p: real, d: real, low: real, high: real): real {
    if d == 0.0 then FAR else if d > 0.0 then (high - p) / d else (low - p) / d
  }

  /** A coordinate that does not move and lies outside the interval never enters it. */
  predicate Misses(p: real, d: real, low: real, high: real) {
    d == 0.0 && (p <= low || p >= high)
  }

  function Enter(m: Motion, s: Rect): real {
    Max(EnterTime(m.px, m.dx, s.left, s.right), EnterTime(m.py, m.dy, s.top, s.bottom))
  }

  function Leave(m: Motion, s: Rect): real {
    Min(ExitTime(m.px, m.dx, s.left, s.right), ExitTime(m.py, m.dy, s.top, s.bottom))
  }

  /** Whether the motion comes up against s within its length. */
  predicate Meets(m: Motion, s: Rect) {
    && !Misses(m.px, m.dx, s.left, s.right) && !Misses(m.py, m.dy, s.top, s.bottom)
    && 0.0 <= Enter(m, s) <= 1.0 && Enter(m, s) <= Leave(m, s)
  }

  function FaceOf(m: Motion, s: Rect): Face {
    if EnterTime(m.px, m.dx, s.left, s.right) > EnterTime(m.py, m.dy, s.top, s.bottom)
    then (if m.dx > 0.0 then RightWall else LeftWall)
    else (if m.dy > 0.0 then Floor else Ceiling)
  }

  /** Takes s into account: a strictly earlier meeting replaces what was found so far. */
  function ScanOne(m: Motion, s: Rect, found: Scan): Scan {
    if Meets(m, s) && (found.Struck? ==> Enter(m, s) < found.time) then Struck(Enter(m, s), FaceOf(m, s)) else found
  }

  /** The earliest solid met, the first in order winning ties. */
  function ScanAll(m: Motion, solids: seq<Rect>): Scan {
    if solids == [] then Nothing
    else ScanOne(m, solids[|solids| - 1], ScanAll(m, solids[..|solids| - 1]))
  }

  /** What is left of a motion stopped at time t against a face: the rest of it, along the face. */
  function Slid(m: Motion, t: real, face: Face): Motion {
    var rest := Motion(At(m.px, m.dx, t), At(m.py, m.dy, t), Rest(m.dx, t), Rest(m.dy, t));
    if face == RightWall || face == LeftWall then rest.(dx := 0.0) else rest.(dy := 0.0)
  }

  datatype Place = Place(x: real, y: real, flags: set<Face>)

  /** At most n slides; motion still left after the last one is dropped. */
  function Slide(m: Motion, solids: seq<Rect>, n: nat, flags: set<Face>): Place
    decreases n
  {
    if n == 0 then Place(m.px, m.py, flags)
    else
      match ScanAll(m, solids)
      case Nothing => Place(m.px + m.dx, m.py + m.dy, flags)
      case Struck(t, face) => Slide(Slid(m, t, face), solids, n - 1, flags + {face})
  }

  // ------------------------------------------------------------- penetration

  predicate Inside(s: Rect, x: real, y: real) {
    s.left < x < s.right && s.top < y < s.bottom
  }

  /** The face nearest to a point inside s: floor, then ceiling, then right and left wall among equals. */
  function NearestFace(s: Rect, x: real, y: real): Face {
    var toTop, toBottom, toLeft, toRight := y - s.top, s.bottom - y, x - s.left, s.right - x;
    var vertical := Min(toBottom, toTop);
    if toRight < Min(toLeft, vertical) then LeftWall
    else if toLeft < vertical then RightWall
    else if toBottom < toTop then Ceiling
    else Floor
  }

  /** One solid of the penetration pass: a resting contact is noted, a penetrated solid pushes out. */
  function PushOut(p: Place, s: Rect, descending: bool): Place {
    var flags := if s.left < p.x < s.right && p.y == s.top && descending then p.flags + {Floor} else p.flags;
    if !Inside(s, p.x, p.y) then p.(flags := flags)
    else
      var face := NearestFace(s, p.x, p.y);
      var x := if face == RightWall then s.left else if face == LeftWall then s.right else p.x;
      var y := if face == Floor then s.top else if face == Ceiling then s.bottom else p.y;
      Place(x, y, flags + {face})
  }

  function PushOutAll(p: Place, solids: seq<Rect>, descending: bool): Place {
    if solids == [] then p
    else PushOut(PushOutAll(p, solids[..|solids| - 1], descending), solids[|solids| - 1], descending)
  }

  /** The whole resolver. */
  function Resolve(solids: seq<Rect>, oldX: real, oldY: real, x: real, y: real): Place {
    var slid := Slide(Motion(oldX, oldY, x - oldX, y - oldY), solids, 3, {});
    PushOutAll(slid, solids, y >= oldY)
  }

  // ----------------------------------------------------------- no tunnelling

  function AtX(m: Motion, t: real): real { At(m.px, m.dx, t) }
  function AtY(m: Motion, t: real): real { At(m.py, m.dy, t) }

  predicate Clear(solids: seq<Rect>, x: real, y: real) {
    forall k :: 0 <= k < |solids| ==> !Inside(solids[k], x, y)
  }

  /** Times along a leftward motion are those of the rightward motion seen in a mirror. */
  lemma MirroredTimes(p: real, d: real, low: real, high: real)
    ensures EnterTime(p, d, low, high) == EnterTime(-p, -d, -high, -low)
    ensures ExitTime(p, d, low, high) == ExitTime(-p, -d, -high, -low)
    ensures Misses(p, d, low, high) <==> Misses(-p, -d, -high, -low)
  {
    if d != 0.0 {
      NegatedQuotient(high - p, d);
      NegatedQuotient(low - p, d);
    }
  }

  /** One coordinate moving right: it is above `low` exactly after entry, and below `high` exactly before exit. */
  lemma RightwardTimes(p: real, d: real, low: real, high: real, t: real)
    requires d > 0.0
    ensures EnterTime(p, d, low, high) < t <==> low < At(p, d, t)
    ensures t < ExitTime(p, d, low, high) <==> At(p, d, t) < high
    ensures t == EnterTime(p, d, low, high) ==> At(p, d, t) == low
  {
    DivideBelow(low - p, d, t);
    DivideAbove(high - p, d, t);
    assert (low - p) / d * d == low - p;
  }

  lemma LeftwardTimes(p: real, d: real, low: real, high: real, t: real)
    requires d < 0.0
    ensures EnterTime(p, d, low, high) < t <==> At(p, d, t) < high
    ensures t < ExitTime(p, d, low, high) <==> low < At(p, d, t)
    ensures t == EnterTime(p, d, low, high) ==> At(p, d, t) == high
  {
    MirroredTimes(p, d, low, high);
    RightwardTimes(-p, -d, -high, -low, t);
    assert At(-p, -d, t) == -At(p, d, t);
  }

  lemma AtStart(p: real, d: real, t: real)
    ensures At(p, d, 0.0) == p && (d == 0.0 ==> At(p, d, t) == p)
  {
  }

  /** One coordinate: inside at time t means it entered before t and leaves after it. */
  lemma InsideIsBetween(p: real, d: real, low: real, high: real, t: real)
    requires 0.0 <= t <= 1.0 && low < At(p, d, t) < high
    ensures !Misses(p, d, low, high)
    ensures EnterTime(p, d, low, high) < t && t < ExitTime(p, d, low, high)
    ensures low < p < high || 0.0 <= EnterTime(p, d, low, high)
  {
    AtStart(p, d, t);
    hide At;
    if d > 0.0 {
      RightwardTimes(p, d, low, high, t);
      RightwardTimes(p, d, low, high, 0.0);
      hide EnterTime, ExitTime;
    } else if d < 0.0 {
      LeftwardTimes(p, d, low, high, t);
      LeftwardTimes(p, d, low, high, 0.0);
      hide EnterTime, ExitTime;
    }
  }

  lemma DivideBelow(a: real, d: real, t: real)
    requires d > 0.0
    ensures a / d < t <==> a < d * t
  {
    assert a / d * d == a;
  }

  lemma DivideAbove(a: real, d: real, t: real)
    requires d > 0.0
    ensures t < a / d <==> d * t < a
  {
    assert a / d * d == a;
  }

  lemma NegatedQuotient(a: real, d: real)
    requires d != 0.0
    ensures a / d == (-a) / (-d)
  {
  }

  /** A body outside s that is inside it at time t has met it strictly before t. */
  lemma InsideMeansMetBefore(m: Motion, s: Rect, t: real)
    requires 0.0 <= t <= 1.0 && Inside(s, AtX(m, t), AtY(m, t)) && !Inside(s, m.px, m.py)
    ensures Meets(m, s) && Enter(m, s) < t
  {
    hide EnterTime, ExitTime, Misses, At;
    InsideIsBetween(m.px, m.dx, s.left, s.right, t);
    InsideIsBetween(m.py, m.dy, s.top, s.bottom, t);
  }

  lemma {:induction false} ScanIsEarliest(m: Motion, solids: seq<Rect>, k: nat)
    requires k < |solids| && Meets(m, solids[k])
    ensures ScanAll(m, solids).Struck? && ScanAll(m, solids).time <= Enter(m, solids[k])
  {
    hide Meets, Enter, FaceOf;
    if k < |solids| - 1 { ScanIsEarliest(m, solids[..|solids| - 1], k); }
  }

  /** What a scan reports is a meeting with one of the solids. */
  lemma {:induction false} ScanIsAMeeting(m: Motion, solids: seq<Rect>)
    ensures var scan := ScanAll(m, solids);
            scan.Struck? ==> exists k :: 0 <= k < |solids| && Meets(m, solids[k])
                                         && scan.time == Enter(m, solids[k]) && scan.face == FaceOf(m, solids[k])
  {
    hide Meets, Enter, FaceOf;
    if solids != [] {
      var front := solids[..|solids| - 1];
      ScanIsAMeeting(m, front);
      var scan := ScanAll(m, front);
      if scan.Struck? {
        var k :| 0 <= k < |front| && Meets(m, front[k]) && scan.time == Enter(m, front[k]) && scan.face == FaceOf(m, front[k]);
        assert solids[k] == front[k];
      }
      assert solids[|solids| - 1] == solids[|solids| - 1];
    }
  }

  /** How far one motion is followed: to the first meeting, or to its end. */
  function StopTime(m: Motion, solids: seq<Rect>): real {
    match ScanAll(m, solids) case Nothing => 1.0 case Struck(t, _) => t
  }

  /** Every point a motion passes up to time `stop` is outside every solid. */
  ghost predicate ClearUntil(m: Motion, solids: seq<Rect>, stop: real) {
    forall t: real :: 0.0 <= t <= stop ==> Clear(solids, AtX(m, t), AtY(m, t))
  }

  lemma StopTimeInRange(m: Motion, solids: seq<Rect>)
    ensures 0.0 <= StopTime(m, solids) <= 1.0
  {
    ScanIsAMeeting(m, solids);
  }

  lemma SegmentIsClear(m: Motion, solids: seq<Rect>)
    requires Clear(solids, m.px, m.py)
    ensures ClearUntil(m, solids, StopTime(m, solids))
  {
    StopTimeInRange(m, solids);
    forall t: real | 0.0 <= t <= StopTime(m, solids) ensures Clear(solids, AtX(m, t), AtY(m, t)) {
      forall k | 0 <= k < |solids| ensures !Inside(solids[k], AtX(m, t), AtY(m, t)) {
        if Inside(solids[k], AtX(m, t), AtY(m, t)) {
          InsideMeansMetBefore(m, solids[k], t);
          ScanIsEarliest(m, solids, k);
        }
      }
    }
  }

  /** The whole path of up to n slides stays outside every solid. */
  ghost predicate PathClear(m: Motion, solids: seq<Rect>, n: nat)
    decreases n
  {
    n > 0 ==>
      && ClearUntil(m, solids, StopTime(m, solids))
      && match ScanAll(m, solids)
         case Nothing => true
         case Struck(t, face) => PathClear(Slid(m, t, face), solids, n - 1)
  }

  predicate Between(a: real, x: real, b: real) {
    Min(a, b) <= x <= Max(a, b)
  }

  lemma {:induction false} SlideStaysClear(m: Motion, solids: seq<Rect>, n: nat, flags: set<Face>)
    requires Clear(solids, m.px, m.py)
    ensures PathClear(m, solids, n)
    ensures var p := Slide(m, solids, n, flags); Clear(solids, p.x, p.y)
    decreases n
  {
    if n > 0 {
      SegmentIsClear(m, solids);
      StopTimeInRange(m, solids);
      var t := StopTime(m, solids);
      assert Clear(solids, AtX(m, t), AtY(m, t));
      match ScanAll(m, solids) {
        case Nothing =>
        case Struck(_, face) =>
          hide Clear, ScanAll, ClearUntil;
          SlideStaysClear(Slid(m, t, face), solids, n - 1, flags + {face});
      }
    }
  }

  lemma NonNegativeProduct(a: real, b: real)
    requires a >= 0.0 && b >= 0.0
    ensures a * b >= 0.0
  {
  }

  lemma AtThenRest(p: real, d: real, t: real)
    requires 0.0 <= t <= 1.0
    ensures At(p, d, t) + Rest(d, t) == p + d
    ensures if d >= 0.0 then p <= At(p, d, t) <= p + d else p + d <= At(p, d, t) <= p
  {
    var u := 1.0 - t;
    assert d * t + d * u == d * (t + u) == d;
    if d >= 0.0 {
      NonNegativeProduct(d, t);
      NonNegativeProduct(d, u);
    } else {
      NonNegativeProduct(-d, t);
      NonNegativeProduct(-d, u);
      assert (-d) * t == -(d * t) && (-d) * u == -(d * u);
    }
  }

  /** A coordinate followed to time t and then through what is left of its motion, or held there, stays in range. */
  lemma BetweenShrinks(p: real, d: real, t: real, d': real, x: real)
    requires 0.0 <= t <= 1.0 && (d' == Rest(d, t) || d' == 0.0)
    requires Between(At(p, d, t), x, At(p, d, t) + d')
    ensures Between(p, x, p + d)
  {
    AtThenRest(p, d, t);
    hide At, Rest;
  }

  lemma SlidStaysInBox(m: Motion, t: real, face: Face, x: real, y: real)
    requires 0.0 <= t <= 1.0
    requires var rest := Slid(m, t, face);
             Between(rest.px, x, rest.px + rest.dx) && Between(rest.py, y, rest.py + rest.dy)
    ensures Between(m.px, x, m.px + m.dx) && Between(m.py, y, m.py + m.dy)
  {
    hide At, Rest, Between;
    var rest := Slid(m, t, face);
    BetweenShrinks(m.px, m.dx, t, rest.dx, x);
    BetweenShrinks(m.py, m.dy, t, rest.dy, y);
  }

  lemma {:induction false} SlideStaysInBox(m: Motion, solids: seq<Rect>, n: nat, flags: set<Face>)
    ensures var p := Slide(m, solids, n, flags);
            Between(m.px, p.x, m.px + m.dx) && Between(m.py, p.y, m.py + m.dy)
    decreases n
  {
    if n > 0 {
      StopTimeInRange(m, solids);
      hide ScanAll;
      match ScanAll(m, solids) {
        case Nothing =>
        case Struck(t, face) =>
          hide Slid, Between;
          var p := Slide(Slid(m, t, face), solids, n - 1, flags + {face});
          SlideStaysInBox(Slid(m, t, face), solids, n - 1, flags + {face});
          SlidStaysInBox(m, t, face, p.x, p.y);
      }
    }
  }

  /** Outside every solid, the penetration pass moves nothing. */
  lemma {:induction false} PushOutIsIdle(p: Place, solids: seq<Rect>, descending: bool)
    requires Clear(solids, p.x, p.y)
    ensures var q := PushOutAll(p, solids, descending); q.x == p.x && q.y == p.y
  {
    if solids != [] {
      var front := solids[..|solids| - 1];
      forall k | 0 <= k < |front| ensures !Inside(front[k], p.x, p.y) { assert front[k] == solids[k]; }
      PushOutIsIdle(p, front, descending);
    }
  }

  /** No tunnelling: a body that starts outside the open interior of every grown solid never passes through one.
      Its whole path over the up-to-three slides is outside them all, the penetration pass leaves it alone, and it
      ends, still outside, in the box spanned by the old and target positions. */
  lemma NoTunnelling(solids: seq<Rect>, oldX: real, oldY: real, x: real, y: real)
    requires Clear(solids, oldX, oldY)
    ensures var m := Motion(oldX, oldY, x - oldX, y - oldY);
            var slid, p := Slide(m, solids, 3, {}), Resolve(solids, oldX, oldY, x, y);
            && PathClear(m, solids, 3)
            && p.x == slid.x && p.y == slid.y
            && Clear(solids, p.x, p.y)
            && Between(oldX, p.x, x) && Between(oldY, p.y, y)
  {
    var m := Motion(oldX, oldY, x - oldX, y - oldY);
    SlideStaysClear(m, solids, 3, {});
    SlideStaysInBox(m, solids, 3, {});
    PushOutIsIdle(Slide(m, solids, 3, {}), solids, y >= oldY);
  }

  /** A motion that comes up against nothing ends exactly at its target. */
  lemma UnobstructedReachesTarget(solids: seq<Rect>, oldX: real, oldY: real, x: real, y: real)
    requires Clear(solids, x, y)
    requires forall k :: 0 <= k < |solids| ==> !Meets(Motion(oldX, oldY, x - oldX, y - oldY), solids[k])
    ensures var p := Resolve(solids, oldX, oldY, x, y); p.x == x && p.y == y
  {
    var m := Motion(oldX, oldY, x - oldX, y - oldY);
    ScanIsAMeeting(m, solids);
    PushOutIsIdle(Slide(m, solids, 3, {}), solids, y >= oldY);
  }

  /** One coordinate of a motion that comes up against an interval: it is within exactly strictly between entry and
      exit; at entry it is on the near face. */
  lemma OnFaceOrWithin(p: real, d: real, low: real, high: real, t: real)
    requires !Misses(p, d, low, high) && 0.0 <= t <= 1.0
    ensures EnterTime(p, d, low, high) < t < ExitTime(p, d, low, high) <==> low < At(p, d, t) < high
    ensures t == EnterTime(p, d, low, high) ==> d != 0.0 && At(p, d, t) == if d > 0.0 then low else high
  {
    AtStart(p, d, t);
    hide At;
    if d > 0.0 {
      RightwardTimes(p, d, low, high, t);
      hide EnterTime, ExitTime;
    } else if d < 0.0 {
      LeftwardTimes(p, d, low, high, t);
      hide EnterTime, ExitTime;
    }
  }

  lemma EnterBeforeExit(p: real, d: real, low: real, high: real, t: real)
    requires low < high && 0.0 <= t <= 1.0 && t == EnterTime(p, d, low, high)
    ensures t < ExitTime(p, d, low, high)
  {
    AtStart(p, d, t);
    hide At;
    if d > 0.0 { RightwardTimes(p, d, low, high, t); } else if d < 0.0 { LeftwardTimes(p, d, low, high, t); }
  }

  /** Whether the suppressed axis was really blocked, at a wall. The body is on the wall it was stopped by, and a
      further motion along x, short of the far wall, would be inside the solid if and only if the solid was entered
      strictly before it was left again, that is, unless the body only grazed a corner. */
  lemma WallIsBlocked(m: Motion, s: Rect, step: real)
    requires Meets(m, s) && 0.0 < step < s.right - s.left
    requires FaceOf(m, s) == RightWall || FaceOf(m, s) == LeftWall
    ensures var x, y := AtX(m, Enter(m, s)), AtY(m, Enter(m, s));
            if FaceOf(m, s) == RightWall
            then m.dx > 0.0 && x == s.left && (Inside(s, x + step, y) <==> Enter(m, s) < Leave(m, s))
            else m.dx < 0.0 && x == s.right && (Inside(s, x - step, y) <==> Enter(m, s) < Leave(m, s))
  {
    hide EnterTime, ExitTime, Misses, At;
    OnFaceOrWithin(m.px, m.dx, s.left, s.right, Enter(m, s));
    OnFaceOrWithin(m.py, m.dy, s.top, s.bottom, Enter(m, s));
    EnterBeforeExit(m.px, m.dx, s.left, s.right, Enter(m, s));
  }

  /** The same at floors and ceilings, where coming up exactly on a corner counts as the floor or ceiling: blocked if
      and only if the body did not graze and was already strictly between the walls. */
  lemma FloorIsBlocked(m: Motion, s: Rect, step: real)
    requires Meets(m, s) && 0.0 < step < s.bottom - s.top
    requires FaceOf(m, s) == Floor || FaceOf(m, s) == Ceiling
    ensures var x, y := AtX(m, Enter(m, s)), AtY(m, Enter(m, s));
            var entered := EnterTime(m.px, m.dx, s.left, s.right) < EnterTime(m.py, m.dy, s.top, s.bottom)
                           && Enter(m, s) < Leave(m, s);
            if FaceOf(m, s) == Floor
            then m.dy > 0.0 && y == s.top && (Inside(s, x, y + step) <==> entered)
            else m.dy < 0.0 && y == s.bottom && (Inside(s, x, y - step) <==> entered)
  {
    hide EnterTime, ExitTime, Misses, At;
    OnFaceOrWithin(m.px, m.dx, s.left, s.right, Enter(m, s));
    OnFaceOrWithin(m.py, m.dy, s.top, s.bottom, Enter(m, s));
    EnterBeforeExit(m.py, m.dy, s.top, s.bottom, Enter(m, s));
  }

  /** When stopping a body was needed: from outside, its straight motion would have passed through s if and only if it
      comes up against s, before its end, and enters it strictly before leaving it. */
  lemma PenetratesIffEntered(m: Motion, s: Rect)
    requires !Inside(s, m.px, m.py)
    ensures (exists t: real :: 0.0 <= t <= 1.0 && Inside(s, AtX(m, t), AtY(m, t)))
       <==> Meets(m, s) && Enter(m, s) < 1.0 && Enter(m, s) < Leave(m, s)
  {
    forall t: real | 0.0 <= t <= 1.0 && Inside(s, AtX(m, t), AtY(m, t))
      ensures Meets(m, s) && Enter(m, s) < t < Leave(m, s)
    {
      InsideMeansMetBefore(m, s, t);
      hide EnterTime, ExitTime, At;
      OnFaceOrWithin(m.px, m.dx, s.left, s.right, t);
      OnFaceOrWithin(m.py, m.dy, s.top, s.bottom, t);
    }
    if Meets(m, s) && Enter(m, s) < 1.0 && Enter(m, s) < Leave(m, s) {
      var t := (Enter(m, s) + Min(1.0, Leave(m, s))) / 2.0;
      hide EnterTime, ExitTime, At;
      OnFaceOrWithin(m.px, m.dx, s.left, s.right, t);
      OnFaceOrWithin(m.py, m.dy, s.top, s.bottom, t);
      assert Inside(s, AtX(m, t), AtY(m, t));
    }
  }

  /** A body that grazes a corner: nothing is in the way of its straight motion, and yet it is stopped. */
  lemma GrazingBodyIsStopped()
    ensures var m, s := Motion(-1.0, -1.0, 2.0, 2.0), Rect(0.0, 1.0, -2.0, 0.0);
            && (forall t: real :: 0.0 <= t <= 1.0 ==> !Inside(s, AtX(m, t), AtY(m, t)))
            && Meets(m, s) && Enter(m, s) == Leave(m, s)
            && Resolve([s], -1.0, -1.0, 1.0, 1.0) == Place(0.0, 1.0, {RightWall})
  {
    var m, s := Motion(-1.0, -1.0, 2.0, 2.0), Rect(0.0, 1.0, -2.0, 0.0);
    PenetratesIffEntered(m, s);
    assert ScanAll(m, [s]) == ScanOne(m, s, Nothing) == Struck(0.5, RightWall);
    var rest := Motion(0.0, 0.0, 0.0, 1.0);
    assert Slid(m, 0.5, RightWall) == rest;
    assert ScanAll(rest, [s]) == ScanOne(rest, s, Nothing) == Nothing;
    var slid := Place(0.0, 1.0, {RightWall});
    assert {} + {RightWall} == {RightWall};
    assert Slide(m, [s], 3, {}) == Slide(rest, [s], 2, {RightWall}) == slid;
    assert PushOutAll(slid, [s], true) == PushOut(PushOutAll(slid, [], true), s, true) == slid;
  }

  /** A penetrated solid pushes out by the shortest way and leaves the body on its boundary. */
  lemma PushOutLeavesByNearestFace(p: Place, s: Rect, descending: bool)
    requires Inside(s, p.x, p.y)
    ensures var q := PushOut(p, s, descending);
            var moved := Max(p.x - q.x, q.x - p.x) + Max(p.y - q.y, q.y - p.y);
            && !Inside(s, q.x, q.y)
            && (q.x == p.x || q.y == p.y)
            && moved <= p.y - s.top && moved <= s.bottom - p.y && moved <= p.x - s.left && moved <= s.right - p.x
  {
  }

  // -------------------------------------------------------------- the resolver

  method FirstMeeting(w: World, radius: real, m: Motion) returns (found: Scan)
    ensures found == ScanAll(m, Solids(w, radius))
  {
    hide Meets, Enter, FaceOf, RectOf, RegionsAt;
    found := Nothing;
    for i := 0 to |w.slots|
      invariant found == ScanAll(m, SolidsUpTo(w, radius, i))
    {
      if !w.slots[i].active {
        assert SolidsUpTo(w, radius, i + 1) == SolidsUpTo(w, radius, i);
        continue;
      }
      var regions := RegionsAt(w, i);
      ghost var before := SolidsUpTo(w, radius, i);
      assert before + RegionSolids(w, radius, i, 0) == before;
      for j := 0 to |regions|
        invariant found == ScanAll(m, before + RegionSolids(w, radius, i, j))
      {
        if regions[j].role != Solid {
          assert RegionSolids(w, radius, i, j + 1) == RegionSolids(w, radius, i, j);
          continue;
        }
        var s := RectOf(w.slots[i].value, regions[j], radius);
        ghost var solids := before + RegionSolids(w, radius, i, j + 1);
        assert solids[..|solids| - 1] == before + RegionSolids(w, radius, i, j);
        found := ScanOne(m, s, found);
      }
    }
  }

  method PushOutOfSolids(w: World, radius: real, p: Place, descending: bool) returns (q: Place)
    ensures q == PushOutAll(p, Solids(w, radius), descending)
  {
    hide PushOutAll, RegionSolids;
    NothingPushed(p, descending);
    q := p;
    for i := 0 to |w.slots|
      invariant q == PushOutAll(p, SolidsUpTo(w, radius, i), descending)
    {
      if w.slots[i].active { q := PushOutOfSlot(w, radius, i, p, q, descending); }
      else { assert SolidsUpTo(w, radius, i + 1) == SolidsUpTo(w, radius, i); }
    }
  }

  method PushOutOfSlot(w: World, radius: real, i: nat, ghost start: Place, p: Place, descending: bool) returns (q: Place)
    requires i < |w.slots| && w.slots[i].active && p == PushOutAll(start, SolidsUpTo(w, radius, i), descending)
    ensures q == PushOutAll(start, SolidsUpTo(w, radius, i + 1), descending)
  {
    hide PushOutAll, PushOut, RectOf, RegionsAt, SolidsUpTo;
    var regions := RegionsAt(w, i);
    ghost var before := SolidsUpTo(w, radius, i);
    assert before + RegionSolids(w, radius, i, 0) == before;
    q := p;
    for j := 0 to |regions|
      invariant q == PushOutAll(start, before + RegionSolids(w, radius, i, j), descending)
    {
      if regions[j].role == Solid {
        var s := RectOf(w.slots[i].value, regions[j], radius);
        assert before + RegionSolids(w, radius, i, j + 1) == before + RegionSolids(w, radius, i, j) + [s];
        PushedByOneMore(start, before + RegionSolids(w, radius, i, j), s, descending);
        q := PushOut(q, s, descending);
      } else {
        assert RegionSolids(w, radius, i, j + 1) == RegionSolids(w, radius, i, j);
      }
    }
    SlotSolids(w, radius, i);
  }

  lemma SlotSolids(w: World, radius: real, i: nat)
    requires i < |w.slots| && w.slots[i].active
    ensures SolidsUpTo(w, radius, i + 1) == SolidsUpTo(w, radius, i) + RegionSolids(w, radius, i, |RegionsAt(w, i)|)
  {
  }

  lemma NothingPushed(p: Place, descending: bool)
    ensures PushOutAll(p, [], descending) == p
  {
  }

  lemma PushedByOneMore(p: Place, solids: seq<Rect>, s: Rect, descending: bool)
    ensures PushOutAll(p, solids + [s], descending) == PushOut(PushOutAll(p, solids, descending), s, descending)
  {
    assert (solids + [s])[..|solids|] == solids;
  }

  lemma {:induction false} NoSolidRegions(w: World, radius: real, i: nat, j: nat)
    requires i < |w.slots| && j <= |RegionsAt(w, i)| && !HasSolids(w.types)
    ensures RegionSolids(w, radius, i, j) == []
  {
    if j > 0 { NoSolidRegions(w, radius, i, j - 1); }
  }

  /** A world whose types declare no solid region has none, so the early exit changes nothing. */
  lemma {:induction false} NoSolids(w: World, radius: real, i: nat)
    requires i <= |w.slots| && !HasSolids(w.types)
    ensures SolidsUpTo(w, radius, i) == []
  {
    if i > 0 {
      NoSolids(w, radius, i - 1);
      NoSolidRegions(w, radius, i - 1, |RegionsAt(w, i - 1)|);
    }
  }

  /** Sweeps a body of the given radius from its old position to (x, y). */
  method SweepSolids(world: EntityWorld, oldX: real, oldY: real, radius: real, x: real, y: real) returns (p: Place)
    requires world.Valid()
    ensures p == Resolve(Solids(world.Abs(), radius), oldX, oldY, x, y)
  {
    hide WellFormed, ScanAll, PushOutAll, SolidsUpTo;
    var w := World(world.slots[..], world.count, world.tick, world.types, world.spawned);
    ghost var solids := Solids(w, radius);
    if !world.hasSolids {
      NoSolids(w, radius, |w.slots|);
      NothingInTheWay(Motion(oldX, oldY, x - oldX, y - oldY), y >= oldY);
      return Place(x, y, {});
    }
    var m, flags: set<Face> := Motion(oldX, oldY, x - oldX, y - oldY), {};
    var iteration := 0;
    while iteration < 3
      invariant 0 <= iteration <= 3
      invariant Slide(m, solids, 3 - iteration, flags) == Slide(Motion(oldX, oldY, x - oldX, y - oldY), solids, 3, {})
    {
      var found := FirstMeeting(w, radius, m);
      if found.Nothing? {
        m := Motion(m.px + m.dx, m.py + m.dy, m.dx, m.dy);
        break;
      }
      m, flags := Slid(m, found.time, found.face), flags + {found.face};
      iteration := iteration + 1;
    }
    p := PushOutOfSolids(w, radius, Place(m.px, m.py, flags), y >= oldY);
  }

  lemma NothingInTheWay(m: Motion, descending: bool)
    ensures PushOutAll(Slide(m, [], 3, {}), [], descending) == Place(m.px + m.dx, m.py + m.dy, {})
  {
  }
}
