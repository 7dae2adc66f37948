/**
 What the swept resolver means for the entities: which points their grown solids cover,
 which meetings count and which comes first, how a stopped body slides on, when a contact
 is reported, and that a mirrored world gives the mirrored result.
 */
module EntitySweepLaws {
  import opened EntityModel
  import opened EntityContacts
  import opened EntitySweep

  // ------------------------------------------------------- what solids cover

  /** The first x of a region of an entity, in 1/256 pixels: mirrored about the entity's own position or not. */
  function FirstX(v: EntityValue, r: EntityRegion): int {
    if v.flags % 2 == 1 then v.x - (r.x + r.width) else v.x + r.x
  }

  /** An open square body of half-side `radius` around (x, y) overlaps the region. */
  predicate BodyOverlaps(v: EntityValue, r: EntityRegion, radius: real, x: real, y: real) {
    && 256.0 * (x - radius) < (FirstX(v, r) + r.width) as real && FirstX(v, r) as real < 256.0 * (x + radius)
    && 256.0 * (y - radius) < (v.y + r.y + r.height) as real && (v.y + r.y) as real < 256.0 * (y + radius)
  }

  /** A body's centre is inside a grown solid exactly when the body overlaps the region it was grown from. */
  lemma InsideIsOverlap(v: EntityValue, r: EntityRegion, radius: real, x: real, y: real)
    ensures Inside(RectOf(v, r, radius), x, y) <==> BodyOverlaps(v, r, radius, x, y)
  {
  }

  /** A solid region of a live entity. */
  predicate SolidAt(w: World, i: nat, j: nat) {
    i < |w.slots| && w.slots[i].active && j < |RegionsAt(w, i)| && RegionsAt(w, i)[j].role == Solid
  }

  lemma {:induction false} RegionSolidsAre(w: World, radius: real, i: nat, n: nat, s: Rect)
    requires i < |w.slots| && w.slots[i].active && n <= |RegionsAt(w, i)|
    ensures s in RegionSolids(w, radius, i, n)
       <==> exists j: nat :: j < n && SolidAt(w, i, j) && s == RectOf(w.slots[i].value, RegionsAt(w, i)[j], radius)
  {
    hide RectOf, RegionsAt;
    if n > 0 {
      RegionSolidsAre(w, radius, i, n - 1, s);
      assert RegionsAt(w, i)[n - 1].role == Solid ==> SolidAt(w, i, n - 1);
    }
  }

  /** The rectangles of the resolver are those of the solid regions of the live entities among the first n slots. */
  lemma {:induction false} SolidsAre(w: World, radius: real, n: nat, s: Rect)
    requires n <= |w.slots|
    ensures s in SolidsUpTo(w, radius, n)
       <==> exists i: nat, j: nat :: i < n && SolidAt(w, i, j) && s == RectOf(w.slots[i].value, RegionsAt(w, i)[j], radius)
  {
    hide RectOf, RegionsAt, RegionSolids;
    if n > 0 {
      SolidsAre(w, radius, n - 1, s);
      if w.slots[n - 1].active { RegionSolidsAre(w, radius, n - 1, |RegionsAt(w, n - 1)|, s); }
    }
  }

  /** No body of a live entity is in the way at a point: no solid region of any overlaps the body there. */
  ghost predicate NothingOverlaps(w: World, radius: real, x: real, y: real) {
    forall i: nat, j: nat :: SolidAt(w, i, j) ==> !BodyOverlaps(w.slots[i].value, RegionsAt(w, i)[j], radius, x, y)
  }

  /** Being clear of the resolver's rectangles is overlapping no solid region of any live entity. */
  lemma ClearIsNothingOverlaps(w: World, radius: real, x: real, y: real)
    ensures Clear(Solids(w, radius), x, y) <==> NothingOverlaps(w, radius, x, y)
  {
    hide RectOf, RegionsAt, SolidsUpTo, BodyOverlaps;
    var solids := Solids(w, radius);
    if Clear(solids, x, y) {
      forall i: nat, j: nat | SolidAt(w, i, j)
        ensures !BodyOverlaps(w.slots[i].value, RegionsAt(w, i)[j], radius, x, y)
      {
        var s := RectOf(w.slots[i].value, RegionsAt(w, i)[j], radius);
        SolidsAre(w, radius, |w.slots|, s);
        InsideIsOverlap(w.slots[i].value, RegionsAt(w, i)[j], radius, x, y);
        assert s in solids;
      }
    }
    if NothingOverlaps(w, radius, x, y) {
      forall k | 0 <= k < |solids| ensures !Inside(solids[k], x, y) {
        assert solids[k] in solids;
        SolidsAre(w, radius, |w.slots|, solids[k]);
        var i: nat, j: nat :| i < |w.slots| && SolidAt(w, i, j)
                              && solids[k] == RectOf(w.slots[i].value, RegionsAt(w, i)[j], radius);
        InsideIsOverlap(w.slots[i].value, RegionsAt(w, i)[j], radius, x, y);
      }
    }
  }

  /** No tunnelling, said of the entities: a body that overlaps no solid region where it starts overlaps none where it
      ends, nor anywhere up to its first stop. */
  lemma BodiesDoNotTunnel(w: World, radius: real, oldX: real, oldY: real, x: real, y: real)
    requires NothingOverlaps(w, radius, oldX, oldY)
    ensures var m, solids := Motion(oldX, oldY, x - oldX, y - oldY), Solids(w, radius);
            var p := Resolve(solids, oldX, oldY, x, y);
            && NothingOverlaps(w, radius, p.x, p.y)
            && forall t: real :: 0.0 <= t <= StopTime(m, solids) ==> NothingOverlaps(w, radius, AtX(m, t), AtY(m, t))
  {
    var m, solids := Motion(oldX, oldY, x - oldX, y - oldY), Solids(w, radius);
    ClearIsNothingOverlaps(w, radius, oldX, oldY);
    NoTunnelling(solids, oldX, oldY, x, y);
    var p := Resolve(solids, oldX, oldY, x, y);
    ClearIsNothingOverlaps(w, radius, p.x, p.y);
    SegmentIsClear(m, solids);
    forall t: real | 0.0 <= t <= StopTime(m, solids) ensures NothingOverlaps(w, radius, AtX(m, t), AtY(m, t)) {
      assert Clear(solids, AtX(m, t), AtY(m, t));
      ClearIsNothingOverlaps(w, radius, AtX(m, t), AtY(m, t));
    }
  }

  // ------------------------------------------------------------ which meetings

  /** At time t the coordinate is within the interval; one that does not move must be strictly within. */
  predicate Touches(p: real, d: real, low: real, high: real, t: real) {
    if d == 0.0 then low < p < high else low <= At(p, d, t) <= high
  }

  /** The coordinate moves towards the interval and has not passed its near end. */
  predicate Approaches(p: real, d: real, low: real, high: real) {
    (d > 0.0 && p <= low) || (d < 0.0 && p >= high)
  }

  lemma TouchesBetweenTimes(p: real, d: real, low: real, high: real, t: real)
    requires 0.0 <= t <= 1.0
    ensures Touches(p, d, low, high, t)
       <==> !Misses(p, d, low, high) && EnterTime(p, d, low, high) <= t <= ExitTime(p, d, low, high)
    ensures EnterTime(p, d, low, high) >= 0.0 <==> Approaches(p, d, low, high)
  {
    if d > 0.0 {
      RightwardTimes(p, d, low, high, t);
      RightwardTimes(p, d, low, high, 0.0);
      assert (high - p) / d * d == high - p;
      ExitIsFarSide(p, d, low, high, t);
    } else if d < 0.0 {
      LeftwardTimes(p, d, low, high, t);
      LeftwardTimes(p, d, low, high, 0.0);
      ExitIsFarSide(p, d, low, high, t);
    }
  }

  lemma ExitIsFarSide(p: real, d: real, low: real, high: real, t: real)
    requires d != 0.0
    ensures t == ExitTime(p, d, low, high) <==> At(p, d, t) == if d > 0.0 then high else low
    ensures t == EnterTime(p, d, low, high) <==> At(p, d, t) == if d > 0.0 then low else high
  {
    QuotientIs(high - p, d, t);
    QuotientIs(low - p, d, t);
  }

  lemma QuotientIs(a: real, d: real, t: real)
    requires d != 0.0
    ensures t == a / d <==> d * t == a
  {
    assert a / d * d == a;
  }

  /** Which solids count as met: those the body touches within its motion, along one coordinate at least approaching. */
  lemma MeetsIffTouches(m: Motion, s: Rect)
    ensures Meets(m, s) <==>
      && (Approaches(m.px, m.dx, s.left, s.right) || Approaches(m.py, m.dy, s.top, s.bottom))
      && exists t: real :: 0.0 <= t <= 1.0 && Touches(m.px, m.dx, s.left, s.right, t)
                                           && Touches(m.py, m.dy, s.top, s.bottom, t)
  {
    TouchesBetweenTimes(m.px, m.dx, s.left, s.right, 0.0);
    TouchesBetweenTimes(m.py, m.dy, s.top, s.bottom, 0.0);
    forall t: real | 0.0 <= t <= 1.0
      ensures Touches(m.px, m.dx, s.left, s.right, t) && Touches(m.py, m.dy, s.top, s.bottom, t)
         <==> && !Misses(m.px, m.dx, s.left, s.right) && !Misses(m.py, m.dy, s.top, s.bottom)
              && Enter(m, s) <= t <= Leave(m, s)
    {
      TouchesBetweenTimes(m.px, m.dx, s.left, s.right, t);
      TouchesBetweenTimes(m.py, m.dy, s.top, s.bottom, t);
    }
    if Meets(m, s) {
      var t := Enter(m, s);
      assert Touches(m.px, m.dx, s.left, s.right, t) && Touches(m.py, m.dy, s.top, s.bottom, t);
    }
  }

  /** Solid k is met, later than by none and earlier than by every one before it. */
  ghost predicate IsFirstOfEarliest(m: Motion, solids: seq<Rect>, k: nat) {
    && k < |solids| && Meets(m, solids[k])
    && (forall j :: 0 <= j < k && Meets(m, solids[j]) ==> Enter(m, solids[k]) < Enter(m, solids[j]))
    && (forall j :: k < j < |solids| && Meets(m, solids[j]) ==> Enter(m, solids[k]) <= Enter(m, solids[j]))
  }

  lemma FirstStaysFirst(m: Motion, front: seq<Rect>, s: Rect, k: nat)
    requires IsFirstOfEarliest(m, front, k) && (Meets(m, s) ==> Enter(m, front[k]) <= Enter(m, s))
    ensures IsFirstOfEarliest(m, front + [s], k)
  {
    hide Meets, Enter;
  }

  lemma EarlierIsFirst(m: Motion, front: seq<Rect>, s: Rect, k: nat)
    requires IsFirstOfEarliest(m, front, k) && Meets(m, s) && Enter(m, s) < Enter(m, front[k])
    ensures IsFirstOfEarliest(m, front + [s], |front|)
  {
    hide Meets, Enter;
    var solids := front + [s];
    forall j | 0 <= j < |front| && Meets(m, solids[j]) ensures Enter(m, s) < Enter(m, solids[j]) {
      assert solids[j] == front[j];
    }
  }

  lemma OnlyIsFirst(m: Motion, front: seq<Rect>, s: Rect)
    requires Meets(m, s) && forall j :: 0 <= j < |front| ==> !Meets(m, front[j])
    ensures IsFirstOfEarliest(m, front + [s], |front|)
  {
    hide Meets, Enter;
  }

  /** A scan reports the earliest meeting, and of several at one time the first in slot and region order. */
  lemma {:induction false} ScanIsFirstOfEarliest(m: Motion, solids: seq<Rect>) returns (k: nat)
    ensures ScanAll(m, solids).Nothing? ==> forall j :: 0 <= j < |solids| ==> !Meets(m, solids[j])
    ensures ScanAll(m, solids).Struck? ==>
      IsFirstOfEarliest(m, solids, k) && ScanAll(m, solids) == Struck(Enter(m, solids[k]), FaceOf(m, solids[k]))
  {
    hide Meets, Enter, FaceOf, IsFirstOfEarliest;
    k := 0;
    if solids != [] {
      var front, s := solids[..|solids| - 1], solids[|solids| - 1];
      assert front + [s] == solids;
      k := ScanIsFirstOfEarliest(m, front);
      if ScanAll(m, front).Nothing? {
        if Meets(m, s) {
          k := |front|;
          OnlyIsFirst(m, front, s);
        }
      } else {
        assert k < |front| && solids[k] == front[k] by { FirstIsThere(m, front, k); }
        if Meets(m, s) && Enter(m, s) < Enter(m, front[k]) {
          EarlierIsFirst(m, front, s, k);
          k := |front|;
        } else {
          FirstStaysFirst(m, front, s, k);
        }
      }
    }
  }

  lemma FirstIsThere(m: Motion, solids: seq<Rect>, k: nat)
    requires IsFirstOfEarliest(m, solids, k)
    ensures k < |solids|
  {
  }

  /** A stopped body slides on along the face: if nothing more is in its way it gets all the way to its target in the
      other coordinate, and stays at the face in the stopped one. */
  lemma SlidesAlongTheFace(m: Motion, solids: seq<Rect>, n: nat, flags: set<Face>)
    requires n >= 2 && ScanAll(m, solids).Struck?
    requires ScanAll(Slid(m, ScanAll(m, solids).time, ScanAll(m, solids).face), solids).Nothing?
    ensures var (p, scan) := (Slide(m, solids, n, flags), ScanAll(m, solids));
            && p.flags == flags + {scan.face}
            && (scan.face == RightWall || scan.face == LeftWall ==> p.x == AtX(m, scan.time) && p.y == m.py + m.dy)
            && (scan.face == Floor || scan.face == Ceiling ==> p.x == m.px + m.dx && p.y == AtY(m, scan.time))
  {
    var scan := ScanAll(m, solids);
    StopTimeInRange(m, solids);
    AtThenRest(m.px, m.dx, scan.time);
    AtThenRest(m.py, m.dy, scan.time);
    hide ScanAll, At, Rest;
    var rest := Slid(m, scan.time, scan.face);
    assert Slide(rest, solids, n - 1, flags + {scan.face})
        == Place(rest.px + rest.dx, rest.py + rest.dy, flags + {scan.face});
  }

  // -------------------------------------------------------- pushing out

  /** The distance from a point inside s to a face of it: the floor is its top edge, the right wall its left edge. */
  function Distance(s: Rect, face: Face, x: real, y: real): real {
    match face case Floor => y - s.top case Ceiling => s.bottom - y case RightWall => x - s.left case LeftWall => s.right - x
  }

  function FaceRank(face: Face): nat {
    match face case Floor => 0 case Ceiling => 1 case RightWall => 2 case LeftWall => 3
  }

  /** A penetrated solid pushes the body out through the nearest face, floor before ceiling before right before left
      wall among equals: onto that face, the other coordinate kept, and that face is reported. */
  lemma PushesToNearestFace(p: Place, s: Rect, descending: bool)
    requires Inside(s, p.x, p.y)
    ensures var (q, face) := (PushOut(p, s, descending), NearestFace(s, p.x, p.y));
            && (forall f: Face :: Distance(s, face, p.x, p.y) <= Distance(s, f, p.x, p.y))
            && (forall f: Face :: FaceRank(f) < FaceRank(face) ==>
                  Distance(s, face, p.x, p.y) < Distance(s, f, p.x, p.y))
            && Distance(s, face, q.x, q.y) == 0.0
            && (face == Floor || face == Ceiling ==> q.x == p.x) && (face == RightWall || face == LeftWall ==> q.y == p.y)
            && q.flags == p.flags + {face}
  {
  }

  /** On the top edge of s, strictly between its walls. */
  predicate RestsOn(s: Rect, x: real, y: real) {
    s.left < x < s.right && y == s.top
  }

  /** What the penetration pass had come to before solid k. */
  function BeforeSolid(p: Place, solids: seq<Rect>, descending: bool, k: nat): Place
    requires k <= |solids|
  {
    PushOutAll(p, solids[..k], descending)
  }

  /** When the penetration pass reports a floor: it was reported before, or a solid of the pass was at its turn rested
      on by a body that does not rise, or pushed the body out upwards. */
  lemma {:induction false} FloorIsReportedIff(p: Place, solids: seq<Rect>, descending: bool)
    ensures Floor in PushOutAll(p, solids, descending).flags <==>
      || Floor in p.flags
      || exists k :: 0 <= k < |solids| && FloorAt(p, solids, descending, k)
  {
    hide NearestFace, RestsOn;
    if solids != [] {
      var n := |solids| - 1;
      var front := solids[..n];
      FloorIsReportedIff(p, front, descending);
      forall k | 0 <= k < n ensures FloorAt(p, front, descending, k) <==> FloorAt(p, solids, descending, k) {
        assert front[..k] == solids[..k] && front[k] == solids[k];
      }
      assert FloorAt(p, solids, descending, n) <==>
        Floor in PushOut(PushOutAll(p, front, descending), solids[n], descending).flags
        && (Floor in PushOutAll(p, front, descending).flags ==> FloorAt(p, solids, descending, n)) by {
        OneFloor(PushOutAll(p, front, descending), solids[n], descending);
      }
      OneFloor(PushOutAll(p, front, descending), solids[n], descending);
    }
  }

  ghost predicate FloorAt(p: Place, solids: seq<Rect>, descending: bool, k: nat)
    requires k < |solids|
  {
    var (q, s) := (BeforeSolid(p, solids, descending, k), solids[k]);
    (descending && RestsOn(s, q.x, q.y)) || (Inside(s, q.x, q.y) && NearestFace(s, q.x, q.y) == Floor)
  }

  lemma OneFloor(p: Place, s: Rect, descending: bool)
    ensures Floor in PushOut(p, s, descending).flags <==>
      || Floor in p.flags
      || (descending && RestsOn(s, p.x, p.y))
      || (Inside(s, p.x, p.y) && NearestFace(s, p.x, p.y) == Floor)
  {
  }

  /** A body that starts outside every solid and does not rise reports a floor exactly if a slide was stopped by one or
      it ends on a top edge strictly between the walls. */
  lemma RestingIsReported(solids: seq<Rect>, oldX: real, oldY: real, x: real, y: real)
    requires Clear(solids, oldX, oldY) && y >= oldY
    ensures var (p, slid) := (Resolve(solids, oldX, oldY, x, y), Slide(Motion(oldX, oldY, x - oldX, y - oldY), solids, 3, {}));
            Floor in p.flags <==>
              Floor in slid.flags || exists k :: 0 <= k < |solids| && RestsOn(solids[k], p.x, p.y)
  {
    var m := Motion(oldX, oldY, x - oldX, y - oldY);
    var slid := Slide(m, solids, 3, {});
    SlideStaysClear(m, solids, 3, {});
    hide Slide, RestsOn, NearestFace, PushOutAll;
    PushOutIsIdle(slid, solids, true);
    FloorIsReportedIff(slid, solids, true);
    forall k | 0 <= k < |solids| ensures FloorAt(slid, solids, true, k) <==> RestsOn(solids[k], slid.x, slid.y) {
      assert forall j :: 0 <= j < k ==> solids[..k][j] == solids[j];
      PushOutIsIdle(slid, solids[..k], true);
      assert !Inside(solids[k], slid.x, slid.y);
    }
  }

  /** The start must be clear: a body that one solid pushes sideways onto the top edge of an earlier one ends resting on
      it unreported. */
  lemma PushedOntoFloorIsNotReported()
    ensures var (ledge, block) := (Rect(0.0, 10.0, 5.0, 8.0), Rect(-10.0, 0.5, 0.0, 10.0));
            && Resolve([ledge, block], -1.0, 5.0, -1.0, 5.0) == Place(0.5, 5.0, {LeftWall})
            && RestsOn(ledge, 0.5, 5.0)
  {
    var (ledge, block) := (Rect(0.0, 10.0, 5.0, 8.0), Rect(-10.0, 0.5, 0.0, 10.0));
    var m, p := Motion(-1.0, 5.0, 0.0, 0.0), Place(-1.0, 5.0, {});
    assert [ledge, block][..1] == [ledge] && [ledge][..0] == [];
    assert ScanAll(m, []) == Nothing;
    assert ScanAll(m, [ledge]) == ScanOne(m, ledge, Nothing) == Nothing;
    assert ScanAll(m, [ledge, block]) == ScanOne(m, block, Nothing) == Nothing;
    assert Slide(m, [ledge, block], 3, {}) == p;
    assert PushOutAll(p, [], true) == p;
    assert PushOutAll(p, [ledge], true) == PushOut(p, ledge, true) == p;
    assert {} + {LeftWall} == {LeftWall};
    assert PushOutAll(p, [ledge, block], true) == PushOut(p, block, true) == Place(0.5, 5.0, {LeftWall});
  }

  // ---------------------------------------------------------------- mirrored

  function MirrorRect(s: Rect): Rect { Rect(-s.right, -s.left, s.top, s.bottom) }

  function MirrorMotion(m: Motion): Motion { Motion(-m.px, m.py, -m.dx, m.dy) }

  function MirrorFace(face: Face): Face {
    match face case Floor => Floor case Ceiling => Ceiling case RightWall => LeftWall case LeftWall => RightWall
  }

  function MirrorFlags(flags: set<Face>): (r: set<Face>)
    ensures forall f: Face :: f in r <==> MirrorFace(f) in flags
  {
    set f: Face | f in {Floor, Ceiling, RightWall, LeftWall} && MirrorFace(f) in flags
  }

  function MirrorPlace(p: Place): Place { Place(-p.x, p.y, MirrorFlags(p.flags)) }

  function MirrorAll(solids: seq<Rect>): (r: seq<Rect>)
    ensures |r| == |solids|
  {
    seq(|solids|, k requires 0 <= k < |solids| => MirrorRect(solids[k]))
  }

  /** The solid of a reflected entity is the reflected solid. */
  lemma ReflectedRect(v: EntityValue, r: EntityRegion, radius: real)
    requires ValidValue(v)
    ensures RectOf(Reflected(v), r, radius) == MirrorRect(RectOf(v, r, radius))
  {
    assert MirrorsX(Reflected(v)) <==> !MirrorsX(v);
  }

  lemma {:induction false} ReflectedRegionSolids(w: World, radius: real, i: nat, n: nat)
    requires forall k :: 0 <= k < |w.slots| && w.slots[k].active ==> ValidValue(w.slots[k].value)
    requires i < |w.slots| && w.slots[i].active && n <= |RegionsAt(w, i)|
    ensures RegionsAt(ReflectedWorld(w), i) == RegionsAt(w, i)
    ensures RegionSolids(ReflectedWorld(w), radius, i, n) == MirrorAll(RegionSolids(w, radius, i, n))
  {
    assert RegionsAt(ReflectedWorld(w), i) == RegionsAt(w, i);
    assert ReflectedWorld(w).slots[i].value == Reflected(w.slots[i].value);
    hide RectOf, RegionsAt, Reflected, ValidValue, ReflectedWorld;
    if n > 0 {
      ReflectedRegionSolids(w, radius, i, n - 1);
      ReflectedRect(w.slots[i].value, RegionsAt(w, i)[n - 1], radius);
    }
  }

  lemma {:induction false} ReflectedSolidsUpTo(w: World, radius: real, n: nat)
    requires forall k :: 0 <= k < |w.slots| && w.slots[k].active ==> ValidValue(w.slots[k].value)
    requires n <= |w.slots|
    ensures |ReflectedWorld(w).slots| == |w.slots|
    ensures SolidsUpTo(ReflectedWorld(w), radius, n) == MirrorAll(SolidsUpTo(w, radius, n))
  {
    hide RegionSolids, RegionsAt, ValidValue, Reflected;
    if n > 0 {
      assert ReflectedWorld(w).slots[n - 1].active == w.slots[n - 1].active;
      ReflectedSolidsUpTo(w, radius, n - 1);
      if w.slots[n - 1].active { ReflectedRegionSolids(w, radius, n - 1, |RegionsAt(w, n - 1)|); }
    }
  }

  lemma MirroredMeeting(m: Motion, s: Rect)
    ensures Meets(MirrorMotion(m), MirrorRect(s)) <==> Meets(m, s)
    ensures Enter(MirrorMotion(m), MirrorRect(s)) == Enter(m, s)
    ensures Meets(m, s) ==> FaceOf(MirrorMotion(m), MirrorRect(s)) == MirrorFace(FaceOf(m, s))
  {
    MirroredTimes(m.px, m.dx, s.left, s.right);
    assert EnterTime(m.px, m.dx, s.left, s.right) > EnterTime(m.py, m.dy, s.top, s.bottom) && Meets(m, s) ==> m.dx != 0.0;
  }

  function MirrorScan(scan: Scan): Scan {
    match scan case Nothing => Nothing case Struck(t, face) => Struck(t, MirrorFace(face))
  }

  lemma {:induction false} MirroredScan(m: Motion, solids: seq<Rect>)
    ensures ScanAll(MirrorMotion(m), MirrorAll(solids)) == MirrorScan(ScanAll(m, solids))
  {
    hide Meets, Enter, FaceOf;
    if solids != [] {
      var front := solids[..|solids| - 1];
      assert MirrorAll(solids)[..|solids| - 1] == MirrorAll(front);
      MirroredScan(m, front);
      MirroredMeeting(m, solids[|solids| - 1]);
      hide MirrorMotion, MirrorRect, MirrorFace;
    }
  }

  lemma MirroredSlid(m: Motion, t: real, face: Face)
    ensures Slid(MirrorMotion(m), t, MirrorFace(face)) == MirrorMotion(Slid(m, t, face))
  {
    assert (-m.dx) * t == -(m.dx * t) && (-m.dx) * (1.0 - t) == -(m.dx * (1.0 - t));
  }

  lemma MirroredFlag(flags: set<Face>, face: Face)
    ensures MirrorFlags(flags + {face}) == MirrorFlags(flags) + {MirrorFace(face)}
  {
    forall f: Face ensures f in MirrorFlags(flags + {face}) <==> f in MirrorFlags(flags) + {MirrorFace(face)} {
      assert MirrorFace(MirrorFace(f)) == f;
    }
  }

  lemma {:induction false} MirroredSlide(m: Motion, solids: seq<Rect>, n: nat, flags: set<Face>)
    ensures Slide(MirrorMotion(m), MirrorAll(solids), n, MirrorFlags(flags)) == MirrorPlace(Slide(m, solids, n, flags))
    decreases n
  {
    if n > 0 {
      MirroredScan(m, solids);
      hide ScanAll, MirrorAll, MirrorFlags, Slid;
      match ScanAll(m, solids) {
        case Nothing =>
        case Struck(t, face) =>
          MirroredSlid(m, t, face);
          MirroredFlag(flags, face);
          MirroredSlide(Slid(m, t, face), solids, n - 1, flags + {face});
      }
    }
  }

  /** A body inside s, nearer to its two walls, and equally near, than to floor and ceiling. */
  predicate BetweenWalls(s: Rect, x: real, y: real) {
    Inside(s, x, y) && x - s.left == s.right - x && x - s.left < y - s.top && x - s.left < s.bottom - y
  }

  /** One push mirrors exactly unless the body is halfway between the walls, where it goes out by the same wall. */
  lemma MirroredPush(p: Place, s: Rect, descending: bool)
    ensures PushOut(MirrorPlace(p), MirrorRect(s), descending) == MirrorPlace(PushOut(p, s, descending))
       <==> !BetweenWalls(s, p.x, p.y)
  {
    MirroredFlag(p.flags, Floor);
    MirroredFlag(p.flags, Ceiling);
    MirroredFlag(p.flags, RightWall);
    MirroredFlag(p.flags, LeftWall);
    hide MirrorFlags;
  }

  /** At its turn no solid finds the body halfway between its walls. */
  ghost predicate NeverBetweenWalls(p: Place, solids: seq<Rect>, descending: bool) {
    forall k :: 0 <= k < |solids| ==>
      var q := BeforeSolid(p, solids, descending, k); !BetweenWalls(solids[k], q.x, q.y)
  }

  /** The penetration pass mirrors solid by solid exactly if it never finds the body halfway between two walls. */
  lemma {:induction false} MirroredPass(p: Place, solids: seq<Rect>, descending: bool)
    ensures (forall k :: 0 <= k <= |solids| ==>
               BeforeSolid(MirrorPlace(p), MirrorAll(solids), descending, k) == MirrorPlace(BeforeSolid(p, solids, descending, k)))
       <==> NeverBetweenWalls(p, solids, descending)
  {
    hide PushOut, BetweenWalls, MirrorFlags, MirrorRect;
    forall k | 0 <= k < |solids|
      ensures BeforeSolid(p, solids, descending, k + 1) == PushOut(BeforeSolid(p, solids, descending, k), solids[k], descending)
      ensures BeforeSolid(MirrorPlace(p), MirrorAll(solids), descending, k + 1)
           == PushOut(BeforeSolid(MirrorPlace(p), MirrorAll(solids), descending, k), MirrorRect(solids[k]), descending)
    {
      OnePush(p, solids, descending, k);
      OnePush(MirrorPlace(p), MirrorAll(solids), descending, k);
    }
    if NeverBetweenWalls(p, solids, descending) {
      for k := 0 to |solids| + 1
        invariant forall j :: 0 <= j < k ==>
          BeforeSolid(MirrorPlace(p), MirrorAll(solids), descending, j) == MirrorPlace(BeforeSolid(p, solids, descending, j))
      {
        if k > 0 { MirroredPush(BeforeSolid(p, solids, descending, k - 1), solids[k - 1], descending); }
      }
    } else {
      var k :| 0 <= k < |solids| && var q := BeforeSolid(p, solids, descending, k); BetweenWalls(solids[k], q.x, q.y);
      var mirrored := BeforeSolid(MirrorPlace(p), MirrorAll(solids), descending, k);
      MirroredPush(BeforeSolid(p, solids, descending, k), solids[k], descending);
      if mirrored == MirrorPlace(BeforeSolid(p, solids, descending, k)) {
        assert BeforeSolid(MirrorPlace(p), MirrorAll(solids), descending, k + 1)
            != MirrorPlace(BeforeSolid(p, solids, descending, k + 1));
      }
    }
  }

  lemma OnePush(p: Place, solids: seq<Rect>, descending: bool, k: nat)
    requires k < |solids|
    ensures BeforeSolid(p, solids, descending, k + 1) == PushOut(BeforeSolid(p, solids, descending, k), solids[k], descending)
    ensures BeforeSolid(p, solids, descending, 0) == p
  {
    hide PushOut;
    assert solids[..k + 1][..k] == solids[..k];
  }

  /** The mirrored body in the mirrored world ends in the mirrored place, with left and right contacts exchanged,
      whenever the penetration pass never finds it halfway between two walls: in particular if it starts clear. */
  lemma ReflectionKeepsResult(w: World, radius: real, oldX: real, oldY: real, x: real, y: real)
    requires WellFormed(w)
    requires var slid := Slide(Motion(oldX, oldY, x - oldX, y - oldY), Solids(w, radius), 3, {});
             Clear(Solids(w, radius), oldX, oldY) || NeverBetweenWalls(slid, Solids(w, radius), y >= oldY)
    ensures forall i :: 0 <= i < |w.slots| && w.slots[i].active ==> ValidValue(w.slots[i].value)
    ensures Resolve(Solids(ReflectedWorld(w), radius), -oldX, oldY, -x, y)
         == MirrorPlace(Resolve(Solids(w, radius), oldX, oldY, x, y))
  {
    assert forall i :: 0 <= i < |w.slots| && w.slots[i].active ==> ValidSlot(w.types, w.slots[i]);
    var m, solids := Motion(oldX, oldY, x - oldX, y - oldY), Solids(w, radius);
    var slid := Slide(m, solids, 3, {});
    ReflectedSolidsUpTo(w, radius, |w.slots|);
    assert MirrorMotion(m) == Motion(-oldX, oldY, -x - (-oldX), y - oldY);
    assert MirrorFlags({}) == {};
    MirroredSlide(m, solids, 3, {});
    if Clear(solids, oldX, oldY) {
      SlideStaysClear(m, solids, 3, {});
      ClearIsNeverBetween(slid, solids, y >= oldY);
    }
    MirroredPass(slid, solids, y >= oldY);
    hide WellFormed, Slide, SolidsUpTo, PushOutAll, NeverBetweenWalls, MirrorAll;
    assert MirrorAll(solids)[..|solids|] == MirrorAll(solids) && solids[..|solids|] == solids;
    assert BeforeSolid(slid, solids, y >= oldY, |solids|) == PushOutAll(slid, solids, y >= oldY);
    assert BeforeSolid(MirrorPlace(slid), MirrorAll(solids), y >= oldY, |solids|)
        == PushOutAll(MirrorPlace(slid), MirrorAll(solids), y >= oldY);
  }

  lemma ClearIsNeverBetween(p: Place, solids: seq<Rect>, descending: bool)
    requires Clear(solids, p.x, p.y)
    ensures NeverBetweenWalls(p, solids, descending)
  {
    forall k | 0 <= k < |solids|
      ensures var q := BeforeSolid(p, solids, descending, k); !BetweenWalls(solids[k], q.x, q.y)
    {
      assert forall j :: 0 <= j < k ==> solids[..k][j] == solids[j];
      PushOutIsIdle(p, solids[..k], descending);
      assert !Inside(solids[k], p.x, p.y);
    }
  }

  /** A body spawned halfway between two walls leaves to the left, in the mirror as well. */
  lemma HalfwayIsNotMirrored()
    ensures var s := Rect(-1.0, 1.0, -4.0, 4.0);
            && MirrorRect(s) == s
            && Resolve([s], 0.0, 0.0, 0.0, 0.0) == Place(-1.0, 0.0, {RightWall})
            && MirrorPlace(Place(-1.0, 0.0, {RightWall})).x == 1.0
  {
    var s, m, p := Rect(-1.0, 1.0, -4.0, 4.0), Motion(0.0, 0.0, 0.0, 0.0), Place(0.0, 0.0, {});
    assert [s][..0] == [] && ScanAll(m, []) == Nothing;
    assert ScanAll(m, [s]) == ScanOne(m, s, Nothing) == Nothing;
    assert Slide(m, [s], 3, {}) == p && PushOutAll(p, [], true) == p;
    assert {} + {RightWall} == {RightWall};
    assert PushOutAll(p, [s], true) == PushOut(p, s, true);
  }
}
