/** The contact detector: per-ankle ground contact and the length of the reaction indicator. */
module ContactDetector {
  import opened Wrappers
  import opened PoseTypes
  import opened PrevFrameCache

  /** The joints examined for contact, in the order they are examined. */
  const ANKLES: seq<int> := [LEFT_ANKLE, RIGHT_ANKLE]

  /** Added to the tolerance in the reaction formula's denominator. */
  const REACTION_EPSILON: real := 0.001

  /** Ground line and thresholds, in video coordinates per frame. */
  datatype GroundConfig = GroundConfig(groundY: real, contactTolY: real, velThresh: real, reactScale: real)

  /** The classification of one present ankle; `reaction` is set only in contact. */
  datatype Contact = Contact(vy: real, nearGround: bool, slowVert: bool, inContact: bool, reaction: Option<real>)

  /** One classified ankle of one person slot. */
  datatype Annotation = Annotation(slot: int, joint: int, at: Point, contact: Contact)

  function Abs(x: real): real
  {
    if x < 0.0 then -x else x
  }

  /** Vertical velocity in pixels per frame, positive downward; zero with no cached point. */
  function VerticalVelocity(p: Point, last: Option<Point>): (vy: real)
    ensures last.None? ==> vy == 0.0
    ensures last.Some? ==> p.y == last.value.y + vy
  {
    match last
    case None => 0.0
    case Some(q) => p.y - q.y
  }

  /** The reaction length at distance `d` from the ground line. */
  function ReactionLength(d: real, g: GroundConfig): (l: real)
    requires 0.0 <= d <= g.contactTolY
    ensures (l - g.reactScale) * (g.contactTolY + REACTION_EPSILON) == g.reactScale * (g.contactTolY - d)
  {
    g.reactScale * (1.0 + (g.contactTolY - d) / (g.contactTolY + REACTION_EPSILON))
  }

  /** Within the tolerance and for a positive scale, the reaction length lies in
      [reactScale, 2 reactScale). */
  lemma ReactionBounds(d: real, g: GroundConfig)
    requires 0.0 <= d <= g.contactTolY
    ensures g.reactScale > 0.0 ==> g.reactScale <= ReactionLength(d, g) < 2.0 * g.reactScale
  {
    if g.reactScale > 0.0 {
      var den := g.contactTolY + REACTION_EPSILON;
      var q := (g.contactTolY - d) / den;
      assert q * den == g.contactTolY - d;
      assert 0.0 <= q < 1.0;
      assert ReactionLength(d, g) == g.reactScale + g.reactScale * q;
      assert g.reactScale * q < g.reactScale;
    }
  }

  /** The reaction length does not grow as the ankle moves away from the ground line. */
  lemma ReactionMonotone(d1: real, d2: real, g: GroundConfig)
    requires 0.0 <= d1 <= d2 <= g.contactTolY && g.reactScale >= 0.0
    ensures ReactionLength(d2, g) <= ReactionLength(d1, g)
  {
    var den := g.contactTolY + REACTION_EPSILON;
    var q1, q2 := (g.contactTolY - d1) / den, (g.contactTolY - d2) / den;
    assert q1 * den == g.contactTolY - d1 && q2 * den == g.contactTolY - d2;
    assert (q1 - q2) * den == d2 - d1;
    assert q2 <= q1;
    assert g.reactScale * q2 <= g.reactScale * q1;
  }

  /** At the edge of the tolerance the reaction length is exactly the scale. */
  lemma ReactionAtTolerance(g: GroundConfig)
    requires g.contactTolY >= 0.0
    ensures ReactionLength(g.contactTolY, g) == g.reactScale
  {
  }

  /** Classify a present ankle at `p` against its cached previous position `last`. */
  function Classify(p: Point, last: Option<Point>, g: GroundConfig): (c: Contact)
    ensures c.vy == VerticalVelocity(p, last)
    ensures c.nearGround == (Abs(p.y - g.groundY) <= g.contactTolY)
    ensures c.slowVert == (Abs(c.vy) <= g.velThresh)
    ensures c.inContact <==> c.nearGround && c.slowVert
    ensures c.inContact ==> c.reaction == Some(ReactionLength(Abs(p.y - g.groundY), g))
    ensures c.reaction.Some? <==> c.inContact
    ensures c.reaction.Some? && g.reactScale > 0.0 ==> g.reactScale <= c.reaction.value < 2.0 * g.reactScale
  {
    var vy := VerticalVelocity(p, last);
    var d := Abs(p.y - g.groundY);
    var nearGround := d <= g.contactTolY;
    var slowVert := Abs(vy) <= g.velThresh;
    var inContact := nearGround && slowVert;
    if inContact then
      ReactionBounds(d, g);
      Contact(vy, nearGround, slowVert, inContact, Some(ReactionLength(d, g)))
    else
      Contact(vy, nearGround, slowVert, inContact, None)
  }

  /** With nothing cached the velocity test passes, so contact is decided by distance alone. */
  lemma NoHistoryMeansDistanceOnly(p: Point, g: GroundConfig)
    requires g.velThresh >= 0.0
    ensures Classify(p, None, g).inContact <==> Abs(p.y - g.groundY) <= g.contactTolY
  {
  }

  /** The annotations of the ankles `joints` of one person slot, in that order. */
  function JointAnnotations(slot: int, kpts: Keypoints, joints: seq<int>, prev: Cache, g: GroundConfig): seq<Annotation>
  {
    if joints == [] then []
    else
      var rest := JointAnnotations(slot, kpts, joints[..|joints| - 1], prev, g);
      var kp := joints[|joints| - 1];
      if 0 <= kp < |kpts| && kpts[kp].Some? then
        rest + [Annotation(slot, kp, kpts[kp].value, Classify(kpts[kp].value, PrevOf(prev, slot, kp), g))]
      else rest
  }

  /** The annotations of a frame, person slot by person slot. */
  function FrameAnnotations(persons: Persons, prev: Cache, g: GroundConfig): seq<Annotation>
  {
    if persons == [] then []
    else
      var n := |persons| - 1;
      FrameAnnotations(persons[..n], prev, g) + JointAnnotations(n, persons[n], ANKLES, prev, g)
  }

  /** The annotation a present ankle receives. */
  ghost predicate Describes(persons: Persons, prev: Cache, g: GroundConfig, a: Annotation)
  {
    && 0 <= a.slot < |persons|
    && a.joint in ANKLES
    && KeypointAt(persons, a.slot, a.joint) == Some(a.at)
    && a.contact == Classify(a.at, PrevOf(prev, a.slot, a.joint), g)
  }

  lemma {:induction false} JointAnnotationsSound(persons: Persons, slot: int, joints: seq<int>, prev: Cache, g: GroundConfig)
    requires 0 <= slot < |persons|
    requires forall j :: j in joints ==> j in ANKLES
    ensures forall a :: a in JointAnnotations(slot, persons[slot], joints, prev, g) ==> Describes(persons, prev, g, a)
  {
    if joints != [] {
      JointAnnotationsSound(persons, slot, joints[..|joints| - 1], prev, g);
    }
  }

  lemma {:induction false} JointAnnotationsComplete(slot: int, kpts: Keypoints, joints: seq<int>, prev: Cache, g: GroundConfig, i: int)
    requires 0 <= i < |joints| && 0 <= joints[i] < |kpts| && kpts[joints[i]].Some?
    ensures var p := kpts[joints[i]].value;
            Annotation(slot, joints[i], p, Classify(p, PrevOf(prev, slot, joints[i]), g))
              in JointAnnotations(slot, kpts, joints, prev, g)
  {
    if i < |joints| - 1 {
      JointAnnotationsComplete(slot, kpts, joints[..|joints| - 1], prev, g, i);
    }
  }

  /** Every annotation is a present ankle of the frame with its classification. */
  lemma {:induction false} FrameAnnotationsSound(persons: Persons, prev: Cache, g: GroundConfig)
    ensures forall a :: a in FrameAnnotations(persons, prev, g) ==> Describes(persons, prev, g, a)
  {
    if persons != [] {
      var n := |persons| - 1;
      FrameAnnotationsSound(persons[..n], prev, g);
      JointAnnotationsSound(persons, n, ANKLES, prev, g);
      forall a | a in FrameAnnotations(persons[..n], prev, g) ensures Describes(persons, prev, g, a) {
        assert Describes(persons[..n], prev, g, a);
        assert persons[..n][a.slot] == persons[a.slot];
      }
    }
  }

  /** Every present ankle of the frame is annotated; an absent one never is. */
  lemma {:induction false} FrameAnnotationsComplete(persons: Persons, prev: Cache, g: GroundConfig, slot: int, joint: int, p: Point)
    requires 0 <= slot < |persons| && joint in ANKLES && KeypointAt(persons, slot, joint) == Some(p)
    ensures Annotation(slot, joint, p, Classify(p, PrevOf(prev, slot, joint), g)) in FrameAnnotations(persons, prev, g)
  {
    var n := |persons| - 1;
    if slot == n {
      var i := if joint == ANKLES[0] then 0 else 1;
      JointAnnotationsComplete(slot, persons[n], ANKLES, prev, g, i);
    } else {
      assert persons[..n][slot] == persons[slot];
      FrameAnnotationsComplete(persons[..n], prev, g, slot, joint, p);
    }
  }

  /** Why the cache must be read before it is overwritten: classified against the
      snapshot of its own frame, every ankle gets vertical velocity zero. */
  lemma StaleCacheZeroVelocity(persons: Persons, g: GroundConfig)
    ensures forall a :: a in FrameAnnotations(persons, Snapshot(persons), g) ==> a.contact.vy == 0.0
  {
    FrameAnnotationsSound(persons, Snapshot(persons), g);
    forall a | a in FrameAnnotations(persons, Snapshot(persons), g) ensures a.contact.vy == 0.0 {
      SnapshotExact(persons, a.slot, a.joint);
    }
  }

  /** Ground at 400, tolerance 8, velocity threshold 0.8: a still ankle 2 px below the line
      is in contact, one 20 px above it is not. */
  lemma ContactExample(last: Option<Point>, x: real)
    ensures var g := GroundConfig(400.0, 8.0, 0.8, 40.0);
            Classify(Point(x, 402.0), Some(Point(x, 402.0)), g).inContact &&
            !Classify(Point(x, 380.0), last, g).inContact
  {
  }
}
