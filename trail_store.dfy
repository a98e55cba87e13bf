/** The trail store: a bounded, oldest-first history of positions per (person slot, joint). */
module TrailStore {
  import opened Wrappers
  import opened PoseTypes

  type Trail = seq<Point>

  /** The trails of one person slot, by joint index. */
  type PersonTrails = map<int, Trail>

  /** All trails, by person slot. */
  type Trails = map<int, PersonTrails>

  /** The trails kept for a person slot; a slot never seen has none. */
  function RowOf(trails: Trails, slot: int): PersonTrails
  {
    if slot in trails then trails[slot] else map[]
  }

  /** The trail kept for a joint; a joint never seen has the empty trail. */
  function TrailAt(row: PersonTrails, joint: int): Trail
  {
    if joint in row then row[joint] else []
  }

  /** Append `p`, then drop the oldest element if the trail has grown past `maxLen`. */
  function Push(trail: Trail, p: Point, maxLen: int): (r: Trail)
    ensures |r| == if |trail| < maxLen then |trail| + 1 else |trail|
    ensures |trail| <= maxLen ==> |r| <= maxLen
  {
    var grown := trail + [p];
    if |grown| > maxLen then grown[1..] else grown
  }

  /** The pushed point is the newest element, and what precedes it is the old trail with at
      most its single oldest element removed, in the same order. */
  lemma PushEffect(trail: Trail, p: Point, maxLen: int)
    ensures var r := Push(trail, p, maxLen);
            |r| > 0 ==> r[|r| - 1] == p && r[..|r| - 1] == trail[|trail| - (|r| - 1)..]
    ensures var r := Push(trail, p, maxLen);
            |r| > 0 ==> |trail| - (|r| - 1) <= 1
  {
  }

  /** The newest `n` elements of `s` (all of them when there are at most `n`). */
  function Newest(s: Trail, n: nat): (r: Trail)
    ensures |r| == if |s| <= n then |s| else n
  {
    if |s| <= n then s else s[|s| - n..]
  }

  /** Appending the points of `ps` one after another, as successive frames do. */
  function PushAll(trail: Trail, ps: seq<Point>, maxLen: int): Trail
    decreases ps
  {
    if ps == [] then trail else PushAll(Push(trail, ps[0], maxLen), ps[1..], maxLen)
  }

  lemma NewestOfNewest(s: Trail, u: Trail, n: nat)
    ensures Newest(Newest(s, n) + u, n) == Newest(s + u, n)
  {
    if |s| > n {
      var k := |s| - n;
      var m, su := s[k..], s + u;
      assert Newest(s, n) == m;
      assert m + u == su[k..];
      if u == [] {
        assert su == s;
      } else {
        var j := |u|;
        assert Newest(m + u, n) == su[k..][j..];
        assert su[k..][j..] == su[k + j..];
        assert Newest(su, n) == su[k + j..];
      }
    }
  }

  lemma PushIsNewest(trail: Trail, p: Point, maxLen: nat)
    requires |trail| <= maxLen
    ensures Push(trail, p, maxLen) == Newest(trail + [p], maxLen)
  {
  }

  /** FIFO cap: a trail that starts within the cap keeps exactly the newest `maxLen`
      positions, oldest first, however many are appended. */
  lemma {:induction false} PushAllKeepsNewest(trail: Trail, ps: seq<Point>, maxLen: nat)
    requires |trail| <= maxLen
    ensures PushAll(trail, ps, maxLen) == Newest(trail + ps, maxLen)
    decreases ps
  {
    if ps == [] {
      assert trail + ps == trail;
    } else {
      var p, rest := ps[0], ps[1..];
      var grown := trail + [p];
      var next := Push(trail, p, maxLen);
      PushIsNewest(trail, p, maxLen);
      assert next == Newest(grown, maxLen);
      PushAllKeepsNewest(next, rest, maxLen);
      NewestOfNewest(grown, rest, maxLen);
      assert grown + rest == trail + ps by {
        assert ps == [p] + rest;
      }
    }
  }

  /** A lowered cap shrinks an over-long trail by at most one element per append. */
  lemma OverLongShrinksSlowly(trail: Trail, ps: seq<Point>, maxLen: nat)
    requires |trail| > maxLen
    ensures |PushAll(trail, ps, maxLen)| == |trail|
    decreases ps
  {
    if ps != [] {
      OverLongShrinksSlowly(Push(trail, ps[0], maxLen), ps[1..], maxLen);
    }
  }

  /** One joint of one frame: a present keypoint is pushed, an absent one leaves the trail. */
  function StepJoint(trail: Trail, kp: Option<Point>, maxLen: int): Trail
  {
    match kp
    case None => trail
    case Some(p) => Push(trail, p, maxLen)
  }

  /** One person slot of one frame, joint by joint: each joint index of `kpts` gets an entry
      (empty if new), and a present keypoint is pushed onto it. */
  function UpdateRow(row: PersonTrails, kpts: Keypoints, maxLen: int): PersonTrails
    decreases |kpts|
  {
    if kpts == [] then row
    else
      var n := |kpts| - 1;
      var r := UpdateRow(row, kpts[..n], maxLen);
      r[n := StepJoint(TrailAt(r, n), kpts[n], maxLen)]
  }

  /** The joint-by-joint step the joint loop takes. */
  lemma UpdateRowStep(row: PersonTrails, kpts: Keypoints, ki: int, maxLen: int)
    requires 0 <= ki < |kpts|
    ensures var r := UpdateRow(row, kpts[..ki], maxLen);
            UpdateRow(row, kpts[..ki + 1], maxLen) == r[ki := StepJoint(TrailAt(r, ki), kpts[ki], maxLen)]
  {
    assert kpts[..ki + 1][..ki] == kpts[..ki];
  }

  /** The joint loop of the trail update, over one person slot's trails. */
  method AppendJoints(start: PersonTrails, kpts: Keypoints, maxLen: int) returns (row: PersonTrails)
    ensures row == UpdateRow(start, kpts, maxLen)
  {
    row := start;
    var ki := 0;
    assert kpts[..0] == [];
    while ki < |kpts|
      invariant 0 <= ki <= |kpts|
      invariant row == UpdateRow(start, kpts[..ki], maxLen)
    {
      ghost var before := row;
      if ki !in row {
        row := row[ki := []];
      }
      if kpts[ki].Some? {
        row := row[ki := Push(row[ki], kpts[ki].value, maxLen)];
      }
      assert row == before[ki := StepJoint(TrailAt(before, ki), kpts[ki], maxLen)];
      UpdateRowStep(start, kpts, ki, maxLen);
      ki := ki + 1;
    }
    assert kpts[..ki] == kpts;
  }

  /** One frame, person slot by person slot: each slot gets an entry (empty if new). */
  function UpdateTrails(trails: Trails, persons: Persons, maxLen: int): Trails
    decreases |persons|
  {
    if persons == [] then trails
    else
      var n := |persons| - 1;
      var t := UpdateTrails(trails, persons[..n], maxLen);
      t[n := UpdateRow(RowOf(t, n), persons[n], maxLen)]
  }

  /** What one person slot's update does to each joint entry. */
  lemma {:induction false} UpdateRowAt(row: PersonTrails, kpts: Keypoints, maxLen: int, ki: int)
    ensures var r := UpdateRow(row, kpts, maxLen);
            (ki in r <==> ki in row || 0 <= ki < |kpts|) &&
            (0 <= ki < |kpts| ==> r[ki] == StepJoint(TrailAt(row, ki), kpts[ki], maxLen)) &&
            (ki in row && !(0 <= ki < |kpts|) ==> r[ki] == row[ki])
    decreases |kpts|
  {
    if kpts != [] {
      var n := |kpts| - 1;
      UpdateRowAt(row, kpts[..n], maxLen, ki);
      UpdateRowAt(row, kpts[..n], maxLen, n);
      if 0 <= ki < n {
        assert kpts[..n][ki] == kpts[ki];
      }
    }
  }

  /** The slot-by-slot step the update loop takes. */
  lemma UpdateTrailsStep(trails: Trails, persons: Persons, pi: int, maxLen: int)
    requires 0 <= pi < |persons|
    ensures var t := UpdateTrails(trails, persons[..pi], maxLen);
            UpdateTrails(trails, persons[..pi + 1], maxLen) == t[pi := UpdateRow(RowOf(t, pi), persons[pi], maxLen)]
  {
    assert persons[..pi + 1][..pi] == persons[..pi];
  }

  /** What a frame update does to each person slot entry. */
  lemma {:induction false} UpdateTrailsAt(trails: Trails, persons: Persons, maxLen: int, pi: int)
    ensures var r := UpdateTrails(trails, persons, maxLen);
            (pi in r <==> pi in trails || 0 <= pi < |persons|) &&
            (0 <= pi < |persons| ==> r[pi] == UpdateRow(RowOf(trails, pi), persons[pi], maxLen)) &&
            (pi in trails && !(0 <= pi < |persons|) ==> r[pi] == trails[pi])
    decreases |persons|
  {
    if persons != [] {
      var n := |persons| - 1;
      UpdateTrailsAt(trails, persons[..n], maxLen, pi);
      UpdateTrailsAt(trails, persons[..n], maxLen, n);
      if 0 <= pi < n {
        assert persons[..n][pi] == persons[pi];
      }
    }
  }

  /** Every trail is within the cap. */
  ghost predicate Bounded(trails: Trails, maxLen: int)
  {
    forall pi, ki :: pi in trails && ki in trails[pi] ==> |trails[pi][ki]| <= maxLen
  }

  /** A present keypoint becomes the newest element of its trail. */
  lemma UpdatePushesPresent(trails: Trails, persons: Persons, maxLen: int, pi: int, ki: int, p: Point)
    requires 0 <= pi < |persons| && 0 <= ki < |persons[pi]| && persons[pi][ki] == Some(p)
    ensures var r := UpdateTrails(trails, persons, maxLen);
            pi in r && ki in r[pi] && r[pi][ki] == Push(TrailAt(RowOf(trails, pi), ki), p, maxLen)
  {
    UpdateTrailsAt(trails, persons, maxLen, pi);
    UpdateRowAt(RowOf(trails, pi), persons[pi], maxLen, ki);
  }

  /** An absent keypoint only makes sure its (empty or existing) trail entry exists. */
  lemma UpdateKeepsAbsent(trails: Trails, persons: Persons, maxLen: int, pi: int, ki: int)
    requires 0 <= pi < |persons| && 0 <= ki < |persons[pi]| && persons[pi][ki] == None
    ensures var r := UpdateTrails(trails, persons, maxLen);
            pi in r && ki in r[pi] && r[pi][ki] == TrailAt(RowOf(trails, pi), ki)
  {
    UpdateTrailsAt(trails, persons, maxLen, pi);
    UpdateRowAt(RowOf(trails, pi), persons[pi], maxLen, ki);
  }

  /** Trails outside the frame's persons and joints are untouched, and no entry is dropped. */
  lemma UpdateLeavesOthers(trails: Trails, persons: Persons, maxLen: int, pi: int, ki: int)
    requires pi in trails && ki in trails[pi]
    requires !(0 <= pi < |persons| && 0 <= ki < |persons[pi]|)
    ensures var r := UpdateTrails(trails, persons, maxLen);
            pi in r && ki in r[pi] && r[pi][ki] == trails[pi][ki]
  {
    UpdateTrailsAt(trails, persons, maxLen, pi);
    if 0 <= pi < |persons| {
      UpdateRowAt(RowOf(trails, pi), persons[pi], maxLen, ki);
    }
  }

  /** The cap is an invariant of a frame update. */
  lemma UpdateKeepsBounded(trails: Trails, persons: Persons, maxLen: int)
    requires 0 <= maxLen && Bounded(trails, maxLen)
    ensures Bounded(UpdateTrails(trails, persons, maxLen), maxLen)
  {
    var r := UpdateTrails(trails, persons, maxLen);
    forall pi, ki | pi in r && ki in r[pi] ensures |r[pi][ki]| <= maxLen {
      UpdateTrailsAt(trails, persons, maxLen, pi);
      if 0 <= pi < |persons| {
        UpdateRowAt(RowOf(trails, pi), persons[pi], maxLen, ki);
        if pi in trails && ki in trails[pi] {
          assert TrailAt(RowOf(trails, pi), ki) == trails[pi][ki];
        } else {
          assert TrailAt(RowOf(trails, pi), ki) == [];
        }
      }
    }
  }
}
