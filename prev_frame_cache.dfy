/** The previous-frame cache: the present keypoints of the last displayed frame. */
module PrevFrameCache {
  import opened Wrappers
  import opened PoseTypes

  /** person slot -> joint index -> position. */
  type Cache = map<int, map<int, Point>>

  /** The cached position of a joint, absent when the slot or the joint was not cached. */
  function PrevOf(cache: Cache, slot: int, joint: int): Option<Point>
  {
    if slot in cache && joint in cache[slot] then Some(cache[slot][joint]) else None
  }

  /** The keypoint of `joint` in slot `slot` of a frame, absent outside the frame. */
  function KeypointAt(persons: Persons, slot: int, joint: int): Option<Point>
  {
    if 0 <= slot < |persons| && 0 <= joint < |persons[slot]| then persons[slot][joint] else None
  }

  /** The present joints of one person, collected joint by joint. */
  function PresentJoints(kpts: Keypoints): map<int, Point>
    decreases |kpts|
  {
    if kpts == [] then map[]
    else
      var n := |kpts| - 1;
      var m := PresentJoints(kpts[..n]);
      if kpts[n].Some? then m[n := kpts[n].value] else m
  }

  /** The snapshot of a frame: one (possibly empty) entry per person slot. */
  function Snapshot(persons: Persons): Cache
    decreases |persons|
  {
    if persons == [] then map[]
    else
      var n := |persons| - 1;
      Snapshot(persons[..n])[n := PresentJoints(persons[n])]
  }

  lemma {:induction false} PresentJointsExact(kpts: Keypoints, ki: int)
    ensures ki in PresentJoints(kpts) <==> 0 <= ki < |kpts| && kpts[ki].Some?
    ensures ki in PresentJoints(kpts) ==> PresentJoints(kpts)[ki] == kpts[ki].value
    decreases |kpts|
  {
    if kpts != [] {
      var n := |kpts| - 1;
      PresentJointsExact(kpts[..n], ki);
      if 0 <= ki < n {
        assert kpts[..n][ki] == kpts[ki];
      }
    }
  }

  /** A snapshot holds exactly the present keypoints of its frame and nothing else. */
  lemma {:induction false} SnapshotExact(persons: Persons, slot: int, joint: int)
    ensures PrevOf(Snapshot(persons), slot, joint) == KeypointAt(persons, slot, joint)
    decreases |persons|
  {
    if persons != [] {
      var n := |persons| - 1;
      if slot == n {
        PresentJointsExact(persons[n], joint);
      } else {
        SnapshotExact(persons[..n], slot, joint);
        if 0 <= slot < n {
          assert persons[..n][slot] == persons[slot];
        }
      }
    }
  }

  /** Every person slot of the frame gets an entry, even one with no present joint. */
  lemma {:induction false} SnapshotSlots(persons: Persons)
    ensures Snapshot(persons).Keys == Slots(|persons|)
    decreases |persons|
  {
    if persons != [] {
      SnapshotSlots(persons[..|persons| - 1]);
    }
  }
}
