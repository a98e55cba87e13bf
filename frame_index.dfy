/** The pose frame index: records grouped by frame number, in arrival order. */
module PoseFrameIndex {
  import opened PoseTypes

  /** The frame index: frame number -> the keypoint lists of that frame. */
  type PoseMap = map<int, Persons>

  /** The persons of `frame`; a frame the index does not hold has no persons. */
  function PersonsAt(poseMap: PoseMap, frame: int): (r: Persons)
    ensures frame !in poseMap ==> r == []
    ensures frame in poseMap ==> r == poseMap[frame]
  {
    if frame in poseMap then poseMap[frame] else []
  }

  /** Reference definition: the keypoint lists of the records for `frame`, in input order. */
  function RecordsFor(entries: seq<Entry>, frame: int): Persons
    decreases |entries|
  {
    if entries == [] then []
    else
      var n := |entries| - 1;
      RecordsFor(entries[..n], frame) + (if entries[n].frameId == frame then [entries[n].keypoints] else [])
  }

  /** The frame numbers the records mention. */
  function FrameIds(entries: seq<Entry>): set<int>
    decreases |entries|
  {
    if entries == [] then {} else FrameIds(entries[..|entries| - 1]) + {entries[|entries| - 1].frameId}
  }

  /** A frame number is mentioned exactly when some record carries it. */
  lemma {:induction false} FrameIdsExact(entries: seq<Entry>, frame: int)
    ensures frame in FrameIds(entries) <==> exists i :: 0 <= i < |entries| && entries[i].frameId == frame
    decreases |entries|
  {
    if entries != [] {
      var n := |entries| - 1;
      FrameIdsExact(entries[..n], frame);
      if exists i :: 0 <= i < n && entries[..n][i].frameId == frame {
        var i :| 0 <= i < n && entries[..n][i].frameId == frame;
        assert entries[i].frameId == frame;
      }
      if exists i :: 0 <= i < |entries| && entries[i].frameId == frame {
        var i :| 0 <= i < |entries| && entries[i].frameId == frame;
        if i < n {
          assert entries[..n][i].frameId == frame;
        }
      }
    }
  }

  /** The index after adding one record: its keypoint list goes to the end of its frame's list. */
  function AddRecord(poseMap: PoseMap, e: Entry): PoseMap
  {
    poseMap[e.frameId := PersonsAt(poseMap, e.frameId) + [e.keypoints]]
  }

  /** The index after adding the records one by one, in input order. */
  function Group(poseMap: PoseMap, entries: seq<Entry>): PoseMap
    decreases |entries|
  {
    if entries == [] then poseMap
    else AddRecord(Group(poseMap, entries[..|entries| - 1]), entries[|entries| - 1])
  }

  /** Grouping adds, under each frame number, exactly that frame's records in input order,
      and creates an entry exactly for the frame numbers the records mention. */
  lemma {:induction false} GroupAt(poseMap: PoseMap, entries: seq<Entry>, frame: int)
    ensures PersonsAt(Group(poseMap, entries), frame) == PersonsAt(poseMap, frame) + RecordsFor(entries, frame)
    decreases |entries|
  {
    if entries == [] {
    } else {
      var n := |entries| - 1;
      var e := entries[n];
      GroupAt(poseMap, entries[..n], frame);
    }
  }

  lemma {:induction false} GroupKeys(poseMap: PoseMap, entries: seq<Entry>)
    ensures Group(poseMap, entries).Keys == poseMap.Keys + FrameIds(entries)
    decreases |entries|
  {
    if entries != [] {
      GroupKeys(poseMap, entries[..|entries| - 1]);
    }
  }

  /** A keypoint list is grouped under `frame` exactly when some record of that frame carries it. */
  lemma {:induction false} RecordsForMembers(entries: seq<Entry>, frame: int, kpts: Keypoints)
    ensures kpts in RecordsFor(entries, frame) <==>
            exists i :: 0 <= i < |entries| && entries[i] == Entry(frame, kpts)
    decreases |entries|
  {
    if entries != [] {
      var n := |entries| - 1;
      var init := entries[..n];
      RecordsForMembers(init, frame, kpts);
      if kpts in RecordsFor(init, frame) {
        var i :| 0 <= i < |init| && init[i] == Entry(frame, kpts);
        assert entries[i] == Entry(frame, kpts);
      }
      if exists i :: 0 <= i < |entries| && entries[i] == Entry(frame, kpts) {
        var i :| 0 <= i < |entries| && entries[i] == Entry(frame, kpts);
        if i < n {
          assert init[i] == Entry(frame, kpts);
        }
      }
    }
  }

  /** A frame gets no persons exactly when no record names it. */
  lemma {:induction false} RecordsForEmpty(entries: seq<Entry>, frame: int)
    ensures RecordsFor(entries, frame) == [] <==> frame !in FrameIds(entries)
    decreases |entries|
  {
    if entries != [] {
      RecordsForEmpty(entries[..|entries| - 1], frame);
    }
  }
}
