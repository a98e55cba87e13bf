/** The pose player: one object that owns the playback clock, the frame index, the trails
    and the previous-frame cache, and runs them once per displayed frame. */
module Player {
  import opened Wrappers
  import opened PoseTypes
  import opened PoseFrameIndex
  import TrailStore
  import opened PrevFrameCache
  import opened ContactDetector
  import opened PlaybackClock

  /** Height of the video coordinate space. */
  const POSE_HEIGHT: real := 480.0

  /** The overlay scales and point sizes that the scale control cycles through. */
  const SCALE_CYCLE: seq<real> := [1.0, 0.75, 0.5, 0.25]
  const POINT_SIZE_CYCLE: seq<int> := [6, 12, 18, 24, 36]

  class PosePlayer {
    var poseMap: PoseMap
    var poseTime: real
    var playing: bool
    var showPose: bool
    var playbackRate: real

    var scaleIndex: int
    var scaleFactor: real
    var pointSizeIndex: int
    var pointSize: int

    /** Set once both the pose file and the video have loaded. */
    var isLoaded: bool

    var trails: TrailStore.Trails
    var showTrails: bool
    var maxTrailLen: int

    var groundY: real
    var showGround: bool
    var contactTolY: real
    var velThresh: real
    var reactScale: real
    var showNormals: bool

    var prevKpts: Cache

    /** The scale and point size always come from their cycles. */
    ghost predicate Valid()
      reads this
    {
      && 0 <= scaleIndex < |SCALE_CYCLE| && scaleFactor == SCALE_CYCLE[scaleIndex]
      && 0 <= pointSizeIndex < |POINT_SIZE_CYCLE| && pointSize == POINT_SIZE_CYCLE[pointSizeIndex]
    }

    /** The ground line and thresholds the contact detector reads. */
    function Config(): GroundConfig
      reads this
    {
      GroundConfig(groundY, contactTolY, velThresh, reactScale)
    }

    /** The persons of the frame the clock is on. */
    function CurrentPersons(): Persons
      reads this
    {
      PersonsAt(poseMap, FrameAt(poseTime))
    }

    constructor ()
      ensures Valid()
      ensures poseMap == map[] && poseTime == 0.0 && !playing && showPose && playbackRate == 1.0
      ensures scaleIndex == 0 && pointSizeIndex == 1 && !isLoaded
      ensures trails == map[] && showTrails && maxTrailLen == 240
      ensures groundY == POSE_HEIGHT * 0.92 && showGround
      ensures contactTolY == 8.0 && velThresh == 0.8 && reactScale == 40.0 && showNormals
      ensures prevKpts == map[]
    {
      poseMap := map[];
      poseTime := 0.0;
      playing := false;
      showPose := true;
      playbackRate := 1.0;
      scaleIndex, scaleFactor := 0, SCALE_CYCLE[0];
      pointSizeIndex, pointSize := 1, POINT_SIZE_CYCLE[1];
      isLoaded := false;
      trails := map[];
      showTrails := true;
      maxTrailLen := 240;
      groundY := POSE_HEIGHT * 0.92;
      showGround := true;
      contactTolY, velThresh, reactScale := 8.0, 0.8, 40.0;
      showNormals := true;
      prevKpts := map[];
    }

    /** Group the records by frame number, appending to the lists already held. */
    method PreparePoseMap(entries: seq<Entry>)
      modifies this`poseMap
      ensures poseMap == Group(old(poseMap), entries)
      ensures poseMap.Keys == old(poseMap).Keys + FrameIds(entries)
      ensures forall f :: PersonsAt(poseMap, f) == PersonsAt(old(poseMap), f) + RecordsFor(entries, f)
    {
      ghost var start := poseMap;
      var i := 0;
      while i < |entries|
        invariant 0 <= i <= |entries|
        invariant poseMap == Group(start, entries[..i])
      {
        var e := entries[i];
        if e.frameId !in poseMap {
          poseMap := poseMap[e.frameId := []];
        }
        poseMap := poseMap[e.frameId := poseMap[e.frameId] + [e.keypoints]];
        assert entries[..i + 1][..i] == entries[..i];
        i := i + 1;
      }
      assert entries[..i] == entries;
      GroupKeys(start, entries);
      forall f ensures PersonsAt(poseMap, f) == PersonsAt(start, f) + RecordsFor(entries, f) {
        GroupAt(start, entries, f);
      }
    }

    /** The largest frame number of the index, or None for an empty index. */
    method LastFrameNum() returns (last: Option<int>)
      ensures last.None? <==> poseMap == map[]
      ensures last.Some? ==> last.value in poseMap && forall k :: k in poseMap ==> k <= last.value
    {
      var keys := poseMap.Keys;
      var rest := keys;
      last := None;
      while rest != {}
        invariant rest <= keys
        invariant last.None? <==> rest == keys
        invariant last.Some? ==> last.value in keys && forall k :: k in keys && k !in rest ==> k <= last.value
        decreases |rest|
      {
        assert exists j :: j in rest by {
          if forall j :: j !in rest {
            assert false;
          }
        }
        var k :| k in rest;
        if last.None? || k > last.value {
          last := Some(k);
        }
        rest := rest - {k};
      }
    }

    method Play()
      modifies this`playing
      ensures playing
    {
      playing := true;
    }

    method Pause()
      modifies this`playing
      ensures !playing
    {
      playing := false;
    }

    /** Stop and rewind; the trails and the cache are kept. */
    method Stop()
      modifies this`playing, this`poseTime
      ensures !playing && poseTime == 0.0
    {
      playing := false;
      poseTime := 0.0;
    }

    /** One clock tick of `deltaMs` milliseconds, then the trail update for the frame reached.
        The video is described by its readiness, its reported duration and position;
        `reseek` says whether the video is moved to the clock because it drifted. */
    method Update(deltaMs: real, videoReady: bool, duration: Option<real>, videoTime: real) returns (reseek: bool)
      modifies this`poseTime, this`playing, this`trails
      ensures !old(isLoaded && playing) ==>
                poseTime == old(poseTime) && playing == old(playing) && trails == old(trails) && !reseek
      ensures old(isLoaded && playing) ==>
                var t := Advance(old(poseTime), deltaMs, playbackRate);
                var ended := Ends(t, VideoEnd(videoReady, duration), poseMap.Keys);
                && poseTime == (if ended then 0.0 else t)
                && playing == !ended
                && reseek == (videoReady && !(EffectiveDuration(duration).Some? && t >= EffectiveDuration(duration).value)
                                         && Abs(videoTime - t) > MAX_DRIFT)
                && trails == TrailStore.UpdateTrails(old(trails), CurrentPersons(), maxTrailLen)
    {
      reseek := false;
      if !isLoaded || !playing {
        return;
      }
      poseTime := Advance(poseTime, deltaMs, playbackRate);
      ghost var t := poseTime;
      if videoReady {
        var dur := EffectiveDuration(duration);
        if dur.Some? && poseTime >= dur.value {
          poseTime := dur.value;
          Stop();
        } else if Abs(videoTime - poseTime) > MAX_DRIFT {
          reseek := true;
        }
      }
      var last := LastFrameNum();
      if last.Some? {
        PastAllFramesIffLast(poseMap.Keys, last.value, poseTime);
        PastAllFramesIffLast(poseMap.Keys, last.value, t);
      }
      if last.None? || poseTime >= last.value as real / FPS {
        Stop();
      }
      UpdateTrails();
    }

    /** Push the present keypoints of the current frame onto their trails. */
    method UpdateTrails()
      modifies this`trails
      ensures trails == TrailStore.UpdateTrails(old(trails), CurrentPersons(), maxTrailLen)
    {
      var persons := PersonsAt(poseMap, FrameAt(poseTime));
      var cap := maxTrailLen;
      var all := trails;
      ghost var start := all;
      var pi := 0;
      assert persons[..0] == [];
      while pi < |persons|
        invariant 0 <= pi <= |persons|
        invariant all == TrailStore.UpdateTrails(start, persons[..pi], cap)
      {
        // a slot seen for the first time starts with no trails
        var row := TrailStore.RowOf(all, pi);
        row := TrailStore.AppendJoints(row, persons[pi], cap);
        TrailStore.UpdateTrailsStep(start, persons, pi, cap);
        all := all[pi := row];
        pi := pi + 1;
      }
      assert persons[..pi] == persons;
      trails := all;
    }

    /** Remove every trail. */
    method ClearTrails()
      modifies this`trails
      ensures trails == map[]
    {
      trails := map[];
    }

    /** Classify the present ankles of the current frame against the cached previous frame. */
    method FootContacts() returns (annotations: seq<Annotation>)
      ensures annotations == FrameAnnotations(CurrentPersons(), prevKpts, Config())
    {
      var persons := PersonsAt(poseMap, FrameAt(poseTime));
      var g := Config();
      annotations := [];
      for pi := 0 to |persons|
        invariant annotations == FrameAnnotations(persons[..pi], prevKpts, g)
      {
        var kpts := persons[pi];
        for j := 0 to |ANKLES|
          invariant annotations == FrameAnnotations(persons[..pi], prevKpts, g) + JointAnnotations(pi, kpts, ANKLES[..j], prevKpts, g)
        {
          var kp := ANKLES[j];
          if 0 <= kp < |kpts| && kpts[kp].Some? {
            var p := kpts[kp].value;
            annotations := annotations + [Annotation(pi, kp, p, Classify(p, PrevOf(prevKpts, pi, kp), g))];
          }
          assert ANKLES[..j + 1][..j] == ANKLES[..j];
        }
        assert ANKLES[..|ANKLES|] == ANKLES;
        assert persons[..pi + 1][..pi] == persons[..pi];
      }
      assert persons[..|persons|] == persons;
    }

    /** Replace the cache with the present keypoints of the current frame. */
    method SavePrevKpts()
      modifies this`prevKpts
      ensures prevKpts == Snapshot(CurrentPersons())
    {
      var persons := PersonsAt(poseMap, FrameAt(poseTime));
      var copy: Cache := map[];
      var pi := 0;
      while pi < |persons|
        invariant 0 <= pi <= |persons|
        invariant copy == Snapshot(persons[..pi])
      {
        var kpts := persons[pi];
        var row: map<int, Point> := map[];
        var ki := 0;
        while ki < |kpts|
          invariant 0 <= ki <= |kpts|
          invariant row == PresentJoints(kpts[..ki])
        {
          if kpts[ki].Some? {
            row := row[ki := kpts[ki].value];
          }
          assert kpts[..ki + 1][..ki] == kpts[..ki];
          ki := ki + 1;
        }
        assert kpts[..ki] == kpts;
        copy := copy[pi := row];
        assert persons[..pi + 1][..pi] == persons[..pi];
        pi := pi + 1;
      }
      assert persons[..pi] == persons;
      prevKpts := copy;
    }

    /** The annotation part of drawing a frame: contact detection reads the cache first,
        and only then is the cache overwritten with the frame. */
    method Display() returns (annotations: seq<Annotation>)
      modifies this`prevKpts
      ensures !isLoaded ==> annotations == [] && prevKpts == old(prevKpts)
      ensures isLoaded ==>
                && annotations == (if showNormals then FrameAnnotations(CurrentPersons(), old(prevKpts), Config()) else [])
                && prevKpts == Snapshot(CurrentPersons())
    {
      annotations := [];
      if !isLoaded {
        return;
      }
      if showNormals {
        annotations := FootContacts();
      }
      SavePrevKpts();
    }

    /** Step to the next overlay scale and the next point size. */
    method CycleScale()
      requires Valid()
      modifies this`scaleIndex, this`scaleFactor, this`pointSizeIndex, this`pointSize
      ensures Valid()
      ensures scaleIndex == (old(scaleIndex) + 1) % |SCALE_CYCLE|
      ensures pointSizeIndex == (old(pointSizeIndex) + 1) % |POINT_SIZE_CYCLE|
    {
      scaleIndex := (scaleIndex + 1) % |SCALE_CYCLE|;
      scaleFactor := SCALE_CYCLE[scaleIndex];
      pointSizeIndex := (pointSizeIndex + 1) % |POINT_SIZE_CYCLE|;
      pointSize := POINT_SIZE_CYCLE[pointSizeIndex];
    }

    /** Take the parsed speed entry; an entry that is not a number sets the speed to 1. */
    method SetSpeed(parsed: Option<real>)
      modifies this`playbackRate
      ensures playbackRate == (if parsed.None? then 1.0 else parsed.value)
    {
      playbackRate := if parsed.None? then 1.0 else parsed.value;
    }

    /** 'T' toggles the overlay, 'P' toggles between playing and paused. */
    method HandleKey(k: char)
      modifies this`showPose, this`playing
      ensures showPose == (if k == 'T' then !old(showPose) else old(showPose))
      ensures playing == (if k == 'P' then !old(playing) else old(playing))
    {
      if k == 'T' {
        showPose := !showPose;
      }
      if k == 'P' {
        if playing {
          Pause();
        } else {
          Play();
        }
      }
    }
  }
}
