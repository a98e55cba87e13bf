# Pose player annotation engine

This project models the engine underneath the `PosePlayer` sketch. `PosePlayer` plays a video
with a pose overlay and runs five parts once per displayed frame:

- **Pose frame index.** Pose records are grouped by frame number: frame -> the keypoint lists
  of that frame, in arrival order. A frame missing from the index has no persons.
- **Playback clock.** The clock advances by `deltaTime/1000 * playbackRate` on each tick. It
  stops and rewinds when it reaches the video duration or the time of the last pose frame.
- **Trail store.** Every (person slot, joint) keeps an oldest-first history of positions,
  capped at `maxTrailLen`. An append past the cap drops the single oldest element.
- **Contact detector.** Each present ankle (joints 15 and 16) is classified. The inputs are
  its distance to the ground line and its vertical velocity against the previous frame. An
  ankle in contact gets a reaction length `L`.
- **Previous-frame cache.** After the contact detector has read the cache, it is replaced by
  the present keypoints of the frame just shown.

The model is split into Dafny modules:

- `PoseTypes`: points, keypoints, records, `floor(t * fps)`.
- `PoseFrameIndex`: grouping.
- `PlaybackClock`: tick arithmetic and the end-of-playback test.
- `TrailStore`: the capped trails.
- `PrevFrameCache`: the snapshot.
- `ContactDetector`: classification and the reaction length.
- `Player`: the class `PosePlayer`. It holds the fields the engine reads and writes: the
  index, the clock, the trails, the cache, the thresholds, the toggles and the scale cycle.
  It has one method per operation. Drawing-only fields (`alpha`, `trailAlpha`,
  `trailWeight`, `trailColors`, `headSize`, the offsets and the drag state) and the handles
  `video`, `speedInput` and `controls` are not part of it.
  Each method's loops are proved against the specification functions of the modules above.

Inputs the object reads from the outside world are method parameters:

- `deltaTime`;
- whether the video is ready;
- its reported duration and current time;
- the parsed speed entry;
- the pressed key.

A keypoint is `Option<Point>`. An undetected joint (`null` in the pose file) is `None`.

## Model

| member | source | states |
|---|---|---|
| PoseTypes.FrameAt | newpuduvioan_.js:267-268 | the frame shown at time t is the integer f with f <= t*30 < f+1 |
| PoseFrameIndex.PersonsAt | newpuduvioan_.js:268-269 | the persons of a frame are the index's list for it, and the empty list for a frame the index does not hold |
| PoseFrameIndex.GroupAt | newpuduvioan_.js:139-146 | after grouping, the list of each frame is its old list followed by exactly the keypoint lists of the records with that frame number, in input order |
| PoseFrameIndex.GroupKeys | newpuduvioan_.js:139-146 | grouping creates an entry for exactly the frame numbers the records mention and keeps the old ones |
| PoseFrameIndex.FrameIdsExact | newpuduvioan_.js:141-143 | a frame number is mentioned exactly when some record carries it |
| PoseFrameIndex.RecordsForMembers | newpuduvioan_.js:141-145 | a keypoint list is grouped under a frame exactly when some record of that frame carries it |
| PoseFrameIndex.RecordsForEmpty | newpuduvioan_.js:139-146 | a frame gets no persons exactly when no record names it |
| TrailStore.Push | newpuduvioan_.js:277-281 | the trail grows by one while under the cap and keeps its length at or over it; a trail within the cap stays within it |
| TrailStore.PushEffect | newpuduvioan_.js:277-281 | the pushed point is the newest element, and what precedes it is the old trail with at most its single oldest element removed, order kept |
| TrailStore.PushIsNewest | newpuduvioan_.js:277-281 | on a trail within the cap, one push keeps exactly the newest maxTrailLen positions |
| TrailStore.PushAllKeepsNewest | newpuduvioan_.js:277-281 | any number of pushes onto a trail within the cap keeps exactly the newest maxTrailLen positions, oldest first |
| TrailStore.OverLongShrinksSlowly | newpuduvioan_.js:279-281 | a trail longer than a lowered cap keeps its length under appends: one shift per push removes only one element |
| TrailStore.AppendJoints | newpuduvioan_.js:271-284 | the joint loop for one person slot computes the slot's reference update |
| TrailStore.UpdateRowAt | newpuduvioan_.js:273-283 | each joint index of the frame gets an entry, built from its old or empty trail; other joints are kept |
| TrailStore.UpdateTrailsAt | newpuduvioan_.js:270-284 | each person slot of the frame gets its updated row; other slots are kept; nothing is removed |
| TrailStore.UpdatePushesPresent | newpuduvioan_.js:275-282 | a present keypoint is pushed onto its (possibly new) trail |
| TrailStore.UpdateKeepsAbsent | newpuduvioan_.js:275-276 | an absent keypoint leaves its trail as it was; only the entry is ensured to exist |
| TrailStore.UpdateLeavesOthers | newpuduvioan_.js:270-284 | trails outside the frame's persons and joints are untouched and kept |
| TrailStore.UpdateKeepsBounded | newpuduvioan_.js:277-281 | if every trail is within the cap before a frame update, every trail is within it after |
| PrevFrameCache.PresentJointsExact | newpuduvioan_.js:441-444 | a person's cache row holds exactly the present joints with their positions |
| PrevFrameCache.SnapshotExact | newpuduvioan_.js:434-447 | the cached position of (slot, joint) is exactly the frame's keypoint there, and absent outside the frame |
| PrevFrameCache.SnapshotSlots | newpuduvioan_.js:439-440 | every person slot of the frame gets an entry, even one with no present joint, and no other slot has one |
| ContactDetector.VerticalVelocity | newpuduvioan_.js:376-378 | vy is the current y minus the cached y, and 0 when nothing is cached |
| ContactDetector.ReactionLength | newpuduvioan_.js:395 | (L - reactScale) * (contactTolY + 0.001) = reactScale * (contactTolY - d) |
| ContactDetector.Classify | newpuduvioan_.js:376-395 | nearGround is abs(y - groundY) <= contactTolY, slowVert is abs(vy) <= velThresh, in contact exactly when both hold; a reaction length exists exactly in contact, equals L at the ankle's distance, and lies in [reactScale, 2 reactScale) for a positive scale |
| ContactDetector.ReactionBounds | newpuduvioan_.js:395 | for 0 <= d <= contactTolY and reactScale > 0, reactScale <= L < 2 reactScale |
| ContactDetector.ReactionMonotone | newpuduvioan_.js:395 | L does not increase as the distance to the ground grows |
| ContactDetector.ReactionAtTolerance | newpuduvioan_.js:395 | at the edge of the tolerance L equals reactScale |
| ContactDetector.NoHistoryMeansDistanceOnly | newpuduvioan_.js:377-384 | with no cached point, contact is decided by the distance to the ground alone |
| ContactDetector.JointAnnotationsSound | newpuduvioan_.js:369-374 | every annotation of one slot is a present examined ankle with its classification |
| ContactDetector.JointAnnotationsComplete | newpuduvioan_.js:369-374 | every present examined ankle of one slot is annotated |
| ContactDetector.FrameAnnotationsSound | newpuduvioan_.js:368-400 | every annotation of a frame is a present ankle 15 or 16 of some slot, classified against the cache |
| ContactDetector.FrameAnnotationsComplete | newpuduvioan_.js:368-400 | every present ankle 15 or 16 of every slot is annotated with its classification |
| ContactDetector.StaleCacheZeroVelocity | newpuduvioan_.js:193-196 | classified against the snapshot of its own frame, every ankle has vy = 0, which is why the cache is overwritten only after detection |
| ContactDetector.ContactExample | newpuduvioan_.js:381-384 | the default thresholds with ground 400: a still ankle at 402 is in contact, one at 380 is not |
| PlaybackClock.Advance | newpuduvioan_.js:151 | the clock moves by deltaTime/1000 * rate, and never backwards for a non-negative tick and rate |
| PlaybackClock.EffectiveDuration | newpuduvioan_.js:155 | there is a duration to stop at exactly when the reported duration is a non-zero number, and it is that number |
| PlaybackClock.PastAllFramesIffLast | newpuduvioan_.js:164-166 | reaching the last frame's time is the same as reaching every frame's time |
| PlaybackClock.NoOverrun | newpuduvioan_.js:151-166 | a tick that keeps playing stays before the video end and before some pose frame |
| PlaybackClock.AdvanceExample | newpuduvioan_.js:151 | 100 ms at double speed from 0 reaches 0.2 s, which shows frame 6 |
| PlaybackClock.VideoEndsFirst | newpuduvioan_.js:154-166 | an 8 s video with frames 0..299 stops in [8 s, 299/30 s) because of the video, while the pose data alone would keep playing |
| Player.PosePlayer.constructor | newpuduvioan_.js:42-101 | the initial state: empty index, trails and cache, clock at 0, paused, not loaded, and the default thresholds |
| Player.PosePlayer.PreparePoseMap | newpuduvioan_.js:139-146 | the index afterwards is the reference grouping of the records; its frames are the old ones plus the records' ones; each frame's list gains its records in input order |
| Player.PosePlayer.LastFrameNum | newpuduvioan_.js:164 | the largest frame number of the index, and none for an empty index |
| Player.PosePlayer.Play | newpuduvioan_.js:539-540 | the player is playing |
| Player.PosePlayer.Pause | newpuduvioan_.js:547-548 | the player is paused |
| Player.PosePlayer.Stop | newpuduvioan_.js:552-559 | playing is false and the clock is 0; trails and cache are kept |
| Player.PosePlayer.Update | newpuduvioan_.js:149-171 | nothing changes unless loaded and playing; otherwise the clock advances by delta*rate; reaching the video end or every frame's time stops and rewinds; the re-seek happens exactly on drift past 0.1 s within the video; the trails get the update of the frame the clock is on afterwards (frame 0 after a stop) |
| Player.PosePlayer.UpdateTrails | newpuduvioan_.js:267-285 | the trails afterwards are the reference frame update of the current frame's persons |
| Player.PosePlayer.ClearTrails | newpuduvioan_.js:522-524 | no person slot has any trail |
| Player.PosePlayer.FootContacts | newpuduvioan_.js:353-400 | the classifications produced are the reference annotations of the current frame against the cache |
| Player.PosePlayer.SavePrevKpts | newpuduvioan_.js:434-447 | the cache becomes the snapshot of the current frame, replacing everything earlier |
| Player.PosePlayer.Display | newpuduvioan_.js:173-197 | when loaded, contact detection reads the old cache and the cache then becomes the current frame's snapshot; when not loaded nothing changes |
| Player.PosePlayer.CycleScale | newpuduvioan_.js:526-531 | both indices step cyclically, and scale and point size stay the cycle's values at those indices |
| Player.PosePlayer.SetSpeed | newpuduvioan_.js:533-536 | the rate becomes the parsed number, or 1 when the entry is not a number |
| Player.PosePlayer.HandleKey | newpuduvioan_.js:562-565 | 'T' toggles the overlay, 'P' toggles playing, other keys change nothing |

## Left out

- Drawing is left out: the video image, the pose overlay, the trail curves with alpha fade,
  the ground line, the ankle highlight, the arrows and the loading screen. None of it changes
  the engine's state. The reaction length is returned; the arrow drawn from it is not.
- The calls into the video element are inputs or are left out: readiness, duration, current
  time, `play`, `pause`, `speed` and `time(0)` in `play`, `pause`, `stop` and `setSpeed`.
  The drift re-seek of `update` is returned as the flag `reseek`.
- `loadJSONData`, `loadVideo` and `checkIfLoaded` run asynchronous callbacks. `isLoaded` is a
  plain field that callers set.
- The widgets of `setupControls` and `removeControls` are left out. They only assign fields
  such as `groundY`, `contactTolY` and `maxTrailLen`, which the model reads as they are.
- Mouse dragging is left out, because it depends on the sketch's global mouse position.
- `parseFloat` is not modelled; `SetSpeed` takes its result as `Option<real>`, with `None`
  for NaN. An entry that parses to plus or minus Infinity has no `real` and is not modelled.
- Player.PosePlayer.SetSpeed: the code sets the rate to 1 on a non-numeric entry rather than
  keeping the old rate, and the model follows the code.
- Arithmetic is on mathematical reals and integers, so there is no floating-point rounding.
- An infinite or NaN video duration has no `real`. `None` stands for it, and so does a zero
  duration, because `duration || Infinity` treats 0 as no end.
- The step from the loaded data to the records (`Array.isArray(data) ? data :
  Object.values(data)`) is not modelled. `PreparePoseMap` takes the sequence that `forEach`
  walks. For a pose file that is an object, that sequence is in JavaScript property order
  (integer-like keys ascending first), not file order.
- Frame numbers are integers. A record whose `frame_id` converts to NaN or to a fraction is
  not modelled.
- `Math.max` over an empty key list is `-Infinity`. The model states it as "the clock has
  passed every frame", which holds vacuously when the index is empty, so such a tick stops.
- Player.PosePlayer.UpdateTrails: the inner joint loop is the module method
  `TrailStore.AppendJoints` acting on the slot's row. The class method then stores the row
  back, rather than pushing into the nested objects in place.
- JavaScript object keys are strings. The model uses integer keys, which is what
  `Number(frame_id)` and the loop indices produce.
