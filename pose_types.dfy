/** Values shared by every part of the pose player: keypoints, pose records and the frame clock. */
module PoseTypes {
  import opened Wrappers

  /** Sampling rate of the pose data and of the sketch, in frames per second. */
  const FPS: real := 30.0

  /** Joint indices of the left and right ankle. */
  const LEFT_ANKLE: int := 15
  const RIGHT_ANKLE: int := 16

  /** A position in video coordinates (640 x 480). */
  datatype Point = Point(x: real, y: real)

  /** One person's joints, indexed by joint number; `None` is an undetected joint. */
  type Keypoints = seq<Option<Point>>

  /** The persons of one frame, in arrival order (the slot index carries no identity). */
  type Persons = seq<Keypoints>

  /** One record of the pose file. */
  datatype Entry = Entry(frameId: int, keypoints: Keypoints)

  /** The frame shown at playback time `t`: floor(t * fps). */
  function FrameAt(t: real): (f: int)
    ensures f as real <= t * FPS < f as real + 1.0
  {
    (t * FPS).Floor
  }

  /** The slots 0 .. n-1. */
  function Slots(n: int): (s: set<int>)
    ensures forall i :: i in s <==> 0 <= i < n
  {
    if n <= 0 then {} else Slots(n - 1) + {n - 1}
  }
}
