/** `AnnotatedObject`: one object's bounding boxes throughout the frame
    sequence, kept as a sparse timeline that methods update in place. */
module AnnotatedObjects {
  import opened Wrappers
  import opened Frames
  import opened Timeline

  class AnnotatedObject {
    /** The timeline, in ascending frame order. */
    var frames: seq<AnnotatedFrame>
    /** How many entries `add` has inserted or appended; it is never lowered
        when entries are removed, and the origin entry does not count. */
    var validFrames: nat

    /** The object invariant: the timeline is strictly increasing. */
    ghost predicate Valid()
      reads this
    {
      Sorted(frames)
    }

    constructor ()
      ensures Valid()
      ensures frames == [] && validFrames == 0
    {
      frames := [];
      validFrames := 0;
    }

    /** Records `frame`: the timeline becomes `Added(old(frames), frame)`, the
        counter goes up unless an entry at that frame was overwritten, and a
        timeline that was empty or started at frame 0 starts at frame 0 after
        an entry at a frame of at least 0. */
    method Add(frame: AnnotatedFrame)
      requires Valid()
      modifies this
      ensures Valid()
      ensures frames == Added(old(frames), frame)
      ensures Find(frames, frame.frameNumber) == Some(frame)
      ensures validFrames == old(validFrames) + if Find(old(frames), frame.frameNumber).Some? then 0 else 1
      ensures frame.frameNumber >= 0 && (old(frames) == [] || old(frames)[0].frameNumber == 0) ==>
                Anchored(frames)
    {
      ghost var fs := frames;
      AddedSorted(fs, frame);
      AddedFind(fs, frame);
      if frame.frameNumber >= 0 && (fs == [] || fs[0].frameNumber == 0) {
        AddedAnchored(fs, frame);
      }
      var i := 0;
      while i < |frames|
        invariant 0 <= i <= |frames|
        invariant frames == fs && validFrames == old(validFrames)
        invariant forall j :: 0 <= j < i ==> frames[j].frameNumber < frame.frameNumber
      {
        if frames[i].frameNumber == frame.frameNumber {
          PositionAt(fs, frame.frameNumber, i);
          AddedOverwrites(fs, frame, i);
          frames := frames[i := frame];
          RemoveFramesToBeRecomputedFrom(i + 1);
          return;
        } else if frames[i].frameNumber > frame.frameNumber {
          PositionAt(fs, frame.frameNumber, i);
          AddedInserts(fs, frame, i);
          frames := frames[..i] + [frame] + frames[i..];
          validFrames := validFrames + 1;
          RemoveFramesToBeRecomputedFrom(i + 1);
          InjectInvisibleFrameAtOrigin();
          return;
        }
        i := i + 1;
      }
      PositionAt(fs, frame.frameNumber, i);
      AddedAppends(fs, frame);
      frames := frames + [frame];
      validFrames := validFrames + 1;
      InjectInvisibleFrameAtOrigin();
    }

    /** The entry at exactly `frameNumber`, or `None`: the scan stops early
        once it passes the wanted frame. */
    method Get(frameNumber: int) returns (r: Option<AnnotatedFrame>)
      ensures r == Find(frames, frameNumber)
      ensures r.Some? ==> r.value in frames && r.value.frameNumber == frameNumber
      ensures Valid() ==> (r.None? <==> forall i :: 0 <= i < |frames| ==> frames[i].frameNumber != frameNumber)
    {
      if Valid() {
        FindExact(frames, frameNumber);
      }
      var i := 0;
      while i < |frames|
        invariant 0 <= i <= |frames|
        invariant forall j :: 0 <= j < i ==> frames[j].frameNumber < frameNumber
      {
        var currentFrame := frames[i];
        if currentFrame.frameNumber > frameNumber {
          break;
        }
        if currentFrame.frameNumber == frameNumber {
          PositionAt(frames, frameNumber, i);
          return Some(currentFrame);
        }
        i := i + 1;
      }
      PositionAt(frames, frameNumber, i);
      return None;
    }

    /** Removes the run of entries that are not ground truth starting at
        index `from`, up to the first ground-truth entry. */
    method RemoveFramesToBeRecomputedFrom(from: nat)
      modifies this
      ensures frames == Recomputed(old(frames), from)
      ensures validFrames == old(validFrames)
      ensures old(Valid()) ==> Valid()
    {
      var count := 0;
      var i := from;
      while i < |frames|
        invariant from <= i && (from <= |frames| ==> i <= |frames|)
        invariant count == i - from && (count > 0 ==> i <= |frames|)
        invariant from < |frames| ==> StaleRun(frames[from..]) == count + StaleRun(frames[i..])
      {
        if frames[i].isGroundTruth {
          break;
        }
        assert frames[i..][1..] == frames[i + 1..];
        count := count + 1;
        i := i + 1;
      }
      assert from < |frames| ==> StaleRun(frames[i..]) == 0;
      RecomputedCut(frames, from, count);
      RecomputedSorted(frames, from, Recomputed(frames, from));
      if count > 0 {
        frames := frames[..from] + frames[from + count..];
      }
    }

    /** Puts the invisible, non-ground-truth entry at frame 0 in front when
        the timeline is empty or starts after frame 0. */
    method InjectInvisibleFrameAtOrigin()
      modifies this
      ensures frames == WithOrigin(old(frames))
      ensures validFrames == old(validFrames)
      ensures old(Valid()) ==> Valid()
    {
      if Valid() {
        SortedWithOrigin(frames);
      }
      if |frames| == 0 || frames[0].frameNumber > 0 {
        frames := [AnnotatedFrame(0, None, false)] + frames;
      }
    }
  }
}
