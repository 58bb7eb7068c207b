/** `FramesManager` and `AnnotatedObjectsTracker`: the holder of the current
    frame sequence with its reset observers, and the tracker's queries over
    the timelines of all tracked objects. */
module Tracking {
  import opened Wrappers
  import opened Frames
  import opened Timeline
  import opened AnnotatedObjects

  /** A frame sequence; only its frame count is visible to the model. */
  datatype FrameSource = FrameSource(totalFrames: nat)

  /** What `startFrame` throws. */
  datatype TrackerError = CorruptedObjectAnnotations

  /** One element of the list `getFrameWithObjects` builds: an object and
      its entry at the requested frame. */
  datatype ObjectFrame = ObjectFrame(annotatedObject: AnnotatedObject, annotatedFrame: AnnotatedFrame)

  /** Every object's `get(f)` is non-null. */
  ghost predicate AllHaveData(objs: seq<AnnotatedObject>, f: int)
    reads objs
  {
    forall i :: 0 <= i < |objs| ==> Find(objs[i].frames, f).Some?
  }

  /** The objects that have an entry at frame `n`, in tracker order, each
      paired with that entry. */
  ghost function Joined(objs: seq<AnnotatedObject>, n: int): (r: seq<ObjectFrame>)
    reads objs
    ensures |r| <= |objs|
    ensures forall k :: 0 <= k < |r| ==>
              r[k].annotatedObject in objs &&
              Find(r[k].annotatedObject.frames, n) == Some(r[k].annotatedFrame) &&
              r[k].annotatedFrame.frameNumber == n
  {
    if objs == [] then []
    else
      var init := Joined(objs[..|objs| - 1], n);
      var last := objs[|objs| - 1];
      match Find(last.frames, n)
      case None => init
      case Some(e) => init + [ObjectFrame(last, e)]
  }

  /** Every timeline that starts at frame 0 has data at frame 0. */
  lemma AnchoredHaveData(objs: seq<AnnotatedObject>)
    requires forall i :: 0 <= i < |objs| ==> Anchored(objs[i].frames)
    ensures AllHaveData(objs, 0)
  {
    forall i | 0 <= i < |objs| ensures Find(objs[i].frames, 0).Some? {
      PositionAt(objs[i].frames, 0, 0);
    }
  }

  /** Two timelines with entries at frames 0, 1, 2, 5 and 0, 1, 3, 5: every
      object has data at 5 and at 1, and some object lacks data at 2, 3 and
      4. So by `StartFrame`'s contract `startFrame(5)` returns 5 and
      `startFrame(2)` returns 1. */
  lemma StartFrameExample(a: AnnotatedObject, b: AnnotatedObject)
    requires a.frames == [AnnotatedFrame(0, None, true), AnnotatedFrame(1, None, true),
                          AnnotatedFrame(2, None, true), AnnotatedFrame(5, None, true)]
    requires b.frames == [AnnotatedFrame(0, None, true), AnnotatedFrame(1, None, true),
                          AnnotatedFrame(3, None, true), AnnotatedFrame(5, None, true)]
    ensures AllHaveData([a, b], 5) && AllHaveData([a, b], 1)
    ensures !AllHaveData([a, b], 4) && !AllHaveData([a, b], 3) && !AllHaveData([a, b], 2)
  {
    PositionAt(a.frames, 5, 3);
    PositionAt(b.frames, 5, 3);
    PositionAt(a.frames, 1, 1);
    PositionAt(b.frames, 1, 1);
    PositionAt(a.frames, 4, 3);
    PositionAt(a.frames, 3, 3);
    PositionAt(b.frames, 2, 2);
    assert Find([a, b][0].frames, 4).None?;
    assert Find([a, b][0].frames, 3).None?;
    assert Find([a, b][1].frames, 2).None?;
  }

  /** The list built for a prefix of the objects is a prefix of the list
      built for all of them. */
  lemma {:induction false} JoinedPrefix(objs: seq<AnnotatedObject>, n: int, m: nat)
    requires m <= |objs|
    ensures Joined(objs[..m], n) <= Joined(objs, n)
    decreases |objs| - m
  {
    if m < |objs| {
      JoinedPrefix(objs, n, m + 1);
      assert objs[..m + 1][..m] == objs[..m];
    } else {
      assert objs[..m] == objs;
    }
  }

  /** Scanning one more object appends it, with its entry, exactly when it
      has an entry at frame `n`. */
  lemma JoinedStep(objs: seq<AnnotatedObject>, n: int, i: nat)
    requires i < |objs|
    ensures Joined(objs[..i + 1], n) ==
              Joined(objs[..i], n) +
              if Find(objs[i].frames, n).Some? then [ObjectFrame(objs[i], Find(objs[i].frames, n).value)] else []
  {
    assert objs[..i + 1][..i] == objs[..i];
  }

  /** The list for a shorter prefix of the objects is a prefix of the list
      for a longer one. */
  lemma JoinedPrefixes(objs: seq<AnnotatedObject>, n: int, i: nat, j: nat)
    requires i <= j <= |objs|
    ensures Joined(objs[..i], n) <= Joined(objs[..j], n)
  {
    assert objs[..j][..i] == objs[..i];
    JoinedPrefix(objs[..j], n, i);
  }

  /** An object with an entry at frame `n` sits in the list right after the
      pairs of the objects before it. */
  lemma JoinedPosition(objs: seq<AnnotatedObject>, n: int, i: nat)
    requires i < |objs| && Find(objs[i].frames, n).Some?
    ensures |Joined(objs[..i], n)| < |Joined(objs, n)|
    ensures Joined(objs, n)[|Joined(objs[..i], n)|] == ObjectFrame(objs[i], Find(objs[i].frames, n).value)
  {
    JoinedStep(objs, n, i);
    JoinedPrefix(objs, n, i + 1);
    var pre := Joined(objs[..i + 1], n);
    assert pre[|pre| - 1] == Joined(objs, n)[|pre| - 1];
  }

  /** Every object with an entry at frame `n` is in the list, paired with
      that entry. */
  lemma JoinedComplete(objs: seq<AnnotatedObject>, n: int, i: nat)
    requires i < |objs| && Find(objs[i].frames, n).Some?
    ensures ObjectFrame(objs[i], Find(objs[i].frames, n).value) in Joined(objs, n)
  {
    JoinedPosition(objs, n, i);
  }

  /** Objects appear in the list in tracker order. */
  lemma JoinedOrdered(objs: seq<AnnotatedObject>, n: int, i: nat, j: nat)
    requires i < j < |objs|
    requires Find(objs[i].frames, n).Some? && Find(objs[j].frames, n).Some?
    ensures exists a, b :: 0 <= a < b < |Joined(objs, n)| &&
              Joined(objs, n)[a] == ObjectFrame(objs[i], Find(objs[i].frames, n).value) &&
              Joined(objs, n)[b] == ObjectFrame(objs[j], Find(objs[j].frames, n).value)
  {
    JoinedPosition(objs, n, i);
    JoinedPosition(objs, n, j);
    JoinedStep(objs, n, i);
    JoinedPrefixes(objs, n, i + 1, j);
    var a := |Joined(objs[..i], n)|;
    var b := |Joined(objs[..j], n)|;
    assert a < b;
  }

  class FramesManager {
    /** The current frame sequence. */
    var frames: FrameSource
    /** The reset observers, in registration order. */
    var onReset: seq<AnnotatedObjectsTracker>
    /** A log kept by `Set`, which appends each observer next to the call it
        makes. It records the order of the loop, not a witness that the
        observer ran; that the observers ran shows in `Set`'s guarantee that
        every observer's tracker is empty afterwards. */
    ghost var resets: seq<AnnotatedObjectsTracker>

    /** No frames and no observers; the initial sequence reports 0 frames. */
    constructor ()
      ensures frames == FrameSource(0) && onReset == [] && resets == []
    {
      frames := FrameSource(0);
      onReset := [];
      resets := [];
    }

    /** Replaces the frame sequence, then calls every reset observer once, in
        registration order; afterwards every observer's tracker is empty. */
    method Set(newFrames: FrameSource)
      modifies this, onReset
      ensures frames == newFrames && onReset == old(onReset)
      ensures resets == old(resets) + onReset
      ensures forall t :: t in onReset ==> t.annotatedObjects == [] && t.lastFrame == -1
    {
      frames := newFrames;
      var i := 0;
      while i < |onReset|
        invariant 0 <= i <= |onReset|
        invariant frames == newFrames && onReset == old(onReset)
        invariant resets == old(resets) + onReset[..i]
        invariant forall j :: 0 <= j < i ==> onReset[j].annotatedObjects == [] && onReset[j].lastFrame == -1
      {
        onReset[i].Reset();
        resets := resets + [onReset[i]];
        i := i + 1;
      }
    }
  }

  class AnnotatedObjectsTracker {
    const framesManager: FramesManager
    /** The tracked objects; an object's identity is its place here. */
    var annotatedObjects: seq<AnnotatedObject>
    var lastFrame: int

    /** An empty tracker that registers its reset observer with
        `framesManager`, after the observers already there. */
    constructor (framesManager: FramesManager)
      modifies framesManager
      ensures this.framesManager == framesManager
      ensures annotatedObjects == [] && lastFrame == -1
      ensures framesManager.onReset == old(framesManager.onReset) + [this]
      ensures framesManager.frames == old(framesManager.frames)
      ensures framesManager.resets == old(framesManager.resets)
    {
      this.framesManager := framesManager;
      annotatedObjects := [];
      lastFrame := -1;
      new;
      framesManager.onReset := framesManager.onReset + [this];
    }

    /** The reset observer: forgets every tracked object. */
    method Reset()
      modifies this
      ensures annotatedObjects == [] && lastFrame == -1
    {
      annotatedObjects := [];
      lastFrame := -1;
    }

    /** The highest frame at or below `frameNumber` at which every object has
        an entry, scanning downwards; it throws when there is none down to 0.
        It never throws when every timeline starts at frame 0 and
        `frameNumber` is at least 0, and with no objects it returns
        `frameNumber` itself. */
    method StartFrame(frameNumber: int) returns (r: Result<int, TrackerError>)
      ensures r.Ok? ==> 0 <= r.value <= frameNumber && AllHaveData(annotatedObjects, r.value)
      ensures r.Ok? ==> forall g :: r.value < g <= frameNumber ==> !AllHaveData(annotatedObjects, g)
      ensures r.Err? <==> forall g :: 0 <= g <= frameNumber ==> !AllHaveData(annotatedObjects, g)
      ensures frameNumber >= 0 && (forall i :: 0 <= i < |annotatedObjects| ==> Anchored(annotatedObjects[i].frames)) ==>
                r.Ok?
      ensures frameNumber >= 0 && annotatedObjects == [] ==> r == Ok(frameNumber)
    {
      var f := frameNumber;
      while f >= 0
        invariant f <= frameNumber
        invariant forall g :: f < g <= frameNumber ==> !AllHaveData(annotatedObjects, g)
        invariant annotatedObjects == [] ==> f == frameNumber
      {
        var allObjectsHaveData := true;
        var i := 0;
        while i < |annotatedObjects|
          invariant 0 <= i <= |annotatedObjects|
          invariant allObjectsHaveData
          invariant forall j :: 0 <= j < i ==> Find(annotatedObjects[j].frames, f).Some?
        {
          var annotatedFrame := annotatedObjects[i].Get(f);
          if annotatedFrame.None? {
            allObjectsHaveData := false;
            break;
          }
          i := i + 1;
        }
        if allObjectsHaveData {
          assert AllHaveData(annotatedObjects, f);
          return Ok(f);
        }
        f := f - 1;
      }
      if frameNumber >= 0 && forall i :: 0 <= i < |annotatedObjects| ==> Anchored(annotatedObjects[i].frames) {
        AnchoredHaveData(annotatedObjects);
      }
      return Err(CorruptedObjectAnnotations);
    }

    /** The synchronous join of `getFrameWithObjects`: the objects with an
        entry at exactly `frameNumber`, in tracker order, each paired with
        that entry. */
    method JoinObjects(frameNumber: int) returns (result: seq<ObjectFrame>)
      ensures result == Joined(annotatedObjects, frameNumber)
    {
      var objs := annotatedObjects;
      result := [];
      var i := 0;
      while i < |objs|
        invariant 0 <= i <= |objs|
        invariant result == Joined(objs[..i], frameNumber)
      {
        var annotatedObject := objs[i];
        var annotatedFrame := annotatedObject.Get(frameNumber);
        JoinedStep(objs, frameNumber, i);
        if annotatedFrame.Some? {
          result := result + [ObjectFrame(annotatedObject, annotatedFrame.value)];
        }
        i := i + 1;
      }
      assert objs[..i] == objs;
    }

    /** `getFrameWithObjects` without the image fetch: `startFrame` runs first
        and its error is passed on; otherwise the result is the join at
        `frameNumber`. */
    method GetFrameWithObjects(frameNumber: int) returns (r: Result<seq<ObjectFrame>, TrackerError>)
      ensures r.Err? <==> forall g :: 0 <= g <= frameNumber ==> !AllHaveData(annotatedObjects, g)
      ensures r.Ok? ==> r.value == Joined(annotatedObjects, frameNumber)
    {
      var start := StartFrame(frameNumber);
      if start.Err? {
        return Err(start.error);
      }
      var objects := JoinObjects(frameNumber);
      assert AllHaveData(annotatedObjects, start.value);
      return Ok(objects);
    }
  }
}
