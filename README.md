# vatic.js annotation timeline, modelled in Dafny

vatic.js helps a user annotate moving objects in a video. The user draws
bounding boxes on some frames (ground truth). A tracker is meant to fill in
the frames in between. This project models the part of `vatic.js` that keeps
those boxes and answers questions about them:

- **`AnnotatedObject`**: one object's sparse timeline of `AnnotatedFrame`
  entries, kept in ascending frame order. `add` overwrites or inserts an
  entry. It then drops the automatically tracked entries that directly follow
  the edit, which are now stale. Finally it puts an invisible entry at frame 0
  when the timeline starts later. `get` looks up an exact frame.
- **`AnnotatedObjectsTracker`**: `startFrame` finds the highest frame at or
  below a requested one where every object has an entry. It throws
  `'corrupted object annotations'` when there is none. The synchronous part of
  `getFrameWithObjects` lists the objects that have an entry at a frame.
- **`FramesManager`**: holds the current frame sequence. `set` replaces it
  and calls the reset observers. The tracker's observer forgets every object.

Layout, one module per component:

- `wrappers.dfy` (`Wrappers`): `Option` stands for `null`; `Result` stands for
  a value or a thrown error.
- `frames.dfy` (`Frames`): `BoundingBox`, `AnnotatedFrame` and the synthetic
  `Origin` entry `AnnotatedFrame(0, None, false)`.
- `timeline.dfy` (`Timeline`): the timeline operations as functions on
  `seq<AnnotatedFrame>`, and the lemmas about them.
  - `Position` is where the scans of `add` and `get` stop.
  - `Find` is `get`.
  - `StaleRun`, `DropStale` and `Recomputed` are
    `removeFramesToBeRecomputedFrom`.
  - `WithOrigin` is `injectInvisibleFrameAtOrigin`.
  - `Added` is `add`.
  - `Below` and `Above` give an independent, filter-based description of what
    `add` keeps.
- `annotated_object.dfy` (`AnnotatedObjects`): the class `AnnotatedObject`.
  It has the fields `frames: seq<AnnotatedFrame>` and `validFrames`. Its
  methods use the source's index loops and are proved against the `Timeline`
  functions. `Valid()` is the object invariant "strictly increasing".
- `tracker.dfy` (`Tracking`): the classes `FramesManager` and
  `AnnotatedObjectsTracker`, the predicate `AllHaveData`, the join `Joined`,
  and the lemmas about the join.

Behaviour of the code that the model keeps, including cases a reader might
not expect:

- Negative frame numbers are not rejected. `add` at a negative frame on an
  empty timeline adds no origin entry, because the check at `vatic.js:246` only
  fires when the first frame is after 0. A negative `add` can also delete an
  existing synthetic origin. On `[Origin]`, `add` at frame -1 inserts the new
  entry at index 0 (`vatic.js:204`). The stale-run removal from index 1
  (`vatic.js:206`) then deletes `Origin`, which is not ground truth, and the
  check at `vatic.js:246` no longer fires. The timeline is left with no entry
  at frame 0 (`Timeline.NegativeAddDropsOrigin`), so `startFrame(n)` then
  throws until an entry at a frame in `[0, n]` is added. The synthetic origin
  is never restored, because the first entry stays below frame 0
  (`Timeline.NegativeFirstStays`). This is why
  "starts at frame 0" is proved only for adds at frames of at least 0,
  starting from an empty or anchored timeline.
- The overwrite branch of `add` (`vatic.js:199-202`) does not restore the
  origin entry. The anchor is kept there because it held before.
- Reset only empties the tracker's list of objects. An `AnnotatedObject` that
  is still referenced elsewhere keeps its frames.
- `startFrame(n)` returns the highest frame at or below `n` where every object
  has an entry. For timelines with entries at frames 0, 1, 2, 5 and 0, 1, 3, 5,
  `startFrame(5)` returns 5 and `startFrame(2)` returns 1
  (`Tracking.StartFrameExample`).
- `validFrames` counts inserts and appends. It is never lowered when entries
  are removed, and the origin entry does not count. It is not the length of
  `frames`.

## Model

| member | source | states |
|---|---|---|
| `Frames.AnnotatedFrame.IsVisible` | vatic.js:183-185 | an entry is visible exactly when it carries a bounding box (`bbox` is not null) |
| `Timeline.Added` | vatic.js:197-215 | `add(f)` as a value: overwrite, insert or append at the scan position, then drop the following stale run, then restore the origin except after an overwrite; its properties are carried by `AddedSplit`, `AddedSorted`, `AddedFind`, `AddedAnchored`, `AddedIdempotent` and `AddedCascade` |
| `Timeline.DropStale` | vatic.js:232-243 | the timeline suffix without its leading run of entries that are not ground truth; its properties are in `DropStaleShape` and `StaleRun`'s contract |
| `Timeline.DropStaleShape` | vatic.js:232-243 | what is kept is a suffix that is empty or starts with a ground-truth entry, and every entry cut off is not ground truth |
| `Timeline.Recomputed` | vatic.js:232-243 | `removeFramesToBeRecomputedFrom(from)` as a value; its properties are in `RecomputedShape`, `RecomputedSorted` and `StaleRun`'s contract |
| `Timeline.RecomputedShape` | vatic.js:232-243 | the entries before `from` are kept, then the entries from the first later ground-truth entry on; the block removed holds no ground-truth entry; an index at or past the end changes nothing |
| `Timeline.RecomputedCut` | vatic.js:233-242 | cutting out the counted run (`splice(from, count)`, only when `count > 0`) is exactly `Recomputed` |
| `Timeline.RecomputedSorted` | vatic.js:232-243 | removing the stale run keeps a strictly increasing timeline strictly increasing |
| `Timeline.WithOrigin` | vatic.js:245-249 | `injectInvisibleFrameAtOrigin` as a value; its properties are in `WithOriginShape` and `SortedWithOrigin` |
| `Timeline.WithOriginShape` | vatic.js:245-249 | the old entries follow unchanged; `Origin` is put in front exactly when the timeline is empty or starts after frame 0; the first entry is then at a frame of at most 0 |
| `Timeline.SortedWithOrigin` | vatic.js:245-249 | putting the origin in front keeps a strictly increasing timeline strictly increasing |
| `Timeline.NegativeAddDropsOrigin` | vatic.js:203-208 | `add` at frame -1 on `[Origin]` yields just the new entry: the origin is removed as stale and not restored, so `get(0)` is then null |
| `Timeline.NegativeFirstStays` | vatic.js:197-215 | once the first entry lies below frame 0, every later `add` keeps a first entry at or below it, so the origin check at line 246 never fires again and the first entry is never `Origin` |
| `Timeline.Position` | vatic.js:198-210 | the scan of `add` stops at the first entry whose frame is at or after the wanted one; every entry before it is earlier |
| `Timeline.Find` | vatic.js:217-230 | `get` returns an entry of the timeline, and only one whose frame number is the requested one |
| `Timeline.StaleRun` | vatic.js:232-239 | the count is exactly the longest run of entries that are not ground truth, ended by a ground-truth entry or the end of the timeline |
| `Timeline.FindExact` | vatic.js:217-230 | on a sorted timeline `get(n)` returns the entry at frame `n` when there is one, and `null` exactly when no entry is at `n`; never a neighbour |
| `Timeline.AddedSplit` | vatic.js:197-215 | `add(f)` yields the entries the scan passed, then `f`, then the rest without its leading stale run; the origin is restored unless an entry was overwritten |
| `Timeline.AddedSorted` | vatic.js:197-215 | `add` keeps a strictly increasing timeline strictly increasing, so no frame number appears twice |
| `Timeline.AddedAnchored` | vatic.js:197-215 | after `add` at a frame of at least 0 on an empty or anchored timeline, the first entry is at frame 0: `f` itself, the synthetic `Origin` (invisible, not ground truth) on an empty timeline, or the old first entry |
| `Timeline.AddedFind` | vatic.js:197-215 | after `add(f)`, `get` at `f`'s frame returns exactly `f` |
| `Timeline.AddedIdempotent` | vatic.js:197-243 | calling `add(f)` twice in a row leaves the same timeline as calling it once |
| `Timeline.AddedCascade` | vatic.js:197-243 | on a sorted timeline, `add(f)` keeps every entry before `f`'s frame in order, puts `f` there, drops the maximal run of non-ground-truth entries after it whatever `f`'s own flag, and keeps the first later ground-truth entry and all that follows |
| `Timeline.AddedAllKeepsInvariants` | vatic.js:197-249 | any series of adds at frames of at least 0 keeps the timeline sorted and, once anything was added, anchored at frame 0 |
| `Timeline.CascadeExample` | vatic.js:197-243 | entries at 0 (ground truth), 2, 4 (tracked), 6 (ground truth), 8 (tracked), plus a new entry at 3, give entries 0, 2, 3, 6, 8 |
| `Timeline.FirstAddExample` | vatic.js:197-249 | a first entry at frame 5 on an empty timeline gives `[Origin, f]`, and `get(3)` is then `null` |
| `AnnotatedObjects.AnnotatedObject.constructor` | vatic.js:192-195 | a new object has no frames and a counter of 0 |
| `AnnotatedObjects.AnnotatedObject.Add` | vatic.js:197-215 | the frames become `Added(old frames, frame)` and stay strictly increasing; `get` at the frame then returns `frame`; the counter goes up by one exactly when no entry at that frame existed; the anchor is kept |
| `AnnotatedObjects.AnnotatedObject.Get` | vatic.js:217-230 | returns `Find(frames, n)`: an entry at exactly `n` from the timeline, and on a sorted timeline `null` exactly when there is no entry at `n` |
| `AnnotatedObjects.AnnotatedObject.RemoveFramesToBeRecomputedFrom` | vatic.js:232-243 | removes the run of non-ground-truth entries starting at the given index, up to the first ground-truth entry; nothing else changes; a strictly increasing timeline stays strictly increasing |
| `AnnotatedObjects.AnnotatedObject.InjectInvisibleFrameAtOrigin` | vatic.js:245-249 | puts `AnnotatedFrame(0, null, false)` in front exactly when the timeline is empty or starts after frame 0; a strictly increasing timeline stays strictly increasing |
| `Tracking.AllHaveData` | vatic.js:303-311 | the inner loop of `startFrame` finds no object whose `get` is null at the frame; `StartFrame`'s contract is stated with it |
| `Tracking.StartFrameExample` | vatic.js:301-319 | for timelines with entries at 0, 1, 2, 5 and 0, 1, 3, 5, all objects have data at 5 and at 1, and not at 2, 3 or 4 |
| `Tracking.Joined` | vatic.js:276-290 | every element pairs an object of the tracker with its entry at the requested frame, whose frame number is that frame |
| `Tracking.JoinedPrefix` | vatic.js:276-290 | the list for the first `m` objects is a prefix of the list for all objects |
| `Tracking.JoinedPrefixes` | vatic.js:276-290 | the list for fewer leading objects is a prefix of the list for more of them |
| `Tracking.JoinedPosition` | vatic.js:276-290 | an object with an entry at the frame sits in the list right after the pairs of the objects before it |
| `Tracking.JoinedComplete` | vatic.js:276-290 | every object with an entry at the requested frame is in the list, paired with that entry |
| `Tracking.JoinedOrdered` | vatic.js:276-290 | objects appear in the list in tracker order |
| `Tracking.AnchoredHaveData` | vatic.js:301-319 | when every timeline starts at frame 0, every object has data at frame 0, so the scan of `startFrame` stops there at the latest |
| `Tracking.FramesManager.constructor` | vatic.js:4-9 | the initial frame sequence reports 0 frames and there are no observers |
| `Tracking.FramesManager.Set` | vatic.js:11-16 | replaces the frame sequence and calls each observer once, in registration order; afterwards each observer's tracker has no objects and `lastFrame == -1` |
| `Tracking.AnnotatedObjectsTracker.constructor` | vatic.js:256-266 | a new tracker has no objects and `lastFrame == -1`, and its observer is appended to the manager's observers |
| `Tracking.AnnotatedObjectsTracker.Reset` | vatic.js:262-265 | the observer empties the tracked objects and sets `lastFrame` to -1 |
| `Tracking.AnnotatedObjectsTracker.StartFrame` | vatic.js:301-319 | returns `f` with `0 <= f <= n` where every object has an entry and no frame in `(f, n]` has that property; throws exactly when no frame in `[0, n]` has it; never throws when every timeline is anchored and `n >= 0`; returns `n` when there are no objects |
| `Tracking.AnnotatedObjectsTracker.JoinObjects` | vatic.js:274-290 | the list built is `Joined`: the objects with an entry at the frame, in tracker order, each with that entry |
| `Tracking.AnnotatedObjectsTracker.GetFrameWithObjects` | vatic.js:268-299 | fails exactly when `startFrame` throws; otherwise returns the join at the requested frame |

## Left out

- `extractFramesFromVideo` (`vatic.js:33-124`): video decoding, canvas
  drawing, PouchDB storage and animation-frame callbacks are browser I/O.
- `extractFramesFromZip` (`vatic.js:129-159`): archive reading with JSZip,
  Blobs and Promises is I/O. A frame sequence is modelled only by its frame
  count (`FrameSource`).
- `blobToImage` (`vatic.js:19-28`) and `imageData` (`vatic.js:321-327`): image
  decoding and canvas pixel readback. The canvas context that the tracker
  constructor creates (`vatic.js:260`) is left out for the same reason.
- The asynchronous part of `getFrameWithObjects` (`vatic.js:269-274`, `294`):
  the frame fetch from the current sequence and its decoding. The model keeps
  the call to `startFrame` and the synchronous join; no image is returned.
  `GetFrameWithObjects` evaluates `startFrame` and the join in one state. The
  code runs the join inside the decode callback (`vatic.js:273-290`). It reads
  `this.annotatedObjects` when the image arrives, not when `startFrame` ran,
  so a reset in between yields an empty list. When `getFrame` rejects, the
  returned promise never settles. The model captures neither behaviour.
- The commented-out interpolation at `vatic.js:280-286`: it is not
  implemented, so no prediction policy is modelled.
- Observers as closures: `onReset` holds arbitrary callbacks. The model holds
  the only observer the code registers (the tracker's, `vatic.js:262-265`) as
  the list of trackers to reset.
- Entries as objects: `AnnotatedFrame` is an immutable value here. The code
  stores the caller's object (`vatic.js:200`, `204`, `212`), `get` returns that
  same object (`vatic.js:225`) and the join hands it out (`vatic.js:288`). A
  caller that later mutates an entry changes the timeline in place, and
  mutating its `frameNumber` can break the ordering `Valid()` states. The core
  itself never mutates an entry.
- Frame numbers are unbounded integers. The code accepts any JavaScript
  number: a non-integer `frameNumber` goes through the comparisons of `add`,
  and `startFrame(2.5)` visits 2.5, 1.5 and 0.5. Non-integer frames are not
  modelled.
- `BoundingBox` coordinates are JavaScript numbers. The model uses integers,
  because the core never inspects them.
- Adding objects to the tracker: the code's callers push into the public
  `annotatedObjects` array directly. The model leaves that field public in the
  same way and adds no method for it.
