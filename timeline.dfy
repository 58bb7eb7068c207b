/** The per-object keyframe store as values: what `AnnotatedObject.add`,
    `get`, `removeFramesToBeRecomputedFrom` and
    `injectInvisibleFrameAtOrigin` compute, and what they guarantee. */
module Timeline {
  import opened Wrappers
  import opened Frames

  /** Strictly increasing by frame number: sorted, with no frame twice. */
  ghost predicate Sorted(fs: seq<AnnotatedFrame>) {
    forall i, j :: 0 <= i < j < |fs| ==> fs[i].frameNumber < fs[j].frameNumber
  }

  /** The timeline holds an entry at frame 0 in front. */
  ghost predicate Anchored(fs: seq<AnnotatedFrame>) {
    |fs| > 0 && fs[0].frameNumber == 0
  }

  /** The first index whose entry is at or after frame `k`; both scans of
      the source (in `add` and in `get`) stop there. */
  function Position(fs: seq<AnnotatedFrame>, k: int): (p: nat)
    ensures p <= |fs|
    ensures forall j :: 0 <= j < p ==> fs[j].frameNumber < k
    ensures p < |fs| ==> fs[p].frameNumber >= k
  {
    if fs == [] || fs[0].frameNumber >= k then 0 else 1 + Position(fs[1..], k)
  }

  /** `get`: the entry the scan stops at, if it is exactly at frame `n`. */
  function Find(fs: seq<AnnotatedFrame>, n: int): (r: Option<AnnotatedFrame>)
    ensures r.Some? ==> r.value in fs && r.value.frameNumber == n
  {
    var p := Position(fs, n);
    if p < |fs| && fs[p].frameNumber == n then Some(fs[p]) else None
  }

  /** The length of the run of entries that are not ground truth at the front
      of `s`: the longest such run, ended by a ground-truth entry or by the
      end of `s`. */
  function StaleRun(s: seq<AnnotatedFrame>): (n: nat)
    ensures n <= |s|
    ensures forall j :: 0 <= j < n ==> !s[j].isGroundTruth
    ensures n < |s| ==> s[n].isGroundTruth
  {
    if s == [] || s[0].isGroundTruth then 0 else 1 + StaleRun(s[1..])
  }

  /** `s` without its leading run of entries that are not ground truth. */
  function DropStale(s: seq<AnnotatedFrame>): seq<AnnotatedFrame> {
    s[StaleRun(s)..]
  }

  /** `removeFramesToBeRecomputedFrom(from)`: removes the run of entries that
      are not ground truth starting at index `from`. */
  function Recomputed(fs: seq<AnnotatedFrame>, from: nat): seq<AnnotatedFrame> {
    if from >= |fs| then fs else fs[..from] + DropStale(fs[from..])
  }

  /** `injectInvisibleFrameAtOrigin`: puts `Origin` in front when the timeline
      is empty or starts after frame 0. */
  function WithOrigin(fs: seq<AnnotatedFrame>): seq<AnnotatedFrame> {
    if fs == [] || fs[0].frameNumber > 0 then [Origin] + fs else fs
  }

  /** `add(f)`: overwrite the entry at `f`'s frame, or insert `f` before the
      first later entry, or append it; then drop the stale run after it and,
      except after an overwrite, restore the origin entry. */
  function Added(fs: seq<AnnotatedFrame>, f: AnnotatedFrame): seq<AnnotatedFrame> {
    var p := Position(fs, f.frameNumber);
    if p < |fs| && fs[p].frameNumber == f.frameNumber then
      Recomputed(fs[p := f], p + 1)
    else if p < |fs| then
      WithOrigin(Recomputed(fs[..p] + [f] + fs[p..], p + 1))
    else
      WithOrigin(fs + [f])
  }

  /** The entries of `fs` before frame `k`, in order. */
  function Below(fs: seq<AnnotatedFrame>, k: int): (r: seq<AnnotatedFrame>)
    ensures forall e :: e in r <==> e in fs && e.frameNumber < k
  {
    if fs == [] then []
    else (if fs[0].frameNumber < k then [fs[0]] else []) + Below(fs[1..], k)
  }

  /** The entries of `fs` after frame `k`, in order. */
  function Above(fs: seq<AnnotatedFrame>, k: int): (r: seq<AnnotatedFrame>)
    ensures forall e :: e in r <==> e in fs && e.frameNumber > k
  {
    if fs == [] then []
    else (if fs[0].frameNumber > k then [fs[0]] else []) + Above(fs[1..], k)
  }

  // ---------------------------------------------------------------------
  // Lookup

  /** The scan position is pinned down by the entries around it. */
  lemma PositionAt(fs: seq<AnnotatedFrame>, k: int, i: nat)
    requires i <= |fs|
    requires forall j :: 0 <= j < i ==> fs[j].frameNumber < k
    requires i < |fs| ==> fs[i].frameNumber >= k
    ensures Position(fs, k) == i
  {
  }

  /** On a sorted timeline `get(n)` is an exact-match lookup: it returns the
      entry at frame `n` when there is one and `null` otherwise, never a
      neighbouring entry. */
  lemma FindExact(fs: seq<AnnotatedFrame>, n: int)
    requires Sorted(fs)
    ensures forall i :: 0 <= i < |fs| && fs[i].frameNumber == n ==> Find(fs, n) == Some(fs[i])
    ensures Find(fs, n).None? <==> forall i :: 0 <= i < |fs| ==> fs[i].frameNumber != n
  {
    var p := Position(fs, n);
    forall i | 0 <= i < |fs| && fs[i].frameNumber == n
      ensures Find(fs, n) == Some(fs[i])
    {
      assert p < i ==> fs[p].frameNumber < fs[i].frameNumber;
    }
  }

  // ---------------------------------------------------------------------
  // Sortedness of the pieces

  lemma SortedSplice(fs: seq<AnnotatedFrame>, p: nat, f: AnnotatedFrame, q: nat)
    requires Sorted(fs) && p <= q <= |fs|
    requires forall j :: 0 <= j < p ==> fs[j].frameNumber < f.frameNumber
    requires forall j :: q <= j < |fs| ==> fs[j].frameNumber > f.frameNumber
    ensures Sorted(fs[..p] + [f] + fs[q..])
  {
    var r := fs[..p] + [f] + fs[q..];
    assert forall i :: 0 <= i < |r| ==>
      r[i] == if i < p then fs[i] else if i == p then f else fs[i - p - 1 + q];
  }

  lemma SortedWithOrigin(fs: seq<AnnotatedFrame>)
    requires Sorted(fs)
    ensures Sorted(WithOrigin(fs))
  {
    if fs != [] && fs[0].frameNumber > 0 {
      var r := [Origin] + fs;
      assert forall i :: 1 <= i < |r| ==> r[i] == fs[i - 1];
    }
  }

  lemma RecomputedKeepsPrefix(fs: seq<AnnotatedFrame>, from: nat)
    requires from <= |fs|
    ensures Recomputed(fs, from) == fs[..from] + DropStale(fs[from..])
  {
    if from == |fs| {
      assert fs[from..] == [];
      assert fs[..from] == fs;
    }
  }

  /** What `DropStale` keeps: a suffix of `s` that is empty or starts with a
      ground-truth entry; every entry cut off is not ground truth. */
  lemma DropStaleShape(s: seq<AnnotatedFrame>)
    ensures var r := DropStale(s);
            |r| <= |s| && r == s[|s| - |r|..] && (r == [] || r[0].isGroundTruth) &&
            forall j :: 0 <= j < |s| - |r| ==> !s[j].isGroundTruth
  {
  }

  /** What `removeFramesToBeRecomputedFrom(from)` keeps: the entries before
      `from`, and the entries from the first later ground-truth entry on; the
      block removed holds no ground-truth entry. An index past the end
      changes nothing. */
  lemma RecomputedShape(fs: seq<AnnotatedFrame>, from: nat)
    ensures var r := Recomputed(fs, from);
            (from >= |fs| ==> r == fs) &&
            (from < |fs| ==> from <= |r| <= |fs| && r[..from] == fs[..from] &&
                             r[from..] == fs[from + |fs| - |r|..] &&
                             (|r| == from || r[from].isGroundTruth)) &&
            forall j :: from <= j < from + |fs| - |r| ==> !fs[j].isGroundTruth
  {
    if from < |fs| {
      DropStaleShape(fs[from..]);
      var r := Recomputed(fs, from);
      assert r[..from] == fs[..from];
      assert r[from..] == DropStale(fs[from..]);
    }
  }

  /** What `injectInvisibleFrameAtOrigin` does: the old entries follow
      unchanged, `Origin` is added in front exactly when the timeline was
      empty or started after frame 0, and the first entry is then at a frame
      of at most 0. */
  lemma WithOriginShape(fs: seq<AnnotatedFrame>)
    ensures var r := WithOrigin(fs);
            r != [] && r[0].frameNumber <= 0 &&
            |fs| <= |r| <= |fs| + 1 && r[|r| - |fs|..] == fs &&
            (|r| == |fs| + 1 <==> fs == [] || fs[0].frameNumber > 0) &&
            (|r| == |fs| + 1 ==> r[0] == Origin)
  {
    var r := WithOrigin(fs);
    assert r[|r| - |fs|..] == fs;
  }

  /** Cutting a block out of a strictly increasing timeline leaves it
      strictly increasing. */
  lemma SortedCut(fs: seq<AnnotatedFrame>, a: nat, b: nat)
    requires Sorted(fs) && a <= b <= |fs|
    ensures Sorted(fs[..a] + fs[b..])
  {
    var r := fs[..a] + fs[b..];
    assert forall i :: 0 <= i < |r| ==> r[i] == if i < a then fs[i] else fs[i - a + b];
  }

  /** Cutting out `count` entries at `from`, where `count` is the stale run
      there, is `Recomputed`. */
  lemma RecomputedCut(fs: seq<AnnotatedFrame>, from: nat, count: nat)
    requires from < |fs| ==> count == StaleRun(fs[from..])
    requires from >= |fs| ==> count == 0
    ensures from + count <= |fs| || count == 0
    ensures Recomputed(fs, from) == if count > 0 then fs[..from] + fs[from + count..] else fs
  {
    if from < |fs| {
      DropStaleSuffix(fs, from);
      if count == 0 {
        assert fs[..from] + fs[from..] == fs;
      }
    }
  }

  /** `removeFramesToBeRecomputedFrom` keeps a strictly increasing timeline
      strictly increasing. */
  lemma RecomputedSorted(fs: seq<AnnotatedFrame>, from: nat, r: seq<AnnotatedFrame>)
    requires r == Recomputed(fs, from)
    ensures Sorted(fs) ==> Sorted(r)
  {
    if from < |fs| && Sorted(fs) {
      DropStaleSuffix(fs, from);
      SortedCut(fs, from, from + StaleRun(fs[from..]));
    }
  }

  lemma DropStaleSuffix(s: seq<AnnotatedFrame>, q: nat)
    requires q <= |s|
    ensures DropStale(s[q..]) == s[q + StaleRun(s[q..])..]
  {
  }

  // ---------------------------------------------------------------------
  // add

  /** The shape `add(f)` gives the timeline before the origin is restored:
      everything the scan passed, then `f`, then what follows the touched
      position once its stale run is dropped. */
  function Spliced(fs: seq<AnnotatedFrame>, f: AnnotatedFrame): seq<AnnotatedFrame> {
    var p := Position(fs, f.frameNumber);
    var q := if Find(fs, f.frameNumber).Some? then p + 1 else p;
    fs[..p] + [f] + DropStale(fs[q..])
  }

  lemma SplitOverwrite(fs: seq<AnnotatedFrame>, f: AnnotatedFrame, p: nat)
    requires p < |fs| && fs[p].frameNumber == f.frameNumber
    ensures Recomputed(fs[p := f], p + 1) == fs[..p] + [f] + DropStale(fs[p + 1..])
  {
    var s := fs[p := f];
    RecomputedKeepsPrefix(s, p + 1);
    assert s[..p + 1] == fs[..p] + [f];
    assert s[p + 1..] == fs[p + 1..];
  }

  lemma SplitInsert(fs: seq<AnnotatedFrame>, f: AnnotatedFrame, p: nat)
    requires p <= |fs|
    ensures Recomputed(fs[..p] + [f] + fs[p..], p + 1) == fs[..p] + [f] + DropStale(fs[p..])
  {
    var s := fs[..p] + [f] + fs[p..];
    RecomputedKeepsPrefix(s, p + 1);
    assert s[..p + 1] == fs[..p] + [f];
    assert s[p + 1..] == fs[p..];
  }

  /** `add(f)` in one shape: `Spliced`, with the origin entry restored unless
      an existing entry was overwritten. */
  lemma AddedSplit(fs: seq<AnnotatedFrame>, f: AnnotatedFrame)
    ensures Added(fs, f) == if Find(fs, f.frameNumber).Some? then Spliced(fs, f) else WithOrigin(Spliced(fs, f))
  {
    var k := f.frameNumber;
    var p := Position(fs, k);
    if p < |fs| && fs[p].frameNumber == k {
      SplitOverwrite(fs, f, p);
    } else if p < |fs| {
      SplitInsert(fs, f, p);
    } else {
      assert fs[p..] == [];
      assert fs[..p] == fs;
    }
  }

  /** On a sorted timeline every entry from the touched position on, past
      an overwritten entry, lies after frame `k`. */
  lemma LaterThanTouched(fs: seq<AnnotatedFrame>, k: int, q: nat)
    requires Sorted(fs)
    requires q == if Find(fs, k).Some? then Position(fs, k) + 1 else Position(fs, k)
    ensures q <= |fs|
    ensures forall j :: q <= j < |fs| ==> fs[j].frameNumber > k
  {
    var p := Position(fs, k);
    forall j | q <= j < |fs| ensures fs[j].frameNumber > k {
      assert p == j || fs[p].frameNumber < fs[j].frameNumber;
    }
  }

  /** `Spliced` with its two cut points named. */
  lemma SplicedIs(fs: seq<AnnotatedFrame>, f: AnnotatedFrame, p: nat, touched: nat)
    requires p == Position(fs, f.frameNumber)
    requires touched == if Find(fs, f.frameNumber).Some? then p + 1 else p
    ensures touched <= |fs|
    ensures Spliced(fs, f) == fs[..p] + [f] + DropStale(fs[touched..])
  {
  }

  /** `Spliced(fs, f)` cuts `fs` at the scan position `p` and again at some
      index at or past the touched position. */
  lemma SplicedCut(fs: seq<AnnotatedFrame>, f: AnnotatedFrame, p: nat, touched: nat) returns (q: nat)
    requires p == Position(fs, f.frameNumber)
    requires touched == if Find(fs, f.frameNumber).Some? then p + 1 else p
    ensures touched <= q <= |fs|
    ensures Spliced(fs, f) == fs[..p] + [f] + fs[q..]
  {
    SplicedIs(fs, f, p, touched);
    DropStaleSuffix(fs, touched);
    q := touched + StaleRun(fs[touched..]);
    assert DropStale(fs[touched..]) == fs[q..];
  }



  /** On a sorted timeline `Spliced` is sorted: what the scan passed lies
      before `f`, and what is kept after `f` lies after it. */
  lemma SplicedSorted(fs: seq<AnnotatedFrame>, f: AnnotatedFrame)
    requires Sorted(fs)
    ensures Sorted(Spliced(fs, f))
  {
    var k := f.frameNumber;
    var p := Position(fs, k);
    var touched := if Find(fs, k).Some? then p + 1 else p;
    LaterThanTouched(fs, k, touched);
    var q := SplicedCut(fs, f, p, touched);
    SortedSplice(fs, p, f, q);
  }


  /** `add` keeps the timeline strictly increasing: sorted, with no frame
      number twice. */
  lemma AddedSorted(fs: seq<AnnotatedFrame>, f: AnnotatedFrame)
    requires Sorted(fs)
    ensures Sorted(Added(fs, f))
  {
    AddedSplit(fs, f);
    SplicedSorted(fs, f);
    SortedWithOrigin(Spliced(fs, f));
  }

  /** Once `add` runs with a frame number of at least 0 on a timeline that is
      empty or starts at frame 0, the timeline starts at frame 0; its first
      entry is `f` when `f` is at frame 0, the synthetic `Origin` when the
      timeline was empty, and the old first entry otherwise. */
  lemma AddedAnchored(fs: seq<AnnotatedFrame>, f: AnnotatedFrame)
    requires fs == [] || fs[0].frameNumber == 0
    requires f.frameNumber >= 0
    ensures Anchored(Added(fs, f))
    ensures Added(fs, f)[0] == if f.frameNumber == 0 then f else if fs == [] then Origin else fs[0]
  {
    var k := f.frameNumber;
    var p := Position(fs, k);
    AddedSplit(fs, f);
    var core := Spliced(fs, f);
    assert core[0] == if p == 0 then f else fs[0];
    assert p == 0 <==> k == 0 || fs == [];
  }

  /** Once the first entry lies below frame 0, no `add` raises it: the scan
      only replaces or inserts before it, and the stale-run removal starts
      after the touched index. So `injectInvisibleFrameAtOrigin` never fires
      again and no synthetic origin comes back. */
  lemma NegativeFirstStays(fs: seq<AnnotatedFrame>, f: AnnotatedFrame)
    requires fs != [] && fs[0].frameNumber < 0
    ensures Added(fs, f) != [] && Added(fs, f)[0].frameNumber <= fs[0].frameNumber
    ensures Added(fs, f)[0] != Origin
  {
    var p := Position(fs, f.frameNumber);
    AddedSplit(fs, f);
    var core := Spliced(fs, f);
    assert core[0] == if p == 0 then f else fs[0];
  }

  /** Where `f` sits in `Spliced(fs, f)`: after the entries the scan passed,
      all earlier than `f`, and before the kept part of what followed. */
  lemma SplicedAt(fs: seq<AnnotatedFrame>, f: AnnotatedFrame)
    ensures var p := Position(fs, f.frameNumber);
            var q := if Find(fs, f.frameNumber).Some? then p + 1 else p;
            var s := Spliced(fs, f);
            p < |s| && s[p] == f && s[p + 1..] == DropStale(fs[q..]) &&
            forall j :: 0 <= j < p ==> s[j].frameNumber < f.frameNumber
  {
    var p := Position(fs, f.frameNumber);
    var s := Spliced(fs, f);
    forall j | 0 <= j < p ensures s[j].frameNumber < f.frameNumber {
      assert s[j] == fs[j];
    }
  }

  /** Restoring the origin in front of entries that precede one at frame `k`
      moves that entry by at most one place, and the scan still stops there. */
  lemma WithOriginAt(s: seq<AnnotatedFrame>, k: int, p: nat) returns (at: nat)
    requires p < |s| && s[p].frameNumber == k
    requires forall j :: 0 <= j < p ==> s[j].frameNumber < k
    ensures var r := WithOrigin(s);
            at < |r| && r[at] == s[p] && Position(r, k) == at && r[at + 1..] == s[p + 1..]
  {
    var r := WithOrigin(s);
    if r == s {
      at := p;
    } else {
      assert r == [Origin] + s;
      assert s[0].frameNumber <= k;
      at := p + 1;
      assert r[at + 1..] == s[p + 1..];
      assert forall j :: 1 <= j < at ==> r[j] == s[j - 1];
    }
    PositionAt(r, k, at);
  }

  /** Where `f` lands in `Spliced(fs, f)`, with or without the origin
      restored in front. */
  lemma SplicedLands(fs: seq<AnnotatedFrame>, f: AnnotatedFrame, withOrigin: bool) returns (at: nat)
    ensures var p := Position(fs, f.frameNumber);
            var q := if Find(fs, f.frameNumber).Some? then p + 1 else p;
            var r := if withOrigin then WithOrigin(Spliced(fs, f)) else Spliced(fs, f);
            at < |r| && r[at] == f && Position(r, f.frameNumber) == at &&
            r[at + 1..] == DropStale(fs[q..])
  {
    var p := Position(fs, f.frameNumber);
    SplicedAt(fs, f);
    if withOrigin {
      at := WithOriginAt(Spliced(fs, f), f.frameNumber, p);
    } else {
      at := p;
      PositionAt(Spliced(fs, f), f.frameNumber, p);
    }
  }

  /** Where `f` lands: at index `at` of `add(f)`'s result, after entries that
      all lie before its frame and before the kept part of what followed. */
  lemma AddedAt(fs: seq<AnnotatedFrame>, f: AnnotatedFrame) returns (at: nat)
    ensures var r := Added(fs, f);
            var p := Position(fs, f.frameNumber);
            var q := if Find(fs, f.frameNumber).Some? then p + 1 else p;
            at < |r| && r[at] == f && Position(r, f.frameNumber) == at &&
            r[at + 1..] == DropStale(fs[q..])
  {
    AddedSplit(fs, f);
    at := SplicedLands(fs, f, Find(fs, f.frameNumber).None?);
  }

  /** After `add(f)` the timeline's entry at `f`'s frame is `f` itself. */
  lemma AddedFind(fs: seq<AnnotatedFrame>, f: AnnotatedFrame)
    ensures Find(Added(fs, f), f.frameNumber) == Some(f)
  {
    var at := AddedAt(fs, f);
  }
  /** The three exits of the scan in `add`: overwrite at index `i`. */
  lemma AddedOverwrites(fs: seq<AnnotatedFrame>, f: AnnotatedFrame, i: nat)
    requires Position(fs, f.frameNumber) == i < |fs| && fs[i].frameNumber == f.frameNumber
    ensures Added(fs, f) == Recomputed(fs[i := f], i + 1) && Find(fs, f.frameNumber).Some?
  {
  }

  /** Insert before index `i`. */
  lemma AddedInserts(fs: seq<AnnotatedFrame>, f: AnnotatedFrame, i: nat)
    requires Position(fs, f.frameNumber) == i < |fs| && fs[i].frameNumber > f.frameNumber
    ensures Added(fs, f) == WithOrigin(Recomputed(fs[..i] + [f] + fs[i..], i + 1))
    ensures Find(fs, f.frameNumber).None?
  {
  }

  /** Append after the last entry. */
  lemma AddedAppends(fs: seq<AnnotatedFrame>, f: AnnotatedFrame)
    requires Position(fs, f.frameNumber) == |fs|
    ensures Added(fs, f) == WithOrigin(fs + [f]) && Find(fs, f.frameNumber).None?
  {
  }

  /** Adding an entry the timeline already holds, with no stale run after
      it, changes nothing. */
  lemma AddedPresent(r: seq<AnnotatedFrame>, f: AnnotatedFrame, at: nat)
    requires at < |r| && r[at] == f && Position(r, f.frameNumber) == at
    requires StaleRun(r[at + 1..]) == 0
    ensures Added(r, f) == r
  {
    assert r[at := f] == r;
    if at + 1 < |r| {
      assert r[..at + 1] + r[at + 1..] == r;
    }
  }

  /** `add(f)` twice in a row leaves the timeline as `add(f)` once: the second
      call overwrites `f` with itself and finds no stale run after it. */
  lemma AddedIdempotent(fs: seq<AnnotatedFrame>, f: AnnotatedFrame)
    ensures Added(Added(fs, f), f) == Added(fs, f)
  {
    var p := Position(fs, f.frameNumber);
    var q := if Find(fs, f.frameNumber).Some? then p + 1 else p;
    var at := AddedAt(fs, f);
    assert StaleRun(DropStale(fs[q..])) == 0;
    AddedPresent(Added(fs, f), f, at);
  }

  lemma BelowIsPrefix(fs: seq<AnnotatedFrame>, k: int, p: nat)
    requires p <= |fs|
    requires forall j :: 0 <= j < p ==> fs[j].frameNumber < k
    requires forall j :: p <= j < |fs| ==> fs[j].frameNumber >= k
    ensures Below(fs, k) == fs[..p]
    decreases |fs|
  {
    if fs != [] {
      BelowIsPrefix(fs[1..], k, if p == 0 then 0 else p - 1);
      if p > 0 {
        assert fs[..p] == [fs[0]] + fs[1..][..p - 1];
      }
    }
  }

  lemma AboveIsSuffix(fs: seq<AnnotatedFrame>, k: int, q: nat)
    requires q <= |fs|
    requires forall j :: 0 <= j < q ==> fs[j].frameNumber <= k
    requires forall j :: q <= j < |fs| ==> fs[j].frameNumber > k
    ensures Above(fs, k) == fs[q..]
    decreases |fs|
  {
    if fs != [] {
      AboveIsSuffix(fs[1..], k, if q == 0 then 0 else q - 1);
      if q == 0 {
        assert fs == [fs[0]] + fs[1..];
      } else {
        assert fs[q..] == fs[1..][q - 1..];
      }
    }
  }

  /** On a sorted timeline the scan of `add` splits the entries into those
      before frame `k` and, past the entry at `k` if there is one, those
      after it. */
  lemma ScanSplitsSorted(fs: seq<AnnotatedFrame>, k: int)
    requires Sorted(fs)
    ensures Below(fs, k) == fs[..Position(fs, k)]
    ensures Above(fs, k) == fs[if Find(fs, k).Some? then Position(fs, k) + 1 else Position(fs, k)..]
  {
    var p := Position(fs, k);
    var q := if Find(fs, k).Some? then p + 1 else p;
    forall j | p <= j < |fs| ensures fs[j].frameNumber >= k {
      assert p == j || fs[p].frameNumber < fs[j].frameNumber;
    }
    BelowIsPrefix(fs, k, p);
    LaterThanTouched(fs, k, q);
    AboveIsSuffix(fs, k, q);
  }

  /** The invalidation cascade of `add(f)` on a sorted timeline, with `k` the
      frame of `f`: every entry before `k` stays as it was and in order, then
      comes `f`, then the entries after `k` without their leading run of
      entries that are not ground truth (so the first later ground-truth entry and
      all that follows it stay); the old entry at `k`, if any, is gone. The
      origin entry is restored except after an overwrite. */
  lemma AddedCascade(fs: seq<AnnotatedFrame>, f: AnnotatedFrame)
    requires Sorted(fs)
    ensures var k := f.frameNumber;
            var core := Below(fs, k) + [f] + DropStale(Above(fs, k));
            Added(fs, f) == if Find(fs, k).Some? then core else WithOrigin(core)
  {
    AddedSplit(fs, f);
    ScanSplitsSorted(fs, f.frameNumber);
  }

  /** The timeline after the entries of `adds` are added one after another. */
  function AddedAll(fs: seq<AnnotatedFrame>, adds: seq<AnnotatedFrame>): seq<AnnotatedFrame>
    decreases |adds|
  {
    if adds == [] then fs else AddedAll(Added(fs, adds[0]), adds[1..])
  }

  /** Whatever entries at frames of at least 0 are added, in whatever order,
      to a timeline that is sorted and empty or anchored, it stays sorted and
      empty or anchored, and it is anchored once anything was added. */
  lemma {:induction false} AddedAllKeepsInvariants(fs: seq<AnnotatedFrame>, adds: seq<AnnotatedFrame>)
    requires Sorted(fs) && (fs == [] || Anchored(fs))
    requires forall i :: 0 <= i < |adds| ==> adds[i].frameNumber >= 0
    ensures Sorted(AddedAll(fs, adds))
    ensures adds != [] || fs != [] ==> Anchored(AddedAll(fs, adds))
    decreases |adds|
  {
    if adds != [] {
      AddedSorted(fs, adds[0]);
      AddedAnchored(fs, adds[0]);
      AddedAllKeepsInvariants(Added(fs, adds[0]), adds[1..]);
    }
  }

  // ---------------------------------------------------------------------
  // Worked examples

  /** Entries at frames 0 (ground truth), 2, 4 (tracked), 6 (ground truth)
      and 8 (tracked); a new entry at frame 3 removes only frame 4. */
  lemma CascadeExample(g: AnnotatedFrame)
    requires g.frameNumber == 3
    ensures var fs := [AnnotatedFrame(0, None, true), AnnotatedFrame(2, None, false),
                       AnnotatedFrame(4, None, false), AnnotatedFrame(6, None, true),
                       AnnotatedFrame(8, None, false)];
            Added(fs, g) == [fs[0], fs[1], g, fs[3], fs[4]]
  {
    var fs := [AnnotatedFrame(0, None, true), AnnotatedFrame(2, None, false),
               AnnotatedFrame(4, None, false), AnnotatedFrame(6, None, true),
               AnnotatedFrame(8, None, false)];
    PositionAt(fs, 3, 2);
    assert StaleRun(fs[2..]) == 1 by {
      assert fs[2..][1..] == fs[3..];
    }
  }

  /** The first entry of an empty timeline, at frame 5, gains the origin. */
  lemma FirstAddExample(box: BoundingBox)
    ensures var f := AnnotatedFrame(5, Some(box), true);
            Added([], f) == [Origin, f] && Find(Added([], f), 3).None?
  {
    var f := AnnotatedFrame(5, Some(box), true);
    var r := [Origin, f];
    PositionAt(r, 3, 1);
  }

  /** An add at a negative frame removes the synthetic origin: on `[Origin]`
      the new entry is inserted in front, the stale run after it (the
      origin itself) is dropped, and no origin is restored because the
      first entry is not after frame 0. The timeline then has no entry at
      frame 0. */
  lemma NegativeAddDropsOrigin(ground: bool)
    ensures var f := AnnotatedFrame(-1, None, ground);
            Added([Origin], f) == [f] && Find(Added([Origin], f), 0).None?
  {
    var f := AnnotatedFrame(-1, None, ground);
    PositionAt([Origin], -1, 0);
    assert ([f] + [Origin])[1..] == [Origin];
    PositionAt([f], 0, 1);
  }
}
