/** The chunk partition engine (frontend/src/store/annotationStore.ts, regenerateChunks):
    the sorted bookmarks cut the timeline into contiguous chunks, and a chunk keeps the
    id and tags of the first old chunk whose start lies within 0.1 s of its own. */
module ChunkPartition {
  import opened Wrappers
  import opened AnnotationTypes
  import opened BookmarkSet

  /** Two start times closer than this identify the same chunk. */
  const MatchSeconds: real := 0.1

  predicate Near(a: real, b: real) {
    Abs(a - b) < MatchSeconds
  }

  /** `chunks.find(c => Math.abs(c.startTime - t) < 0.1)`, as the index of the match. */
  function FindNear(chunks: seq<Chunk>, t: real): (r: Option<nat>)
    ensures r.Some? ==> r.value < |chunks| && Near(chunks[r.value].startTime, t)
    ensures r.Some? ==> forall j :: 0 <= j < r.value ==> !Near(chunks[j].startTime, t)
    ensures r.None? ==> forall j :: 0 <= j < |chunks| ==> !Near(chunks[j].startTime, t)
  {
    if chunks == [] then None
    else if Near(chunks[0].startTime, t) then Some(0)
    else
      var r := FindNear(chunks[1..], t);
      assert forall j :: 1 <= j < |chunks| ==> chunks[j] == chunks[1..][j - 1];
      if r.Some? then Some(r.value + 1) else None
  }

  /** The chunk `[start, end]` as `regenerateChunks` pushes it: the id and tags of the
      first old chunk near `start`, or the fresh id `next` and no tags (then the counter
      moves on). */
  function NewChunk(prev: seq<Chunk>, start: real, end: real, next: Id): (r: (Chunk, Id))
  {
    match FindNear(prev, start)
    case Some(j) => (Chunk(prev[j].id, start, end, prev[j].tags), next)
    case None => (Chunk(next, start, end, []), next + 1)
  }

  /** The start of the chunk that ends at bookmark `i`: the previous bookmark, or 0. */
  function StartBefore(s: seq<Bookmark>, i: nat): real
    requires i <= |s|
  {
    if i == 0 then 0.0 else s[i - 1].time
  }

  /** The value of `lastTime` after walking all of `s`. */
  function LastTime(s: seq<Bookmark>): real {
    StartBefore(s, |s|)
  }

  /** The chunks pushed while walking the sorted bookmarks `s`, and the id counter after. */
  function Walk(prev: seq<Chunk>, s: seq<Bookmark>, next: Id): (r: (seq<Chunk>, Id))
    ensures |r.0| == |s|
    ensures r.1 >= next
  {
    if s == [] then ([], next)
    else
      var w := Walk(prev, s[..|s| - 1], next);
      var c := NewChunk(prev, LastTime(s[..|s| - 1]), s[|s| - 1].time, w.1);
      (w.0 + [c.0], c.1)
  }

  /** Whether `regenerateChunks` pushes a trailing chunk up to the duration. */
  predicate HasTrailing(sorted: seq<Bookmark>, duration: real) {
    LastTime(sorted) < duration
  }

  /** The chunk list `regenerateChunks(duration)` computes from the prev chunks and the
      bookmarks, together with the id counter after the fresh ids it drew. */
  function Regenerate(prev: seq<Chunk>, bookmarks: seq<Bookmark>, duration: real, next: Id): (r: (seq<Chunk>, Id))
  {
    Chunks(prev, SortByTime(bookmarks), duration, next)
  }

  /** The walk over the sorted bookmarks followed by the trailing chunk, if any. */
  function Chunks(prev: seq<Chunk>, sorted: seq<Bookmark>, duration: real, next: Id): (r: (seq<Chunk>, Id))
  {
    var w := Walk(prev, sorted, next);
    if HasTrailing(sorted, duration) then
      var c := NewChunk(prev, LastTime(sorted), duration, w.1);
      (w.0 + [c.0], c.1)
    else w
  }

  // ---------------------------------------------------------------------------
  // Reference description of the result

  /** The end of chunk `i` of a partition of `s`: bookmark `i`, or the duration. */
  function EndAt(s: seq<Bookmark>, duration: real, i: nat): real {
    if i < |s| then s[i].time else duration
  }

  /** `cs` has the time ranges of the partition of the sorted bookmarks `s`. */
  predicate PartitionOf(cs: seq<Chunk>, s: seq<Bookmark>, duration: real) {
    && |cs| == |s| + (if HasTrailing(s, duration) then 1 else 0)
    && forall i {:trigger cs[i]} :: 0 <= i < |cs| ==>
         cs[i].startTime == StartBefore(s, i) && cs[i].endTime == EndAt(s, duration, i)
  }

  /** Identity rule: `c` carries the id and tags of the first old chunk near its start,
      or else no tags and a fresh id drawn from `[lo, hi)`. */
  predicate Inherits(prev: seq<Chunk>, c: Chunk, lo: Id, hi: Id) {
    match FindNear(prev, c.startTime)
    case Some(j) => c.id == prev[j].id && c.tags == prev[j].tags
    case None => lo <= c.id < hi && c.tags == []
  }

  predicate IsFresh(prev: seq<Chunk>, c: Chunk) {
    FindNear(prev, c.startTime).None?
  }

  /** Fresh ids are drawn in order, so no two new chunks share a fresh id. */
  predicate FreshIdsIncrease(prev: seq<Chunk>, cs: seq<Chunk>) {
    forall i, j :: 0 <= i < j < |cs| && IsFresh(prev, cs[i]) && IsFresh(prev, cs[j]) ==> cs[i].id < cs[j].id
  }

  lemma {:induction false} WalkTimes(prev: seq<Chunk>, s: seq<Bookmark>, next: Id)
    ensures forall i {:trigger Walk(prev, s, next).0[i]} :: 0 <= i < |s| ==>
      Walk(prev, s, next).0[i].startTime == StartBefore(s, i) && Walk(prev, s, next).0[i].endTime == s[i].time
  {
    if s != [] {
      var n := |s| - 1;
      WalkTimes(prev, s[..n], next);
      var w := Walk(prev, s[..n], next);
      var r := Walk(prev, s, next).0;
      assert r == w.0 + [NewChunk(prev, LastTime(s[..n]), s[n].time, w.1).0];
      forall i | 0 <= i < n
        ensures r[i].startTime == StartBefore(s, i) && r[i].endTime == s[i].time
      {
        assert r[i] == w.0[i];
        assert w.0[i].startTime == StartBefore(s[..n], i) && w.0[i].endTime == s[..n][i].time;
        assert s[..n][i] == s[i];
        if i > 0 { assert s[..n][i - 1] == s[i - 1]; }
      }
      if n > 0 { assert s[..n][n - 1] == s[n - 1]; }
    }
  }

  lemma {:induction false} WalkInherits(prev: seq<Chunk>, s: seq<Bookmark>, next: Id)
    ensures var w := Walk(prev, s, next);
      && (forall i :: 0 <= i < |s| ==> Inherits(prev, w.0[i], next, w.1))
      && FreshIdsIncrease(prev, w.0)
  {
    if s != [] {
      var n := |s| - 1;
      WalkInherits(prev, s[..n], next);
      var w := Walk(prev, s[..n], next);
      var c := NewChunk(prev, LastTime(s[..n]), s[n].time, w.1);
      assert Walk(prev, s, next) == (w.0 + [c.0], c.1);
      AppendInherits(prev, w.0, next, w.1, LastTime(s[..n]), s[n].time);
    }
  }

  /** The shape of `Regenerate`'s result, in terms of the sorted bookmarks. */
  lemma RegenerateShape(prev: seq<Chunk>, bookmarks: seq<Bookmark>, duration: real, next: Id)
    ensures var r := Regenerate(prev, bookmarks, duration, next);
      && PartitionOf(r.0, SortByTime(bookmarks), duration)
      && (forall i :: 0 <= i < |r.0| ==> Inherits(prev, r.0[i], next, r.1))
      && FreshIdsIncrease(prev, r.0)
      && r.1 >= next
  {
    var s := SortByTime(bookmarks);
    WalkTimes(prev, s, next);
    WalkInherits(prev, s, next);
    var w := Walk(prev, s, next);
    if HasTrailing(s, duration) {
      var c := NewChunk(prev, LastTime(s), duration, w.1);
      AppendInherits(prev, w.0, next, w.1, LastTime(s), duration);
      TrailingPartition(w.0, s, duration, c.0);
    } else {
      WalkPartition(w.0, s, duration);
    }
  }

  /** Pushing one more chunk keeps the identity rule and the order of fresh ids. */
  lemma AppendInherits(prev: seq<Chunk>, ws: seq<Chunk>, lo: Id, mid: Id, start: real, end: real)
    requires lo <= mid
    requires forall i :: 0 <= i < |ws| ==> Inherits(prev, ws[i], lo, mid)
    requires FreshIdsIncrease(prev, ws)
    ensures var c := NewChunk(prev, start, end, mid);
      var r := ws + [c.0];
      && (forall i :: 0 <= i < |r| ==> Inherits(prev, r[i], lo, c.1))
      && FreshIdsIncrease(prev, r)
      && c.1 >= mid
  {
    var c := NewChunk(prev, start, end, mid);
    var r := ws + [c.0];
    assert Inherits(prev, c.0, mid, c.1);
    forall i | 0 <= i < |r| ensures Inherits(prev, r[i], lo, c.1) {
      if i < |ws| {
        assert r[i] == ws[i];
      }
    }
    forall i, j | 0 <= i < j < |r| && IsFresh(prev, r[i]) && IsFresh(prev, r[j])
      ensures r[i].id < r[j].id
    {
      assert r[i] == ws[i];
      if j < |ws| {
        assert r[j] == ws[j];
      }
    }
  }

  /** The walk's chunks with no trailing chunk are the partition. */
  lemma WalkPartition(ws: seq<Chunk>, s: seq<Bookmark>, duration: real)
    requires |ws| == |s| && !HasTrailing(s, duration)
    requires forall i :: 0 <= i < |s| ==> ws[i].startTime == StartBefore(s, i) && ws[i].endTime == s[i].time
    ensures PartitionOf(ws, s, duration)
  {
  }

  /** The walk's chunks followed by the trailing chunk are the partition. */
  lemma TrailingPartition(ws: seq<Chunk>, s: seq<Bookmark>, duration: real, c: Chunk)
    requires |ws| == |s| && HasTrailing(s, duration)
    requires forall i :: 0 <= i < |s| ==> ws[i].startTime == StartBefore(s, i) && ws[i].endTime == s[i].time
    requires c.startTime == LastTime(s) && c.endTime == duration
    ensures PartitionOf(ws + [c], s, duration)
  {
    var r := ws + [c];
    forall i | 0 <= i < |r| ensures r[i].startTime == StartBefore(s, i) && r[i].endTime == EndAt(s, duration, i) {
      if i < |s| {
        assert r[i] == ws[i];
      }
    }
  }

  // ---------------------------------------------------------------------------
  // Properties of the partition

  /** The chunks are contiguous: the first starts at 0, chunk `i` ends at sorted bookmark
      `i`, the next one starts there, and there are |bookmarks| chunks plus one trailing
      chunk, which exists exactly when the last boundary is before the duration. */
  lemma RegenerateContiguous(prev: seq<Chunk>, bookmarks: seq<Bookmark>, duration: real, next: Id)
    ensures var cs := Regenerate(prev, bookmarks, duration, next).0;
      var s := SortByTime(bookmarks);
      && |cs| == |bookmarks| + (if LastTime(s) < duration then 1 else 0)
      && (|cs| > 0 ==> cs[0].startTime == 0.0)
      && (forall i :: 0 <= i < |bookmarks| ==> cs[i].endTime == s[i].time)
      && (forall i :: 0 <= i < |cs| - 1 ==> cs[i].endTime == cs[i + 1].startTime)
      && (LastTime(s) < duration <==> |cs| == |bookmarks| + 1)
      && (LastTime(s) < duration ==> cs[|cs| - 1].endTime == duration)
  {
    RegenerateShape(prev, bookmarks, duration, next);
  }

  /** Sorting keeps the bookmarks inside `[0, duration]`. */
  lemma SortedWithin(bookmarks: seq<Bookmark>, duration: real)
    requires forall b :: b in bookmarks ==> 0.0 <= b.time <= duration
    ensures forall i :: 0 <= i < |bookmarks| ==> 0.0 <= SortByTime(bookmarks)[i].time <= duration
  {
    var s := SortByTime(bookmarks);
    forall i | 0 <= i < |s| ensures 0.0 <= s[i].time <= duration {
      assert s[i] in multiset(s);
    }
  }

  /** For bookmarks inside `[0, duration]` with a positive duration, the chunks cover the
      whole video: at least one chunk, from 0 to the duration, each with start <= end. */
  lemma RegenerateCovers(prev: seq<Chunk>, bookmarks: seq<Bookmark>, duration: real, next: Id)
    requires duration > 0.0
    requires forall b :: b in bookmarks ==> 0.0 <= b.time <= duration
    ensures var cs := Regenerate(prev, bookmarks, duration, next).0;
      && |cs| > 0
      && cs[0].startTime == 0.0
      && cs[|cs| - 1].endTime == duration
      && (forall i :: 0 <= i < |cs| ==> 0.0 <= cs[i].startTime <= cs[i].endTime <= duration)
  {
    RegenerateShape(prev, bookmarks, duration, next);
    SortedWithin(bookmarks, duration);
    var s := SortByTime(bookmarks);
  }

  /** Every instant of `[0, duration]` lies in some chunk, so `chunks.find(c => start <= t
      <= end)` succeeds. */
  lemma RegenerateContains(prev: seq<Chunk>, bookmarks: seq<Bookmark>, duration: real, next: Id, t: real)
    requires duration > 0.0
    requires forall b :: b in bookmarks ==> 0.0 <= b.time <= duration
    requires 0.0 <= t <= duration
    ensures var cs := Regenerate(prev, bookmarks, duration, next).0;
      exists i :: 0 <= i < |cs| && cs[i].startTime <= t <= cs[i].endTime
  {
    RegenerateShape(prev, bookmarks, duration, next);
    var cs := Regenerate(prev, bookmarks, duration, next).0;
    SortedWithin(bookmarks, duration);
    var s := SortByTime(bookmarks);
    var k := FirstLater(s, t);
    if k < |s| {
      assert cs[k].startTime <= t <= cs[k].endTime;
    } else if HasTrailing(s, duration) {
      assert cs[|s|].startTime <= t <= cs[|s|].endTime;
    } else {
      assert cs[|s| - 1].startTime <= t <= cs[|s| - 1].endTime;
    }
  }

  /** A bookmark at exactly 0 gives a zero-length first chunk `[0, 0]`. */
  lemma BookmarkAtZeroGivesEmptyChunk(prev: seq<Chunk>, bookmarks: seq<Bookmark>, duration: real, next: Id)
    requires |bookmarks| > 0 && SortByTime(bookmarks)[0].time == 0.0
    ensures var cs := Regenerate(prev, bookmarks, duration, next).0;
      |cs| > 0 && cs[0].startTime == 0.0 && cs[0].endTime == 0.0
  {
    RegenerateShape(prev, bookmarks, duration, next);
  }

  /** A last bookmark beyond the duration gives no trailing chunk, and the last chunk ends
      past the duration. */
  lemma BookmarkBeyondDurationOverhangs(prev: seq<Chunk>, bookmarks: seq<Bookmark>, duration: real, next: Id)
    requires |bookmarks| > 0 && LastTime(SortByTime(bookmarks)) > duration
    ensures var cs := Regenerate(prev, bookmarks, duration, next).0;
      |cs| == |bookmarks| && cs[|cs| - 1].endTime > duration
  {
    RegenerateShape(prev, bookmarks, duration, next);
  }

  /** Two new chunks that start near the same prev chunk both take that chunk's id and tags. */
  lemma NearStartsShareIdentity(prev: seq<Chunk>, bookmarks: seq<Bookmark>, duration: real, next: Id, i: nat, j: nat)
    requires var cs := Regenerate(prev, bookmarks, duration, next).0;
      i < |cs| && j < |cs| && FindNear(prev, cs[i].startTime).Some?
      && FindNear(prev, cs[i].startTime) == FindNear(prev, cs[j].startTime)
    ensures var cs := Regenerate(prev, bookmarks, duration, next).0;
      cs[i].id == cs[j].id && cs[i].tags == cs[j].tags
  {
    RegenerateShape(prev, bookmarks, duration, next);
  }

  // ---------------------------------------------------------------------------
  // Idempotence

  /** Bookmarks whose chunk starts are at least 0.1 s apart: every bookmark at least
      0.1 s after 0 and after each earlier one. */
  predicate Separated(s: seq<Bookmark>) {
    && (forall i :: 0 <= i < |s| ==> MatchSeconds <= s[i].time)
    && (forall i, j :: 0 <= i < j < |s| ==> s[i].time + MatchSeconds <= s[j].time)
  }

  lemma SeparatedStarts(s: seq<Bookmark>, i: nat, j: nat)
    requires Separated(s)
    requires j < i <= |s|
    ensures StartBefore(s, j) + MatchSeconds <= StartBefore(s, i)
  {
    if j > 0 {
      assert s[j - 1].time + MatchSeconds <= s[i - 1].time;
    } else {
      assert MatchSeconds <= s[i - 1].time;
    }
  }

  /** In a partition of separated bookmarks the first chunk near chunk `i`'s start is `i`. */
  lemma FindNearSelf(cs: seq<Chunk>, s: seq<Bookmark>, duration: real, i: nat)
    requires Separated(s)
    requires PartitionOf(cs, s, duration)
    requires i < |cs|
    ensures FindNear(cs, cs[i].startTime) == Some(i)
  {
    var r := FindNear(cs, cs[i].startTime);
    assert Near(cs[i].startTime, cs[i].startTime);
    forall j | 0 <= j < i ensures !Near(cs[j].startTime, cs[i].startTime) {
      SeparatedStarts(s, i, j);
    }
  }

  /** Rebuilding chunk `i` from the partition itself gives back chunk `i`, counter unchanged. */
  lemma NewChunkReproduces(cs: seq<Chunk>, s: seq<Bookmark>, duration: real, i: nat, m: Id)
    requires Separated(s)
    requires PartitionOf(cs, s, duration)
    requires i < |cs|
    ensures NewChunk(cs, StartBefore(s, i), EndAt(s, duration, i), m) == (cs[i], m)
  {
    FindNearSelf(cs, s, duration, i);
  }

  lemma EachChunkReproduces(cs: seq<Chunk>, s: seq<Bookmark>, duration: real, m: Id)
    requires Separated(s)
    requires PartitionOf(cs, s, duration)
    ensures |s| <= |cs|
    ensures forall i {:trigger cs[i]} :: 0 <= i < |s| ==> NewChunk(cs, StartBefore(s, i), s[i].time, m) == (cs[i], m)
  {
    forall i | 0 <= i < |s| ensures NewChunk(cs, StartBefore(s, i), s[i].time, m) == (cs[i], m) {
      NewChunkReproduces(cs, s, duration, i, m);
    }
  }

  /** Re-walking reproduces `cs` when each of its chunks is rebuilt as itself. */
  lemma {:induction false} WalkReproduces(cs: seq<Chunk>, s: seq<Bookmark>, n: Id, k: nat)
    requires k <= |s| <= |cs|
    requires forall i {:trigger cs[i]} :: 0 <= i < |s| ==> NewChunk(cs, StartBefore(s, i), s[i].time, n) == (cs[i], n)
    ensures Walk(cs, s[..k], n) == (cs[..k], n)
  {
    if k > 0 {
      WalkReproduces(cs, s, n, k - 1);
      assert NewChunk(cs, StartBefore(s, k - 1), s[k - 1].time, n) == (cs[k - 1], n);
      WalkReproducesStep(cs, s, n, k);
    }
  }

  lemma WalkReproducesStep(cs: seq<Chunk>, s: seq<Bookmark>, n: Id, k: nat)
    requires 0 < k <= |s| <= |cs|
    requires Walk(cs, s[..k - 1], n) == (cs[..k - 1], n)
    requires NewChunk(cs, StartBefore(s, k - 1), s[k - 1].time, n) == (cs[k - 1], n)
    ensures Walk(cs, s[..k], n) == (cs[..k], n)
  {
    assert s[..k] == s[..k - 1] + [s[k - 1]];
    WalkSnoc(cs, s[..k - 1], s[k - 1], n);
    assert LastTime(s[..k - 1]) == StartBefore(s, k - 1);
    assert cs[..k - 1] + [cs[k - 1]] == cs[..k];
  }

  /** Regenerating over a partition of separated bookmarks changes nothing: every chunk
      finds itself as its own match, so ids, tags and the counter stay as they are. */
  lemma RegenerateFixesPartition(cs: seq<Chunk>, bookmarks: seq<Bookmark>, duration: real, n: Id)
    requires Separated(SortByTime(bookmarks))
    requires PartitionOf(cs, SortByTime(bookmarks), duration)
    ensures Regenerate(cs, bookmarks, duration, n) == (cs, n)
  {
    ChunksFixPartition(cs, SortByTime(bookmarks), duration, n);
  }

  lemma ChunksFixPartition(cs: seq<Chunk>, s: seq<Bookmark>, duration: real, n: Id)
    requires Separated(s)
    requires PartitionOf(cs, s, duration)
    ensures Chunks(cs, s, duration, n) == (cs, n)
  {
    EachChunkReproduces(cs, s, duration, n);
    WalkReproduces(cs, s, n, |s|);
    assert s[..|s|] == s;
    if HasTrailing(s, duration) {
      NewChunkReproduces(cs, s, duration, |s|, n);
      ChunksWithTrailing(cs, s, duration, n);
    } else {
      assert |cs| == |s|;
      assert cs[..|s|] == cs;
    }
  }

  /** The walk reproduces all chunks but the last, and the trailing chunk reproduces the last. */
  lemma ChunksWithTrailing(cs: seq<Chunk>, s: seq<Bookmark>, duration: real, n: Id)
    requires |cs| == |s| + 1 && HasTrailing(s, duration)
    requires Walk(cs, s[..|s|], n) == (cs[..|s|], n)
    requires NewChunk(cs, StartBefore(s, |s|), EndAt(s, duration, |s|), n) == (cs[|s|], n)
    ensures Chunks(cs, s, duration, n) == (cs, n)
  {
    assert s[..|s|] == s;
    assert cs[..|s|] + [cs[|s|]] == cs;
  }

  /** Regenerating twice with unchanged bookmarks and duration keeps every id and tag,
      provided the chunk starts are at least 0.1 s apart. */
  lemma RegenerateIdempotent(prev: seq<Chunk>, bookmarks: seq<Bookmark>, duration: real, next: Id)
    requires Separated(SortByTime(bookmarks))
    ensures var r := Regenerate(prev, bookmarks, duration, next);
      Regenerate(r.0, bookmarks, duration, r.1) == r
  {
    var r := Regenerate(prev, bookmarks, duration, next);
    RegenerateShape(prev, bookmarks, duration, next);
    RegenerateFixesPartition(r.0, bookmarks, duration, r.1);
  }

  /** Without `Separated` a second regeneration can change ids: a bookmark at 0.05 s
      gives chunks starting at 0 and 0.05, and on the next run the `find` for the start
      0.05 hits the chunk starting at 0 first, so the second chunk takes over the first
      chunk's id. */
  lemma ExampleNearZeroNotIdempotent()
    ensures var b := [Bookmark(7, 0.05)];
      var r := Regenerate([], b, 100.0, 0);
      && r == ([Chunk(0, 0.0, 0.05, []), Chunk(1, 0.05, 100.0, [])], 2)
      && Regenerate(r.0, b, 100.0, r.1) == ([Chunk(0, 0.0, 0.05, []), Chunk(0, 0.05, 100.0, [])], 2)
      && Regenerate(r.0, b, 100.0, r.1) != r
  {
    var bk := Bookmark(7, 0.05);
    var first := [Chunk(0, 0.0, 0.05, []), Chunk(1, 0.05, 100.0, [])];
    NearZeroFirstRun(bk);
    NearZeroSecondRun(bk, first);
    assert Chunk(0, 0.05, 100.0, []) != Chunk(1, 0.05, 100.0, []);
  }

  lemma NearZeroFirstRun(bk: Bookmark)
    requires bk == Bookmark(7, 0.05)
    ensures Regenerate([], [bk], 100.0, 0) == ([Chunk(0, 0.0, 0.05, []), Chunk(1, 0.05, 100.0, [])], 2)
  {
    SortSortedIsIdentity([bk]);
    WalkOne([], bk, 0);
    assert NewChunk([], 0.0, 0.05, 0) == (Chunk(0, 0.0, 0.05, []), 1);
    assert LastTime([bk]) == 0.05;
    assert NewChunk([], 0.05, 100.0, 1) == (Chunk(1, 0.05, 100.0, []), 2);
    assert [Chunk(0, 0.0, 0.05, [])] + [Chunk(1, 0.05, 100.0, [])] == [Chunk(0, 0.0, 0.05, []), Chunk(1, 0.05, 100.0, [])];
  }

  lemma NearZeroSecondRun(bk: Bookmark, prev: seq<Chunk>)
    requires bk == Bookmark(7, 0.05)
    requires prev == [Chunk(0, 0.0, 0.05, []), Chunk(1, 0.05, 100.0, [])]
    ensures Regenerate(prev, [bk], 100.0, 2) == ([Chunk(0, 0.0, 0.05, []), Chunk(0, 0.05, 100.0, [])], 2)
  {
    SortSortedIsIdentity([bk]);
    WalkOne(prev, bk, 2);
    assert FindNear(prev, 0.0) == Some(0);
    assert FindNear(prev, 0.05) == Some(0);
    assert NewChunk(prev, 0.0, 0.05, 2) == (Chunk(0, 0.0, 0.05, []), 2);
    assert LastTime([bk]) == 0.05;
    assert NewChunk(prev, 0.05, 100.0, 2) == (Chunk(0, 0.05, 100.0, []), 2);
    assert [Chunk(0, 0.0, 0.05, [])] + [Chunk(0, 0.05, 100.0, [])] == [Chunk(0, 0.0, 0.05, []), Chunk(0, 0.05, 100.0, [])];
  }

  // ---------------------------------------------------------------------------
  // Worked scenarios

  /** One more bookmark adds one chunk from the previous boundary to it. */
  lemma WalkSnoc(prev: seq<Chunk>, s: seq<Bookmark>, b: Bookmark, next: Id)
    ensures var w := Walk(prev, s, next);
      var c := NewChunk(prev, LastTime(s), b.time, w.1);
      Walk(prev, s + [b], next) == (w.0 + [c.0], c.1)
  {
    assert (s + [b])[..|s|] == s;
  }

  /** The walk over a single bookmark: one chunk from 0 to it. */
  lemma WalkOne(prev: seq<Chunk>, b: Bookmark, next: Id)
    ensures var c := NewChunk(prev, 0.0, b.time, next);
      Walk(prev, [b], next) == ([c.0], c.1)
  {
    var e: seq<Bookmark> := [];
    WalkSnoc(prev, e, b, next);
    assert e + [b] == [b];
    assert Walk(prev, e, next) == ([], next);
    assert LastTime(e) == 0.0;
    var c := NewChunk(prev, 0.0, b.time, next);
    assert [] + [c.0] == [c.0];
  }

  /** The walk over two bookmarks: from 0 to the first, then from the first to the second. */
  lemma WalkTwo(prev: seq<Chunk>, b1: Bookmark, b2: Bookmark, next: Id)
    ensures var c0 := NewChunk(prev, 0.0, b1.time, next);
      var c1 := NewChunk(prev, b1.time, b2.time, c0.1);
      Walk(prev, [b1, b2], next) == ([c0.0, c1.0], c1.1)
  {
    WalkOne(prev, b1, next);
    WalkSnoc(prev, [b1], b2, next);
    assert [b1] + [b2] == [b1, b2];
    assert LastTime([b1]) == b1.time;
    var c0 := NewChunk(prev, 0.0, b1.time, next);
    var c1 := NewChunk(prev, b1.time, b2.time, c0.1);
    assert [c0.0] + [c1.0] == [c0.0, c1.0];
  }

  /** Duration 100 with bookmarks at 10 and 40 gives the chunks [0,10], [10,40], [40,100],
      all fresh when there were no chunks before. */
  lemma ExampleHundredSeconds()
    ensures Regenerate([], [Bookmark(1, 10.0), Bookmark(2, 40.0)], 100.0, 0)
         == ([Chunk(0, 0.0, 10.0, []), Chunk(1, 10.0, 40.0, []), Chunk(2, 40.0, 100.0, [])], 3)
  {
    var b1, b2 := Bookmark(1, 10.0), Bookmark(2, 40.0);
    var c0, c1, c2 := Chunk(0, 0.0, 10.0, []), Chunk(1, 10.0, 40.0, []), Chunk(2, 40.0, 100.0, []);
    SortSortedIsIdentity([b1, b2]);
    WalkTwo([], b1, b2, 0);
    assert NewChunk([], 0.0, 10.0, 0) == (c0, 1);
    assert NewChunk([], 10.0, 40.0, 1) == (c1, 2);
    assert LastTime([b1, b2]) == 40.0;
    assert NewChunk([], 40.0, 100.0, 2) == (c2, 3);
    assert [c0, c1] + [c2] == [c0, c1, c2];
  }

  /** Removing the bookmark at 10 and bringing it back: the chunk [0,40] in between
      started at 0, so on the way back no old chunk starts near 10 and the middle chunk
      gets a fresh id, while the first and last chunks keep theirs. */
  lemma ExampleUndoMiddleLosesIdentity()
    ensures var before := [Chunk(0, 0.0, 10.0, []), Chunk(1, 10.0, 40.0, []), Chunk(2, 40.0, 100.0, [])];
      var removed := Regenerate(before, [Bookmark(2, 40.0)], 100.0, 3);
      && removed == ([Chunk(0, 0.0, 40.0, []), Chunk(2, 40.0, 100.0, [])], 3)
      && Regenerate(removed.0, [Bookmark(1, 10.0), Bookmark(2, 40.0)], 100.0, removed.1)
         == ([Chunk(0, 0.0, 10.0, []), Chunk(3, 10.0, 40.0, []), Chunk(2, 40.0, 100.0, [])], 4)
  {
    RegenerateAfterRemoval();
    RegenerateAfterUndo();
  }

  lemma RegenerateAfterRemoval()
    ensures Regenerate([Chunk(0, 0.0, 10.0, []), Chunk(1, 10.0, 40.0, []), Chunk(2, 40.0, 100.0, [])],
                       [Bookmark(2, 40.0)], 100.0, 3)
         == ([Chunk(0, 0.0, 40.0, []), Chunk(2, 40.0, 100.0, [])], 3)
  {
    var b2 := Bookmark(2, 40.0);
    var before := [Chunk(0, 0.0, 10.0, []), Chunk(1, 10.0, 40.0, []), Chunk(2, 40.0, 100.0, [])];
    var d0, d1 := Chunk(0, 0.0, 40.0, []), Chunk(2, 40.0, 100.0, []);
    SortSortedIsIdentity([b2]);
    WalkOne(before, b2, 3);
    assert FindNear(before, 0.0) == Some(0);
    assert FindNear(before, 40.0) == Some(2);
    assert NewChunk(before, 0.0, 40.0, 3) == (d0, 3);
    assert LastTime([b2]) == 40.0;
    assert NewChunk(before, 40.0, 100.0, 3) == (d1, 3);
    assert [d0] + [d1] == [d0, d1];
  }

  lemma RegenerateAfterUndo()
    ensures Regenerate([Chunk(0, 0.0, 40.0, []), Chunk(2, 40.0, 100.0, [])],
                       [Bookmark(1, 10.0), Bookmark(2, 40.0)], 100.0, 3)
         == ([Chunk(0, 0.0, 10.0, []), Chunk(3, 10.0, 40.0, []), Chunk(2, 40.0, 100.0, [])], 4)
  {
    var b1, b2 := Bookmark(1, 10.0), Bookmark(2, 40.0);
    var mid := [Chunk(0, 0.0, 40.0, []), Chunk(2, 40.0, 100.0, [])];
    var c0, c1, c2 := Chunk(0, 0.0, 10.0, []), Chunk(3, 10.0, 40.0, []), Chunk(2, 40.0, 100.0, []);
    SortSortedIsIdentity([b1, b2]);
    WalkTwo(mid, b1, b2, 3);
    assert FindNear(mid, 0.0) == Some(0);
    assert FindNear(mid, 10.0) == None;
    assert FindNear(mid, 40.0) == Some(1);
    assert NewChunk(mid, 0.0, 10.0, 3) == (c0, 3);
    assert NewChunk(mid, 10.0, 40.0, 3) == (c1, 4);
    assert LastTime([b1, b2]) == 40.0;
    assert NewChunk(mid, 40.0, 100.0, 4) == (c2, 4);
    assert [c0, c1] + [c2] == [c0, c1, c2];
  }

  /** Two new chunks whose starts (0 and 0.05) are both within 0.1 s of one old chunk take
      the same id. */
  lemma ExampleSharedId(tags: seq<Tag>)
    ensures Regenerate([Chunk(7, 0.0, 100.0, tags)], [Bookmark(1, 0.05)], 100.0, 8)
         == ([Chunk(7, 0.0, 0.05, tags), Chunk(7, 0.05, 100.0, tags)], 8)
  {
    var b := Bookmark(1, 0.05);
    SortSortedIsIdentity([b]);
    WalkSnoc([Chunk(7, 0.0, 100.0, tags)], [], b, 8);
    assert [] + [b] == [b];
    var prev := [Chunk(7, 0.0, 100.0, tags)];
    assert FindNear(prev, 0.0) == Some(0);
    assert FindNear(prev, 0.05) == Some(0);
    assert Walk(prev, [], 8) == ([], 8);
    assert NewChunk(prev, 0.0, 0.05, 8) == (Chunk(7, 0.0, 0.05, tags), 8);
    assert LastTime([]) == 0.0;
    assert Walk(prev, [] + [b], 8) == ([] + [Chunk(7, 0.0, 0.05, tags)], 8);
    assert [] + [Chunk(7, 0.0, 0.05, tags)] == [Chunk(7, 0.0, 0.05, tags)];
    assert Walk(prev, [b], 8) == ([Chunk(7, 0.0, 0.05, tags)], 8);
    assert LastTime([b]) == 0.05;
    assert NewChunk(prev, 0.05, 100.0, 8) == (Chunk(7, 0.05, 100.0, tags), 8);
    assert [Chunk(7, 0.0, 0.05, tags)] + [Chunk(7, 0.05, 100.0, tags)]
        == [Chunk(7, 0.0, 0.05, tags), Chunk(7, 0.05, 100.0, tags)];
  }
}
