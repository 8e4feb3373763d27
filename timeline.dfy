/** The two-level timeline (frontend/src/components/Timeline.tsx): an overview of the whole
    video and a detail view of a 60-second window that follows the playhead. The click
    handlers compute the new played fraction (`None` where the handler returns early); the
    drawing code decides which chunks and bookmarks fall inside the window and where. */
module Timeline {
  import opened Wrappers
  import opened AnnotationTypes
  import BookmarkSet
  import ChunkPartition
  import opened AnnotationStore

  const WindowSize: real := 60.0

  /** `max(0, min(duration - 60, currentTime - 30))`. */
  function WindowStart(duration: real, currentTime: real): real {
    Max(0.0, Min(duration - WindowSize, currentTime - WindowSize / 2.0))
  }

  function WindowEnd(duration: real, currentTime: real): real {
    WindowStart(duration, currentTime) + WindowSize
  }

  /** For a playhead inside the video the window starts in `[0, max(0, duration - 60)]`, is
      exactly 60 s wide, contains the playhead, and ends inside a video of at least 60 s. */
  lemma WindowBounds(duration: real, currentTime: real)
    requires 0.0 <= currentTime <= duration
    ensures var ws, we := WindowStart(duration, currentTime), WindowEnd(duration, currentTime);
      && 0.0 <= ws <= Max(0.0, duration - WindowSize)
      && we - ws == WindowSize
      && ws <= currentTime <= we
      && (duration >= WindowSize ==> we <= duration)
  {
  }

  /** Away from both ends the window is centred on the playhead. */
  lemma WindowCentred(duration: real, currentTime: real)
    requires WindowSize / 2.0 <= currentTime <= duration - WindowSize / 2.0
    ensures WindowStart(duration, currentTime) == currentTime - WindowSize / 2.0
  {
  }

  /** Near the start the window is pinned at 0; near the end of a long video it is pinned
      so that it ends at the duration. */
  lemma WindowPinned(duration: real, currentTime: real)
    ensures currentTime <= WindowSize / 2.0 && duration >= WindowSize ==> WindowStart(duration, currentTime) == 0.0
    ensures currentTime >= duration - WindowSize / 2.0 && duration >= WindowSize ==>
              WindowEnd(duration, currentTime) == duration
    ensures duration <= WindowSize ==> WindowStart(duration, currentTime) == 0.0
  {
  }

  /** Position of a time in the detail view, in percent of its width. */
  function DetailPct(windowStart: real, t: real): real {
    (t - windowStart) / WindowSize * 100.0
  }

  /** The detail playhead is always drawn inside the detail view. */
  lemma PlayheadInView(duration: real, currentTime: real)
    requires 0.0 <= currentTime <= duration
    ensures 0.0 <= DetailPct(WindowStart(duration, currentTime), currentTime) <= 100.0
  {
    WindowBounds(duration, currentTime);
  }

  /** `handleOverviewClick` at offset `x` in a bar `width` pixels wide: the click fraction
      clamped to [0, 1], or `None` while no video length is known. */
  function OverviewClick(duration: real, x: real, width: real): (r: Option<real>)
    requires width > 0.0
    ensures r.None? <==> duration == 0.0
    ensures r.Some? ==> 0.0 <= r.value <= 1.0
    ensures r.Some? && 0.0 <= x <= width ==> r.value * width == x
    ensures r.Some? && x < 0.0 ==> r.value == 0.0
    ensures r.Some? && x > width ==> r.value == 1.0
  {
    if duration == 0.0 then None else Some(Clamp(x / width, 0.0, 1.0))
  }

  /** The time a click at offset `x` in the detail view points at. */
  function ClickTime(duration: real, played: real, x: real, width: real): real
    requires width > 0.0
  {
    WindowStart(duration, played * duration) + (x / width) * WindowSize
  }

  /** `handleDetailClick`: the clicked time clamped to the video, as a fraction of it;
      `None` while no video length is known. */
  function DetailClick(duration: real, played: real, x: real, width: real): (r: Option<real>)
    requires width > 0.0
    ensures r.None? <==> duration == 0.0
    ensures duration > 0.0 ==> r.Some? && 0.0 <= r.value <= 1.0
    ensures duration > 0.0 ==> r.value * duration == Clamp(ClickTime(duration, played, x, width), 0.0, duration)
  {
    if duration == 0.0 then None
    else
      var clamped := Max(0.0, Min(duration, ClickTime(duration, played, x, width)));
      if duration > 0.0 then FractionInUnit(clamped, duration); Some(clamped / duration)
      else Some(clamped / duration)
  }

  lemma FractionInUnit(v: real, d: real)
    requires d > 0.0 && 0.0 <= v <= d
    ensures 0.0 <= v / d <= 1.0
  {
    var q := v / d;
    assert q * d == v;
  }

  lemma ScaleCancels(p: real, w: real)
    requires w > 0.0
    ensures (p * w) / w == p
  {
  }

  /** The pixel offset at which time `t` is drawn in a detail view `width` pixels wide. */
  function DrawnOffset(duration: real, played: real, width: real, t: real): real {
    DetailPct(WindowStart(duration, played * duration), t) / 100.0 * width
  }

  /** Clicking the detail view exactly where a time of the video is drawn seeks to that
      time. */
  lemma DetailClickFindsDrawnTime(duration: real, played: real, width: real, t: real)
    requires duration > 0.0 && width > 0.0
    requires 0.0 <= t <= duration
    ensures DetailClick(duration, played, DrawnOffset(duration, played, width, t), width) == Some(t / duration)
  {
    var ws := WindowStart(duration, played * duration);
    var p := (t - ws) / WindowSize;
    assert DetailPct(ws, t) / 100.0 == p;
    ScaleCancels(p, width);
    var x := DrawnOffset(duration, played, width, t);
    assert x == p * width;
    assert ClickTime(duration, played, x, width) == t;
    assert Max(0.0, Min(duration, t)) == t;
  }

  predicate Within(t: real, lo: real, hi: real) {
    lo <= t <= hi
  }

  /** The part of a chunk drawn in the detail view: `None` when the chunk lies wholly
      outside the window, otherwise its intersection with the window. */
  function ClipChunk(windowStart: real, c: Chunk): (r: Option<(real, real)>)
    ensures r.None? <==> c.endTime < windowStart || c.startTime > windowStart + WindowSize
    ensures r.Some? ==> forall t :: Within(t, r.value.0, r.value.1) <==>
              Within(t, windowStart, windowStart + WindowSize) && Within(t, c.startTime, c.endTime)
    ensures r.Some? && c.startTime <= c.endTime ==> windowStart <= r.value.0 <= r.value.1 <= windowStart + WindowSize
  {
    var windowEnd := windowStart + WindowSize;
    if c.endTime < windowStart || c.startTime > windowEnd then None
    else Some((Max(windowStart, c.startTime), Min(windowEnd, c.endTime)))
  }

  /** The left offset and width, in percent, of a drawn chunk. */
  function ChunkBox(windowStart: real, clipped: (real, real)): (real, real) {
    (DetailPct(windowStart, clipped.0), (clipped.1 - clipped.0) / WindowSize * 100.0)
  }

  /** A drawn chunk's box has non-negative width and stays within the detail view. */
  lemma ChunkBoxInView(windowStart: real, c: Chunk)
    requires c.startTime <= c.endTime
    requires ClipChunk(windowStart, c).Some?
    ensures var (left, width) := ChunkBox(windowStart, ClipChunk(windowStart, c).value);
      0.0 <= left && 0.0 <= width && left + width <= 100.0
  {
    var (a, b) := ClipChunk(windowStart, c).value;
    assert DetailPct(windowStart, a) + (b - a) / WindowSize * 100.0 == (b - windowStart) / WindowSize * 100.0;
  }

  /** A bookmark's marker in the detail view: drawn only when its time lies in the window,
      and then inside the view. */
  function BookmarkMark(windowStart: real, b: Bookmark): (r: Option<real>)
    ensures r.Some? <==> windowStart <= b.time <= windowStart + WindowSize
    ensures r.Some? ==> 0.0 <= r.value <= 100.0
  {
    if b.time < windowStart || b.time > windowStart + WindowSize then None
    else Some(DetailPct(windowStart, b.time))
  }

  /** The effect that re-runs `regenerateChunks(duration)` whenever the bookmarks or the
      duration change: nothing happens until the duration is positive. */
  method RegenerateEffect(store: Store, duration: real)
    requires store.Valid()
    modifies store
    ensures store.Valid()
    ensures duration > 0.0 ==>
              (store.chunks, store.nextId) == ChunkPartition.Regenerate(old(store.chunks), old(store.bookmarks), duration, old(store.nextId))
    ensures duration <= 0.0 ==> store.chunks == old(store.chunks) && store.nextId == old(store.nextId)
    ensures store.bookmarks == old(store.bookmarks) && store.undoHistory == old(store.undoHistory)
    ensures store.selectedChunkId == old(store.selectedChunkId) && store.tagPresets == old(store.tagPresets)
    ensures store.globalTags == old(store.globalTags) && store.sectionTags == old(store.sectionTags)
    ensures store.storedPresets == old(store.storedPresets)
  {
    if duration > 0.0 {
      store.RegenerateChunks(duration);
    }
  }

  /** `handleAddBookmark`: a bookmark at the playhead, unless no video length is known. */
  method HandleAddBookmark(store: Store, played: real, duration: real)
    requires store.Valid()
    modifies store
    ensures store.Valid()
    ensures duration == 0.0 ==> store.bookmarks == old(store.bookmarks) && store.nextId == old(store.nextId)
    ensures duration != 0.0 && BookmarkSet.TooClose(old(store.bookmarks), played * duration) ==>
              store.bookmarks == old(store.bookmarks)
    ensures duration != 0.0 && !BookmarkSet.TooClose(old(store.bookmarks), played * duration) ==>
              store.bookmarks == BookmarkSet.AddBookmark(old(store.bookmarks), played * duration, old(store.nextId))
    ensures store.chunks == old(store.chunks) && store.undoHistory == old(store.undoHistory)
    ensures store.selectedChunkId == old(store.selectedChunkId) && store.tagPresets == old(store.tagPresets)
    ensures store.globalTags == old(store.globalTags) && store.sectionTags == old(store.sectionTags)
    ensures store.storedPresets == old(store.storedPresets)
  {
    if duration != 0.0 {
      store.AddBookmark(played * duration);
    }
  }
}
