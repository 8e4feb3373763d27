/** Bookmark navigation and target selection shared by the keyboard shortcuts
    (frontend/src/App.tsx:67-94, 46-55, 145-157) and the player's skip buttons
    (frontend/src/components/VideoPlayer.tsx:105-125): "next" skips to the first bookmark
    more than 0.5 s ahead, "previous" to the last one more than 0.5 s behind, or to 0. */
module Navigation {
  import opened Wrappers
  import opened AnnotationTypes
  import BookmarkSet
  import ChunkPartition

  /** The guard band around the playhead: a bookmark this close does not count as "next"
      or "previous". */
  const GuardSeconds: real := 0.5

  datatype Direction = Next | Prev

  /** `bookmarks.find(b => b.time > bound)`, as the index of the match. */
  function FirstAfter(s: seq<Bookmark>, bound: real): (r: Option<nat>)
    ensures r.Some? ==> r.value < |s| && s[r.value].time > bound
    ensures r.Some? ==> forall j :: 0 <= j < r.value ==> s[j].time <= bound
    ensures r.None? ==> forall j :: 0 <= j < |s| ==> s[j].time <= bound
  {
    if s == [] then None
    else if s[0].time > bound then Some(0)
    else match FirstAfter(s[1..], bound)
      case None => None
      case Some(k) => Some(k + 1)
  }

  /** `[...bookmarks].reverse().find(b => b.time < bound)`, as the index of the match. */
  function LastBefore(s: seq<Bookmark>, bound: real): (r: Option<nat>)
    ensures r.Some? ==> r.value < |s| && s[r.value].time < bound
    ensures r.Some? ==> forall j :: r.value < j < |s| ==> s[j].time >= bound
    ensures r.None? ==> forall j :: 0 <= j < |s| ==> s[j].time >= bound
  {
    if s == [] then None
    else if s[|s| - 1].time < bound then Some(|s| - 1)
    else LastBefore(s[..|s| - 1], bound)
  }

  /** The time "next" jumps to, if any. */
  function NextTarget(s: seq<Bookmark>, currentTime: real): Option<real> {
    match FirstAfter(s, currentTime + GuardSeconds)
    case Some(k) => Some(s[k].time)
    case None => None
  }

  /** The time "previous" jumps to: the last bookmark before the guard band, else 0. */
  function PrevTarget(s: seq<Bookmark>, currentTime: real): real {
    match LastBefore(s, currentTime - GuardSeconds)
    case Some(k) => s[k].time
    case None => 0.0
  }

  /** On the sorted bookmark list, "next" is the earliest bookmark more than 0.5 s ahead,
      and there is none exactly when no bookmark lies beyond the guard band. */
  lemma NextIsNearestAhead(s: seq<Bookmark>, currentTime: real)
    requires BookmarkSet.SortedByTime(s)
    ensures NextTarget(s, currentTime).None? <==> forall b :: b in s ==> b.time <= currentTime + GuardSeconds
    ensures NextTarget(s, currentTime).Some? ==>
              && NextTarget(s, currentTime).value > currentTime + GuardSeconds
              && (exists b :: b in s && b.time == NextTarget(s, currentTime).value)
              && forall b :: b in s && b.time > currentTime + GuardSeconds ==> NextTarget(s, currentTime).value <= b.time
  {
    var r := FirstAfter(s, currentTime + GuardSeconds);
    if r.Some? {
      var k := r.value;
      forall b | b in s && b.time > currentTime + GuardSeconds ensures s[k].time <= b.time {
        var j :| 0 <= j < |s| && s[j] == b;
      }
      assert s[k] in s;
    } else {
      forall b | b in s ensures b.time <= currentTime + GuardSeconds {
        var j :| 0 <= j < |s| && s[j] == b;
      }
    }
  }

  /** On the sorted bookmark list, "previous" is the latest bookmark more than 0.5 s behind,
      or 0 when there is none. */
  lemma PrevIsNearestBehind(s: seq<Bookmark>, currentTime: real)
    requires BookmarkSet.SortedByTime(s)
    ensures (forall b :: b in s ==> b.time >= currentTime - GuardSeconds) ==> PrevTarget(s, currentTime) == 0.0
    ensures (exists b :: b in s && b.time < currentTime - GuardSeconds) ==>
              && PrevTarget(s, currentTime) < currentTime - GuardSeconds
              && (exists b :: b in s && b.time == PrevTarget(s, currentTime))
              && forall b :: b in s && b.time < currentTime - GuardSeconds ==> b.time <= PrevTarget(s, currentTime)
  {
    var r := LastBefore(s, currentTime - GuardSeconds);
    if r.Some? {
      var k := r.value;
      forall b | b in s && b.time < currentTime - GuardSeconds ensures b.time <= s[k].time {
        var j :| 0 <= j < |s| && s[j] == b;
      }
      assert s[k] in s;
    } else {
      forall b | b in s ensures b.time >= currentTime - GuardSeconds {
        var j :| 0 <= j < |s| && s[j] == b;
      }
    }
  }

  /** Where a jump lands: `None` when "next" finds nothing and the handler returns. */
  function JumpTarget(s: seq<Bookmark>, currentTime: real, direction: Direction): Option<real> {
    match direction
    case Next => NextTarget(s, currentTime)
    case Prev => Some(PrevTarget(s, currentTime))
  }

  /** `target / (duration || 1)`: the played fraction of a time. */
  function FractionOf(t: real, duration: real): real {
    if duration == 0.0 then t else t / duration
  }

  /** A jump target in the video gives a played fraction in [0, 1] whose time is the target. */
  lemma FractionOfTarget(t: real, duration: real)
    requires duration > 0.0 && 0.0 <= t <= duration
    ensures 0.0 <= FractionOf(t, duration) <= 1.0
    ensures FractionOf(t, duration) * duration == t
  {
    var q := t / duration;
    assert q * duration == t;
  }

  /** `bookmarks.find(b => Math.abs(b.time - currentTime) < 0.5)` for shift+b, as an index:
      there is one exactly when adding a bookmark at the playhead would be rejected. */
  function NearestForRemoval(s: seq<Bookmark>, currentTime: real): (r: Option<nat>)
    ensures r.Some? ==> r.value < |s| && Abs(s[r.value].time - currentTime) < GuardSeconds
    ensures r.Some? ==> forall j :: 0 <= j < r.value ==> Abs(s[j].time - currentTime) >= GuardSeconds
    ensures r.None? <==> !BookmarkSet.TooClose(s, currentTime)
  {
    if s == [] then None
    else if Abs(s[0].time - currentTime) < GuardSeconds then Some(0)
    else
      var rest := NearestForRemoval(s[1..], currentTime);
      TooCloseTail(s, currentTime);
      match rest
      case None => None
      case Some(k) => Some(k + 1)
  }

  lemma TooCloseTail(s: seq<Bookmark>, t: real)
    requires s != [] && Abs(s[0].time - t) >= GuardSeconds
    ensures BookmarkSet.TooClose(s, t) <==> BookmarkSet.TooClose(s[1..], t)
  {
    if BookmarkSet.TooClose(s, t) {
      var i :| 0 <= i < |s| && Abs(s[i].time - t) < BookmarkSet.ProximitySeconds;
      assert s[1..][i - 1] == s[i];
    }
    if BookmarkSet.TooClose(s[1..], t) {
      var i :| 0 <= i < |s[1..]| && Abs(s[1..][i].time - t) < BookmarkSet.ProximitySeconds;
      assert s[i + 1] == s[1..][i];
    }
  }

  /** `chunks.find(c => currentTime >= c.startTime && currentTime <= c.endTime)`. */
  function ContainingChunk(chunks: seq<Chunk>, t: real): (r: Option<nat>)
    ensures r.Some? ==> r.value < |chunks| && chunks[r.value].startTime <= t <= chunks[r.value].endTime
    ensures r.Some? ==> forall j :: 0 <= j < r.value ==> !(chunks[j].startTime <= t <= chunks[j].endTime)
    ensures r.None? ==> forall j :: 0 <= j < |chunks| ==> !(chunks[j].startTime <= t <= chunks[j].endTime)
  {
    if chunks == [] then None
    else if chunks[0].startTime <= t <= chunks[0].endTime then Some(0)
    else match ContainingChunk(chunks[1..], t)
      case None => None
      case Some(k) => Some(k + 1)
  }

  /** The chunk the context menu acts on: the selected chunk if any, else the chunk under
      the playhead, else none. */
  function MenuTarget(selected: Option<Id>, chunks: seq<Chunk>, t: real): (r: Option<Id>)
    ensures selected.Some? ==> r == selected
    ensures selected.None? && r.Some? ==> exists j :: 0 <= j < |chunks| && chunks[j].id == r.value
                                            && chunks[j].startTime <= t <= chunks[j].endTime
    ensures selected.None? && r.None? ==> forall j :: 0 <= j < |chunks| ==> !(chunks[j].startTime <= t <= chunks[j].endTime)
  {
    if selected.Some? then selected
    else match ContainingChunk(chunks, t)
      case Some(j) => Some(chunks[j].id)
      case None => None
  }

  /** On a regenerated chunk list of a video with its bookmarks inside, some chunk lies under
      every playhead position, so the menu always has a target. */
  lemma MenuTargetOnPartition(prev: seq<Chunk>, bookmarks: seq<Bookmark>, duration: real, next: Id, t: real)
    requires duration > 0.0
    requires forall b :: b in bookmarks ==> 0.0 <= b.time <= duration
    requires 0.0 <= t <= duration
    ensures MenuTarget(None, ChunkPartition.Regenerate(prev, bookmarks, duration, next).0, t).Some?
  {
    ChunkPartition.RegenerateContains(prev, bookmarks, duration, next, t);
  }
}
