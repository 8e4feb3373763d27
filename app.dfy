/** The application shell's handlers (frontend/src/App.tsx): the 'b' and shift+b shortcuts,
    the bookmark jumps bound to the arrow and bracket keys, loading a file, and opening the
    context menu. Each reads the player state and calls into the annotation store. */
module App {
  import opened Wrappers
  import opened AnnotationTypes
  import BookmarkSet
  import ChunkPartition
  import opened AnnotationStore
  import opened VideoState
  import opened Navigation
  import opened ContextMenu
  import UseAnalysis
  import LineFraming

  /** The 'b' shortcut: a bookmark at the playhead, once a video with a known length is
      loaded. */
  method AddBookmarkHotkey(store: Store, video: VideoStore)
    requires store.Valid()
    modifies store
    ensures store.Valid()
    ensures !(video.hasVideo && video.duration > 0.0) ==>
              store.bookmarks == old(store.bookmarks) && store.nextId == old(store.nextId)
    ensures video.hasVideo && video.duration > 0.0 ==>
              && (BookmarkSet.TooClose(old(store.bookmarks), video.CurrentTime()) ==> store.bookmarks == old(store.bookmarks))
              && (!BookmarkSet.TooClose(old(store.bookmarks), video.CurrentTime()) ==>
                    store.bookmarks == BookmarkSet.AddBookmark(old(store.bookmarks), video.CurrentTime(), old(store.nextId)))
    ensures store.chunks == old(store.chunks) && store.Others() == old(store.Others())
  {
    if video.hasVideo && video.duration > 0.0 {
      store.AddBookmark(video.CurrentTime());
    }
  }

  /** The shift+b shortcut: removes the first bookmark within 0.5 s of the playhead, if
      any, once a video with a known length is loaded. */
  method RemoveNearestHotkey(store: Store, video: VideoStore)
    requires store.Valid()
    modifies store
    ensures store.Valid()
    ensures var k := NearestForRemoval(old(store.bookmarks), video.CurrentTime());
      && (!video.hasVideo || video.duration == 0.0 || k.None? ==>
            store.bookmarks == old(store.bookmarks) && store.undoHistory == old(store.undoHistory))
      && (video.hasVideo && video.duration != 0.0 && k.Some? ==>
            (store.bookmarks, store.undoHistory)
            == BookmarkSet.RemoveBookmark(old(store.bookmarks), old(store.undoHistory), old(store.bookmarks)[k.value].id))
    ensures store.chunks == old(store.chunks) && store.nextId == old(store.nextId)
    ensures store.selectedChunkId == old(store.selectedChunkId) && store.tagPresets == old(store.tagPresets)
    ensures store.globalTags == old(store.globalTags) && store.sectionTags == old(store.sectionTags)
    ensures store.storedPresets == old(store.storedPresets)
  {
    if !video.hasVideo || video.duration == 0.0 {
      return;
    }
    var k := NearestForRemoval(store.bookmarks, video.CurrentTime());
    if k.Some? {
      store.RemoveBookmark(store.bookmarks[k.value].id);
    }
  }

  /** `jumpToBookmark(direction)`: nothing without bookmarks or a video, or when "next"
      finds no bookmark ahead; otherwise the playhead moves to the target and the chunk
      starting within 0.1 s of it, if any, becomes the selection. */
  method JumpToBookmark(store: Store, video: VideoStore, direction: Direction)
    requires store.Valid()
    modifies store, video
    ensures store.Valid()
    ensures var target := JumpTarget(old(store.bookmarks), old(video.CurrentTime()), direction);
      && (old(store.bookmarks) == [] || !video.hasVideo || target.None? ==>
            video.played == old(video.played) && store.selectedChunkId == old(store.selectedChunkId))
      && (old(store.bookmarks) != [] && video.hasVideo && target.Some? ==>
            && video.played == FractionOf(target.value, video.duration)
            && match ChunkPartition.FindNear(store.chunks, target.value)
               case Some(j) => store.selectedChunkId == Some(store.chunks[j].id)
               case None => store.selectedChunkId == old(store.selectedChunkId))
    ensures store.bookmarks == old(store.bookmarks) && store.chunks == old(store.chunks)
    ensures store.undoHistory == old(store.undoHistory) && store.nextId == old(store.nextId)
    ensures store.tagPresets == old(store.tagPresets) && store.storedPresets == old(store.storedPresets)
    ensures store.globalTags == old(store.globalTags) && store.sectionTags == old(store.sectionTags)
    ensures video.hasVideo == old(video.hasVideo) && video.duration == old(video.duration)
    ensures video.isPlaying == old(video.isPlaying) && video.isAnalyzing == old(video.isAnalyzing)
    ensures video.analysisProgress == old(video.analysisProgress)
  {
    if |store.bookmarks| == 0 || !video.hasVideo {
      return;
    }
    var target := JumpTarget(store.bookmarks, video.CurrentTime(), direction);
    if target.None? {
      return;
    }
    video.played := FractionOf(target.value, video.duration);
    var chunk := ChunkPartition.FindNear(store.chunks, target.value);
    if chunk.Some? {
      store.SetSelectedChunkId(Some(store.chunks[chunk.value].id));
    }
  }

  /** `processFile(file)`: empties the bookmarks and chunks, loads the video paused, and
      starts the cut detection. */
  method ProcessFile(store: Store, video: VideoStore, response: UseAnalysis.Response,
                     parse: string -> Option<UseAnalysis.Record>)
    requires store.Valid()
    modifies store, video
    ensures store.Valid()
    ensures video.hasVideo && !video.isPlaying && !video.isAnalyzing
    ensures video.played == old(video.played) && video.duration == old(video.duration)
    ensures store.chunks == []
    ensures !response.Body? ==> store.bookmarks == [] && video.analysisProgress == 0.0
    ensures response.Body? ==>
              UseAnalysis.Tracker(store.bookmarks, store.nextId, video.analysisProgress)
              == UseAnalysis.ApplyLines(UseAnalysis.Tracker([], old(store.nextId), 0.0),
                                        LineFraming.Frame(LineFraming.Concat(response.pieces)).0, parse)
    ensures store.Others() == old(store.Others())
  {
    store.ClearBookmarksAndChunks();
    video.hasVideo := true;
    video.isPlaying := false;
    UseAnalysis.DetectCuts(store, video, true, response, parse);
  }

  /** The context-menu handler: once a video with a known length is loaded, opens the menu
      at the pointer with the playhead time and the target chunk. */
  method OpenContextMenu(store: Store, video: VideoStore, menu: MenuState, atX: real, atY: real)
    modifies menu
    ensures !video.hasVideo || video.duration == 0.0 ==>
              menu.isOpen == old(menu.isOpen) && menu.x == old(menu.x) && menu.y == old(menu.y)
              && menu.time == old(menu.time) && menu.targetChunkId == old(menu.targetChunkId)
    ensures video.hasVideo && video.duration != 0.0 ==>
              && menu.isOpen && menu.x == atX && menu.y == atY && menu.time == Some(video.CurrentTime())
              && menu.targetChunkId == MenuTarget(store.selectedChunkId, store.chunks, video.CurrentTime())
  {
    if !video.hasVideo || video.duration == 0.0 {
      return;
    }
    var t := video.CurrentTime();
    menu.OpenMenu(atX, atY, Some(t), MenuTarget(store.selectedChunkId, store.chunks, t));
  }
}
