# Baseball video annotator: annotation engine

This project is a Dafny model, with proofs, of the annotation engine of a tool for marking up
baseball videos. With the tool a user loads a video and marks *bookmarks* (cut points) on it by
hand or through automatic cut detection. It splits the video at the bookmarks into *chunks*
and tags the chunks. The whole annotation is exported as one JSON document.

The modelled parts:

- **The annotation store** (`frontend/src/store/annotationStore.ts`):
  - the bookmark list, kept sorted by time, with the 0.5 s proximity rule;
  - the 50-entry undo history;
  - regenerating chunks from the bookmarks, where a new chunk inherits the id and tags of an
    old chunk that starts within 0.1 s;
  - per-chunk tag edits;
  - the tag-preset registry and its initialisation cascade: stored registry, then legacy
    lists, then `preset_tags.json`, then built-in defaults.

  The store is the class `AnnotationStore.Store`. Each of its methods is proved against the
  pure functions of `BookmarkSet`, `ChunkPartition`, `ChunkTags` and `TagPresets`. The
  lemmas about the store's behaviour are proved about those functions.
- **The timeline** (`Timeline.tsx`):
  - the 60-second detail window;
  - the overview and detail click handlers;
  - chunk clipping and bookmark markers;
  - the effect that regenerates chunks;
  - the "add bookmark" button;
  - `formatTime`.
- **The application shell** (`App.tsx`):
  - the `b` and shift+b shortcuts;
  - bookmark navigation;
  - `processFile`;
  - the context-menu handler.
- **The player** (`VideoPlayer.tsx`):
  - the sync between the element and the store;
  - time updates;
  - wheel scrubbing;
  - the skip buttons;
  - its `formatTime`.
- **The analysis hook** (`useAnalysis.ts`): newline framing of the streamed reply, and
  dispatch of each record into the stores.
- **The context-menu store** and **the export document**.
- **The cut-detection endpoint** (`backend/main.py`). Its loop is over per-frame
  grey-level differences:
  - the threshold and minimum-interval gate;
  - progress every 5 %;
  - the result and error records;
  - the 400 reply when the upload is not a video.
- **`add_analysis_to_html`** (`src/utils/visualization.py`): builds the analysis note and
  inserts it after the first `<body>`.

State that the source changes in place is modelled as classes with `modifies` clauses:
- the annotation store (`AnnotationStore.Store`);
- the player state (`VideoState.VideoStore`);
- the context menu (`ContextMenu.MenuState`);
- the media element (`VideoPlayer.MediaElement`).

Loops that update variables are methods with loop invariants:
- the chunk walk;
- the read loop and the line loop of the hook;
- the backend frame loop.

Everything else is pure functions and lemmas.

Identifiers are natural numbers. Fresh ones are drawn from the store's counter `nextId`, which
stands for `uuidv4()`. Times are exact reals. JavaScript's truncating `%`, `Math.trunc` and
Python's `int()` are written out explicitly (`TimeFormat.JsRem`, `TimeFormat.Trunc`).

Where the code and its description differ, the model follows the code. Three examples:
- `undo` re-inserts the deleted bookmark without re-checking the 0.5 s rule, so an undo can
  leave two bookmarks closer than 0.5 s (`BookmarkSet.UndoCanBreakSpacing`).
- Loading a file clears the bookmarks and chunks but not the undo history.
- Regeneration keeps ids and tags unchanged (`ChunkPartition.RegenerateIdempotent`) only when
  every bookmark is at least 0.1 s after 0 and after the one before it (`Separated`). Without
  that, the chunk-matching `find` can hit an earlier chunk first. With one bookmark at 0.05 s a
  second regeneration gives the chunk starting at 0.05 the id of the chunk starting at 0, and a
  tag on it is lost (`ChunkPartition.ExampleNearZeroNotIdempotent`,
  `ChunkTags.ExampleTagLostNearZero`). Such a bookmark can arise: the backend can report a cut
  at frame 1, which is 1/fps s in, and a bookmark at 0 or an undo can leave two bookmarks
  closer than 0.1 s.

## Model

| member | source | states |
|---|---|---|
| Wrappers.Clamp | frontend/src/components/Timeline.tsx:36 | `Math.max(lo, Math.min(hi, x))` lies in `[lo, hi]`. It is `x` inside the range and the nearer bound outside. |
| Wrappers.IndexOf | frontend/src/hooks/useAnalysis.ts:37 | The first position of a character: that position holds it, and no earlier one does. |
| BookmarkSet.FirstLater | frontend/src/store/annotationStore.ts:136 | The index that splits the bookmarks into those not later than `t` and the first strictly later one. |
| BookmarkSet.FirstLaterIs | frontend/src/store/annotationStore.ts:136 | That splitting index is unique. |
| BookmarkSet.InsertByTime | frontend/src/store/annotationStore.ts:136 | A stable insertion adds exactly one element. |
| BookmarkSet.InsertSplits | frontend/src/store/annotationStore.ts:136 | Insertion puts the new bookmark after every bookmark not later than it, and keeps the rest in order. |
| BookmarkSet.InsertKeepsOrder | frontend/src/store/annotationStore.ts:136 | Inserting into a sorted list gives a sorted list holding the old elements plus the new one. |
| BookmarkSet.SortByTime | frontend/src/store/annotationStore.ts:136 | `sort((a, b) => a.time - b.time)` returns a sorted permutation of its input. |
| BookmarkSet.SortSortedIsIdentity | frontend/src/store/annotationStore.ts:166 | The sort is stable: a list that is already sorted comes back unchanged. |
| BookmarkSet.SortAppendIsInsert | frontend/src/store/annotationStore.ts:136 | Sorting a sorted list with one bookmark appended equals one stable insertion. |
| BookmarkSet.AddBookmark | frontend/src/store/annotationStore.ts:129-139 | A time strictly within 0.5 s of an existing bookmark leaves the list unchanged. Otherwise the list becomes the sorted permutation with the new bookmark added. |
| BookmarkSet.AddToSortedInserts | frontend/src/store/annotationStore.ts:136 | On a sorted list, an accepted bookmark goes after every bookmark not later than it. |
| BookmarkSet.AddKeepsSpacing | frontend/src/store/annotationStore.ts:131-134 | `addBookmark` keeps every pair of bookmarks at least 0.5 s apart. |
| BookmarkSet.SecondCloseAddRejected | frontend/src/store/annotationStore.ts:132-134 | Once a bookmark is accepted, a second one within 0.5 s of it is rejected. |
| BookmarkSet.FindById | frontend/src/store/annotationStore.ts:143-144 | `find` by id: `None` exactly when the id is absent; otherwise the first index holding it. |
| BookmarkSet.WithoutId | frontend/src/store/annotationStore.ts:146 | The filter drops every bookmark with that id, and is the identity when the id is absent. |
| BookmarkSet.WithoutIdMembers | frontend/src/store/annotationStore.ts:146 | The filter keeps exactly the bookmarks with another id. |
| BookmarkSet.WithoutIdKeepsOrder | frontend/src/store/annotationStore.ts:146 | Filtering keeps a list sorted. |
| BookmarkSet.PushHistory | frontend/src/store/annotationStore.ts:147 | `[target, ...history].slice(0, 50)`: the removed bookmark comes first, followed by the newest entries of the old history, capped at 50. |
| BookmarkSet.RemoveBookmark | frontend/src/store/annotationStore.ts:141-150 | An unknown id changes nothing. Otherwise the bookmark leaves the list and becomes the newest history entry, and the history stays within 50. |
| BookmarkSet.Undo | frontend/src/store/annotationStore.ts:152-162 | An empty history changes nothing. Otherwise the newest deleted bookmark rejoins the list, which stays a sorted permutation, and it leaves the history. |
| BookmarkSet.UndoCanBreakSpacing | frontend/src/store/annotationStore.ts:156 | Undo does not re-check the proximity rule: it can restore a bookmark 0.2 s from another. |
| BookmarkSet.RemoveThenUndoRestores | frontend/src/store/annotationStore.ts:141-162 | With unique ids and strictly increasing times, remove followed by undo restores the list. The history is restored too, except that a full history of 50 loses its oldest entry. |
| BookmarkSet.RemoveAtKeepsOrder | frontend/src/store/annotationStore.ts:146 | Dropping one element keeps a list sorted. |
| BookmarkSet.ReinsertAtRestores | frontend/src/store/annotationStore.ts:156 | With strictly increasing times, re-inserting a dropped element puts it back in its place. |
| BookmarkSet.WithoutIdSplit | frontend/src/store/annotationStore.ts:146 | Filtering an id that occurs once removes exactly that element. |
| BookmarkSet.UniqueIdsSplit | frontend/src/store/annotationStore.ts:143 | With unique ids, the id at an index occurs nowhere else. |
| BookmarkSet.WithoutIdConcat | frontend/src/store/annotationStore.ts:146 | The filter distributes over concatenation. |
| ChunkPartition.FindNear | frontend/src/store/annotationStore.ts:173 | `chunks.find(c => Math.abs(c.startTime - t) < 0.1)`: the first chunk that starts within 0.1 s, or none at all. |
| ChunkPartition.NewChunk | frontend/src/store/annotationStore.ts:173-180 | The find-or-mint rule for one chunk: the id and tags of the first old chunk near its start, or the next fresh id and no tags. Its properties are stated by `WalkInherits`, `NewChunkReproduces` and `NearStartsShareIdentity`. |
| ChunkPartition.Walk | frontend/src/store/annotationStore.ts:171-183 | The walk pushes one chunk per bookmark and never moves the id counter back. |
| ChunkPartition.WalkTimes | frontend/src/store/annotationStore.ts:175-182 | Chunk i of the walk runs from the previous bookmark (or 0) to bookmark i. |
| ChunkPartition.WalkInherits | frontend/src/store/annotationStore.ts:173-180 | Every walked chunk takes the id and tags of the first old chunk near its start. Otherwise it gets a fresh id, and fresh ids increase. |
| ChunkPartition.Chunks | frontend/src/store/annotationStore.ts:169-196 | The walk over the sorted bookmarks, then the trailing chunk when the last boundary is before the duration. Its fixed point is `ChunksFixPartition`. |
| ChunkPartition.Regenerate | frontend/src/store/annotationStore.ts:164-198 | `regenerateChunks(duration)` on values: the old chunks, the bookmarks and the counter in, the new chunks and the counter out. Its properties are stated by `RegenerateShape`, `RegenerateContiguous`, `RegenerateCovers` and `RegenerateIdempotent`. |
| ChunkPartition.RegenerateShape | frontend/src/store/annotationStore.ts:164-198 | Regeneration gives one chunk per sorted bookmark, plus a trailing chunk when the last bookmark is before the duration. |
| ChunkPartition.RegenerateContiguous | frontend/src/store/annotationStore.ts:169-194 | The chunks are contiguous: the first starts at 0, each starts where the previous ends, and the trailing one ends at the duration. |
| ChunkPartition.SortedWithin | frontend/src/store/annotationStore.ts:166 | Sorting keeps bookmarks inside `[0, duration]`. |
| ChunkPartition.RegenerateCovers | frontend/src/store/annotationStore.ts:164-198 | For bookmarks inside a positive duration, the chunks are exactly the partition of `[0, duration]` at the sorted bookmarks. |
| ChunkPartition.RegenerateContains | frontend/src/store/annotationStore.ts:164-198 | Every instant of `[0, duration]` lies in some chunk. |
| ChunkPartition.BookmarkAtZeroGivesEmptyChunk | frontend/src/store/annotationStore.ts:169-180 | A bookmark at 0 gives a zero-length first chunk `[0, 0]`. |
| ChunkPartition.BookmarkBeyondDurationOverhangs | frontend/src/store/annotationStore.ts:186 | A bookmark past the duration gives no trailing chunk, and the last chunk ends beyond the video. |
| ChunkPartition.NearStartsShareIdentity | frontend/src/store/annotationStore.ts:173-179 | Two new chunks whose starts are near the same old chunk both take that chunk's id and tags. |
| ChunkPartition.SeparatedStarts | frontend/src/store/annotationStore.ts:169-182 | With separated bookmarks, chunk starts are at least 0.1 s apart. |
| ChunkPartition.FindNearSelf | frontend/src/store/annotationStore.ts:173 | In a partition at separated bookmarks, the first chunk near chunk i's start is chunk i. |
| ChunkPartition.NewChunkReproduces | frontend/src/store/annotationStore.ts:175-180 | Rebuilding chunk i from the partition gives chunk i back, with the counter unchanged. |
| ChunkPartition.EachChunkReproduces | frontend/src/store/annotationStore.ts:171-183 | Every walked chunk of a partition rebuilds itself. |
| ChunkPartition.WalkReproduces | frontend/src/store/annotationStore.ts:171-183 | Re-walking a partition gives it back. |
| ChunkPartition.RegenerateFixesPartition | frontend/src/store/annotationStore.ts:164-198 | Regenerating over the partition of separated bookmarks changes nothing: ids and tags stay and no id is drawn. |
| ChunkPartition.ChunksFixPartition | frontend/src/store/annotationStore.ts:171-194 | The same fixed point, stated on the sorted bookmarks. |
| ChunkPartition.RegenerateIdempotent | frontend/src/store/annotationStore.ts:164-198 | With unchanged separated bookmarks and duration, a second regeneration keeps every chunk, id and tag. |
| ChunkPartition.WalkSnoc | frontend/src/store/annotationStore.ts:171-183 | One more bookmark adds one chunk, from the previous boundary to it. |
| ChunkPartition.ExampleHundredSeconds | frontend/src/store/annotationStore.ts:164-198 | Duration 100 with bookmarks at 10 and 40 gives [0,10], [10,40] and [40,100], with fresh ids. |
| ChunkPartition.ExampleUndoMiddleLosesIdentity | frontend/src/store/annotationStore.ts:141-198 | Removing the bookmark at 10 merges [0,10] and [10,40] into [0,40] under the first chunk's id. Bringing it back gives the middle chunk a fresh id and no tags; the first and last chunks keep theirs. |
| ChunkPartition.RegenerateAfterRemoval | frontend/src/store/annotationStore.ts:164-198 | In the 10/40/100 s example, removing the bookmark at 10 and regenerating merges [0,10] and [10,40] into [0,40], under the first chunk's id 0. The chunk [40,100] keeps id 2, and no id is drawn. |
| ChunkPartition.RegenerateAfterUndo | frontend/src/store/annotationStore.ts:164-198 | In the same example, bringing back the bookmark at 10 and regenerating over [0,40] and [40,100] splits the first chunk. [0,10] keeps id 0, [10,40] gets the fresh id 3, and [40,100] keeps id 2. |
| ChunkPartition.ExampleNearZeroNotIdempotent | frontend/src/store/annotationStore.ts:164-198 | A bookmark at 0.05 s over 100 s gives chunks with ids 0 and 1. Regenerating again gives both chunks id 0, so the result differs from the first. |
| ChunkPartition.ExampleSharedId | frontend/src/store/annotationStore.ts:173-179 | Starts 0 and 0.05 are both within 0.1 s of one old chunk, so both new chunks take its id. |
| ChunkTags.WithoutTag | frontend/src/store/annotationStore.ts:216 | The filter removes every tag with that id, and is the identity when the id is absent. |
| ChunkTags.WithoutTagKeepsOthers | frontend/src/store/annotationStore.ts:216 | The filter keeps exactly the tags with another id. |
| ChunkTags.WithoutTagAppend | frontend/src/store/annotationStore.ts:216 | Filtering out a just-appended new tag gives back the list. |
| ChunkTags.ChunkWithTag | frontend/src/store/annotationStore.ts:202-208 | The target chunk ends up carrying the tag. |
| ChunkTags.AddTagToChunk | frontend/src/store/annotationStore.ts:200-210 | Ids and times stay. Other chunks and chunks that already have the tag are unchanged. The target chunk gets the tag appended. |
| ChunkTags.RemoveTagFromChunk | frontend/src/store/annotationStore.ts:212-221 | Ids and times stay and other chunks are unchanged. The target no longer has the tag. A chunk without the tag is unchanged. |
| ChunkTags.AddKeepsTagIdsUnique | frontend/src/store/annotationStore.ts:204 | Adding never makes a tag id appear twice in a chunk. |
| ChunkTags.AddTagIdempotent | frontend/src/store/annotationStore.ts:204 | Adding the same tag twice equals adding it once. |
| ChunkTags.RemoveAfterAddRestores | frontend/src/store/annotationStore.ts:200-221 | Removing a tag that was just added, and was absent before, restores the chunks. |
| ChunkTags.SameFramesKeepPartition | frontend/src/store/annotationStore.ts:200-221 | Tag edits keep the chunks a partition at the bookmarks. |
| ChunkTags.TagSurvivesRegenerate | frontend/src/store/annotationStore.ts:172-179 | A tag added to a chunk of separated bookmarks survives the next regeneration. |
| ChunkTags.TagSurvivesEdit | frontend/src/store/annotationStore.ts:164-210 | After any bookmark edit, the new chunk that starts where a tagged chunk of separated bookmarks started has that chunk's id and its tags, including the added tag. |
| ChunkTags.ExampleTagLostNearZero | frontend/src/store/annotationStore.ts:172-210 | With a bookmark at 0.05 s, a tag added to the chunk starting at 0.05 is gone after the next regeneration, with the bookmarks unchanged. |
| TagPresets.AddCategory | frontend/src/store/annotationStore.ts:85-91 | `{...presets, [id]: {label, tags: []}}`: the key set gains `id`, whose entry is empty and titled; other entries are unchanged. |
| TagPresets.RemoveCategory | frontend/src/store/annotationStore.ts:93-99 | Exactly that key is dropped; the others keep their entries. |
| TagPresets.AddPresetTag | frontend/src/store/annotationStore.ts:101-114 | `None` exactly for a missing category or a name already listed. Otherwise the name is appended to that category and nothing else changes. |
| TagPresets.WithoutName | frontend/src/store/annotationStore.ts:122 | The filter keeps exactly the other names. |
| TagPresets.WithoutAbsentName | frontend/src/store/annotationStore.ts:122 | Filtering an absent name is the identity. |
| TagPresets.WithoutAppendedName | frontend/src/store/annotationStore.ts:122 | Filtering out a just-appended new name gives back the list. |
| TagPresets.RemovePresetTag | frontend/src/store/annotationStore.ts:116-127 | `None` exactly for a missing category. Otherwise that category keeps its label and loses exactly the name, and the others are unchanged. |
| TagPresets.RemoveAfterAddRestores | frontend/src/store/annotationStore.ts:101-127 | Removing a name that was just added gives back the registry. |
| TagPresets.AddPresetTagTwiceIsNoOp | frontend/src/store/annotationStore.ts:105-107 | A second add of the same name is rejected. |
| TagPresets.RemoveAbsentNameKeepsTags | frontend/src/store/annotationStore.ts:116-127 | Removing a name that is not listed changes nothing. |
| TagPresets.MutatorsKeepNamesUnique | frontend/src/store/annotationStore.ts:85-127 | No mutator makes a category list a tag name twice. |
| TagPresets.RemoveAfterAddCategoryRestores | frontend/src/store/annotationStore.ts:85-99 | Removing a category that was just created gives back the registry. |
| TagPresets.Defaults | frontend/src/store/annotationStore.ts:54-57 | The two-category registry `pitch` / `result` with the fixed labels. |
| TagPresets.InitialPresets | frontend/src/store/annotationStore.ts:45-83 | The cascade installs nothing over a non-empty stored registry. Otherwise it installs two categories: the legacy lists if either exists, else the fetched lists, else the built-in fallback. |
| TagPresets.InitializeOnce | frontend/src/store/annotationStore.ts:46-48 | Once the cascade's result is stored, a later run installs nothing. |
| AnnotationStore.InsertFreshUnique | frontend/src/store/annotationStore.ts:136 | Inserting a bookmark with an unused id keeps ids unique. |
| AnnotationStore.WithoutIdKeepsUnique | frontend/src/store/annotationStore.ts:146 | Filtering keeps ids unique. |
| AnnotationStore.AddKeepsIds | frontend/src/store/annotationStore.ts:129-139 | An accepted `addBookmark` keeps ids unique, disjoint from the history and below the counter. |
| AnnotationStore.PushedMembers | frontend/src/store/annotationStore.ts:147 | The history after a push holds only the removed bookmark and old entries. |
| AnnotationStore.PushedUnique | frontend/src/store/annotationStore.ts:147 | Pushing a bookmark with a new id keeps the history's ids unique. |
| AnnotationStore.RemoveKeepsIds | frontend/src/store/annotationStore.ts:141-150 | `removeBookmark` keeps all the id bookkeeping. |
| AnnotationStore.UndoKeepsIds | frontend/src/store/annotationStore.ts:152-162 | `undo` keeps all the id bookkeeping. |
| AnnotationStore.UndoListUnique | frontend/src/store/annotationStore.ts:156 | Sorting the list with the restored bookmark keeps ids unique. |
| AnnotationStore.HistoryTail | frontend/src/store/annotationStore.ts:155 | The remaining history keeps unique ids and excludes the restored one. |
| AnnotationStore.RegenerateIdsBelow | frontend/src/store/annotationStore.ts:176 | Regenerated chunks carry only ids already drawn. |
| AnnotationStore.WalkBookmarks | frontend/src/store/annotationStore.ts:171-183 | The `forEach` loop computes exactly the walk. |
| AnnotationStore.CloseTimeline | frontend/src/store/annotationStore.ts:185-196 | The trailing-chunk step completes the chunk list of `regenerateChunks`. |
| AnnotationStore.Store.constructor | frontend/src/store/annotationStore.ts:35-41 | Empty lists, no selection, and the registry read from storage (`{}` when absent). |
| AnnotationStore.Store.SetSelectedChunkId | frontend/src/store/annotationStore.ts:43 | Only the selection changes. |
| AnnotationStore.Store.ClearBookmarksAndChunks | frontend/src/hooks/useAnalysis.ts:11 | Bookmarks and chunks are emptied; the undo history and the rest stay. |
| AnnotationStore.Store.AddBookmark | frontend/src/store/annotationStore.ts:129-139 | Rejected within 0.5 s, with nothing drawn. Otherwise the list becomes `BookmarkSet.AddBookmark` with a fresh id. Nothing else changes. |
| AnnotationStore.Store.RemoveBookmark | frontend/src/store/annotationStore.ts:141-150 | List and history as `BookmarkSet.RemoveBookmark`; nothing else changes. |
| AnnotationStore.Store.Undo | frontend/src/store/annotationStore.ts:152-162 | List and history as `BookmarkSet.Undo`; nothing else changes. |
| AnnotationStore.Store.RegenerateChunks | frontend/src/store/annotationStore.ts:164-198 | The chunks and counter become `ChunkPartition.Regenerate` of the old chunks and the bookmarks. |
| AnnotationStore.Store.AddTagToChunk | frontend/src/store/annotationStore.ts:200-210 | The chunks become `ChunkTags.AddTagToChunk`. |
| AnnotationStore.Store.RemoveTagFromChunk | frontend/src/store/annotationStore.ts:212-221 | The chunks become `ChunkTags.RemoveTagFromChunk`. |
| AnnotationStore.Store.SetPresets | frontend/src/store/annotationStore.ts:58-59 | The registry is installed and persisted. |
| AnnotationStore.Store.AddCategory | frontend/src/store/annotationStore.ts:85-91 | The registry becomes `TagPresets.AddCategory` and is persisted. |
| AnnotationStore.Store.RemoveCategory | frontend/src/store/annotationStore.ts:93-99 | The registry becomes `TagPresets.RemoveCategory` and is persisted. |
| AnnotationStore.Store.AddPresetTag | frontend/src/store/annotationStore.ts:101-114 | A rejected add changes and writes nothing. Otherwise the registry is updated and persisted. |
| AnnotationStore.Store.RemovePresetTag | frontend/src/store/annotationStore.ts:116-127 | A missing category changes and writes nothing. Otherwise the registry is updated and persisted. |
| AnnotationStore.Store.ImportTagPresets | frontend/src/store/annotationStore.ts:223-226 | The whole registry is replaced and persisted. |
| AnnotationStore.Store.InitializePresets | frontend/src/store/annotationStore.ts:45-83 | If the cascade installs nothing, the state is unchanged. Otherwise its registry is installed and persisted. |
| Navigation.FirstAfter | frontend/src/App.tsx:79 | `bookmarks.find(b => b.time > bound)`: the first bookmark past the bound, or none at all. |
| Navigation.LastBefore | frontend/src/App.tsx:76 | `[...bookmarks].reverse().find(b => b.time < bound)`: the last bookmark before the bound, or none at all. |
| Navigation.NextIsNearestAhead | frontend/src/App.tsx:78-84 | On the sorted list, "next" finds nothing exactly when no bookmark is more than 0.5 s ahead. Otherwise it is the earliest such bookmark. |
| Navigation.PrevIsNearestBehind | frontend/src/App.tsx:75-77 | On the sorted list, "previous" is the latest bookmark more than 0.5 s behind, or 0 when there is none. |
| Navigation.JumpTarget | frontend/src/App.tsx:73-84 | The time `jumpToBookmark` moves to: "previous" gives the previous bookmark's time or 0, "next" gives the next bookmark's time or nothing. Its meaning is stated by `NextIsNearestAhead` and `PrevIsNearestBehind`. |
| Navigation.FractionOf | frontend/src/App.tsx:87 | `t / (duration \|\| 1)`. That it lies in [0, 1] and maps back is `FractionOfTarget`. |
| Navigation.FractionOfTarget | frontend/src/App.tsx:87 | A target inside the video gives a fraction in [0, 1] that maps back to the target. |
| Navigation.NearestForRemoval | frontend/src/App.tsx:51 | The first bookmark within 0.5 s; `None` exactly when none is that close. |
| Navigation.TooCloseTail | frontend/src/App.tsx:51 | A head that is not close does not decide closeness. |
| Navigation.ContainingChunk | frontend/src/App.tsx:152-154 | The first chunk whose closed range holds the time, or none at all. |
| Navigation.MenuTarget | frontend/src/App.tsx:152-154 | The selected chunk when there is one; else the id of a chunk under the time; `None` only when no chunk contains it. |
| Navigation.MenuTargetOnPartition | frontend/src/App.tsx:145-157 | On regenerated chunks of a video, the menu always finds a chunk under the playhead. |
| App.AddBookmarkHotkey | frontend/src/App.tsx:39-44 | Nothing happens without a video of known length. Otherwise `addBookmark(played * duration)` runs, with its rejection rule. |
| App.RemoveNearestHotkey | frontend/src/App.tsx:46-55 | Without a video nothing changes. Otherwise the first bookmark within 0.5 s of the playhead, if any exists, is removed through `removeBookmark`. The chunks, selection, counter, tags and preset registry stay as they were. |
| App.JumpToBookmark | frontend/src/App.tsx:67-94 | Needs bookmarks and a video. The playhead moves to the jump target. The selection moves to the chunk starting within 0.1 s of it, if there is one. Every other field of both stores stays as it was. |
| App.ProcessFile | frontend/src/App.tsx:111-119 | The video is loaded paused and the chunks are cleared. The bookmarks, the counter and the progress become the effect of the reply's complete lines applied to an empty list. The played fraction and the duration stay, and so does the rest of the annotation store. |
| App.OpenContextMenu | frontend/src/App.tsx:145-157 | Without a video nothing changes. Otherwise the menu opens at the pointer with the playhead time and `MenuTarget`'s chunk. |
| Timeline.WindowStart | frontend/src/components/Timeline.tsx:53-54 | `max(0, min(duration - 60, t - 30))`. Its bounds, centring and pinning are stated by `WindowBounds`, `WindowCentred` and `WindowPinned`. |
| Timeline.ClickTime | frontend/src/components/Timeline.tsx:33-35 | The time under a detail click: the window start plus the click's share of 60 s. `DetailClick` clamps it, and `DetailClickFindsDrawnTime` shows it inverts the drawing. |
| Timeline.WindowBounds | frontend/src/components/Timeline.tsx:53-55 | For a playhead in the video, the window starts in `[0, max(0, duration - 60)]`, is 60 s wide and contains the playhead. |
| Timeline.WindowCentred | frontend/src/components/Timeline.tsx:54 | Away from both ends, the window is centred on the playhead. |
| Timeline.WindowPinned | frontend/src/components/Timeline.tsx:54 | The window is pinned at 0 near the start, and at `duration - 60` near the end of a long video. |
| Timeline.PlayheadInView | frontend/src/components/Timeline.tsx:182 | The detail playhead is drawn between 0 % and 100 %. |
| Timeline.OverviewClick | frontend/src/components/Timeline.tsx:21-27 | Nothing happens for a zero duration. Otherwise the clamped click fraction is in [0, 1], and inside the bar it is exactly `x / width`. |
| Timeline.DetailClick | frontend/src/components/Timeline.tsx:29-37 | Nothing happens for a zero duration. Otherwise the clicked time is clamped to the video, as a fraction in [0, 1]. |
| Timeline.DetailClickFindsDrawnTime | frontend/src/components/Timeline.tsx:29-37 | Clicking where a time is drawn seeks to exactly that time. |
| Timeline.ClipChunk | frontend/src/components/Timeline.tsx:155-157 | A chunk is hidden exactly when it lies outside the window. When drawn, its part is exactly its intersection with the window. |
| Timeline.ChunkBoxInView | frontend/src/components/Timeline.tsx:158-159 | A drawn chunk's box has a non-negative width and stays inside the view. |
| Timeline.BookmarkMark | frontend/src/components/Timeline.tsx:189-190 | A marker is drawn exactly for bookmarks in the window, at 0 %–100 %. |
| Timeline.RegenerateEffect | frontend/src/components/Timeline.tsx:15-19 | For a positive duration the chunks are regenerated; otherwise nothing changes. |
| Timeline.HandleAddBookmark | frontend/src/components/Timeline.tsx:39-43 | Nothing happens for a zero duration. Otherwise a bookmark goes at the playhead under the rejection rule. |
| TimeFormat.FormatClock | frontend/src/components/Timeline.tsx:45-49 | The timeline's `formatTime`: whole minutes, a colon and two-digit seconds. `ClockFieldsSplit` and `ParseFormatClock` state what the text means. |
| TimeFormat.PlayerFormatTime | frontend/src/components/VideoPlayer.tsx:6-11 | The player's `formatTime`, with its early "0:00" for zero. `PlayerAgreesWithTimeline` shows it equals `FormatClock`. |
| TimeFormat.NatToString | frontend/src/components/Timeline.tsx:48 | `${n}`: decimal digits, more than one exactly from 10 up. |
| TimeFormat.ParseNat | frontend/src/components/Timeline.tsx:48 | Reads only non-empty digit strings (the inverse of printing). |
| TimeFormat.ParseNatToString | frontend/src/components/Timeline.tsx:48 | Reading back a printed natural gives the number. |
| TimeFormat.PadStart2 | frontend/src/components/Timeline.tsx:48 | `padStart(2, '0')` has length max(2, n) and ends with the original. |
| TimeFormat.ClockFieldsSplit | frontend/src/components/Timeline.tsx:45-49 | For a non-negative time the fields are whole minutes and seconds in [0, 60) that add up to the whole seconds. |
| TimeFormat.ParseClockSplit | frontend/src/components/Timeline.tsx:48 | `m:ss` text splits at its single separator. |
| TimeFormat.ParsePadded | frontend/src/components/Timeline.tsx:48 | Padded seconds read back as their value. |
| TimeFormat.ParseFormatClock | frontend/src/components/Timeline.tsx:45-49 | The clock text of a non-negative time reads back as its minutes and seconds. |
| TimeFormat.PlayerAgreesWithTimeline | frontend/src/components/VideoPlayer.tsx:6-11 | The player's early "0:00" for zero equals the timeline's formula, so both components print every time alike. |
| VideoState.VideoStore.constructor | frontend/src/store/videoStore.ts:27-36 | No video, paused, played 0, duration 0, not analysing. |
| VideoPlayer.MediaElement.constructor | frontend/src/components/VideoPlayer.tsx:16 | The element's time and length. |
| VideoPlayer.StoreTime | frontend/src/components/VideoPlayer.tsx:44 | `played * video.duration`: where the store puts the element. `TimeUpdateThenSyncStaysPut` shows that a time update's fraction maps back to the element's time. |
| VideoPlayer.SyncedTime | frontend/src/components/VideoPlayer.tsx:44-48 | After syncing, the element is within 0.1 s of the store. It stays put exactly when it already was. |
| VideoPlayer.SyncIsIdempotent | frontend/src/components/VideoPlayer.tsx:39-49 | A second sync never seeks again. |
| VideoPlayer.SyncFromStore | frontend/src/components/VideoPlayer.tsx:39-49 | Nothing while seeking or without a video. Otherwise the element's time is `SyncedTime` of the store time. |
| VideoPlayer.HandleTimeUpdate | frontend/src/components/VideoPlayer.tsx:52-58 | The played fraction follows the element, except while seeking or before the element's duration is known. |
| VideoPlayer.TimeUpdateThenSyncStaysPut | frontend/src/components/VideoPlayer.tsx:39-58 | The fraction a time update records maps back to the element's time, so the following sync does not seek. |
| VideoPlayer.WheelStep | frontend/src/components/VideoPlayer.tsx:79-80 | `-(deltaY / 20) / 30` seconds per wheel event. `WheelStepOfOneNotch` gives the five frames per notch. |
| VideoPlayer.WheelStepOfOneNotch | frontend/src/components/VideoPlayer.tsx:77-80 | One notch (deltaY 100) moves five frames. |
| VideoPlayer.ScrubbedTime | frontend/src/components/VideoPlayer.tsx:82-85 | The scrubbed time is clamped to `[0, duration]`: the step unchanged inside, the bounds outside. |
| VideoPlayer.ScrubbedFractionInUnit | frontend/src/components/VideoPlayer.tsx:82-86 | The fraction after a scrub is in [0, 1] and maps back to the scrubbed time. |
| VideoPlayer.HandleWheel | frontend/src/components/VideoPlayer.tsx:71-87 | With an element and a video: playback pauses, the element moves by the clamped wheel step, and the fraction follows it. |
| VideoPlayer.JumpToBookmark | frontend/src/components/VideoPlayer.tsx:105-125 | The skip buttons start from the element's time. The element and the fraction move to the jump target. No video check is made and the selection is untouched. |
| ContextMenu.MenuState.constructor | frontend/src/store/contextMenuStore.ts:14-18 | Closed, at (0, 0), with no time and no chunk. |
| ContextMenu.MenuState.OpenMenu | frontend/src/store/contextMenuStore.ts:19 | Open at the given point, with the time and chunk given (omitted values become none). |
| ContextMenu.MenuState.CloseMenu | frontend/src/store/contextMenuStore.ts:20 | Only the open flag changes. |
| ContextMenu.OpenThenClose | frontend/src/store/contextMenuStore.ts:19-20 | After opening and closing, the menu still holds what was opened. |
| ExportDocument.ExportBookmarks | frontend/src/components/ExportButton.tsx:15 | Each bookmark keeps its id and time, in order. |
| ExportDocument.ExportChunks | frontend/src/components/ExportButton.tsx:16-21 | Each chunk keeps its id, times and tags, in order. |
| ExportDocument.Export | frontend/src/components/ExportButton.tsx:8-23 | Version "1.0", the caller's timestamp, and the store's tags. |
| ExportDocument.ExportIsFaithful | frontend/src/components/ExportButton.tsx:12-22 | The exported annotation is the store's, unchanged. |
| ExportDocument.ExportKeepsPartition | frontend/src/components/ExportButton.tsx:13-21 | The exported chunks are still the partition at the exported bookmarks. |
| LineFraming.Frame | frontend/src/hooks/useAnalysis.ts:37-38 | The split lines, each with its newline, followed by the remainder give back the buffer. No part contains a newline. |
| LineFraming.FrameUnique | frontend/src/hooks/useAnalysis.ts:37-38 | Framing is the only such decomposition. |
| LineFraming.TerminatedAppend | frontend/src/hooks/useAnalysis.ts:37 | Newline-joining distributes over concatenation. |
| LineFraming.ReadAllNoNewline | frontend/src/hooks/useAnalysis.ts:32-40 | No processed line, and not the buffer, holds a newline. |
| LineFraming.ReadAllConcat | frontend/src/hooks/useAnalysis.ts:32-40 | After every read, the processed lines followed by the buffer are exactly the text received. |
| LineFraming.ReadAllIsFrameOfConcat | frontend/src/hooks/useAnalysis.ts:32-40 | However the text is cut into pieces, the lines processed are the complete lines of the whole text. |
| LineFraming.PieceWithoutNewlineIsBuffered | frontend/src/hooks/useAnalysis.ts:36-38 | A piece without a newline only grows the buffer. |
| LineFraming.ExampleSplitLine | frontend/src/hooks/useAnalysis.ts:32-40 | A line cut across two reads is processed once it is complete. |
| UseAnalysis.AddAll | frontend/src/hooks/useAnalysis.ts:48 | The `forEach` over a result never moves the id counter back. |
| UseAnalysis.TooCloseGrows | frontend/src/store/annotationStore.ts:132 | A larger list is close to every time a smaller one is. |
| UseAnalysis.AddOneCovers | frontend/src/hooks/useAnalysis.ts:48 | One `addBookmark(t)` keeps every bookmark and leaves one within 0.5 s of `t`. |
| UseAnalysis.AddAllKeepsOrder | frontend/src/hooks/useAnalysis.ts:48 | Adding the detected times keeps the list sorted and spaced, and keeps every old bookmark. |
| UseAnalysis.CoversGrows | frontend/src/hooks/useAnalysis.ts:48 | Coverage survives growth of the list. |
| UseAnalysis.CoversSnoc | frontend/src/hooks/useAnalysis.ts:48 | Coverage extends by one covered time. |
| UseAnalysis.AddAllCovers | frontend/src/hooks/useAnalysis.ts:48 | After a result, every detected time has a bookmark within 0.5 s. |
| UseAnalysis.ApplyRecord | frontend/src/hooks/useAnalysis.ts:44-52 | The effect of one record: progress sets the value; a result adds its times and sets 100; a result that throws part-way adds the times before the failure and leaves the progress; an error or an unknown type does nothing. Stated by `ResultCompletes` and `AbortedResultKeepsAdded`. |
| UseAnalysis.ApplyLine | frontend/src/hooks/useAnalysis.ts:41-55 | A blank line, or one whose parse throws, does nothing; otherwise its record applies. `SkippedLineHasNoEffect` states this. |
| UseAnalysis.ApplyLinesAppend | frontend/src/hooks/useAnalysis.ts:40-56 | Processing lines in two batches equals processing them at once. |
| UseAnalysis.SkippedLineHasNoEffect | frontend/src/hooks/useAnalysis.ts:41-55 | A blank or undecodable line anywhere has no effect. |
| UseAnalysis.ApplyLinesKeepsSpacing | frontend/src/hooks/useAnalysis.ts:40-56 | Whatever the stream says, the bookmarks stay sorted and spaced. |
| UseAnalysis.ResultCompletes | frontend/src/hooks/useAnalysis.ts:46-49 | After a result the progress reads 100, every cut has a bookmark within 0.5 s, and every earlier bookmark is kept. |
| UseAnalysis.AbortedResultKeepsAdded | frontend/src/hooks/useAnalysis.ts:46-55 | When a result's `forEach` throws part-way, the catch keeps the bookmarks of the entries before the failure. They are the same as a complete result of those entries. The progress is not set to 100. |
| UseAnalysis.AddAllToStore | frontend/src/hooks/useAnalysis.ts:48 | The loop adds the times through `addBookmark`, exactly as `AddAll`. |
| UseAnalysis.Dispatch | frontend/src/hooks/useAnalysis.ts:44-52 | The stores change as `ApplyRecord`: progress sets the value, a result adds its times and sets 100, a result that throws part-way adds only the times before the failure, and an error or an unknown type does nothing. |
| UseAnalysis.ProcessLines | frontend/src/hooks/useAnalysis.ts:40-56 | The line loop changes the stores exactly as `ApplyLines`. |
| UseAnalysis.ReadStream | frontend/src/hooks/useAnalysis.ts:32-57 | The read loop processes the complete lines of the received text, in order, as `ApplyLines`. |
| UseAnalysis.DetectCuts | frontend/src/hooks/useAnalysis.ts:7-63 | No file changes nothing. Otherwise bookmarks and chunks are cleared, progress starts at 0, and the stream is applied. Analysis is off at the end, whatever happened. |
| Backend.EffectiveFps | backend/main.py:76 | `fps or 30.0`: never zero, the reported rate when non-zero. |
| Backend.Scan | backend/main.py:80-104 | The loop's `last_cut_time` is the last cut (or `-min_interval`), and consecutive cuts are at least `min_interval` apart. |
| Backend.SpacedIncreasing | backend/main.py:98-100 | For a positive minimum interval, cut times strictly increase. |
| Backend.CutIsEligibleFrame | backend/main.py:94-100 | Every cut is the time of a frame after the first. |
| Backend.FrameZeroNeverCut | backend/main.py:96 | Time 0 is never a cut. |
| Backend.LaterFrameTimeNonZero | backend/main.py:94 | Frames after the first have non-zero times. |
| Backend.FirstDiffIgnored | backend/main.py:96 | Frame 0's difference is never read. |
| Backend.ScanExtends | backend/main.py:88-107 | Scanning more frames only appends cuts. |
| Backend.NoCutBeforeFirstEligible | backend/main.py:98 | Before the first frame over the threshold nothing is cut. |
| Backend.FirstEligibleFrameIsCut | backend/main.py:82-100 | Because `last_cut_time` starts at `-min_interval`, the first frame over the threshold is always cut. |
| Backend.ReportStep | backend/main.py:86 | `max(1, total // 20)`: at least 1, at most a twentieth of a count of 20 or more, and 1 below 40. |
| Backend.ProgressValue | backend/main.py:106 | `int((frame / total) * 100)`, truncated toward zero. Its range is `ProgressValueInRange`. |
| Backend.ProgressValueInRange | backend/main.py:106 | The truncated percentage is in [0, 100]. |
| Backend.ProgressRecordsAreMultiples | backend/main.py:103-107 | Exactly `n / step` progress records go out, record i after frame `(i + 1) * step`. |
| Backend.ProgressCadence | backend/main.py:86-107 | A full read of 20 frames or more reports at least 20 times; below 40 frames, after every frame. |
| Backend.CutBookmarks | backend/main.py:114 | One bookmark per cut, in order, with unique ids. |
| Backend.ProgressRecordsNotTerminal | backend/main.py:105-107 | Progress records are not terminal. |
| Backend.StreamShape | backend/main.py:69-122 | Every stream ends in exactly one terminal record. An opened video's stream has a start first. The result's `total_cuts` equals its number of bookmarks. |
| Backend.StreamRecords | backend/main.py:62-122 | Every line the generator yields, as records. A video that does not open gives one error record. Otherwise a start record comes first, then the progress records, then the result. A zero frame count with frames read gives the start and then the division-by-zero error. Its shape is `StreamShape`. |
| Backend.StreamAnalysis | backend/main.py:62-122 | The generator yields exactly `StreamRecords`. |
| Backend.IsVideoType | backend/main.py:59 | A content type that is present and starts with `video/`. `DetectCuts` rejects exactly the others. |
| Backend.DetectCuts | backend/main.py:58-60 | Rejected with 400 exactly for a missing or non-video content type; otherwise the stream. |
| ReportMarkup.SourceOpeningsNonEmpty | src/utils/visualization.py:28-45 | The source's title and highlights sections open with markup. |
| Visualization.TitleSectionIffTruthy | src/utils/visualization.py:26-32 | The title section is present exactly for a truthy title, and is the title wrapped. |
| Visualization.HighlightsSectionIffNonEmpty | src/utils/visualization.py:35-45 | The highlights section is present exactly for a non-empty list, and is its items wrapped. |
| Visualization.TitleSection | src/utils/visualization.py:26-32 | The title block, empty for a missing or empty title. `TitleSectionIffTruthy` states when it appears. |
| Visualization.HighlightsSection | src/utils/visualization.py:34-45 | The highlights block, empty for a missing or empty list. `HighlightsSectionIffNonEmpty` states when it appears. |
| Visualization.Note | src/utils/visualization.py:47-69 | The analysis note: opening, title section, purpose, expectation, evaluation, highlights section and closing, in that order. `AddAnalysisToHtml` and `AddedNoteIsRemovable` say where it goes. |
| Visualization.ItemsAppend | src/utils/visualization.py:37 | The items of two lists are the items of each, joined. |
| Visualization.ItemsInOrder | src/utils/visualization.py:37 | The i-th item follows the items before it. |
| Visualization.FindFrom | src/utils/visualization.py:72-73 | The first occurrence at or after a position, or none at all. |
| Visualization.InsertionPoint | src/utils/visualization.py:72-75 | The insertion point lies within the page. |
| Visualization.InsertNote | src/utils/visualization.py:72-75 | The page with the note spliced in at the insertion point. |
| Visualization.NoteFollowsFirstBody | src/utils/visualization.py:72-73 | With a `<body>`, the note lands right after its first occurrence. Without one, it goes at the start. |
| Visualization.RemovingNoteRestores | src/utils/visualization.py:71-75 | Cutting the note back out gives the original page. |
| Visualization.AddAnalysisToHtml | src/utils/visualization.py:13-78 | A missing file leaves everything unchanged. Otherwise only that file changes, to the page with the note inserted. |
| Visualization.AddedNoteIsRemovable | src/utils/visualization.py:71-78 | The updated file holds the whole note at the insertion point, and removing it restores the file. |

## Left out

- Rendering (JSX, DOM, CSS, icons), the overview grid and ticks, and marker click handlers are not modelled: they only display state. The chunk-clip, playhead and bookmark-marker percentages are modelled.
- Element sizes: every click handler takes the element's width as a parameter and requires it to be positive, as a rendered element's is.
- `localStorage`, `fetch`, `JSON.parse` and `TextDecoder` are outside the model. Their results are parameters: the stored registry, the legacy lists, the fetch outcome, the `parse` function and the text pieces. The one persisted value is the field `storedPresets`.
- `uuidv4()` and Python's `uuid.uuid4()` are modelled as a counter of natural numbers; uniqueness is the property kept.
- Concurrency is not modelled. React re-renders, zustand subscriptions and the order in which effects run (for example, the chunk regeneration effect firing while the stream adds bookmarks) are left out. Each handler is one atomic step.
- A failure of `reader.read()` in the middle of the stream is treated like the end of the stream; in both cases the `finally` block clears the analysing flag.
- Not-a-number, infinities and IEEE rounding are left out, because times are exact reals. Among the effects: the player's `isNaN` guard, `video.duration || 0` for a NaN duration, and the browser's own clamping of an assigned `currentTime`.
- `round(current_time_sec, 3)` in `backend/main.py:99` is left out: the model stores the unrounded time, because rounding to decimal digits on reals adds nothing to the gate.
- OpenCV decoding, greyscale conversion and `absdiff` are left out. The per-frame mean differences are an input sequence.
- The frame count OpenCV reports and the number of frames actually read are separate inputs, as in the source.
- Temporary files, `asyncio.sleep`, the CORS middleware and the health endpoint are left out.
- `print` warnings in `add_analysis_to_html` and file encodings are left out. Files are a map from path to text.
- Highlights passed as something other than a list, and `str()` of non-string arguments: the model takes an optional list of strings and strings.
- The HTML literals of `add_analysis_to_html` are the `ReportMarkup.Source` record. The lemmas take any markup, with only the preconditions they need, so no proof has to look inside the long literals.
- Visualization.TitleSectionIffTruthy: presence is stated for the title section rather than as a search of the final note text, because of the literal sizes above.
- Visualization.HighlightsSectionIffNonEmpty: stated at section level for the same reason.
- Backend.SpacedIncreasing: strict increase is proved only for a positive `min_interval`. For `min_interval <= 0` the model states only the spacing inequality.
- Backend.ProgressValueInRange: proved within the reported frame count. When more frames are read than reported, the percentage can exceed 100, as in the source.
- The seek bar (`handleSeekMouseDown`, `handleSeekChange`, `handleSeekMouseUp`) is left out, apart from the `seeking` flag the modelled handlers take.
- The play/pause and volume effects and `handleLoadedMetadata` are left out: they copy one value between the element and the store.
- The `space` shortcut (toggle play) is left out. `mod+z` is `AnnotationStore.Store.Undo`. `left`/`[` and `right`/`]` are `App.JumpToBookmark` with the two directions.
- `handleDrop`'s file-type filter, drag-over styling and file inputs are left out. `processFile` is modelled from a chosen file onward.
- The other components (ImportButton, SettingsModal, ChunkList, ContextMenu, AutoDetectButton), the rest of `src/utils/visualization.py` and `md_to_html.py` are not part of this model.
- `videoStore`'s setters are not modelled as methods: handlers assign the fields they set directly.
- A result entry whose `time` is absent or not a number is left out. In the source `addBookmark` then adds a bookmark whose time is `undefined`, which the model's real-valued times cannot hold. An entry whose access throws, such as `null`, is modelled (`UseAnalysis.AbortedResult`).
- The form defaults of `detect_cuts` (`threshold = 50.0`, `min_interval = 0.5`, `backend/main.py:50-51`) are not modelled as defaults: both are plain parameters of the backend functions. The front end sends only `threshold`, so in use `min_interval` is always 0.5.
- The preset registry is a Dafny `map`, which has no key order. The order of the object's keys, in which the category menus list the categories, is not modelled.
