/** The annotation store (frontend/src/store/annotationStore.ts): one object whose fields
    every action replaces. uuidv4() is the counter `nextId`, which only ever grows, so
    every id it hands out is fresh; `storedPresets` is the localStorage entry
    'video_analyzer_tag_presets'. */
module AnnotationStore {
  import opened Wrappers
  import opened AnnotationTypes
  import opened BookmarkSet
  import opened ChunkPartition
  import opened ChunkTags
  import opened TagPresets

  /** No bookmark of `a` shares an id with a bookmark of `b`. */
  predicate Disjoint(a: seq<Bookmark>, b: seq<Bookmark>) {
    forall x, y :: x in a && y in b ==> x.id != y.id
  }

  /** Every id in `s` was drawn before the counter reached `n`. */
  predicate IdsBelow(s: seq<Bookmark>, n: Id) {
    forall x :: x in s ==> x.id < n
  }

  predicate ChunkIdsBelow(cs: seq<Chunk>, n: Id) {
    forall i :: 0 <= i < |cs| ==> cs[i].id < n
  }

  // ---------------------------------------------------------------------------
  // Id bookkeeping behind the store invariant

  lemma InsertFreshUnique(s: seq<Bookmark>, k: nat, b: Bookmark)
    requires UniqueIds(s) && k <= |s|
    requires forall x :: x in s ==> x.id != b.id
    ensures UniqueIds(s[..k] + [b] + s[k..])
  {
    var r := s[..k] + [b] + s[k..];
    forall i, j | 0 <= i < j < |r| ensures r[i].id != r[j].id {
      if j < k {
        assert r[i] == s[i] && r[j] == s[j];
      } else if j == k {
        assert r[i] == s[i] && r[j] == b;
      } else if i < k {
        assert r[i] == s[i] && r[j] == s[j - 1];
      } else if i == k {
        assert r[i] == b && r[j] == s[j - 1];
        assert s[j - 1] in s;
      } else {
        assert r[i] == s[i - 1] && r[j] == s[j - 1];
      }
    }
  }

  lemma {:induction false} WithoutIdKeepsUnique(s: seq<Bookmark>, id: Id)
    requires UniqueIds(s)
    ensures UniqueIds(WithoutId(s, id))
  {
    if s != [] {
      var tail := s[1..];
      assert UniqueIds(tail) by {
        forall i, j | 0 <= i < j < |tail| ensures tail[i].id != tail[j].id {
          assert tail[i] == s[i + 1] && tail[j] == s[j + 1];
        }
      }
      WithoutIdKeepsUnique(tail, id);
      WithoutIdMembers(tail, id);
      var rest := WithoutId(tail, id);
      if s[0].id != id {
        var r := [s[0]] + rest;
        assert WithoutId(s, id) == r;
        forall j | 0 < j < |r| ensures r[0].id != r[j].id {
          assert r[j] in rest;
          var m :| 0 <= m < |tail| && tail[m] == r[j];
          assert s[m + 1] == r[j];
        }
      }
    }
  }

  /** `addBookmark` keeps the id bookkeeping when it accepts the fresh id `n`. */
  lemma AddKeepsIds(s: seq<Bookmark>, h: seq<Bookmark>, t: real, n: Id)
    requires SortedByTime(s) && UniqueIds(s) && Disjoint(s, h) && IdsBelow(s, n) && IdsBelow(h, n)
    requires !TooClose(s, t)
    ensures var r := AddBookmark(s, t, n);
      UniqueIds(r) && Disjoint(r, h) && IdsBelow(r, n + 1) && IdsBelow(h, n + 1)
  {
    var b := Bookmark(n, t);
    var r := AddBookmark(s, t, n);
    AddToSortedInserts(s, t, n);
    InsertFreshUnique(s, FirstLater(s, t), b);
    assert forall x :: x in r <==> x in multiset(s) + multiset{b};
  }

  /** One `addBookmark` step on the list and the counter keeps the id bookkeeping. */
  lemma AddStepKeepsIds(s: seq<Bookmark>, h: seq<Bookmark>, cs: seq<Chunk>, n: Id, t: real)
    requires SortedByTime(s) && UniqueIds(s) && Disjoint(s, h) && IdsBelow(s, n) && IdsBelow(h, n)
    requires ChunkIdsBelow(cs, n)
    ensures var p := AddStep(s, n, t);
      && SortedByTime(p.0) && UniqueIds(p.0) && Disjoint(p.0, h)
      && IdsBelow(p.0, p.1) && IdsBelow(h, p.1) && ChunkIdsBelow(cs, p.1)
  {
    if !TooClose(s, t) {
      AddKeepsIds(s, h, t, n);
    }
  }

  /** The pushed history holds the removed bookmark and a prefix of the old history. */
  lemma PushedMembers(h: seq<Bookmark>, b: Bookmark)
    ensures forall y :: y in PushHistory(h, b) ==> y == b || y in h
  {
    var r := PushHistory(h, b);
    forall y | y in r ensures y == b || y in h {
      var j :| 0 <= j < |r| && r[j] == y;
      if j > 0 {
        assert r[1..][j - 1] == y;
        assert y in h[..|r| - 1];
      }
    }
  }

  lemma PushedUnique(h: seq<Bookmark>, b: Bookmark)
    requires UniqueIds(h) && forall y :: y in h ==> y.id != b.id
    ensures UniqueIds(PushHistory(h, b))
  {
    var r := PushHistory(h, b);
    forall i, j | 0 <= i < j < |r| ensures r[i].id != r[j].id {
      assert r[j] == r[1..][j - 1] == h[j - 1];
      if i > 0 {
        assert r[i] == r[1..][i - 1] == h[i - 1];
      } else {
        assert h[j - 1] in h;
      }
    }
  }

  /** `removeBookmark` keeps the id bookkeeping. */
  lemma RemoveKeepsIds(s: seq<Bookmark>, h: seq<Bookmark>, id: Id, n: Id)
    requires UniqueIds(s) && UniqueIds(h) && Disjoint(s, h) && IdsBelow(s, n) && IdsBelow(h, n)
    requires HasId(s, id)
    ensures var r := RemoveBookmark(s, h, id);
      UniqueIds(r.0) && UniqueIds(r.1) && Disjoint(r.0, r.1) && IdsBelow(r.0, n) && IdsBelow(r.1, n)
  {
    var k := FindById(s, id).value;
    var target := s[k];
    assert target in s;
    WithoutIdKeepsUnique(s, id);
    WithoutIdMembers(s, id);
    PushedMembers(h, target);
    PushedUnique(h, target);
  }

  /** `undo` keeps the id bookkeeping. */
  lemma UndoKeepsIds(s: seq<Bookmark>, h: seq<Bookmark>, n: Id)
    requires SortedByTime(s) && UniqueIds(s) && UniqueIds(h) && Disjoint(s, h) && IdsBelow(s, n) && IdsBelow(h, n)
    requires h != []
    ensures var r := Undo(s, h);
      UniqueIds(r.0) && UniqueIds(r.1) && Disjoint(r.0, r.1) && IdsBelow(r.0, n) && IdsBelow(r.1, n)
  {
    var b := h[0];
    var r := Undo(s, h);
    assert b in h;
    UndoListUnique(s, b);
    assert forall x :: x in r.0 <==> x in multiset(s) + multiset{b};
    HistoryTail(h);
  }

  lemma UndoListUnique(s: seq<Bookmark>, b: Bookmark)
    requires SortedByTime(s) && UniqueIds(s) && forall x :: x in s ==> x.id != b.id
    ensures UniqueIds(SortByTime(s + [b]))
  {
    SortAppendIsInsert(s, b);
    InsertSplits(s, b);
    InsertFreshUnique(s, FirstLater(s, b.time), b);
  }

  lemma HistoryTail(h: seq<Bookmark>)
    requires UniqueIds(h) && h != []
    ensures UniqueIds(h[1..])
    ensures forall y :: y in h[1..] ==> y in h && y.id != h[0].id
  {
    forall y | y in h[1..] ensures y in h && y.id != h[0].id {
      var j :| 0 <= j < |h[1..]| && h[1..][j] == y;
      assert h[j + 1] == y;
    }
    forall i, j | 0 <= i < j < |h[1..]| ensures h[1..][i].id != h[1..][j].id {
      assert h[1..][i] == h[i + 1] && h[1..][j] == h[j + 1];
    }
  }

  /** Regenerated chunks carry ids that were already drawn: inherited or fresh. */
  lemma RegenerateIdsBelow(prev: seq<Chunk>, bookmarks: seq<Bookmark>, duration: real, n: Id)
    requires ChunkIdsBelow(prev, n)
    ensures var r := Regenerate(prev, bookmarks, duration, n);
      ChunkIdsBelow(r.0, r.1)
  {
    RegenerateShape(prev, bookmarks, duration, n);
  }

  /** The `forEach` over the sorted bookmarks in `regenerateChunks`: each bookmark closes
      the chunk that began at `lastTime`, which reuses the first old chunk starting within
      0.1 s or draws a fresh id. */
  method WalkBookmarks(prev: seq<Chunk>, sorted: seq<Bookmark>, start: Id)
    returns (newChunks: seq<Chunk>, counter: Id)
    ensures (newChunks, counter) == Walk(prev, sorted, start)
  {
    newChunks, counter := [], start;
    var lastTime := 0.0;
    var i := 0;
    while i < |sorted|
      invariant 0 <= i <= |sorted|
      invariant (newChunks, counter) == Walk(prev, sorted[..i], start)
      invariant lastTime == LastTime(sorted[..i])
    {
      var b := sorted[i];
      var existing := FindNear(prev, lastTime);
      var before := counter;
      var c: Chunk;
      if existing.Some? {
        c := Chunk(prev[existing.value].id, lastTime, b.time, prev[existing.value].tags);
      } else {
        c := Chunk(counter, lastTime, b.time, []);
        counter := counter + 1;
      }
      assert (c, counter) == NewChunk(prev, lastTime, b.time, before);
      assert sorted[..i + 1] == sorted[..i] + [b];
      WalkSnoc(prev, sorted[..i], b, start);
      newChunks := newChunks + [c];
      lastTime := b.time;
      i := i + 1;
    }
    assert sorted[..i] == sorted;
  }

  /** The trailing chunk of `regenerateChunks`, pushed when the last boundary is before
      the duration. */
  method CloseTimeline(prev: seq<Chunk>, sorted: seq<Bookmark>, duration: real, walked: seq<Chunk>, counter0: Id, ghost start: Id)
    returns (newChunks: seq<Chunk>, counter: Id)
    requires (walked, counter0) == Walk(prev, sorted, start)
    ensures (newChunks, counter) == Chunks(prev, sorted, duration, start)
  {
    newChunks, counter := walked, counter0;
    var lastTime := if sorted == [] then 0.0 else sorted[|sorted| - 1].time;
    if lastTime < duration {
      var existing := FindNear(prev, lastTime);
      var c: Chunk;
      if existing.Some? {
        c := Chunk(prev[existing.value].id, lastTime, duration, prev[existing.value].tags);
      } else {
        c := Chunk(counter, lastTime, duration, []);
        counter := counter + 1;
      }
      assert (c, counter) == NewChunk(prev, lastTime, duration, counter0);
      newChunks := newChunks + [c];
    }
  }

  // ---------------------------------------------------------------------------

  class Store {
    var bookmarks: seq<Bookmark>
    var chunks: seq<Chunk>
    var selectedChunkId: Option<Id>
    var globalTags: seq<Tag>
    var sectionTags: seq<SectionTag>
    var undoHistory: seq<Bookmark>
    var tagPresets: PresetMap
    /** The persisted registry; `None` when nothing is stored. */
    var storedPresets: Option<PresetMap>
    /** The id oracle: every id below it has been handed out. */
    var nextId: Id

    /** Bookmarks sorted, history bounded by 50, no id shared between or within the
        bookmark list and the history, and every id already drawn from the oracle. */
    predicate Valid()
      reads this
    {
      && SortedByTime(bookmarks)
      && |undoHistory| <= UndoLimit
      && UniqueIds(bookmarks) && UniqueIds(undoHistory) && Disjoint(bookmarks, undoHistory)
      && IdsBelow(bookmarks, nextId) && IdsBelow(undoHistory, nextId)
      && ChunkIdsBelow(chunks, nextId)
    }

    /** The fields other than the bookmarks, the chunks and the id counter, for callers
        that change only those three. */
    function Others(): (Option<Id>, seq<Bookmark>, seq<Tag>, seq<SectionTag>, PresetMap, Option<PresetMap>)
      reads this
    {
      (selectedChunkId, undoHistory, globalTags, sectionTags, tagPresets, storedPresets)
    }

    /** The initial state; the preset registry is read from storage, `{}` when absent. */
    constructor(stored: Option<PresetMap>)
      ensures Valid()
      ensures bookmarks == [] && chunks == [] && selectedChunkId == None
      ensures globalTags == [] && sectionTags == [] && undoHistory == []
      ensures tagPresets == stored.GetOr(map[]) && storedPresets == stored
      ensures nextId == 0
    {
      bookmarks, chunks, selectedChunkId := [], [], None;
      globalTags, sectionTags, undoHistory := [], [], [];
      tagPresets, storedPresets := stored.GetOr(map[]), stored;
      nextId := 0;
    }

    method SetSelectedChunkId(id: Option<Id>)
      requires Valid()
      modifies this
      ensures Valid()
      ensures selectedChunkId == id
      ensures bookmarks == old(bookmarks) && chunks == old(chunks) && undoHistory == old(undoHistory)
      ensures globalTags == old(globalTags) && sectionTags == old(sectionTags)
      ensures tagPresets == old(tagPresets) && storedPresets == old(storedPresets) && nextId == old(nextId)
    {
      selectedChunkId := id;
    }

    /** `setState({bookmarks: [], chunks: []})`, as a new file is loaded or analysed; the
        undo history is kept. */
    method ClearBookmarksAndChunks()
      requires Valid()
      modifies this
      ensures Valid()
      ensures bookmarks == [] && chunks == []
      ensures selectedChunkId == old(selectedChunkId) && undoHistory == old(undoHistory)
      ensures globalTags == old(globalTags) && sectionTags == old(sectionTags)
      ensures tagPresets == old(tagPresets) && storedPresets == old(storedPresets) && nextId == old(nextId)
    {
      bookmarks, chunks := [], [];
    }

    /** `addBookmark(t)`: rejected within 0.5 s of an existing bookmark; otherwise one
        bookmark with a fresh id joins the sorted list. */
    method AddBookmark(t: real)
      requires Valid()
      modifies this
      ensures Valid()
      ensures TooClose(old(bookmarks), t) ==> bookmarks == old(bookmarks) && nextId == old(nextId)
      ensures !TooClose(old(bookmarks), t) ==>
                bookmarks == BookmarkSet.AddBookmark(old(bookmarks), t, old(nextId)) && nextId == old(nextId) + 1
      ensures (bookmarks, nextId) == BookmarkSet.AddStep(old(bookmarks), old(nextId), t)
      ensures chunks == old(chunks) && selectedChunkId == old(selectedChunkId) && undoHistory == old(undoHistory)
      ensures globalTags == old(globalTags) && sectionTags == old(sectionTags)
      ensures tagPresets == old(tagPresets) && storedPresets == old(storedPresets)
    {
      AddStepKeepsIds(bookmarks, undoHistory, chunks, nextId, t);
      var p := BookmarkSet.AddStep(bookmarks, nextId, t);
      bookmarks, nextId := p.0, p.1;
    }

    /** `removeBookmark(id)`. */
    method RemoveBookmark(id: Id)
      requires Valid()
      modifies this
      ensures Valid()
      ensures (bookmarks, undoHistory) == BookmarkSet.RemoveBookmark(old(bookmarks), old(undoHistory), id)
      ensures chunks == old(chunks) && selectedChunkId == old(selectedChunkId)
      ensures globalTags == old(globalTags) && sectionTags == old(sectionTags)
      ensures tagPresets == old(tagPresets) && storedPresets == old(storedPresets) && nextId == old(nextId)
    {
      if HasId(bookmarks, id) {
        RemoveKeepsIds(bookmarks, undoHistory, id, nextId);
        WithoutIdKeepsOrder(bookmarks, id);
      }
      var r := BookmarkSet.RemoveBookmark(bookmarks, undoHistory, id);
      bookmarks, undoHistory := r.0, r.1;
    }

    /** `undo()`. */
    method Undo()
      requires Valid()
      modifies this
      ensures Valid()
      ensures (bookmarks, undoHistory) == BookmarkSet.Undo(old(bookmarks), old(undoHistory))
      ensures chunks == old(chunks) && selectedChunkId == old(selectedChunkId)
      ensures globalTags == old(globalTags) && sectionTags == old(sectionTags)
      ensures tagPresets == old(tagPresets) && storedPresets == old(storedPresets) && nextId == old(nextId)
    {
      if undoHistory != [] {
        UndoKeepsIds(bookmarks, undoHistory, nextId);
      }
      var r := BookmarkSet.Undo(bookmarks, undoHistory);
      bookmarks, undoHistory := r.0, r.1;
    }

    /** `regenerateChunks(duration)`: the loop over the sorted bookmarks, pushing one
        chunk per bookmark and a trailing one when time is left. */
    method RegenerateChunks(duration: real)
      requires Valid()
      modifies this
      ensures Valid()
      ensures (chunks, nextId) == Regenerate(old(chunks), old(bookmarks), duration, old(nextId))
      ensures bookmarks == old(bookmarks) && selectedChunkId == old(selectedChunkId) && undoHistory == old(undoHistory)
      ensures globalTags == old(globalTags) && sectionTags == old(sectionTags)
      ensures tagPresets == old(tagPresets) && storedPresets == old(storedPresets)
    {
      var sorted := SortByTime(bookmarks);
      var prev, start := chunks, nextId;
      RegenerateIdsBelow(prev, bookmarks, duration, start);
      var newChunks, counter := WalkBookmarks(prev, sorted, start);
      newChunks, counter := CloseTimeline(prev, sorted, duration, newChunks, counter, start);
      chunks, nextId := newChunks, counter;
    }

    /** `addTagToChunk(chunkId, tag)`. */
    method AddTagToChunk(chunkId: Id, tag: Tag)
      requires Valid()
      modifies this
      ensures Valid()
      ensures chunks == ChunkTags.AddTagToChunk(old(chunks), chunkId, tag)
      ensures bookmarks == old(bookmarks) && selectedChunkId == old(selectedChunkId) && undoHistory == old(undoHistory)
      ensures globalTags == old(globalTags) && sectionTags == old(sectionTags)
      ensures tagPresets == old(tagPresets) && storedPresets == old(storedPresets) && nextId == old(nextId)
    {
      chunks := ChunkTags.AddTagToChunk(chunks, chunkId, tag);
    }

    /** `removeTagFromChunk(chunkId, tagId)`. */
    method RemoveTagFromChunk(chunkId: Id, tagId: Id)
      requires Valid()
      modifies this
      ensures Valid()
      ensures chunks == ChunkTags.RemoveTagFromChunk(old(chunks), chunkId, tagId)
      ensures bookmarks == old(bookmarks) && selectedChunkId == old(selectedChunkId) && undoHistory == old(undoHistory)
      ensures globalTags == old(globalTags) && sectionTags == old(sectionTags)
      ensures tagPresets == old(tagPresets) && storedPresets == old(storedPresets) && nextId == old(nextId)
    {
      chunks := ChunkTags.RemoveTagFromChunk(chunks, chunkId, tagId);
    }

    /** Installs a new registry and persists it. */
    method SetPresets(m: PresetMap)
      requires Valid()
      modifies this
      ensures Valid()
      ensures tagPresets == m && storedPresets == Some(m)
      ensures bookmarks == old(bookmarks) && chunks == old(chunks) && selectedChunkId == old(selectedChunkId)
      ensures undoHistory == old(undoHistory) && globalTags == old(globalTags) && sectionTags == old(sectionTags)
      ensures nextId == old(nextId)
    {
      tagPresets, storedPresets := m, Some(m);
    }

    /** `addCategory(id, label)`. */
    method AddCategory(id: string, title: string)
      requires Valid()
      modifies this
      ensures Valid()
      ensures tagPresets == TagPresets.AddCategory(old(tagPresets), id, title) && storedPresets == Some(tagPresets)
      ensures bookmarks == old(bookmarks) && chunks == old(chunks) && selectedChunkId == old(selectedChunkId)
      ensures undoHistory == old(undoHistory) && globalTags == old(globalTags) && sectionTags == old(sectionTags)
      ensures nextId == old(nextId)
    {
      SetPresets(TagPresets.AddCategory(tagPresets, id, title));
    }

    /** `removeCategory(id)`. */
    method RemoveCategory(id: string)
      requires Valid()
      modifies this
      ensures Valid()
      ensures tagPresets == TagPresets.RemoveCategory(old(tagPresets), id) && storedPresets == Some(tagPresets)
      ensures bookmarks == old(bookmarks) && chunks == old(chunks) && selectedChunkId == old(selectedChunkId)
      ensures undoHistory == old(undoHistory) && globalTags == old(globalTags) && sectionTags == old(sectionTags)
      ensures nextId == old(nextId)
    {
      SetPresets(TagPresets.RemoveCategory(tagPresets, id));
    }

    /** `addPresetTag(categoryId, name)`: nothing changes, nothing is written, when the
        mutator declines. */
    method AddPresetTag(categoryId: string, name: string)
      requires Valid()
      modifies this
      ensures Valid()
      ensures TagPresets.AddPresetTag(old(tagPresets), categoryId, name).None? ==>
                tagPresets == old(tagPresets) && storedPresets == old(storedPresets)
      ensures TagPresets.AddPresetTag(old(tagPresets), categoryId, name).Some? ==>
                tagPresets == TagPresets.AddPresetTag(old(tagPresets), categoryId, name).value && storedPresets == Some(tagPresets)
      ensures bookmarks == old(bookmarks) && chunks == old(chunks) && selectedChunkId == old(selectedChunkId)
      ensures undoHistory == old(undoHistory) && globalTags == old(globalTags) && sectionTags == old(sectionTags)
      ensures nextId == old(nextId)
    {
      var r := TagPresets.AddPresetTag(tagPresets, categoryId, name);
      if r.Some? {
        SetPresets(r.value);
      }
    }

    /** `removePresetTag(categoryId, name)`. */
    method RemovePresetTag(categoryId: string, name: string)
      requires Valid()
      modifies this
      ensures Valid()
      ensures TagPresets.RemovePresetTag(old(tagPresets), categoryId, name).None? ==>
                tagPresets == old(tagPresets) && storedPresets == old(storedPresets)
      ensures TagPresets.RemovePresetTag(old(tagPresets), categoryId, name).Some? ==>
                tagPresets == TagPresets.RemovePresetTag(old(tagPresets), categoryId, name).value && storedPresets == Some(tagPresets)
      ensures bookmarks == old(bookmarks) && chunks == old(chunks) && selectedChunkId == old(selectedChunkId)
      ensures undoHistory == old(undoHistory) && globalTags == old(globalTags) && sectionTags == old(sectionTags)
      ensures nextId == old(nextId)
    {
      var r := TagPresets.RemovePresetTag(tagPresets, categoryId, name);
      if r.Some? {
        SetPresets(r.value);
      }
    }

    /** `importTagPresets(presets)`: the whole registry is replaced and persisted. */
    method ImportTagPresets(presets: PresetMap)
      requires Valid()
      modifies this
      ensures Valid()
      ensures tagPresets == presets && storedPresets == Some(presets)
      ensures bookmarks == old(bookmarks) && chunks == old(chunks) && selectedChunkId == old(selectedChunkId)
      ensures undoHistory == old(undoHistory) && globalTags == old(globalTags) && sectionTags == old(sectionTags)
      ensures nextId == old(nextId)
    {
      SetPresets(presets);
    }

    /** `initializePresets()`, over the stored registry, the legacy lists and the fetch
        outcome. */
    method InitializePresets(legacyPitch: Option<seq<string>>, legacyResult: Option<seq<string>>, fetched: FetchOutcome)
      requires Valid()
      modifies this
      ensures Valid()
      ensures InitialPresets(old(storedPresets), legacyPitch, legacyResult, fetched).None? ==>
                tagPresets == old(tagPresets) && storedPresets == old(storedPresets)
      ensures InitialPresets(old(storedPresets), legacyPitch, legacyResult, fetched).Some? ==>
                tagPresets == InitialPresets(old(storedPresets), legacyPitch, legacyResult, fetched).value
                && storedPresets == Some(tagPresets)
      ensures bookmarks == old(bookmarks) && chunks == old(chunks) && selectedChunkId == old(selectedChunkId)
      ensures undoHistory == old(undoHistory) && globalTags == old(globalTags) && sectionTags == old(sectionTags)
      ensures nextId == old(nextId)
    {
      var r := InitialPresets(storedPresets, legacyPitch, legacyResult, fetched);
      if r.Some? {
        SetPresets(r.value);
      }
    }
  }
}
