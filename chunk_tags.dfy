/** Per-chunk tag edits (frontend/src/store/annotationStore.ts, addTagToChunk and
    removeTagFromChunk): tags are attached to the chunk with a matching id, at most once
    per tag id, and removed by tag id; no chunk's id or times ever change. */
module ChunkTags {
  import opened Wrappers
  import opened AnnotationTypes
  import opened BookmarkSet
  import opened ChunkPartition

  predicate HasTag(tags: seq<Tag>, tagId: Id) {
    exists i :: 0 <= i < |tags| && tags[i].id == tagId
  }

  /** No tag id occurs twice in `tags`. */
  predicate UniqueTagIds(tags: seq<Tag>) {
    forall i, j :: 0 <= i < j < |tags| ==> tags[i].id != tags[j].id
  }

  /** `tags.filter(t => t.id !== tagId)`. */
  function WithoutTag(tags: seq<Tag>, tagId: Id): (r: seq<Tag>)
    ensures |r| <= |tags|
    ensures !HasTag(r, tagId)
    ensures !HasTag(tags, tagId) ==> r == tags
  {
    if tags == [] then []
    else
      var rest := WithoutTag(tags[1..], tagId);
      assert forall i :: 1 <= i < |tags| ==> tags[i] == tags[1..][i - 1];
      if tags[0].id == tagId then rest else [tags[0]] + rest
  }

  lemma {:induction false} WithoutTagKeepsOthers(tags: seq<Tag>, tagId: Id, t: Tag)
    ensures t in WithoutTag(tags, tagId) <==> t in tags && t.id != tagId
  {
    if tags != [] {
      WithoutTagKeepsOthers(tags[1..], tagId, t);
      assert tags == [tags[0]] + tags[1..];
    }
  }

  lemma {:induction false} WithoutTagAppend(tags: seq<Tag>, tag: Tag)
    requires !HasTag(tags, tag.id)
    ensures WithoutTag(tags + [tag], tag.id) == tags
  {
    if tags == [] {
      assert [] + [tag] == [tag];
    } else {
      assert (tags + [tag])[1..] == tags[1..] + [tag];
      assert forall i :: 1 <= i < |tags| ==> tags[i] == tags[1..][i - 1];
      WithoutTagAppend(tags[1..], tag);
      assert tags == [tags[0]] + tags[1..];
    }
  }

  /** One chunk after `addTagToChunk(chunkId, tag)`. */
  function ChunkWithTag(c: Chunk, chunkId: Id, tag: Tag): (r: Chunk)
    ensures c.id == chunkId ==> HasTag(r.tags, tag.id)
  {
    if c.id == chunkId && !HasTag(c.tags, tag.id) then
      var u := c.tags + [tag];
      assert u[|c.tags|] == tag;
      c.(tags := u)
    else c
  }

  /** One chunk after `removeTagFromChunk(chunkId, tagId)`. */
  function ChunkWithoutTag(c: Chunk, chunkId: Id, tagId: Id): Chunk {
    if c.id == chunkId then c.(tags := WithoutTag(c.tags, tagId)) else c
  }

  /** Same chunk ids and time ranges, position by position. */
  predicate SameFrames(a: seq<Chunk>, b: seq<Chunk>) {
    && |a| == |b|
    && forall i :: 0 <= i < |a| ==>
         a[i].id == b[i].id && a[i].startTime == b[i].startTime && a[i].endTime == b[i].endTime
  }

  /** The chunk list after `addTagToChunk(chunkId, tag)`. */
  function AddTagToChunk(chunks: seq<Chunk>, chunkId: Id, tag: Tag): (r: seq<Chunk>)
    ensures SameFrames(r, chunks)
    ensures forall i :: 0 <= i < |r| && chunks[i].id != chunkId ==> r[i] == chunks[i]
    ensures forall i :: 0 <= i < |r| && HasTag(chunks[i].tags, tag.id) ==> r[i] == chunks[i]
    ensures forall i :: 0 <= i < |r| && chunks[i].id == chunkId && !HasTag(chunks[i].tags, tag.id) ==>
              r[i].tags == chunks[i].tags + [tag]
    ensures forall i :: 0 <= i < |r| && chunks[i].id == chunkId ==> HasTag(r[i].tags, tag.id)
  {
    seq(|chunks|, i requires 0 <= i < |chunks| => ChunkWithTag(chunks[i], chunkId, tag))
  }

  /** The chunk list after `removeTagFromChunk(chunkId, tagId)`. */
  function RemoveTagFromChunk(chunks: seq<Chunk>, chunkId: Id, tagId: Id): (r: seq<Chunk>)
    ensures SameFrames(r, chunks)
    ensures forall i :: 0 <= i < |r| && chunks[i].id != chunkId ==> r[i] == chunks[i]
    ensures forall i :: 0 <= i < |r| && chunks[i].id == chunkId ==> !HasTag(r[i].tags, tagId)
    ensures forall i :: 0 <= i < |r| && !HasTag(chunks[i].tags, tagId) ==> r[i] == chunks[i]
  {
    seq(|chunks|, i requires 0 <= i < |chunks| => ChunkWithoutTag(chunks[i], chunkId, tagId))
  }

  /** Adding a tag never puts a duplicate tag id into a chunk. */
  lemma AddKeepsTagIdsUnique(chunks: seq<Chunk>, chunkId: Id, tag: Tag, i: nat)
    requires i < |chunks| && UniqueTagIds(chunks[i].tags)
    ensures UniqueTagIds(AddTagToChunk(chunks, chunkId, tag)[i].tags)
  {
    var t := chunks[i].tags;
    if chunks[i].id == chunkId && !HasTag(t, tag.id) {
      var u := t + [tag];
      assert AddTagToChunk(chunks, chunkId, tag)[i].tags == u;
      forall a, b | 0 <= a < b < |u| ensures u[a].id != u[b].id {
        if b == |t| {
          assert u[a] == t[a];
        }
      }
    }
  }

  /** Adding the same tag twice is the same as adding it once. */
  lemma AddTagIdempotent(chunks: seq<Chunk>, chunkId: Id, tag: Tag)
    ensures AddTagToChunk(AddTagToChunk(chunks, chunkId, tag), chunkId, tag) == AddTagToChunk(chunks, chunkId, tag)
  {
    var once := AddTagToChunk(chunks, chunkId, tag);
    var twice := AddTagToChunk(once, chunkId, tag);
    forall i | 0 <= i < |chunks| ensures twice[i] == once[i] {
      if once[i].id == chunkId {
        assert HasTag(once[i].tags, tag.id);
      }
    }
  }

  /** Removing a tag that was just added (and was not there before) restores the chunks. */
  lemma RemoveAfterAddRestores(chunks: seq<Chunk>, chunkId: Id, tag: Tag)
    requires forall i :: 0 <= i < |chunks| && chunks[i].id == chunkId ==> !HasTag(chunks[i].tags, tag.id)
    ensures RemoveTagFromChunk(AddTagToChunk(chunks, chunkId, tag), chunkId, tag.id) == chunks
  {
    var added := AddTagToChunk(chunks, chunkId, tag);
    var back := RemoveTagFromChunk(added, chunkId, tag.id);
    forall i | 0 <= i < |chunks| ensures back[i] == chunks[i] {
      if chunks[i].id == chunkId {
        WithoutTagAppend(chunks[i].tags, tag);
      }
    }
  }

  /** Tag edits keep the time ranges, so a tagged chunk list is still the partition of the
      same bookmarks. */
  lemma SameFramesKeepPartition(a: seq<Chunk>, b: seq<Chunk>, s: seq<Bookmark>, duration: real)
    requires SameFrames(a, b) && PartitionOf(b, s, duration)
    ensures PartitionOf(a, s, duration)
  {
    assert forall i :: 0 <= i < |a| ==> a[i].startTime == b[i].startTime && a[i].endTime == b[i].endTime;
  }

  /** A tag added to a chunk survives the next regeneration when the bookmarks are
      unchanged and their chunk starts are at least 0.1 s apart. */
  lemma TagSurvivesRegenerate(cs: seq<Chunk>, bookmarks: seq<Bookmark>, duration: real, n: Id, chunkId: Id, tag: Tag)
    requires Separated(SortByTime(bookmarks))
    requires PartitionOf(cs, SortByTime(bookmarks), duration)
    ensures var tagged := AddTagToChunk(cs, chunkId, tag);
      Regenerate(tagged, bookmarks, duration, n) == (tagged, n)
  {
    var tagged := AddTagToChunk(cs, chunkId, tag);
    SameFramesKeepPartition(tagged, cs, SortByTime(bookmarks), duration);
    RegenerateFixesPartition(tagged, bookmarks, duration, n);
  }

  /** A tag survives the regeneration after any bookmark edit, as long as the tagged
      chunk's start is still a chunk start: the chunk starting there keeps the tagged
      chunk's id and tags. */
  lemma TagSurvivesEdit(cs: seq<Chunk>, before: seq<Bookmark>, after: seq<Bookmark>, duration: real, n: Id,
                        chunkId: Id, tag: Tag, i: nat, j: nat)
    requires Separated(SortByTime(before))
    requires PartitionOf(cs, SortByTime(before), duration)
    requires i < |cs|
    requires var r := Regenerate(AddTagToChunk(cs, chunkId, tag), after, duration, n).0;
      j < |r| && r[j].startTime == cs[i].startTime
    ensures var tagged := AddTagToChunk(cs, chunkId, tag);
      var r := Regenerate(tagged, after, duration, n).0;
      && r[j].id == tagged[i].id == cs[i].id
      && r[j].tags == tagged[i].tags
      && (cs[i].id == chunkId ==> HasTag(r[j].tags, tag.id))
  {
    var tagged := AddTagToChunk(cs, chunkId, tag);
    SameFramesKeepPartition(tagged, cs, SortByTime(before), duration);
    FindNearSelf(tagged, SortByTime(before), duration, i);
    RegenerateShape(tagged, after, duration, n);
  }

  /** Without `Separated` a tag can be lost although no bookmark changed: with a bookmark at
      0.05 s, the chunk starting at 0.05 is matched to the chunk starting at 0 on the next
      regeneration and takes that chunk's (empty) tags. */
  lemma ExampleTagLostNearZero(tag: Tag)
    ensures var cs := [Chunk(0, 0.0, 0.05, []), Chunk(1, 0.05, 100.0, [])];
      var tagged := AddTagToChunk(cs, 1, tag);
      && tagged[1].tags == [tag]
      && Regenerate(tagged, [Bookmark(7, 0.05)], 100.0, 2).0 == [Chunk(0, 0.0, 0.05, []), Chunk(0, 0.05, 100.0, [])]
  {
    var bk := Bookmark(7, 0.05);
    var cs := [Chunk(0, 0.0, 0.05, []), Chunk(1, 0.05, 100.0, [])];
    var tagged := AddTagToChunk(cs, 1, tag);
    assert !HasTag([], tag.id);
    assert |tagged| == 2 && tagged[0] == cs[0];
    assert tagged[1] == ChunkWithTag(cs[1], 1, tag);
    assert [] + [tag] == [tag];
    assert tagged == [Chunk(0, 0.0, 0.05, []), Chunk(1, 0.05, 100.0, [tag])];
    SortSortedIsIdentity([bk]);
    WalkOne(tagged, bk, 2);
    assert FindNear(tagged, 0.0) == Some(0);
    assert FindNear(tagged, 0.05) == Some(0);
    assert LastTime([bk]) == 0.05;
    assert [Chunk(0, 0.0, 0.05, [])] + [Chunk(0, 0.05, 100.0, [])] == [Chunk(0, 0.0, 0.05, []), Chunk(0, 0.05, 100.0, [])];
  }
}
