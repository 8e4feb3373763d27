/** The export document (frontend/src/components/ExportButton.tsx:8-23): a version tag, a
    timestamp and a copy of the annotations, where each bookmark and chunk is rebuilt field
    by field. Serialising it and downloading the file are not part of this model. */
module ExportDocument {
  import opened AnnotationTypes
  import BookmarkSet
  import ChunkPartition

  const ExportVersion := "1.0"

  datatype Document = Document(version: string, timestamp: string, annotations: AnnotationData)

  /** `bookmarks.map(b => ({ id: b.id, time: b.time }))`. */
  function ExportBookmarks(bookmarks: seq<Bookmark>): (r: seq<Bookmark>)
    ensures |r| == |bookmarks|
    ensures forall i :: 0 <= i < |r| ==> r[i].id == bookmarks[i].id && r[i].time == bookmarks[i].time
  {
    seq(|bookmarks|, i requires 0 <= i < |bookmarks| => Bookmark(bookmarks[i].id, bookmarks[i].time))
  }

  /** `chunks.map(c => ({ id, startTime, endTime, tags }))`. */
  function ExportChunks(chunks: seq<Chunk>): (r: seq<Chunk>)
    ensures |r| == |chunks|
    ensures forall i :: 0 <= i < |r| ==>
              r[i].id == chunks[i].id && r[i].startTime == chunks[i].startTime
              && r[i].endTime == chunks[i].endTime && r[i].tags == chunks[i].tags
  {
    seq(|chunks|, i requires 0 <= i < |chunks| =>
      Chunk(chunks[i].id, chunks[i].startTime, chunks[i].endTime, chunks[i].tags))
  }

  /** `handleExport`'s document; the timestamp is the caller's clock reading. */
  function Export(globalTags: seq<Tag>, sectionTags: seq<SectionTag>, bookmarks: seq<Bookmark>,
                  chunks: seq<Chunk>, timestamp: string): (d: Document)
    ensures d.version == "1.0" && d.timestamp == timestamp
    ensures d.annotations.globalTags == globalTags && d.annotations.sectionTags == sectionTags
  {
    Document(ExportVersion, timestamp,
             AnnotationData(globalTags, sectionTags, ExportBookmarks(bookmarks), ExportChunks(chunks)))
  }

  /** The document holds the store's annotations exactly: nothing is reordered, dropped or
      altered by the field-by-field copies. */
  lemma ExportIsFaithful(globalTags: seq<Tag>, sectionTags: seq<SectionTag>, bookmarks: seq<Bookmark>,
                         chunks: seq<Chunk>, timestamp: string)
    ensures Export(globalTags, sectionTags, bookmarks, chunks, timestamp).annotations
         == AnnotationData(globalTags, sectionTags, bookmarks, chunks)
  {
    var r := ExportBookmarks(bookmarks);
    assert forall i :: 0 <= i < |r| ==> r[i] == bookmarks[i];
    var c := ExportChunks(chunks);
    assert forall i :: 0 <= i < |c| ==> c[i] == chunks[i];
  }

  /** What the store's invariants give the exported chunks: their times are the partition
      of the exported bookmarks. */
  lemma ExportKeepsPartition(globalTags: seq<Tag>, sectionTags: seq<SectionTag>, bookmarks: seq<Bookmark>,
                             chunks: seq<Chunk>, timestamp: string, duration: real)
    requires ChunkPartition.PartitionOf(chunks, BookmarkSet.SortByTime(bookmarks), duration)
    ensures var a := Export(globalTags, sectionTags, bookmarks, chunks, timestamp).annotations;
      ChunkPartition.PartitionOf(a.chunks, BookmarkSet.SortByTime(a.bookmarks), duration)
  {
    ExportIsFaithful(globalTags, sectionTags, bookmarks, chunks, timestamp);
  }
}
