/** The record types of the annotation model (frontend/src/types/annotation.ts). */
module AnnotationTypes {
  import opened Wrappers

  /** Identifiers. The source draws uuid strings from `uuidv4()`; here an identifier is a
      serial number, and a fresh one is the next value of a counter kept by the store. */
  type Id = nat

  /** A tag belongs to exactly one of three categories. */
  datatype TagCategory = Global | Section | ChunkLevel

  /** A tag; its colour is optional. */
  datatype Tag = Tag(id: Id, name: string, category: TagCategory, color: Option<string>)

  /** A bookmark: an id and a time in seconds. */
  datatype Bookmark = Bookmark(id: Id, time: real)

  /** A chunk: the segment from `startTime` to `endTime`, where `endTime` is the next
      bookmark's time or the video duration, with the tags attached to it. */
  datatype Chunk = Chunk(id: Id, startTime: real, endTime: real, tags: seq<Tag>)

  /** An entry of `sectionTags`: a time range with tags. */
  datatype SectionTag = SectionTag(id: Id, startTime: real, endTime: real, tags: seq<Tag>)

  /** The whole annotation of one video; its chunks are derived from its bookmarks. */
  datatype AnnotationData = AnnotationData(
    globalTags: seq<Tag>,
    sectionTags: seq<SectionTag>,
    bookmarks: seq<Bookmark>,
    chunks: seq<Chunk>)
}
