/** `detectCuts(file)` (frontend/src/hooks/useAnalysis.ts): clears the bookmarks and chunks,
    posts the video, and reads the newline-delimited reply as it arrives. Each complete
    non-blank line is decoded and dispatched: a progress record sets the progress, a result
    record adds its cut times as bookmarks and sets the progress to 100, an error record
    changes nothing. The analysing flag is cleared on every way out. */
module UseAnalysis {
  import opened Wrappers
  import opened AnnotationTypes
  import BookmarkSet
  import opened LineFraming
  import opened AnnotationStore
  import opened VideoState

  /** A decoded line; `Unrecognised` is an object whose `type` is none of the three.
      `AbortedResult(times)` is a result record whose `forEach` throws after adding `times`
      (an entry that is `null`, say): the times before it are added and then the catch
      swallows the error, so the progress is not set. */
  datatype Record =
    | Progress(value: real)
    | Result(times: seq<real>)
    | AbortedResult(times: seq<real>)
    | Failure(message: string)
    | Unrecognised

  /** How the request went: `fetch` threw, the reply had no body, or the text pieces the
      reader delivered before the stream ended or a read failed. */
  datatype Response = NetworkError | NoBody | Body(pieces: seq<string>)

  /** The characters `String.prototype.trim` removes (other than the line terminators,
      which a framed line cannot hold, and '\n'). */
  predicate IsJsSpace(c: char) {
    || c == ' ' || c == '\t' || c == '\r' || c == '\U{000B}' || c == '\U{000C}'
    || c == '\U{00A0}' || c == '\U{1680}' || ('\U{2000}' <= c <= '\U{200A}')
    || c == '\U{2028}' || c == '\U{2029}' || c == '\U{202F}' || c == '\U{205F}'
    || c == '\U{3000}' || c == '\U{FEFF}'
  }

  /** `!line.trim()`. */
  predicate IsBlank(line: string) {
    forall i :: 0 <= i < |line| ==> IsJsSpace(line[i])
  }

  /** The part of the state the stream changes: the bookmarks, the id counter and the
      progress shown. */
  datatype Tracker = Tracker(bookmarks: seq<Bookmark>, nextId: Id, progress: real)

  /** `times.forEach(t => addBookmark(t))`: the bookmark list and the counter after adding
      each time in turn. */
  function AddAll(s: seq<Bookmark>, next: Id, times: seq<real>): (r: (seq<Bookmark>, Id))
    ensures r.1 >= next
  {
    if times == [] then (s, next)
    else
      var p := AddAll(s, next, times[..|times| - 1]);
      var t := times[|times| - 1];
      BookmarkSet.AddStep(p.0, p.1, t)
  }

  /** A bookmark list that contains every bookmark of another is close to every time the
      other is close to. */
  lemma TooCloseGrows(s: seq<Bookmark>, r: seq<Bookmark>, t: real)
    requires forall x :: x in s ==> x in r
    requires BookmarkSet.TooClose(s, t)
    ensures BookmarkSet.TooClose(r, t)
  {
    var i :| 0 <= i < |s| && Abs(s[i].time - t) < BookmarkSet.ProximitySeconds;
    assert s[i] in r;
    var j :| 0 <= j < |r| && r[j] == s[i];
  }

  /** One `addBookmark(t)` keeps every bookmark and leaves one within 0.5 s of `t`. */
  lemma AddOneCovers(s: seq<Bookmark>, t: real, id: Id)
    ensures var r := BookmarkSet.AddBookmark(s, t, id);
      (forall x :: x in s ==> x in r) && BookmarkSet.TooClose(r, t)
  {
    var r := BookmarkSet.AddBookmark(s, t, id);
    if !BookmarkSet.TooClose(s, t) {
      assert forall x :: x in s ==> x in multiset(r);
      assert Bookmark(id, t) in multiset(r);
      var j :| 0 <= j < |r| && r[j] == Bookmark(id, t);
      assert Abs(r[j].time - t) < BookmarkSet.ProximitySeconds;
    }
  }

  /** Adding the detected times keeps the list sorted and spaced and keeps every bookmark
      already there. */
  lemma {:induction false} AddAllKeepsOrder(s: seq<Bookmark>, next: Id, times: seq<real>)
    requires BookmarkSet.SortedByTime(s) && BookmarkSet.WellSpaced(s)
    ensures var r := AddAll(s, next, times).0;
      && BookmarkSet.SortedByTime(r) && BookmarkSet.WellSpaced(r)
      && (forall x :: x in s ==> x in r)
  {
    if times != [] {
      var init := times[..|times| - 1];
      AddAllKeepsOrder(s, next, init);
      var p := AddAll(s, next, init);
      BookmarkSet.AddKeepsSpacing(p.0, times[|times| - 1], p.1);
      AddOneCovers(p.0, times[|times| - 1], p.1);
    }
  }

  /** Every time of `times` has a bookmark of `s` within 0.5 s. */
  predicate Covers(s: seq<Bookmark>, times: seq<real>) {
    forall k :: 0 <= k < |times| ==> BookmarkSet.TooClose(s, times[k])
  }

  lemma CoversGrows(s: seq<Bookmark>, r: seq<Bookmark>, times: seq<real>)
    requires forall x :: x in s ==> x in r
    requires Covers(s, times)
    ensures Covers(r, times)
  {
    forall k | 0 <= k < |times| ensures BookmarkSet.TooClose(r, times[k]) {
      TooCloseGrows(s, r, times[k]);
    }
  }

  lemma CoversSnoc(s: seq<Bookmark>, times: seq<real>, t: real)
    requires Covers(s, times) && BookmarkSet.TooClose(s, t)
    ensures Covers(s, times + [t])
  {
    assert forall k :: 0 <= k < |times| ==> (times + [t])[k] == times[k];
  }

  /** After adding the detected times there is a bookmark within 0.5 s of every one of them,
      whether that time was added or rejected as too close. */
  lemma {:induction false} AddAllCovers(s: seq<Bookmark>, next: Id, times: seq<real>)
    ensures Covers(AddAll(s, next, times).0, times)
  {
    if times != [] {
      var init := times[..|times| - 1];
      AddAllCovers(s, next, init);
      var p := AddAll(s, next, init);
      var t := times[|times| - 1];
      AddOneCovers(p.0, t, p.1);
      var r := AddAll(s, next, times).0;
      assert r == BookmarkSet.AddBookmark(p.0, t, p.1);
      CoversGrows(p.0, r, init);
      CoversSnoc(r, init, t);
      assert init + [t] == times;
    }
  }

  /** The effect of one decoded record. */
  function ApplyRecord(st: Tracker, r: Record): Tracker {
    match r
    case Progress(v) => st.(progress := v)
    case Result(times) =>
      var a := AddAll(st.bookmarks, st.nextId, times);
      Tracker(a.0, a.1, 100.0)
    case AbortedResult(times) =>
      var a := AddAll(st.bookmarks, st.nextId, times);
      Tracker(a.0, a.1, st.progress)
    case Failure(_) => st
    case Unrecognised => st
  }

  /** The effect of one complete line: blank lines and lines `parse` rejects (where
      `JSON.parse` throws, or the record handling throws before changing anything) change
      nothing. */
  function ApplyLine(st: Tracker, line: string, parse: string -> Option<Record>): Tracker {
    if IsBlank(line) then st
    else match parse(line)
      case None => st
      case Some(r) => ApplyRecord(st, r)
  }

  /** The effect of a run of complete lines, in order. */
  function ApplyLines(st: Tracker, lines: seq<string>, parse: string -> Option<Record>): Tracker {
    if lines == [] then st
    else ApplyLine(ApplyLines(st, lines[..|lines| - 1], parse), lines[|lines| - 1], parse)
  }

  lemma {:induction false} ApplyLinesAppend(st: Tracker, a: seq<string>, b: seq<string>, parse: string -> Option<Record>)
    ensures ApplyLines(st, a + b, parse) == ApplyLines(ApplyLines(st, a, parse), b, parse)
  {
    if b == [] {
      assert a + b == a;
    } else {
      var init := b[..|b| - 1];
      ApplyLinesAppend(st, a, init, parse);
      assert (a + b)[..|a + b| - 1] == a + init;
    }
  }

  /** A blank or undecodable line anywhere in the stream has no effect: the lines after it
      are still processed as if it were absent. */
  lemma SkippedLineHasNoEffect(st: Tracker, a: seq<string>, line: string, b: seq<string>, parse: string -> Option<Record>)
    requires IsBlank(line) || parse(line).None?
    ensures ApplyLines(st, a + [line] + b, parse) == ApplyLines(st, a + b, parse)
  {
    ApplyLinesAppend(st, a + [line], b, parse);
    ApplyLinesAppend(st, a, b, parse);
    assert (a + [line])[..|a|] == a;
  }

  /** Whatever the stream says, the bookmarks stay sorted and spaced. */
  lemma {:induction false} ApplyLinesKeepsSpacing(st: Tracker, lines: seq<string>, parse: string -> Option<Record>)
    requires BookmarkSet.SortedByTime(st.bookmarks) && BookmarkSet.WellSpaced(st.bookmarks)
    ensures var r := ApplyLines(st, lines, parse).bookmarks;
      BookmarkSet.SortedByTime(r) && BookmarkSet.WellSpaced(r)
  {
    if lines != [] {
      var before := ApplyLines(st, lines[..|lines| - 1], parse);
      ApplyLinesKeepsSpacing(st, lines[..|lines| - 1], parse);
      var line := lines[|lines| - 1];
      if !IsBlank(line) && parse(line).Some? && (parse(line).value.Result? || parse(line).value.AbortedResult?) {
        AddAllKeepsOrder(before.bookmarks, before.nextId, parse(line).value.times);
      }
    }
  }

  /** After a result record the progress reads 100 and every detected cut has a bookmark
      within 0.5 s. */
  lemma ResultCompletes(st: Tracker, times: seq<real>)
    requires BookmarkSet.SortedByTime(st.bookmarks) && BookmarkSet.WellSpaced(st.bookmarks)
    ensures var r := ApplyRecord(st, Result(times));
      && r.progress == 100.0
      && Covers(r.bookmarks, times)
      && (forall x :: x in st.bookmarks ==> x in r.bookmarks)
  {
    AddAllKeepsOrder(st.bookmarks, st.nextId, times);
    AddAllCovers(st.bookmarks, st.nextId, times);
  }

  /** A result whose handling throws part-way keeps the bookmarks of the entries before
      the failure, exactly as a complete result of those entries would, but leaves the
      progress where it was instead of setting it to 100. */
  lemma AbortedResultKeepsAdded(st: Tracker, times: seq<real>)
    requires BookmarkSet.SortedByTime(st.bookmarks) && BookmarkSet.WellSpaced(st.bookmarks)
    ensures var r := ApplyRecord(st, AbortedResult(times));
      && r.bookmarks == ApplyRecord(st, Result(times)).bookmarks
      && r.nextId == ApplyRecord(st, Result(times)).nextId
      && r.progress == st.progress
      && Covers(r.bookmarks, times)
      && (forall x :: x in st.bookmarks ==> x in r.bookmarks)
  {
    AddAllKeepsOrder(st.bookmarks, st.nextId, times);
    AddAllCovers(st.bookmarks, st.nextId, times);
  }

  /** One more time is one more `addBookmark`. */
  lemma AddAllSnoc(s: seq<Bookmark>, next: Id, times: seq<real>, i: nat)
    requires i < |times|
    ensures var p := AddAll(s, next, times[..i]);
      AddAll(s, next, times[..i + 1]) == BookmarkSet.AddStep(p.0, p.1, times[i])
  {
    assert times[..i + 1][..i] == times[..i];
  }

  /** The forEach loop over a result's times. */
  method AddAllToStore(store: Store, times: seq<real>)
    requires store.Valid()
    modifies store
    ensures store.Valid()
    ensures (store.bookmarks, store.nextId) == AddAll(old(store.bookmarks), old(store.nextId), times)
    ensures store.chunks == old(store.chunks) && store.Others() == old(store.Others())
  {
    ghost var s0, n0 := store.bookmarks, store.nextId;
    var i := 0;
    while i < |times|
      invariant 0 <= i <= |times|
      invariant store.Valid()
      invariant (store.bookmarks, store.nextId) == AddAll(s0, n0, times[..i])
      invariant store.chunks == old(store.chunks) && store.Others() == old(store.Others())
    {
      AddAllSnoc(s0, n0, times, i);
      store.AddBookmark(times[i]);
      i := i + 1;
    }
    assert times[..|times|] == times;
  }

  /** Whether two video-store states agree on everything but the analysis fields. */
  predicate SamePlayback(video: VideoStore, hasVideo: bool, isPlaying: bool, played: real, duration: real)
    reads video
  {
    video.hasVideo == hasVideo && video.isPlaying == isPlaying && video.played == played && video.duration == duration
  }

  /** The dispatch of one decoded record. */
  method Dispatch(store: Store, video: VideoStore, r: Record)
    requires store.Valid()
    modifies store, video
    ensures store.Valid()
    ensures Tracker(store.bookmarks, store.nextId, video.analysisProgress)
         == ApplyRecord(old(Tracker(store.bookmarks, store.nextId, video.analysisProgress)), r)
    ensures store.chunks == old(store.chunks) && store.Others() == old(store.Others())
    ensures SamePlayback(video, old(video.hasVideo), old(video.isPlaying), old(video.played), old(video.duration))
    ensures video.isAnalyzing == old(video.isAnalyzing)
  {
    match r
    case Progress(v) =>
      video.analysisProgress := v;
    case Result(times) =>
      AddAllToStore(store, times);
      video.analysisProgress := 100.0;
    case AbortedResult(times) =>
      AddAllToStore(store, times);
    case Failure(_) =>
    case Unrecognised =>
  }

  /** The `for (const line of lines)` loop of one read. */
  method ProcessLines(store: Store, video: VideoStore, lines: seq<string>, parse: string -> Option<Record>)
    requires store.Valid()
    modifies store, video
    ensures store.Valid()
    ensures Tracker(store.bookmarks, store.nextId, video.analysisProgress)
         == ApplyLines(old(Tracker(store.bookmarks, store.nextId, video.analysisProgress)), lines, parse)
    ensures store.chunks == old(store.chunks) && store.Others() == old(store.Others())
    ensures SamePlayback(video, old(video.hasVideo), old(video.isPlaying), old(video.played), old(video.duration))
    ensures video.isAnalyzing == old(video.isAnalyzing)
  {
    ghost var start := Tracker(store.bookmarks, store.nextId, video.analysisProgress);
    var i := 0;
    while i < |lines|
      invariant 0 <= i <= |lines|
      invariant store.Valid()
      invariant Tracker(store.bookmarks, store.nextId, video.analysisProgress) == ApplyLines(start, lines[..i], parse)
      invariant store.chunks == old(store.chunks) && store.Others() == old(store.Others())
      invariant SamePlayback(video, old(video.hasVideo), old(video.isPlaying), old(video.played), old(video.duration))
      invariant video.isAnalyzing == old(video.isAnalyzing)
    {
      assert lines[..i + 1][..i] == lines[..i];
      var line := lines[i];
      if !IsBlank(line) {
        var decoded := parse(line);
        if decoded.Some? {
          Dispatch(store, video, decoded.value);
        }
      }
      i := i + 1;
    }
    assert lines[..|lines|] == lines;
  }

  /** One read of the read loop, in the terms the loop keeps: the framing of the buffer
      and the new piece continues `ReadAll`, and its lines continue the dispatch. */
  lemma ReadStreamStep(start: Tracker, pieces: seq<string>, i: nat, processed: seq<string>, buffer: string,
                       parse: string -> Option<Record>)
    requires i < |pieces| && (processed, buffer) == ReadAll(pieces[..i])
    ensures var f := Frame(buffer + pieces[i]);
      && (processed + f.0, f.1) == ReadAll(pieces[..i + 1])
      && ApplyLines(start, processed + f.0, parse) == ApplyLines(ApplyLines(start, processed, parse), f.0, parse)
  {
    ReadAllSnoc(pieces, i);
    ApplyLinesAppend(start, processed, Frame(buffer + pieces[i]).0, parse);
  }

  /** The `while (true)` read loop: appends each piece to the buffer, processes the
      complete lines and keeps the rest; whatever is left in the buffer at the end is never
      processed. */
  method ReadStream(store: Store, video: VideoStore, pieces: seq<string>, parse: string -> Option<Record>)
    requires store.Valid()
    modifies store, video
    ensures store.Valid()
    ensures Tracker(store.bookmarks, store.nextId, video.analysisProgress)
         == ApplyLines(old(Tracker(store.bookmarks, store.nextId, video.analysisProgress)), Frame(Concat(pieces)).0, parse)
    ensures store.chunks == old(store.chunks) && store.Others() == old(store.Others())
    ensures SamePlayback(video, old(video.hasVideo), old(video.isPlaying), old(video.played), old(video.duration))
  {
    ghost var start := Tracker(store.bookmarks, store.nextId, video.analysisProgress);
    var buffer := "";
    ghost var processed: seq<string> := [];
    var i := 0;
    while i < |pieces|
      invariant 0 <= i <= |pieces|
      invariant (processed, buffer) == ReadAll(pieces[..i])
      invariant store.Valid()
      invariant Tracker(store.bookmarks, store.nextId, video.analysisProgress) == ApplyLines(start, processed, parse)
      invariant store.chunks == old(store.chunks) && store.Others() == old(store.Others())
      invariant SamePlayback(video, old(video.hasVideo), old(video.isPlaying), old(video.played), old(video.duration))
    {
      ReadStreamStep(start, pieces, i, processed, buffer, parse);
      var f := Frame(buffer + pieces[i]);
      ProcessLines(store, video, f.0, parse);
      processed := processed + f.0;
      buffer := f.1;
      i := i + 1;
    }
    assert pieces[..|pieces|] == pieces;
    ReadAllIsFrameOfConcat(pieces);
  }

  /** `detectCuts(file)`, where `parse` stands for `JSON.parse` followed by reading the
      record's fields. */
  method DetectCuts(store: Store, video: VideoStore, hasFile: bool, response: Response, parse: string -> Option<Record>)
    requires store.Valid()
    modifies store, video
    ensures store.Valid()
    ensures !hasFile ==> store.bookmarks == old(store.bookmarks) && store.chunks == old(store.chunks)
                         && store.nextId == old(store.nextId)
                         && video.isAnalyzing == old(video.isAnalyzing) && video.analysisProgress == old(video.analysisProgress)
    ensures hasFile ==> !video.isAnalyzing && store.chunks == []
    ensures hasFile && !response.Body? ==> store.bookmarks == [] && store.nextId == old(store.nextId) && video.analysisProgress == 0.0
    ensures hasFile && response.Body? ==>
              Tracker(store.bookmarks, store.nextId, video.analysisProgress)
              == ApplyLines(Tracker([], old(store.nextId), 0.0), Frame(Concat(response.pieces)).0, parse)
    ensures store.Others() == old(store.Others())
    ensures SamePlayback(video, old(video.hasVideo), old(video.isPlaying), old(video.played), old(video.duration))
  {
    if !hasFile {
      return;
    }
    store.ClearBookmarksAndChunks();
    video.isAnalyzing := true;
    video.analysisProgress := 0.0;
    if response.Body? {
      ReadStream(store, video, response.pieces, parse);
    }
    video.isAnalyzing := false;
  }
}
