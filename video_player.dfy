/** The player component's handlers (frontend/src/components/VideoPlayer.tsx): keeping the
    media element and the played fraction of the player state in step, wheel scrubbing, and
    the skip buttons. The media element is modelled by its two numbers; the browser's own
    clamping of an assigned time and not-a-number durations are not modelled. */
module VideoPlayer {
  import opened Wrappers
  import opened AnnotationTypes
  import opened VideoState
  import opened Navigation
  import AnnotationStore

  /** The `<video>` element behind `videoRef`. */
  class MediaElement {
    var currentTime: real
    var duration: real

    constructor(at: real, length: real)
      ensures currentTime == at && duration == length
    {
      currentTime, duration := at, length;
    }
  }

  /** A seek happens only beyond this distance between element and store. */
  const SyncThreshold: real := 0.1

  /** One frame at 30 frames per second. */
  const FrameTime: real := 1.0 / 30.0

  /** `played * (video.duration || 0)`: where the store says the element should be. */
  function StoreTime(played: real, elementDuration: real): real {
    played * elementDuration
  }

  /** The element's time after a sync: moved to the store's time when it is more than
      0.1 s away, left alone otherwise. */
  function SyncedTime(current: real, storeTime: real): (r: real)
    ensures Abs(r - storeTime) <= SyncThreshold
    ensures r == current <==> Abs(current - storeTime) <= SyncThreshold
    ensures r != current ==> r == storeTime
  {
    if Abs(current - storeTime) > SyncThreshold then storeTime else current
  }

  /** A second sync with nothing changed in between never seeks again. */
  lemma SyncIsIdempotent(current: real, storeTime: real)
    ensures SyncedTime(SyncedTime(current, storeTime), storeTime) == SyncedTime(current, storeTime)
  {
  }

  /** The store-to-element sync effect: nothing while seeking, without an element or without
      a video; otherwise the element seeks to the store's time when it is more than 0.1 s
      away. */
  method SyncFromStore(video: VideoStore, el: MediaElement?, seeking: bool)
    modifies el
    ensures el != null ==> el.duration == old(el.duration)
    ensures el != null && (seeking || !video.hasVideo) ==> el.currentTime == old(el.currentTime)
    ensures el != null && !seeking && video.hasVideo ==>
              el.currentTime == SyncedTime(old(el.currentTime), StoreTime(video.played, el.duration))
  {
    if el == null || seeking || !video.hasVideo {
      return;
    }
    var storeTime := StoreTime(video.played, el.duration);
    if Abs(el.currentTime - storeTime) > SyncThreshold {
      el.currentTime := storeTime;
    }
  }

  /** `handleTimeUpdate`: the played fraction follows the element, except while seeking or
      while the element's duration is not yet known. */
  method HandleTimeUpdate(video: VideoStore, el: MediaElement?, seeking: bool)
    modifies video
    ensures el != null && !seeking && el.duration > 0.0 ==> video.played == el.currentTime / el.duration
    ensures !(el != null && !seeking && el.duration > 0.0) ==> video.played == old(video.played)
    ensures video.hasVideo == old(video.hasVideo) && video.isPlaying == old(video.isPlaying)
    ensures video.duration == old(video.duration)
    ensures video.isAnalyzing == old(video.isAnalyzing) && video.analysisProgress == old(video.analysisProgress)
  {
    if el == null || seeking {
      return;
    }
    if el.duration > 0.0 {
      video.played := el.currentTime / el.duration;
    }
  }

  /** The played fraction a time update records puts the store's time back exactly on the
      element, so the sync effect that follows does not seek. */
  lemma TimeUpdateThenSyncStaysPut(current: real, elementDuration: real)
    requires elementDuration > 0.0
    ensures StoreTime(current / elementDuration, elementDuration) == current
    ensures SyncedTime(current, StoreTime(current / elementDuration, elementDuration)) == current
  {
    var q := current / elementDuration;
    assert q * elementDuration == current;
  }

  /** The time a wheel event moves by: `-(deltaY / 20) * (1 / 30)`. */
  function WheelStep(deltaY: real): real {
    -(deltaY / 20.0) * FrameTime
  }

  /** A typical notch (deltaY = 100) moves five frames back. */
  lemma WheelStepOfOneNotch()
    ensures WheelStep(100.0) == -5.0 * FrameTime
    ensures WheelStep(-100.0) == 5.0 * FrameTime
  {
  }

  /** `Math.min(video.duration || 0, Math.max(0, current + step))`. */
  function ScrubbedTime(current: real, step: real, elementDuration: real): (r: real)
    ensures elementDuration >= 0.0 ==> 0.0 <= r <= elementDuration
    ensures 0.0 <= current + step <= elementDuration ==> r == current + step
    ensures current + step < 0.0 && elementDuration >= 0.0 ==> r == 0.0
    ensures current + step > elementDuration ==> r == elementDuration
  {
    Min(elementDuration, Max(0.0, current + step))
  }

  /** The played fraction after a scrub lies in [0, 1] and gives back the scrubbed time. */
  lemma ScrubbedFractionInUnit(current: real, step: real, elementDuration: real)
    requires elementDuration >= 0.0
    ensures 0.0 <= FractionOf(ScrubbedTime(current, step, elementDuration), elementDuration) <= 1.0
    ensures elementDuration > 0.0 ==>
              FractionOf(ScrubbedTime(current, step, elementDuration), elementDuration) * elementDuration
              == ScrubbedTime(current, step, elementDuration)
  {
    var t := ScrubbedTime(current, step, elementDuration);
    if elementDuration > 0.0 {
      FractionOfTarget(t, elementDuration);
    }
  }

  /** The wheel handler: without an element or a video nothing happens; otherwise playback
      pauses, the element moves by the wheel step clamped to the video, and the played
      fraction follows it (`currentTime / (duration || 1)`). */
  method HandleWheel(video: VideoStore, el: MediaElement?, deltaY: real)
    modifies video, el
    ensures el != null ==> el.duration == old(el.duration)
    ensures el == null || !video.hasVideo ==>
              && video.isPlaying == old(video.isPlaying) && video.played == old(video.played)
              && (el != null ==> el.currentTime == old(el.currentTime))
    ensures el != null && video.hasVideo ==>
              && !video.isPlaying
              && el.currentTime == ScrubbedTime(old(el.currentTime), WheelStep(deltaY), el.duration)
              && video.played == FractionOf(el.currentTime, el.duration)
    ensures video.hasVideo == old(video.hasVideo) && video.duration == old(video.duration)
    ensures video.isAnalyzing == old(video.isAnalyzing) && video.analysisProgress == old(video.analysisProgress)
  {
    if el == null || !video.hasVideo {
      return;
    }
    video.isPlaying := false;
    var step := WheelStep(deltaY);
    el.currentTime := ScrubbedTime(el.currentTime, step, el.duration);
    video.played := FractionOf(el.currentTime, el.duration);
  }

  /** The time the skip buttons start from: the element's time when there is an element,
      `played * duration` otherwise. */
  function PlayheadOf(video: VideoStore, el: MediaElement?): real
    reads video, el
  {
    if el != null then el.currentTime else video.CurrentTime()
  }

  /** The player's `jumpToBookmark(direction)`: nothing without bookmarks or when "next"
      finds nothing ahead; otherwise the element (if any) seeks to the target and the
      played fraction becomes `target / (duration || 1)` with the store's duration. Unlike
      the keyboard shortcut it neither checks for a loaded video nor changes the selected
      chunk. */
  method JumpToBookmark(store: AnnotationStore.Store, video: VideoStore, el: MediaElement?, direction: Direction)
    modifies video, el
    ensures var target := JumpTarget(store.bookmarks, old(PlayheadOf(video, el)), direction);
      && (store.bookmarks == [] || target.None? ==>
            video.played == old(video.played) && (el != null ==> el.currentTime == old(el.currentTime)))
      && (store.bookmarks != [] && target.Some? ==>
            video.played == FractionOf(target.value, video.duration)
            && (el != null ==> el.currentTime == target.value))
    ensures el != null ==> el.duration == old(el.duration)
    ensures video.hasVideo == old(video.hasVideo) && video.isPlaying == old(video.isPlaying)
    ensures video.duration == old(video.duration)
    ensures video.isAnalyzing == old(video.isAnalyzing) && video.analysisProgress == old(video.analysisProgress)
  {
    var bookmarks := store.bookmarks;
    if |bookmarks| == 0 {
      return;
    }
    var current := PlayheadOf(video, el);
    var target := JumpTarget(bookmarks, current, direction);
    if target.None? {
      return;
    }
    if el != null {
      el.currentTime := target.value;
    }
    video.played := FractionOf(target.value, video.duration);
  }
}
