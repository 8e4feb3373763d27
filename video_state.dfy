/** The player state shared by the components (frontend/src/store/videoStore.ts): whether a
    video is loaded, the play flag, the played fraction, the duration in seconds, and the
    analysis flag and progress. Its setters assign one field each, so the components below
    assign the fields directly. */
module VideoState {
  class VideoStore {
    /** `videoUrl !== null`. */
    var hasVideo: bool
    var isPlaying: bool
    /** Fraction of the video played, 0 to 1. */
    var played: real
    /** Length of the video in seconds; 0 until one is loaded. */
    var duration: real
    var isAnalyzing: bool
    var analysisProgress: real

    /** `played * duration`: the playhead in seconds. */
    function CurrentTime(): real
      reads this
    {
      played * duration
    }

    /** The store's initial state. */
    constructor()
      ensures !hasVideo && !isPlaying && played == 0.0 && duration == 0.0
      ensures !isAnalyzing && analysisProgress == 0.0
    {
      hasVideo, isPlaying, played, duration := false, false, 0.0, 0.0;
      isAnalyzing, analysisProgress := false, 0.0;
    }
  }
}
