/** The looping audio player of the card pages: which clip plays
    (`audio_playing`), whether a stop was requested (`stop_requested`), and
    which clips have audio stored (the `audio_<id>` session keys). A clip id
    such as `card_3_en` names one card side on one page. */
module Playback {
  import opened Wrappers

  class Player {
    var playing: Option<string>
    var stopRequested: bool
    var stored: set<string>

    /** A stop leaves nothing playing, and a playing clip has its audio. */
    predicate Valid()
      reads this
    {
      && (stopRequested ==> playing.None?)
      && (playing.Some? ==> playing.value in stored)
    }

    /** The first-run defaults: nothing plays, no stop pending. */
    constructor()
      ensures Valid()
      ensures playing == None && !stopRequested && stored == {}
    {
      playing := None;
      stopRequested := false;
      stored := {};
    }

    /** `audio_playing == id`: the clip's play button is disabled and its
        stop button shown. */
    predicate IsPlaying(id: string)
      reads this
    {
      playing == Some(id)
    }

    /** The hidden looping `<audio>` element is emitted for `id`: it is the
        clip playing, no stop is pending, and its audio is stored. */
    predicate Loops(id: string)
      reads this
    {
      IsPlaying(id) && !stopRequested && id in stored
    }

    /** In a valid state a clip loops exactly when it is the one playing. */
    lemma LoopsIffPlaying(id: string)
      requires Valid()
      ensures Loops(id) <==> IsPlaying(id)
    {
    }

    /** At most one clip loops at a time. */
    lemma OneClipLoops(a: string, b: string)
      requires Loops(a) && Loops(b)
      ensures a == b
    {
    }

    /** A play button of a clip not playing. `generated` says whether the
        speech engine returned audio; when it did not, nothing changes. */
    method Play(id: string, generated: bool)
      requires Valid() && !IsPlaying(id)
      modifies this
      ensures Valid()
      ensures generated ==> playing == Some(id) && !stopRequested && stored == old(stored) + {id}
      ensures !generated ==> playing == old(playing) && stopRequested == old(stopRequested) && stored == old(stored)
    {
      if generated {
        stored := stored + {id};
        playing := Some(id);
        stopRequested := false;
      }
    }

    /** `stop_audio`: nothing plays and a stop is recorded. */
    method Stop()
      requires Valid()
      modifies this`playing, this`stopRequested
      ensures Valid()
      ensures playing == None && stopRequested
    {
      stopRequested := true;
      playing := None;
    }
  }

  /** Pressing play on a second clip silences the first: only the newest clip
      loops. */
  method PlayTwo(a: string, b: string) returns (p: Player)
    requires a != b
    ensures p.Valid() && p.Loops(b) && !p.Loops(a)
  {
    p := new Player();
    p.Play(a, true);
    p.Play(b, true);
  }

  /** After a stop nothing loops until a clip is played again. */
  method PlayThenStop(a: string) returns (p: Player)
    ensures p.Valid() && !p.Loops(a) && !p.IsPlaying(a)
  {
    p := new Player();
    p.Play(a, true);
    p.Stop();
  }
}
