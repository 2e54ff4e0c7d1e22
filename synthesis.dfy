/**
 * The speech engines (gTTS for the default voice, Coqui XTTS for the cloned
 * voice) as an oracle: `speak(i, text)` is what synthesising chunk `i` yields,
 * `None` when the engine raises. The engine records every call it receives,
 * so that which calls were made, and in which order, can be stated.
 */
module Synthesis {
  import opened Wrappers
  import opened Audio

  datatype Event =
    | LoadModel                          // `TTS(model_name, ...)`
    | Synthesize(index: nat, text: string)  // one synthesis call for chunk `index`

  class SpeechEngine {
    /** The outcome of synthesising chunk `index` holding `text`, for the
        run's language and, on the cloned path, its voice sample. */
    const speak: (nat, string) -> Option<Sound>
    /** Whether loading the voice-cloning model succeeds. */
    const modelLoads: bool
    /** Every call the engine has received, oldest first. */
    var log: seq<Event>

    constructor (speak: (nat, string) -> Option<Sound>, modelLoads: bool)
      ensures this.speak == speak && this.modelLoads == modelLoads
      ensures log == []
    {
      this.speak := speak;
      this.modelLoads := modelLoads;
      log := [];
    }

    /** Loads the voice-cloning model; `false` when loading raises. */
    method LoadModel() returns (ok: bool)
      modifies this
      ensures ok == modelLoads
      ensures log == old(log) + [Event.LoadModel]
    {
      ok := modelLoads;
      log := log + [Event.LoadModel];
    }

    /** Synthesises one chunk; `None` when the engine raises. */
    method Synthesize(index: nat, text: string) returns (sound: Option<Sound>)
      modifies this
      ensures sound == speak(index, text)
      ensures log == old(log) + [Event.Synthesize(index, text)]
    {
      sound := speak(index, text);
      log := log + [Event.Synthesize(index, text)];
    }
  }
}
