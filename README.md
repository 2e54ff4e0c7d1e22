# PDF-to-audiobook pipeline, modelled in Dafny

This project models the text-to-audio pipeline of a small Streamlit app. The app turns a PDF into an audiobook with one of two speech engines: gTTS for the default voice, or Coqui XTTS cloning a voice from a short sample. The pipeline has four stages:

- **Text extraction** (`pull_text_from_pdf`). Page texts are joined in page order with no separator. Then `" ".join(s.split())` collapses every whitespace run to one space and trims the ends.
- **Chunking** (`split_into_chunks`). The text is split into fixed-width slices of `max_chars` characters; the last slice may be shorter.
- **Default voice** (`make_speech_from_chunks`, `stitch_audio_files`). Every chunk is synthesised in order to `/tmp/temp_{idx}.mp3`. The files are then read, concatenated in list order and removed one by one, and the result is exported.
- **Cloned voice** (`clone_text_chunks_to_audiobook`). The model is loaded once. Blank chunks are skipped. A chunk whose synthesis raises is dropped and the loop carries on. If any chunk succeeded, the saved segments are concatenated in order, each followed by a 300 ms pause, their files are removed and the result is exported. Otherwise, or on any exception, the result is `None`.

Modules:

- `Wrappers` (wrappers.dfy): `Option`.
- `Text` (text.dfy): Python's whitespace set, `str.split()`, `" ".join`, the normalisation, page joining, and the extraction loop as a method.
- `Chunking` (chunking.dfy): the list comprehension as a recursive function over the `range` indices, with Python's clamped slicing.
- `Audio` (audio.dfy): sounds, silence, ordered concatenation, and the file system as a class `Disk` holding a map from paths to sounds.
- `Synthesis` (synthesis.dfy): the speech engine as a class around an oracle. It logs every model load and synthesis call it receives.
- `DefaultVoice` (default_voice.dfy) and `ClonedVoice` (cloned_voice.dfy): the two batch loops and the two assembly loops as methods. Each method is proved against a specification function, and the lemmas connect those functions.

A sound is a sequence of one-millisecond samples, so its length is its duration in milliseconds, as `len()` of a pydub `AudioSegment` is. The engine is the oracle `speak(index, text)`, and `None` stands for "the call raised". The model load is the flag `modelLoads`. Each method's `ensures` gives the engine's call log and the disk's new contents in terms of those oracles.

Three behaviours of the code are worth noting:

- The cloned-voice assembly puts the 300 ms pause after every segment, the last one included, so the output ends with a pause.
- The default-voice path neither skips blank chunks nor catches engine failures. A failure ends the batch and leaves the MP3 files already saved on disk.
- Empty text is not rejected before chunking; it gives zero chunks. The default path then exports an empty MP3, and the cloned path returns `None`.

An export opens the output file for writing (creating or truncating it) before encoding, so an export that fails after that point leaves a partial file at the output path. The disk's oracle `exportOutcome` says, per path, whether an export writes the whole sound, fails before opening, or fails leaving a given partial file.

## Model

| member | source | states |
|---|---|---|
| Text.PullTextFromPdf | app.py:29-36 | the result is the normalisation of the page texts joined in order; it is normalised and keeps every non-whitespace character of the pages in order |
| Text.JoinPagesAppend | app.py:32-34 | joining is order-preserving: the text of `a + b` is the text of `a` followed by the text of `b` |
| Text.JoinPagesInOrder | app.py:32-34 | a page's text lands right after the text of the pages before it, with no separator |
| Text.PageWithoutTextAddsNothing | app.py:33 | a page for which extraction yields nothing contributes `""` |
| Text.WordsEmptyIffBlank | app.py:35 | `s.split()` is empty exactly when every character of `s` is whitespace |
| Text.FlattenWords | app.py:35 | the words of `s.split()`, glued together, are exactly the non-whitespace characters of `s` in order |
| Text.WordsOfJoin | app.py:35 | splitting `" ".join(ws)` gives back `ws` when every element is a non-empty whitespace-free word |
| Text.NormalizeIsNormalized | app.py:35 | the normalised text has no whitespace at either end, no two adjacent whitespace characters, only ASCII spaces as whitespace, and is empty iff the input is blank |
| Text.NormalizeKeepsText | app.py:35 | removing whitespace from the input and from the output gives the same string |
| Text.NormalizeIdempotent | app.py:35 | normalising twice equals normalising once |
| Text.NormalizeKeepsWords | app.py:35 | the normalised text splits into the same words as the input: no word is merged with or split from another |
| Text.WordsOfWord | app.py:35 | a single whitespace-free non-empty string splits into itself |
| Text.WordsSplitAtSpace | app.py:35 | a whitespace character separates: the split of `x + c + y` is the split of `x` followed by that of `y`; with `WordsOfWord` this determines `str.split()` on every string |
| Chunking.SplitIntoChunks | app.py:38-39 | a step of 0 raises (`None`); a negative step gives `[]`; a positive one gives chunks whose concatenation is the text |
| Chunking.ChunksLossless | app.py:39 | concatenating the chunks for indices from `start` gives back `text[start:]` |
| Chunking.ChunkCount | app.py:39 | the number of chunks is `ceil(len(text)/k)`, as the integer division and as the bounds `(n-1)k < len <= nk` |
| Chunking.ChunkSizes | app.py:39 | every chunk but the last has exactly `k` characters, the last has 1 to `k`, and there are no chunks iff the text is empty |
| Chunking.ChunkAt | app.py:39 | chunk `j` is the slice `text[j*k : j*k + k]`, clamped at the end of the text |
| Chunking.NormalizedChunksNotBlank | app.py:35-39 | for `k >= 2`, no chunk of normalised text is blank, so the blank-chunk skip never fires on such input |
| Chunking.SingleCharChunksCanBeBlank | app.py:39 | with `k = 1` a chunk of normalised text can be blank: `"a b"` gives `["a", " ", "b"]` |
| Audio.ConcatDuration | app.py:51-54 | the duration of the concatenation is the sum of the parts' durations |
| Audio.ConcatAppend | app.py:51-54 | concatenation keeps order: the sound of `a + b` is the sound of `a`, then that of `b` |
| Audio.WithPausesDuration | app.py:82-86 | each segment contributes its duration plus 300 ms, the last one included |
| Audio.WithPausesAppend | app.py:82-86 | the paused sound of `a + b` is that of `a`, then that of `b` |
| Audio.WithPausesGrows | app.py:82-86 | one more segment lengthens the output by its duration plus one pause, so strictly |
| Synthesis.SpeechEngine.LoadModel | app.py:62 | the load succeeds as the oracle says and is recorded in the engine's log |
| Synthesis.SpeechEngine.Synthesize | app.py:44-75 | one synthesis call, the gTTS call and save of lines 44-46 or the XTTS call of line 75: returns the oracle's outcome for this chunk and is recorded in the log |
| DefaultVoice.FirstFailure | app.py:43-47 | the index where the default batch stops: every earlier chunk synthesises and this one raises, or it is the chunk count |
| DefaultVoice.MakeSpeechFromChunks | app.py:41-48 | one engine call per chunk in index order up to and including the first failure; on success it returns the temp files `0..n-1` in order, on failure `None` with the already saved files left on disk |
| DefaultVoice.StitchAudioFiles | app.py:50-57 | files are read and removed in list order up to the first missing one (which raises); otherwise every listed file is removed and the ordered concatenation is exported; the result is the output path only when the whole sound was written, and a failed export leaves the output path as the export outcome says |
| DefaultVoice.StitchDistinct | app.py:52-55 | for distinct files that are all present, every file is consumed and the sound is their contents concatenated in list order |
| DefaultVoice.SavedMp3sContents | app.py:43-47 | after the batch, each chunk's sound is stored at its temp name and every other file is unchanged |
| DefaultVoice.TempMp3Names | app.py:45 | the temp names are distinct, and are exactly those of indices below the chunk count |
| DefaultVoice.DefaultVoiceAssembly | app.py:41-57 | after a batch in which every chunk synthesised, stitching consumes all temp files, yields every chunk's sound in chunk order, and restores the disk apart from the temp names |
| DefaultVoice.DefaultVoiceDuration | app.py:50-57 | the default-voice output lasts exactly the sum of the chunk durations |
| ClonedVoice.SynthesizeClonedChunks | app.py:64-79 | the loop logs one call per non-blank chunk, returns the temp files of the successful chunks in order, and saves exactly their segments |
| ClonedVoice.AssemblePaused | app.py:81-89 | each listed file that exists is appended with a pause and removed, in list order; the result is exported; `None` comes back when the export fails, with the output path left as the export outcome says |
| ClonedVoice.CloneTextChunksToAudiobook | app.py:59-93 | the model is loaded once, before any synthesis call; with no model or no success the result is `None` and the disk is unchanged; otherwise every temp file the loop saved is removed and the successful segments, each followed by a pause, are exported; a failed export gives `None` and leaves the output path as the export outcome says |
| ClonedVoice.SuccessesExact | app.py:67-79 | the saved indices are exactly the non-blank chunks whose call did not raise, whatever failed before them, in strictly ascending order |
| ClonedVoice.SuccessSoundsAligned | app.py:74-76 | the saved segments line up one-to-one with the saved indices, each being that chunk's synthesis result |
| ClonedVoice.ClonedCallsExact | app.py:67-75 | the loop makes only synthesis calls, one for every non-blank chunk and none for a blank chunk, in ascending index order |
| ClonedVoice.PausedDistinct | app.py:83-87 | for distinct files that all exist, the assembly yields each one's sound followed by the pause, in list order |
| ClonedVoice.SavedWavsContents | app.py:72-76 | after the loop, each successful chunk's segment is stored at its temp name, the temp names are exactly those of the successes, and every other file is unchanged |
| ClonedVoice.ClonedSegmentsInOrder | app.py:81-87 | assembling what the loop saved yields the successful segments in index order, each followed by a pause |
| ClonedVoice.ClonedAssembly | app.py:64-90 | the loop's files are exactly what the assembly consumes; afterwards the disk is restored apart from the temp names; with no success the loop left the disk untouched |
| ClonedVoice.ClonedDuration | app.py:81-88 | the cloned-voice output lasts the sum of the segment durations plus 300 ms times the number of successes |

## Left out

- The `torch.load` monkeypatch and the `COQUI_TOS_AGREED` environment setting (app.py:4-21): process-wide side effects on third-party libraries.
- The Streamlit UI (app.py:95-145): uploads, mode and language selection, spinners, playback, the download button, and the staging and removal of the uploaded PDF, the voice sample and the output file. The "please upload a voice sample" check lives there too.
- The progress and diagnostic messages (`st.write`, `st.warning`, `st.error` at app.py:71, 78 and 92): UI output with no effect on the result.
- PDF parsing by pdfplumber: the model takes what extraction returned for each page as input, `None` when it returned no text.
- The gTTS and Coqui XTTS engines: they are the oracle `speak(index, text)` and the flag `modelLoads`. The language and the voice sample are fixed inside the oracle for a run. A call that raises is assumed to leave no file behind.
- pydub decoding, encoding and container formats (MP3 and WAV), sample rates and channels. A sound is a sequence of millisecond samples, and reading a file that exists never fails.
- Real path strings. Temp files are the `Path` constructors `DefaultTemp(i)` and `ClonedTemp(i)`. A caller-supplied output path whose string equals a temp name is not identified with that temp file.
- Failures of `os.remove` itself: every call site removes a file it has just seen on disk, so `Disk.Remove` requires the file to be present.
- Concurrency: the source is single-threaded.
