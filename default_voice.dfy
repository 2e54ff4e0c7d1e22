/**
 * The default-voice path: `make_speech_from_chunks` synthesises every chunk
 * in order to `/tmp/temp_{idx}.mp3`, and `stitch_audio_files` concatenates
 * those files in list order, removing each one after reading it, and exports
 * the result. Neither catches anything: an engine failure ends the batch.
 */
module DefaultVoice {
  import opened Wrappers
  import opened Audio
  import opened Synthesis

  /** The first chunk, at or after `i`, whose synthesis raises; `|chunks|` when none does. */
  function FirstFailure(chunks: seq<string>, speak: (nat, string) -> Option<Sound>, i: nat): (f: nat)
    requires i <= |chunks|
    ensures i <= f <= |chunks|
    ensures forall j :: i <= j < f ==> speak(j, chunks[j]).Some?
    ensures f < |chunks| ==> speak(f, chunks[f]).None?
    decreases |chunks| - i
  {
    if i == |chunks| || speak(i, chunks[i]).None? then i
    else FirstFailure(chunks, speak, i + 1)
  }

  /** One synthesis call per chunk `0 .. n-1`, in index order. */
  function DefaultCalls(chunks: seq<string>, n: nat): seq<Event>
    requires n <= |chunks|
  {
    seq(n, j requires 0 <= j < n => Event.Synthesize(j, chunks[j]))
  }

  /** `/tmp/temp_0.mp3`, ..., `/tmp/temp_{n-1}.mp3`. */
  function TempMp3s(n: nat): seq<Path>
  {
    seq(n, j requires 0 <= j < n => DefaultTemp(j))
  }

  /** The sound a synthesis outcome yields; empty for a failed call. */
  function Voiced(outcome: Option<Sound>): Sound
  {
    match outcome
    case Some(sound) => sound
    case None => []
  }

  /** The sound of every chunk, in chunk order. */
  function Spoken(chunks: seq<string>, speak: (nat, string) -> Option<Sound>): seq<Sound>
  {
    seq(|chunks|, j requires 0 <= j < |chunks| => Voiced(speak(j, chunks[j])))
  }

  /** The files once chunks `0 .. n-1` have been synthesised and saved. */
  function SavedMp3s(files: map<Path, Sound>, chunks: seq<string>, speak: (nat, string) -> Option<Sound>, n: nat): map<Path, Sound>
    requires n <= |chunks|
  {
    if n == 0 then files
    else SavedMp3s(files, chunks, speak, n - 1)[DefaultTemp(n - 1) := Voiced(speak(n - 1, chunks[n - 1]))]
  }

  /** `make_speech_from_chunks`: one engine call per chunk, in order, each
      result saved to its temp file. When chunk `f` raises, the batch stops
      there: the exception escapes (`None`) and the files saved for chunks
      before `f` stay on disk. */
  method MakeSpeechFromChunks(chunks: seq<string>, engine: SpeechEngine, disk: Disk)
    returns (audioFiles: Option<seq<Path>>)
    modifies engine, disk
    ensures var f := FirstFailure(chunks, engine.speak, 0);
      && engine.log == old(engine.log) + DefaultCalls(chunks, if f < |chunks| then f + 1 else f)
      && disk.files == SavedMp3s(old(disk.files), chunks, engine.speak, f)
      && (audioFiles.Some? <==> f == |chunks|)
      && (audioFiles.Some? ==> audioFiles.value == TempMp3s(|chunks|))
  {
    var files: seq<Path> := [];
    for idx := 0 to |chunks|
      invariant FirstFailure(chunks, engine.speak, 0) == FirstFailure(chunks, engine.speak, idx)
      invariant engine.log == old(engine.log) + DefaultCalls(chunks, idx)
      invariant disk.files == SavedMp3s(old(disk.files), chunks, engine.speak, idx)
      invariant files == TempMp3s(idx)
    {
      var sound := engine.Synthesize(idx, chunks[idx]);
      assert DefaultCalls(chunks, idx + 1) == DefaultCalls(chunks, idx) + [Event.Synthesize(idx, chunks[idx])];
      if sound.None? {
        return None;
      }
      disk.Write(DefaultTemp(idx), sound.value);
      files := files + [DefaultTemp(idx)];
    }
    audioFiles := Some(files);
  }

  /** How many of `paths`, from the front, can be read and then removed in
      turn from a disk holding `names`: it stops at the first path that is not
      there, or is no longer there because it was listed before. */
  function Consumable(paths: seq<Path>, names: set<Path>): (k: nat)
    ensures k <= |paths|
  {
    if paths == [] || paths[0] !in names then 0
    else 1 + Consumable(paths[1..], names - {paths[0]})
  }

  /** The sound built by reading `paths` in turn from `files`, each file
      removed once read, up to the first missing one. */
  function Stitched(paths: seq<Path>, files: map<Path, Sound>): Sound
  {
    if paths == [] || paths[0] !in files then []
    else files[paths[0]] + Stitched(paths[1..], files - {paths[0]})
  }

  /** `stitch_audio_files`: reads, appends and removes each file in list
      order, then exports. A missing file raises (`None`) with the files
      before it already removed; a failed export raises too. */
  method StitchAudioFiles(audioFiles: seq<Path>, disk: Disk, output: Path) returns (r: Option<Path>)
    modifies disk
    ensures var k := Consumable(audioFiles, old(disk.files).Keys);
      var left := old(disk.files) - Names(audioFiles[..k]);
      if k < |audioFiles| then
        r == None && disk.files == left
      else
        && r == (if disk.exportOutcome(output).Written? then Some(output) else None)
        && disk.files == Exported(left, output, Stitched(audioFiles, old(disk.files)), disk.exportOutcome(output))
  {
    ghost var start := disk.files;
    var combined: Sound := [];
    var i := 0;
    while i < |audioFiles|
      invariant 0 <= i <= |audioFiles|
      invariant Consumable(audioFiles, start.Keys) == i + Consumable(audioFiles[i..], disk.files.Keys)
      invariant Stitched(audioFiles, start) == combined + Stitched(audioFiles[i..], disk.files)
      invariant disk.files == start - Names(audioFiles[..i])
    {
      var path := audioFiles[i];
      assert audioFiles[i..][1..] == audioFiles[i + 1..];
      var sound := disk.Read(path);
      if sound.None? {
        assert Consumable(audioFiles[i..], disk.files.Keys) == 0;
        return None;
      }
      combined := combined + sound.value;
      disk.Remove(path);
      assert Names(audioFiles[..i + 1]) == Names(audioFiles[..i]) + {path} by {
        assert audioFiles[..i + 1] == audioFiles[..i] + [path];
      }
      i := i + 1;
    }
    assert audioFiles[i..] == [] && audioFiles[..i] == audioFiles;
    assert Stitched(audioFiles, start) == combined;
    var ok := disk.Export(output, combined);
    r := if ok then Some(output) else None;
  }

  // ---------------------------------------------------------------------
  // What the two steps do together

  /** Reading distinct files that are all present consumes every one of them,
      and the sound is their contents concatenated in list order. */
  lemma {:induction false} StitchDistinct(paths: seq<Path>, files: map<Path, Sound>)
    requires Distinct(paths)
    requires forall p :: p in paths ==> p in files
    ensures Consumable(paths, files.Keys) == |paths|
    ensures Stitched(paths, files) == Concat(Lookup(paths, files))
    decreases |paths|
  {
    if paths != [] {
      var p, rest := paths[0], paths[1..];
      var files' := files - {p};
      RestStillPresent(paths, files);
      StitchDistinct(rest, files');
      assert files'.Keys == files.Keys - {p};
      LookupCons(paths, files, files');
    }
  }

  /** Reading the first file, then the rest from the disk without it, gives the whole lookup. */
  lemma LookupCons(paths: seq<Path>, files: map<Path, Sound>, files': map<Path, Sound>)
    requires paths != [] && forall q :: q in paths ==> q in files
    requires files' == files - {paths[0]}
    requires forall q :: q in paths[1..] ==> q in files'
    ensures files[paths[0]] + Concat(Lookup(paths[1..], files')) == Concat(Lookup(paths, files))
  {
    var rest := paths[1..];
    assert Lookup(rest, files') == Lookup(rest, files);
    assert Lookup(paths, files) == [files[paths[0]]] + Lookup(rest, files);
    ConcatAppend([files[paths[0]]], Lookup(rest, files));
    assert Concat([files[paths[0]]]) == files[paths[0]] by {
      assert [files[paths[0]]][..0] == [];
    }
  }

  /** What `SavedMp3s` holds: chunk `j`'s sound at `DefaultTemp(j)` for `j < n`,
      and every other path as it was. */
  lemma {:induction false} SavedMp3sContents(files: map<Path, Sound>, chunks: seq<string>, speak: (nat, string) -> Option<Sound>, n: nat)
    requires n <= |chunks|
    ensures var saved := SavedMp3s(files, chunks, speak, n);
      && (forall j :: 0 <= j < n ==> DefaultTemp(j) in saved && saved[DefaultTemp(j)] == Voiced(speak(j, chunks[j])))
      && (forall p :: p !in Names(TempMp3s(n)) ==> (p in saved <==> p in files) && (p in files ==> saved[p] == files[p]))
    decreases n
  {
    if n > 0 {
      SavedMp3sContents(files, chunks, speak, n - 1);
      assert Names(TempMp3s(n)) == Names(TempMp3s(n - 1)) + {DefaultTemp(n - 1)} by {
        assert TempMp3s(n) == TempMp3s(n - 1) + [DefaultTemp(n - 1)];
      }
    }
  }

  /** The temp names `TempMp3s(n)` are distinct, and are exactly `DefaultTemp(j)` for `j < n`. */
  lemma TempMp3Names(n: nat)
    ensures Distinct(TempMp3s(n))
    ensures forall p :: p in Names(TempMp3s(n)) <==> p.DefaultTemp? && p.index < n
  {
    forall p: Path | p.DefaultTemp? && p.index < n ensures p in Names(TempMp3s(n)) {
      assert TempMp3s(n)[p.index] == p;
    }
  }

  /** When every chunk synthesises, stitching the files `make_speech_from_chunks`
      saved reads all of them, yields every chunk's sound in chunk order, and
      leaves the disk as it was before the batch apart from the temp names. */
  lemma DefaultVoiceAssembly(files: map<Path, Sound>, chunks: seq<string>, speak: (nat, string) -> Option<Sound>)
    requires FirstFailure(chunks, speak, 0) == |chunks|
    ensures var saved := SavedMp3s(files, chunks, speak, |chunks|);
      var paths := TempMp3s(|chunks|);
      && Consumable(paths, saved.Keys) == |paths|
      && Stitched(paths, saved) == Concat(Spoken(chunks, speak))
      && saved - Names(paths) == files - Names(paths)
  {
    var n := |chunks|;
    var saved := SavedMp3s(files, chunks, speak, n);
    var paths := TempMp3s(n);
    SavedMp3sContents(files, chunks, speak, n);
    TempMp3Names(n);
    assert forall p :: p in paths ==> p in saved by {
      forall p | p in paths ensures p in saved {
        assert p.DefaultTemp? && p.index < n by {
          assert p in Names(paths);
        }
      }
    }
    StitchDistinct(paths, saved);
    assert Lookup(paths, saved) == Spoken(chunks, speak);
    SavedOnlyTouchesTemps(files, saved, Names(paths));
  }

  /** Two file maps that agree outside `temps` agree once `temps` are removed. */
  lemma SavedOnlyTouchesTemps(files: map<Path, Sound>, saved: map<Path, Sound>, temps: set<Path>)
    requires forall p :: p !in temps ==> (p in saved <==> p in files) && (p in files ==> saved[p] == files[p])
    ensures saved - temps == files - temps
  {
    assert (saved - temps).Keys == (files - temps).Keys;
  }

  /** With no inter-segment silence, the stitched duration is the sum of the chunk durations. */
  lemma DefaultVoiceDuration(files: map<Path, Sound>, chunks: seq<string>, speak: (nat, string) -> Option<Sound>)
    requires FirstFailure(chunks, speak, 0) == |chunks|
    ensures |Stitched(TempMp3s(|chunks|), SavedMp3s(files, chunks, speak, |chunks|))| == TotalDuration(Spoken(chunks, speak))
  {
    DefaultVoiceAssembly(files, chunks, speak);
    ConcatDuration(Spoken(chunks, speak));
  }
}
