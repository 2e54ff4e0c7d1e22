/**
 * The cloned-voice path, `clone_text_chunks_to_audiobook`: the voice-cloning
 * model is loaded once; blank chunks are skipped without an engine call; a
 * chunk whose synthesis raises is dropped and the loop goes on; if any chunk
 * succeeded, the saved segments are concatenated in order, each followed by
 * a 300 ms pause, their files removed, and the result exported. Every
 * exception (model load, export) ends in `None`.
 */
module ClonedVoice {
  import opened Wrappers
  import opened Text
  import opened Audio
  import opened Synthesis

  /** Chunk `i` yields a segment: it is not blank and its synthesis does not raise. */
  predicate Succeeds(chunks: seq<string>, speak: (nat, string) -> Option<Sound>, i: nat)
    requires i < |chunks|
  {
    !Blank(chunks[i]) && speak(i, chunks[i]).Some?
  }

  /** The indices, among chunks `0 .. n-1`, whose segment was saved, in loop order. */
  function Successes(chunks: seq<string>, speak: (nat, string) -> Option<Sound>, n: nat): seq<nat>
    requires n <= |chunks|
  {
    if n == 0 then []
    else
      var prev := Successes(chunks, speak, n - 1);
      if Succeeds(chunks, speak, n - 1) then prev + [n - 1] else prev
  }

  /** The segments of those chunks, in the same order. */
  function SuccessSounds(chunks: seq<string>, speak: (nat, string) -> Option<Sound>, n: nat): seq<Sound>
    requires n <= |chunks|
  {
    if n == 0 then []
    else
      var prev := SuccessSounds(chunks, speak, n - 1);
      if Succeeds(chunks, speak, n - 1) then prev + [speak(n - 1, chunks[n - 1]).value] else prev
  }

  /** The engine calls made for chunks `0 .. n-1`: one per chunk that is not blank. */
  function ClonedCalls(chunks: seq<string>, n: nat): seq<Event>
    requires n <= |chunks|
  {
    if n == 0 then []
    else
      var prev := ClonedCalls(chunks, n - 1);
      if Blank(chunks[n - 1]) then prev else prev + [Event.Synthesize(n - 1, chunks[n - 1])]
  }

  /** The files once chunks `0 .. n-1` have been processed: each segment saved at its temp name. */
  function SavedWavs(files: map<Path, Sound>, chunks: seq<string>, speak: (nat, string) -> Option<Sound>, n: nat): map<Path, Sound>
    requires n <= |chunks|
  {
    if n == 0 then files
    else
      var saved := SavedWavs(files, chunks, speak, n - 1);
      if Succeeds(chunks, speak, n - 1) then saved[ClonedTemp(n - 1) := speak(n - 1, chunks[n - 1]).value]
      else saved
  }

  /** `/tmp/cloned_temp_chunk_{i}.wav` for each listed index. */
  function TempWavs(indices: seq<nat>): seq<Path>
  {
    seq(|indices|, j requires 0 <= j < |indices| => ClonedTemp(indices[j]))
  }

  /** The loop of `clone_text_chunks_to_audiobook`, after the model is loaded. */
  method SynthesizeClonedChunks(chunks: seq<string>, engine: SpeechEngine, disk: Disk)
    returns (audioChunks: seq<Path>)
    modifies engine, disk
    ensures engine.log == old(engine.log) + ClonedCalls(chunks, |chunks|)
    ensures audioChunks == TempWavs(Successes(chunks, engine.speak, |chunks|))
    ensures disk.files == SavedWavs(old(disk.files), chunks, engine.speak, |chunks|)
  {
    audioChunks := [];
    for i := 0 to |chunks|
      invariant engine.log == old(engine.log) + ClonedCalls(chunks, i)
      invariant audioChunks == TempWavs(Successes(chunks, engine.speak, i))
      invariant disk.files == SavedWavs(old(disk.files), chunks, engine.speak, i)
    {
      if Blank(chunks[i]) {
        continue;
      }
      var sound := engine.Synthesize(i, chunks[i]);
      if sound.None? {
        continue;
      }
      disk.Write(ClonedTemp(i), sound.value);
      audioChunks := audioChunks + [ClonedTemp(i)];
    }
  }

  /** The sound the assembly builds from `paths` on a disk holding `files`:
      each file that exists is read, followed by the pause, and removed;
      a path that does not exist is passed over. */
  function Paused(paths: seq<Path>, files: map<Path, Sound>): Sound
  {
    if paths == [] then []
    else if paths[0] in files then files[paths[0]] + Silence(PauseMs) + Paused(paths[1..], files - {paths[0]})
    else Paused(paths[1..], files)
  }

  /** The assembly of `clone_text_chunks_to_audiobook`, reached when some chunk succeeded. */
  method AssemblePaused(audioChunks: seq<Path>, disk: Disk, output: Path) returns (r: Option<Path>)
    modifies disk
    ensures r == (if disk.exportOutcome(output).Written? then Some(output) else None)
    ensures disk.files == Exported(old(disk.files) - Names(audioChunks), output,
                                   Paused(audioChunks, old(disk.files)), disk.exportOutcome(output))
  {
    ghost var start := disk.files;
    var combined: Sound := [];
    var i := 0;
    while i < |audioChunks|
      invariant 0 <= i <= |audioChunks|
      invariant Paused(audioChunks, start) == combined + Paused(audioChunks[i..], disk.files)
      invariant disk.files == start - Names(audioChunks[..i])
    {
      var path := audioChunks[i];
      assert audioChunks[i..][1..] == audioChunks[i + 1..];
      var present := disk.Exists(path);
      if present {
        var sound := disk.Read(path);
        combined := combined + sound.value;
        combined := combined + Silence(PauseMs);
        disk.Remove(path);
      }
      assert Names(audioChunks[..i + 1]) == Names(audioChunks[..i]) + {path} by {
        assert audioChunks[..i + 1] == audioChunks[..i] + [path];
      }
      i := i + 1;
    }
    assert audioChunks[i..] == [] && audioChunks[..i] == audioChunks;
    assert Paused(audioChunks, start) == combined;
    var ok := disk.Export(output, combined);
    r := if ok then Some(output) else None;
  }

  /** `clone_text_chunks_to_audiobook(text_chunks, voice_sample_path, output_path)`;
      the voice sample and language are fixed in the engine's oracle. */
  method CloneTextChunksToAudiobook(chunks: seq<string>, engine: SpeechEngine, disk: Disk, output: Path)
    returns (r: Option<Path>)
    modifies engine, disk
    ensures engine.log == old(engine.log) + [Event.LoadModel]
                          + (if engine.modelLoads then ClonedCalls(chunks, |chunks|) else [])
    ensures var succ := Successes(chunks, engine.speak, |chunks|);
      if !engine.modelLoads || succ == [] then
        r == None && disk.files == old(disk.files)
      else
        var outcome := disk.exportOutcome(output);
        && r == (if outcome.Written? then Some(output) else None)
        && disk.files == Exported(old(disk.files) - Names(TempWavs(succ)), output,
                                  WithPauses(SuccessSounds(chunks, engine.speak, |chunks|)), outcome)
  {
    var loaded := engine.LoadModel();
    if !loaded {
      return None;
    }
    ghost var before := disk.files;
    var audioChunks := SynthesizeClonedChunks(chunks, engine, disk);
    ClonedAssembly(before, chunks, engine.speak);
    if audioChunks == [] {
      return None;
    }
    r := AssemblePaused(audioChunks, disk, output);
  }

  // ---------------------------------------------------------------------
  // The batch

  /** Strictly ascending, hence free of repeats. */
  ghost predicate Ascending(xs: seq<nat>)
  {
    forall a, b :: 0 <= a < b < |xs| ==> xs[a] < xs[b]
  }

  /** The saved indices are exactly the chunks that succeed: a failing or blank
      chunk is dropped and does not stop the chunks after it. They come in
      strictly ascending order. */
  lemma {:induction false} SuccessesExact(chunks: seq<string>, speak: (nat, string) -> Option<Sound>, n: nat)
    requires n <= |chunks|
    ensures var succ := Successes(chunks, speak, n);
      && (forall i: nat :: i in succ <==> i < n && Succeeds(chunks, speak, i))
      && Ascending(succ)
    decreases n
  {
    if n > 0 {
      SuccessesExact(chunks, speak, n - 1);
      var prev := Successes(chunks, speak, n - 1);
      forall a | 0 <= a < |prev| ensures prev[a] < n - 1 {
        assert prev[a] in prev;
      }
    }
  }

  /** Each saved segment sits beside its own chunk index. */
  lemma {:induction false} SuccessSoundsAligned(chunks: seq<string>, speak: (nat, string) -> Option<Sound>, n: nat)
    requires n <= |chunks|
    ensures var succ := Successes(chunks, speak, n);
      && |SuccessSounds(chunks, speak, n)| == |succ|
      && (forall j :: 0 <= j < |succ| ==>
            succ[j] < n && Succeeds(chunks, speak, succ[j])
            && SuccessSounds(chunks, speak, n)[j] == speak(succ[j], chunks[succ[j]]).value)
    decreases n
  {
    if n > 0 {
      SuccessSoundsAligned(chunks, speak, n - 1);
    }
  }

  /** Loading happens before the loop, and the loop calls the engine once for
      every chunk that is not blank, in ascending index order, and never for a
      blank chunk. */
  lemma {:induction false} ClonedCallsExact(chunks: seq<string>, n: nat)
    requires n <= |chunks|
    ensures var calls := ClonedCalls(chunks, n);
      && (forall e :: e in calls ==> e.Synthesize? && e.index < n && !Blank(chunks[e.index]) && e.text == chunks[e.index])
      && (forall i :: 0 <= i < n && !Blank(chunks[i]) ==> Event.Synthesize(i, chunks[i]) in calls)
      && (forall a, b :: 0 <= a < b < |calls| ==> calls[a].index < calls[b].index)
    decreases n
  {
    if n > 0 {
      ClonedCallsExact(chunks, n - 1);
    }
  }

  // ---------------------------------------------------------------------
  // The assembly

  /** Reading distinct files that all exist yields each one's sound followed by the pause. */
  lemma {:induction false} PausedDistinct(paths: seq<Path>, files: map<Path, Sound>)
    requires Distinct(paths)
    requires forall p :: p in paths ==> p in files
    ensures Paused(paths, files) == WithPauses(Lookup(paths, files))
    decreases |paths|
  {
    if paths != [] {
      var p, rest := paths[0], paths[1..];
      var files' := files - {p};
      RestStillPresent(paths, files);
      PausedDistinct(rest, files');
      LookupPausedCons(paths, files, files');
    }
  }

  /** Reading the first file with its pause, then the rest from the disk
      without it, gives the whole paused lookup. */
  lemma LookupPausedCons(paths: seq<Path>, files: map<Path, Sound>, files': map<Path, Sound>)
    requires paths != [] && forall q :: q in paths ==> q in files
    requires files' == files - {paths[0]}
    requires forall q :: q in paths[1..] ==> q in files'
    ensures files[paths[0]] + Silence(PauseMs) + WithPauses(Lookup(paths[1..], files'))
            == WithPauses(Lookup(paths, files))
  {
    var rest := paths[1..];
    LookupWithout(rest, files, paths[0]);
    assert Lookup(paths, files) == [files[paths[0]]] + Lookup(rest, files);
    WithPausesCons(files[paths[0]], Lookup(rest, files));
  }

  /** What `SavedWavs` holds: each successful chunk's segment at its temp name,
      every other path as it was. */
  lemma {:induction false} SavedWavsContents(files: map<Path, Sound>, chunks: seq<string>, speak: (nat, string) -> Option<Sound>, n: nat)
    requires n <= |chunks|
    ensures var saved := SavedWavs(files, chunks, speak, n);
      var temps := Names(TempWavs(Successes(chunks, speak, n)));
      && (forall i :: 0 <= i < n && Succeeds(chunks, speak, i) ==>
            ClonedTemp(i) in saved && saved[ClonedTemp(i)] == speak(i, chunks[i]).value)
      && (forall p :: p !in temps ==> (p in saved <==> p in files) && (p in files ==> saved[p] == files[p]))
      && (forall p :: p in temps <==> p.ClonedTemp? && p.index < n && Succeeds(chunks, speak, p.index))
    decreases n
  {
    if n > 0 {
      SavedWavsContents(files, chunks, speak, n - 1);
      var prev := Successes(chunks, speak, n - 1);
      var succ := Successes(chunks, speak, n);
      if Succeeds(chunks, speak, n - 1) {
        assert TempWavs(succ) == TempWavs(prev) + [ClonedTemp(n - 1)];
        assert Names(TempWavs(succ)) == Names(TempWavs(prev)) + {ClonedTemp(n - 1)};
      } else {
        assert succ == prev;
      }
    }
  }

  /** The temp names of ascending indices are distinct. */
  lemma TempWavsDistinct(indices: seq<nat>)
    requires Ascending(indices)
    ensures Distinct(TempWavs(indices))
  {
  }

  /** What the loop leaves behind is what the assembly consumes: the saved
      segments, in index order, each followed by the pause; afterwards the disk
      is as it was before the loop apart from the temp names. With no success
      the loop left the disk untouched. */
  lemma ClonedAssembly(files: map<Path, Sound>, chunks: seq<string>, speak: (nat, string) -> Option<Sound>)
    ensures var n := |chunks|;
      var saved := SavedWavs(files, chunks, speak, n);
      var temps := TempWavs(Successes(chunks, speak, n));
      && Paused(temps, saved) == WithPauses(SuccessSounds(chunks, speak, n))
      && saved - Names(temps) == files - Names(temps)
      && (temps == [] ==> saved == files)
  {
    var n := |chunks|;
    var saved := SavedWavs(files, chunks, speak, n);
    var succ := Successes(chunks, speak, n);
    var temps := TempWavs(succ);
    SavedWavsContents(files, chunks, speak, n);
    ClonedSegmentsInOrder(files, chunks, speak);
    assert (saved - Names(temps)).Keys == (files - Names(temps)).Keys;
    if temps == [] {
      assert Names(temps) == {};
      assert saved == saved - Names(temps);
      assert files == files - Names(temps);
    }
  }

  /** Assembling the saved temp files yields the segments in index order, each with its pause. */
  lemma ClonedSegmentsInOrder(files: map<Path, Sound>, chunks: seq<string>, speak: (nat, string) -> Option<Sound>)
    ensures var n := |chunks|;
      Paused(TempWavs(Successes(chunks, speak, n)), SavedWavs(files, chunks, speak, n))
        == WithPauses(SuccessSounds(chunks, speak, n))
  {
    var n := |chunks|;
    var saved := SavedWavs(files, chunks, speak, n);
    var succ := Successes(chunks, speak, n);
    var temps := TempWavs(succ);
    SuccessesExact(chunks, speak, n);
    SavedTempsPresent(files, chunks, speak);
    TempWavsDistinct(succ);
    PausedDistinct(temps, saved);
    SavedSoundsInOrder(files, chunks, speak);
  }

  /** Every temp file the loop reports is on disk after the loop. */
  lemma SavedTempsPresent(files: map<Path, Sound>, chunks: seq<string>, speak: (nat, string) -> Option<Sound>)
    ensures var n := |chunks|;
      forall p :: p in TempWavs(Successes(chunks, speak, n)) ==> p in SavedWavs(files, chunks, speak, n)
  {
    var n := |chunks|;
    var temps := TempWavs(Successes(chunks, speak, n));
    SuccessesExact(chunks, speak, n);
    SavedWavsContents(files, chunks, speak, n);
    forall p | p in temps ensures p in SavedWavs(files, chunks, speak, n) {
      var j :| 0 <= j < |temps| && temps[j] == p;
    }
  }

  /** The sounds stored at the reported temp files are the saved segments, in order. */
  lemma SavedSoundsInOrder(files: map<Path, Sound>, chunks: seq<string>, speak: (nat, string) -> Option<Sound>)
    ensures var n := |chunks|;
      var temps := TempWavs(Successes(chunks, speak, n));
      var saved := SavedWavs(files, chunks, speak, n);
      (forall p :: p in temps ==> p in saved)
      && Lookup(temps, saved) == SuccessSounds(chunks, speak, n)
  {
    var n := |chunks|;
    SavedTempsPresent(files, chunks, speak);
    SuccessSoundsAligned(chunks, speak, n);
    SavedWavsContents(files, chunks, speak, n);
  }

  /** The exported sound lasts the sum of the segment durations plus one pause
      per segment, the last one included. */
  lemma ClonedDuration(chunks: seq<string>, speak: (nat, string) -> Option<Sound>)
    ensures |WithPauses(SuccessSounds(chunks, speak, |chunks|))|
      == TotalDuration(SuccessSounds(chunks, speak, |chunks|)) + PauseMs * |Successes(chunks, speak, |chunks|)|
  {
    SuccessSoundsAligned(chunks, speak, |chunks|);
    WithPausesDuration(SuccessSounds(chunks, speak, |chunks|));
  }
}
