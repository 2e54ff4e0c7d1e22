/**
 * Audio and the temp-file store. A sound (pydub's `AudioSegment`) is a
 * sequence of one-millisecond samples, so its length is its duration in
 * milliseconds, as `len()` of an `AudioSegment` is. The file system is a
 * map from paths to the sound each file holds.
 */
module Audio {
  import opened Wrappers

  /** One millisecond of sound. */
  type Sample = int

  type Sound = seq<Sample>

  /** The pause the cloned-voice assembly puts after each segment, in milliseconds. */
  const PauseMs: nat := 300

  /** `AudioSegment.silent(duration=ms)`. */
  function Silence(ms: nat): (s: Sound)
    ensures |s| == ms
  {
    seq(ms, _ => 0)
  }

  /** `AudioSegment.empty()` followed by `+=` of every part, in order. */
  function Concat(parts: seq<Sound>): Sound
  {
    if parts == [] then [] else Concat(parts[..|parts| - 1]) + parts[|parts| - 1]
  }

  /** Every part followed by a `PauseMs` silence, in order. */
  function WithPauses(parts: seq<Sound>): Sound
  {
    if parts == [] then [] else WithPauses(parts[..|parts| - 1]) + parts[|parts| - 1] + Silence(PauseMs)
  }

  /** The summed duration of the parts. */
  function TotalDuration(parts: seq<Sound>): nat
  {
    if parts == [] then 0 else TotalDuration(parts[..|parts| - 1]) + |parts[|parts| - 1]|
  }

  /** The duration of a concatenation is the sum of the durations. */
  lemma {:induction false} ConcatDuration(parts: seq<Sound>)
    ensures |Concat(parts)| == TotalDuration(parts)
    decreases |parts|
  {
    if parts != [] {
      ConcatDuration(parts[..|parts| - 1]);
    }
  }

  /** Concatenation respects order: the sound of `a + b` is that of `a`, then that of `b`. */
  lemma {:induction false} ConcatAppend(a: seq<Sound>, b: seq<Sound>)
    ensures Concat(a + b) == Concat(a) + Concat(b)
    decreases |b|
  {
    if b == [] {
      assert a + b == a;
    } else {
      var b' := b[..|b| - 1];
      assert (a + b)[..|a + b| - 1] == a + b';
      ConcatAppend(a, b');
    }
  }

  /** Each part contributes its own duration plus one pause, the last part included. */
  lemma {:induction false} WithPausesDuration(parts: seq<Sound>)
    ensures |WithPauses(parts)| == TotalDuration(parts) + PauseMs * |parts|
    decreases |parts|
  {
    if parts != [] {
      WithPausesDuration(parts[..|parts| - 1]);
    }
  }

  /** The paused sound of `a + b` is that of `a`, then that of `b`. */
  lemma {:induction false} WithPausesAppend(a: seq<Sound>, b: seq<Sound>)
    ensures WithPauses(a + b) == WithPauses(a) + WithPauses(b)
    decreases |b|
  {
    if b == [] {
      assert a + b == a;
    } else {
      var b' := b[..|b| - 1];
      assert (a + b)[..|a + b| - 1] == a + b';
      WithPausesAppend(a, b');
    }
  }

  /** The paused sound of a first part and the rest: that part, its pause, then the rest. */
  lemma WithPausesCons(first: Sound, rest: seq<Sound>)
    ensures WithPauses([first] + rest) == first + Silence(PauseMs) + WithPauses(rest)
  {
    WithPausesAppend([first], rest);
    assert WithPauses([first]) == first + Silence(PauseMs) by {
      assert [first][..0] == [];
    }
  }

  /** One more present segment makes the paused output strictly longer, by its
      own duration and one pause. */
  lemma WithPausesGrows(parts: seq<Sound>, next: Sound)
    ensures |WithPauses(parts + [next])| == |WithPauses(parts)| + |next| + PauseMs
    ensures |WithPauses(parts + [next])| > |WithPauses(parts)|
  {
    assert (parts + [next])[..|parts|] == parts;
  }

  /** Where a file lives. Each family of temp files has its own constructor,
      standing for the fixed `/tmp` name pattern it is written under. */
  datatype Path =
    | DefaultTemp(index: nat)   // "/tmp/temp_{idx}.mp3"
    | ClonedTemp(index: nat)    // "/tmp/cloned_temp_chunk_{i}.wav"
    | Named(name: string)       // any other path, such as an output path

  /** The set of paths listed in `paths`. */
  function Names(paths: seq<Path>): set<Path>
  {
    set p | p in paths
  }

  /** No path is listed twice. */
  predicate Distinct(paths: seq<Path>)
  {
    forall i, j :: 0 <= i < j < |paths| ==> paths[i] != paths[j]
  }

  /** The sounds stored at `paths`, in order. */
  function Lookup(paths: seq<Path>, files: map<Path, Sound>): (r: seq<Sound>)
    requires forall p :: p in paths ==> p in files
    ensures |r| == |paths|
    ensures forall j :: 0 <= j < |paths| ==> r[j] == files[paths[j]]
  {
    if paths == [] then [] else [files[paths[0]]] + Lookup(paths[1..], files)
  }

  /** After the first of distinct paths is removed, the others are still there. */
  lemma RestStillPresent(paths: seq<Path>, files: map<Path, Sound>)
    requires paths != [] && Distinct(paths)
    requires forall p :: p in paths ==> p in files
    ensures Distinct(paths[1..])
    ensures forall q :: q in paths[1..] ==> q in files - {paths[0]}
  {
    forall q | q in paths[1..] ensures q in files - {paths[0]} {
      var j :| 0 <= j < |paths[1..]| && paths[1..][j] == q;
      assert paths[j + 1] == q;
    }
  }

  /** Removing a file that is not listed does not change what the listed paths hold. */
  lemma LookupWithout(paths: seq<Path>, files: map<Path, Sound>, p: Path)
    requires forall q :: q in paths ==> q in files - {p}
    ensures forall q :: q in paths ==> q in files
    ensures Lookup(paths, files - {p}) == Lookup(paths, files)
  {
  }

  /** How an export attempt ends. The output file is opened for writing,
      which creates or truncates it, before the sound is encoded; an encoder
      or write failure after that leaves whatever had been written. */
  datatype ExportOutcome =
    | Written                      // the whole sound is at the path
    | FailedBeforeOpen             // the path could not be opened; nothing changed
    | FailedAfterOpen(partial: Sound)  // the path holds a truncated, partial file

  /** The files after an export attempt of `sound` to `path` that ended with `outcome`. */
  function Exported(files: map<Path, Sound>, path: Path, sound: Sound, outcome: ExportOutcome): map<Path, Sound>
  {
    match outcome
    case Written => files[path := sound]
    case FailedBeforeOpen => files
    case FailedAfterOpen(partial) => files[path := partial]
  }

  /** The file system the pipeline writes its temp files to and exports to.
      `exportOutcome` says how an export to each path ends. */
  class Disk {
    var files: map<Path, Sound>
    const exportOutcome: Path -> ExportOutcome

    constructor (files: map<Path, Sound>, exportOutcome: Path -> ExportOutcome)
      ensures this.files == files && this.exportOutcome == exportOutcome
    {
      this.files := files;
      this.exportOutcome := exportOutcome;
    }

    /** `os.path.exists(path)`. */
    method Exists(path: Path) returns (b: bool)
      ensures b <==> path in files
    {
      b := path in files;
    }

    /** Decoding a file (`AudioSegment.from_mp3`, `from_wav`): a missing file raises (`None`). */
    method Read(path: Path) returns (sound: Option<Sound>)
      ensures path in files ==> sound == Some(files[path])
      ensures path !in files ==> sound == None
    {
      if path in files {
        sound := Some(files[path]);
      } else {
        sound := None;
      }
    }

    /** Saving a synthesised segment; an existing file is overwritten. */
    method Write(path: Path, sound: Sound)
      modifies this
      ensures files == old(files)[path := sound]
    {
      files := files[path := sound];
    }

    /** `os.remove(path)` of a file that exists. */
    method Remove(path: Path)
      requires path in files
      modifies this
      ensures files == old(files) - {path}
    {
      files := files - {path};
    }

    /** `AudioSegment.export(path, ...)`: `ok` when the whole sound was written. */
    method Export(path: Path, sound: Sound) returns (ok: bool)
      modifies this
      ensures ok == exportOutcome(path).Written?
      ensures files == Exported(old(files), path, sound, exportOutcome(path))
    {
      var outcome := exportOutcome(path);
      match outcome {
        case Written => files := files[path := sound];
        case FailedBeforeOpen =>
        case FailedAfterOpen(partial) => files := files[path := partial];
      }
      ok := outcome.Written?;
    }
  }
}
