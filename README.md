# Transcription watcher: the dedup-and-dispatch core

This project models the core of `TranscriptionHandler`. The handler watches a directory
for new media files, hands each one to a speech-to-text engine, and writes the transcript
to a sidecar `.txt` file next to the media file. A registry of processed path strings
keeps the engine from seeing a path again once its transcript has been written and the
path recorded, across creation events and backlog scans (`Registry.RecordedNeverAgain`).
A path whose engine call or sidecar write fails stays unrecorded and is retried by the
next event or scan. The registry is persisted, so across a restart this holds for the paths
whose registry save succeeded (`Registry.RestartAfterRun`).

The model has five modules.

- `Wrappers` (wrappers.dfy): the `Result` type.
- `Paths` (paths.dfy): the parts of `pathlib.PurePosixPath` (Python 3.12) and `posixpath`
  that the handler relies on. These are the root and parts of a path, its final part
  (`name`), that part's `suffix` and `stem`, `with_suffix`, the string a path prints as,
  and `os.path.join`.
- `Media` (media.dfy): `is_media_file`, meaning that the lower-cased suffix is one of eight
  extensions. It also holds the facts about sidecar paths.
- `Registry` (registry.dfy): the handler's state and operations as pure functions.
  - `Transcribe` is `transcribe_file`.
  - `HandleCreated` is `on_created`.
  - `ProcessExisting` is `process_existing_files`.
  - `LoadProcessed` is `load_processed_files`.
  - `Run` folds any sequence of creation events and scans.

  The module also holds the lemmas about these functions: at most once, idempotence,
  retry after failure, and what a scan adds.
- `Handler` (handler.dfy): `TranscriptionHandler` as a class.
  - `processed` is the mutable set field, and `registryFile` is the persisted file.
  - The transcripts on disk and the engine trace are ghost fields.
  - Each method is proved to move the object's state exactly as the matching `Registry`
    function says, and to keep the registry file a subset of the processed set.

The engine, the sidecar write and the registry save are effects outside the model. Each
call to `transcribe_file` receives their outcomes as an `Attempt`: the engine's text or an
error, whether the write succeeds, and whether the save succeeds. An exception at any step
ends the call with the state reached so far. This matches `except Exception` at
transcription_system.py:71-72. A backlog scan receives one `Attempt` per path, and
`os.walk` is given as its sequence of `(root, files)` entries.

Four behaviours of the code are easy to miss; the model follows the code:

- **Unreadable registry file.** `load_processed_files` catches only `FileNotFoundError`
  (transcription_system.py:34-38). So a file that does not decode, or that `open` refuses
  for another reason (no permission, a directory), raises out of the constructor. `LoadProcessed` returns
  `Failure(UnreadableRegistry)`, and the class constructor requires a loadable file.
- **Where the media check lives.** `transcribe_file` does not check the extension; only
  its callers do (lines 79 and 87), so `Transcribe` accepts any path.
- **A failed registry save.** When the save raises after the set has grown (lines 66-67),
  the path stays processed in memory but not on disk.
- **Shared sidecars.** Two media files that differ only in extension, such as `a.mp3` and
  `a.wav`, share the sidecar `a.txt`. The later transcript overwrites the earlier one
  (`Registry.SidecarsCollide`).

## Model

| member | source | states |
|---|---|---|
| Paths.Parts | transcription_system.py:47 | The parts pathlib keeps after the root are all non-empty, not `.`, and separator-free |
| Paths.Root | transcription_system.py:47 | The root `splitroot` finds is empty, `/` or `//` |
| Paths.Name | transcription_system.py:47 | A path's `name` is empty or a valid part |
| Paths.LastIndexOf | transcription_system.py:47 | `rfind`: the index holds the character and no later index does, or -1 |
| Paths.SuffixOfName | transcription_system.py:47 | A non-empty `suffix` is a tail of the name that starts with a dot, has no other dot, has a character after the dot and leaves at least one character before it |
| Paths.StemOfName | transcription_system.py:59 | `stem + suffix` is the name, and a non-empty name has a non-empty stem |
| Paths.WithSuffixFails | transcription_system.py:59 | `with_suffix` raises exactly when the suffix is invalid or every `/`-separated piece of the path is empty or `.` |
| Paths.SplitJoin | transcription_system.py:59 | Splitting the `/`-join of separator-free parts gives the parts back |
| Paths.SplitConcat | transcription_system.py:86 | Splitting `x/y` is splitting `x` followed by splitting `y` |
| Paths.FormatRoundTrip | transcription_system.py:59 | A path printed from a root and valid parts parses back to that root and those parts |
| Paths.NewNameIsComponent | transcription_system.py:59 | The final part that `with_suffix` builds is a valid part |
| Paths.WithSuffixSameDirectory | transcription_system.py:59 | The path `with_suffix` returns has the same root, the same number of parts and the same parent parts, and its name is the old stem plus the new suffix |
| Paths.SuffixOfStemPlus | transcription_system.py:59 | Appending a one-dot suffix to a non-empty stem gives a name whose suffix is that one |
| Paths.BareName | transcription_system.py:86 | A single part without a root is a path whose only part and name are itself |
| Paths.BareNameWithSuffix | transcription_system.py:59 | `with_suffix` on `stem.ext` gives `stem` followed by the new suffix |
| Paths.JoinedName | transcription_system.py:84-86 | `os.path.join(root, file)` for a plain file name has that file name as its name, whatever the directory |
| Media.LowerChar | transcription_system.py:47 | Lower-casing keeps dots and separators where they are and creates no others |
| Media.Lower | transcription_system.py:47 | Lower-casing keeps the length and leaves no character that lower-cases further |
| Media.LowerIdempotent | transcription_system.py:47 | Lower-casing twice is lower-casing once |
| Media.NameLower | transcription_system.py:47 | The name of a lower-cased path is the lower-cased name |
| Media.SuffixLower | transcription_system.py:47 | The suffix of a lower-cased name is the lower-cased suffix |
| Media.MediaIgnoresCase | transcription_system.py:45-47 | A path and its lower-cased form are classified alike |
| Media.SameClassUpToCase | transcription_system.py:45-47 | Two paths that differ only in letter case are classified alike |
| Media.FormatShape | transcription_system.py:23-26 | Every supported extension is a dot and three characters, with no other dot and no separator |
| Media.MediaIffExtension | transcription_system.py:45-47 | A final part is media exactly when it ends, ignoring case, in a supported extension with at least one character before it |
| Media.MediaHasName | transcription_system.py:45-59 | A media path has a final part, so `with_suffix('.txt')` does not raise on it |
| Media.TranscriptNameNotMedia | transcription_system.py:59 | A name ending in `.txt` after a non-empty stem is never media |
| Media.SidecarOfMedia | transcription_system.py:59 | The sidecar of a media path exists, lies in the same directory with the name `stem.txt`, is not media and differs from the media path |
| Media.WalkedFileByName | transcription_system.py:84-87 | A walked path is classified by its file name alone |
| Registry.LoadProcessed | transcription_system.py:32-38 | A missing file gives the empty set, a list gives exactly its elements, and only an unreadable file (undecodable, or refused by `open`) fails |
| Registry.Transcribe | transcription_system.py:49-72 | Skip (no engine call, no change) exactly when already processed. Otherwise the engine is called once. The call completes exactly when the engine and the write succeed and the sidecar path exists. Only a completed call adds the path and writes the sidecar. The registry file becomes the new set when the save succeeds and stays as it was otherwise |
| Registry.HandleCreated | transcription_system.py:74-80 | Directory events and non-media paths leave the state unchanged |
| Registry.CreatedMediaTranscribed | transcription_system.py:79-80 | The creation event of an unprocessed media file hands it to the engine once, whatever the outcome. On success the path becomes processed and its transcript is written to its sidecar; on failure the processed set and the registry file stay as they were |
| Registry.JoinAll | transcription_system.py:84-86 | One path per file of the directory, in order: the i-th is `os.path.join(root, files[i])` |
| Registry.MediaPaths | transcription_system.py:87 | A path is kept exactly when it was visited and is media |
| Registry.ScanStep | transcription_system.py:85-88 | Visiting the next file of a directory transcribes it exactly when it is media |
| Registry.TranscribeConsistent | transcription_system.py:66-67 | A call keeps the registry file a subset of the processed set |
| Registry.TranscribeExtends | transcription_system.py:49-72 | One call extends the state: nothing is forgotten, and a processed path is never handed to the engine again. A newly processed path went through the engine and has its sidecar. The registry file stays consistent |
| Registry.EachExtends | transcription_system.py:82-88 | A scan extends the state in the same sense |
| Registry.ApplyExtends | transcription_system.py:74-88 | A creation event or a scan extends the state |
| Registry.RunExtends | transcription_system.py:49-88 | At most once: over any sequence of events and scans, a path processed at the start never reaches the engine again. The processed set only grows, and every newly processed path was transcribed and has its sidecar on disk |
| Registry.RunConcat | transcription_system.py:74-88 | Running two sequences of events and scans is running the first and then the second |
| Registry.RecordedNeverAgain | transcription_system.py:53-55 | A path that is processed at any point of a run is not handed to the engine by the rest of the run |
| Registry.RestartAfterRun | transcription_system.py:30-43 | After any run, the registry file stays a subset of the processed set. A handler restarted from that file never hands a path the file lists to the engine, whatever events and scans follow |
| Registry.TranscribeTwice | transcription_system.py:53-55 | After a completed call, a second call on the same path is skipped, so the engine ran once for it |
| Registry.FailureLeavesPathEligible | transcription_system.py:58-72 | A failed engine call or write leaves the path unprocessed and the registry file unchanged, so a later event or scan retries it |
| Registry.SidecarCreationIgnored | transcription_system.py:74-80 | The creation event of a transcript file never starts another transcription |
| Registry.PlainSidecar | transcription_system.py:59 | The sidecar of a bare name `stem.ext` is `stem.txt` |
| Registry.SidecarsCollide | transcription_system.py:59-63 | Two different media files `stem.e1` and `stem.e2` share the sidecar `stem.txt` |
| Registry.TranscribeProcessed | transcription_system.py:58-67 | Where the sidecar path exists, a call adds its path exactly when the attempt succeeds |
| Registry.EachProcessed | transcription_system.py:82-88 | Transcribing a list adds to the processed set exactly the listed paths whose attempt succeeds |
| Registry.EachCallsOnly | transcription_system.py:82-88 | Transcribing a list hands the engine only paths from that list, appended after the earlier calls |
| Registry.AllMediaHaveSidecars | transcription_system.py:59 | Every media path a scan visits has a sidecar path |
| Registry.SucceededMedia | transcription_system.py:87-88 | The succeeding media paths of the visit are the visited paths that are media and whose attempt succeeds |
| Registry.ScanProcessed | transcription_system.py:82-88 | A scan adds exactly the media paths of the walk whose attempt succeeds; a failing file does not stop the others |
| Registry.ScanAllSucceed | transcription_system.py:82-88 | When every attempt succeeds, every media path of the walk ends up processed |
| Registry.ScanCallsOnlyMedia | transcription_system.py:82-88 | A scan hands the engine only media paths of the walk |
| Handler.ListOf | transcription_system.py:43 | `list(set)`: every element exactly once, in some order |
| Handler.TranscriptionHandler.constructor | transcription_system.py:20-38 | The processed set is what the registry file holds, and the handler starts consistent |
| Handler.TranscriptionHandler.SaveProcessed | transcription_system.py:40-43 | Afterwards, loading the registry file gives exactly the processed set |
| Handler.TranscriptionHandler.TranscribeFile | transcription_system.py:49-72 | The new state and outcome are those of `Registry.Transcribe`; a processed path leaves every field unchanged; consistency is kept |
| Handler.TranscriptionHandler.OnCreated | transcription_system.py:74-80 | The new state is that of `Registry.HandleCreated`, and consistency is kept |
| Handler.TranscriptionHandler.ProcessExistingFiles | transcription_system.py:82-88 | The nested loop over the walk reaches the state of `Registry.ProcessExisting`, and consistency is kept |
| Handler.TranscribeTwiceClient | transcription_system.py:53-55 | Two calls on a fresh media path whose first attempt succeeds add the path once and call the engine once |

## Left out

- The Whisper model (`whisper.load_model`, `model.transcribe`). Its result is an input (`Attempt.engine`).
- The watchdog observer, its threads, the sleep loop and `main`. Events arrive one at a time as `Op` values, and concurrent event delivery is not modelled.
- Logging and the warnings filter. They have no effect on state.
- JSON encoding: the registry file is a list of strings, missing, or unreadable. A decodable JSON value that is not a list of strings is not modelled.
- Half-written files: a failed sidecar write or registry save leaves the previous content.
- The `directory` argument of `process_existing_files`: the walk is given as the sequence `os.walk` would yield, and outcomes are given per path.
- Media.LowerChar: `str.lower` is modelled only for the characters whose lower case is an ASCII letter (A-Z and KELVIN SIGN). These are the only ones that can affect membership in the extension set.
- Windows paths and `PureWindowsPath`.
- Restarts are not an `Op`. `Run` models one process lifetime. `Registry.Restart` and the constructor model loading after a restart, and `Registry.RestartAfterRun` chains two lifetimes.
- Path identity: the registry compares raw path strings, as the code does. So `data/a.mp3` and `/abs/data/a.mp3` are two different files to it, and nothing in the model normalises paths.
- Exceptions that do not derive from `Exception` (such as `KeyboardInterrupt`), which the code does not catch.
- Paths.WithSuffixSameDirectory: stated only for a non-empty suffix. An empty suffix can leave a stem of `.`, which pathlib then drops on parsing. The handler only uses `.txt`.
- Registry.SidecarsCollide: states only that the two sidecar paths coincide, not the resulting state in which the second transcript replaces the first.
