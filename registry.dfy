/**
 * The state of a `TranscriptionHandler` and its operations, as pure
 * functions: the processed-file registry (in memory and on disk), the
 * sidecar transcripts on disk, and the trace of calls into the
 * speech-to-text engine. The engine, the sidecar write and the registry
 * save are outside the model; each call receives their outcomes as an
 * `Attempt`.
 */
module Registry {
  import opened Wrappers
  import opened Paths
  import opened Media

  /** What the speech-to-text engine does with one file. */
  datatype EngineResult = Text(text: string) | EngineError

  /** The engine's answer, whether the sidecar write succeeds, whether the registry save succeeds. */
  datatype Attempt = Attempt(engine: EngineResult, writeOk: bool, saveOk: bool)

  /** An attempt whose transcript reaches the disk. */
  predicate Succeeds(a: Attempt) {
    a.engine.Text? && a.writeOk
  }

  /**
   * `processed_files.json`: absent, a JSON list of strings, or unreadable: a
   * file `open` refuses with anything but FileNotFoundError (no permission, a
   * directory) or one `json.load` rejects.
   */
  datatype RegistryFile = Missing | JsonList(paths: seq<string>) | Unreadable

  datatype LoadError = UnreadableRegistry

  /**
   * `load_processed_files`: a missing file gives the empty set; a list gives
   * its elements; an unreadable file raises, since only FileNotFoundError
   * is caught.
   */
  function LoadProcessed(f: RegistryFile): (r: Result<set<string>, LoadError>)
    ensures r.Failure? <==> f.Unreadable?
    ensures f.Missing? ==> r == Success({})
    ensures f.JsonList? ==> r.Success? && forall p :: p in r.value <==> p in f.paths
  {
    match f
    case Missing => Success({})
    case JsonList(ps) => Success(set p | p in ps)
    case Unreadable => Failure(UnreadableRegistry)
  }

  /**
   * `processed` is the in-memory `processed_files`; `stored` is what loading
   * the registry file would give now; `sidecars` maps each transcript file
   * written to its text; `engineCalls` lists the paths handed to the engine.
   */
  datatype HandlerState = HandlerState(
    processed: set<string>,
    stored: Result<set<string>, LoadError>,
    sidecars: map<string, string>,
    engineCalls: seq<string>)

  /** Which way one `transcribe_file` call went (what its log line reports). */
  datatype Outcome =
    | Skipped
    | EngineFailed
    | NoSidecarPath
    | WriteFailed(sidecar: string)
    | Completed(sidecar: string, saved: bool)

  /** The file-creation notification: `event.src_path` and `event.is_directory`. */
  datatype FileEvent = FileEvent(srcPath: string, isDirectory: bool)

  /** One tuple of `os.walk`: a directory and the names of the files in it. */
  datatype WalkEntry = WalkEntry(root: string, files: seq<string>)

  /** `Path(file_path).with_suffix('.txt')` */
  function Sidecar(path: string): Result<string, PathError> {
    WithSuffix(path, TranscriptSuffix)
  }

  /** The registry file never lists a path the handler does not hold as processed. */
  predicate Consistent(s: HandlerState) {
    s.stored.Success? && s.stored.value <= s.processed
  }

  /**
   * `transcribe_file(path)`: skip a processed path before the engine is
   * called; otherwise call the engine, derive the sidecar path, write the
   * transcript, add the path, save the registry. Any exception ends the call
   * with the state reached so far.
   */
  function Transcribe(s: HandlerState, path: string, a: Attempt): (r: (HandlerState, Outcome))
    ensures path in s.processed ==> r == (s, Skipped)
    ensures path !in s.processed ==> r.0.engineCalls == s.engineCalls + [path]
    ensures r.1.Completed? <==> path !in s.processed && Succeeds(a) && Sidecar(path).Success?
    ensures r.0.processed == if r.1.Completed? then s.processed + {path} else s.processed
    ensures r.1.Completed? ==>
              && r.1.sidecar == Sidecar(path).value
              && r.0.sidecars == s.sidecars[r.1.sidecar := a.engine.text]
              && r.1.saved == a.saveOk
              && r.0.stored == (if a.saveOk then Success(r.0.processed) else s.stored)
    ensures !r.1.Completed? ==> r.0.sidecars == s.sidecars && r.0.stored == s.stored
  {
    if path in s.processed then (s, Skipped)
    else
      var called := s.(engineCalls := s.engineCalls + [path]);
      match a.engine
      case EngineError => (called, EngineFailed)
      case Text(text) =>
        match Sidecar(path)
        case Failure(_) => (called, NoSidecarPath)
        case Success(out) =>
          if !a.writeOk then (called, WriteFailed(out))
          else
            var recorded := called.(sidecars := called.sidecars[out := text], processed := called.processed + {path});
            if a.saveOk then (recorded.(stored := Success(recorded.processed)), Completed(out, true))
            else (recorded, Completed(out, false))
  }

  /** `on_created(event)`: directories and non-media paths are ignored. */
  function HandleCreated(s: HandlerState, event: FileEvent, a: Attempt): (r: HandlerState)
    ensures event.isDirectory || !IsMedia(event.srcPath) ==> r == s
  {
    if event.isDirectory then s
    else if IsMedia(event.srcPath) then Transcribe(s, event.srcPath, a).0
    else s
  }

  /** `os.path.join(root, file)` for each file of one directory, in order. */
  function JoinAll(root: string, files: seq<string>): (r: seq<string>)
    ensures |r| == |files|
    ensures forall i :: 0 <= i < |files| ==> r[i] == JoinPath(root, files[i])
    decreases |files|
  {
    if files == [] then []
    else JoinAll(root, files[..|files| - 1]) + [JoinPath(root, files[|files| - 1])]
  }

  /** Every path the nested loop of `process_existing_files` visits, in order. */
  function WalkPaths(walk: seq<WalkEntry>): seq<string>
    decreases |walk|
  {
    if walk == [] then []
    else
      var last := walk[|walk| - 1];
      WalkPaths(walk[..|walk| - 1]) + JoinAll(last.root, last.files)
  }

  /** The media paths of `paths`, in order. */
  function MediaPaths(paths: seq<string>): (r: seq<string>)
    ensures forall q :: q in r <==> q in paths && IsMedia(q)
    decreases |paths|
  {
    if paths == [] then []
    else
      var last := paths[|paths| - 1];
      MediaPaths(paths[..|paths| - 1]) + (if IsMedia(last) then [last] else [])
  }

  /** `transcribe_file` on each of `paths` in turn; the engine's outcome for each path is `outcome(path)`. */
  function TranscribeEach(s: HandlerState, paths: seq<string>, outcome: string -> Attempt): HandlerState
    decreases |paths|
  {
    if paths == [] then s
    else
      var last := paths[|paths| - 1];
      Transcribe(TranscribeEach(s, paths[..|paths| - 1], outcome), last, outcome(last)).0
  }

  /** `process_existing_files`: `transcribe_file` on every media path of the walk, in walk order. */
  function ProcessExisting(s: HandlerState, walk: seq<WalkEntry>, outcome: string -> Attempt): HandlerState {
    TranscribeEach(s, MediaPaths(WalkPaths(walk)), outcome)
  }

  lemma MediaPathsSnoc(visited: seq<string>, path: string)
    ensures MediaPaths(visited + [path]) == MediaPaths(visited) + (if IsMedia(path) then [path] else [])
  {
    assert (visited + [path])[..|visited|] == visited;
  }

  lemma TranscribeEachSnoc(s: HandlerState, paths: seq<string>, path: string, outcome: string -> Attempt)
    ensures TranscribeEach(s, paths + [path], outcome)
      == Transcribe(TranscribeEach(s, paths, outcome), path, outcome(path)).0
  {
    assert (paths + [path])[..|paths|] == paths;
  }

  /**
   * One step of the nested loop of `process_existing_files`: visiting the
   * next file of a directory runs `transcribe_file` on it exactly when it
   * is media.
   */
  lemma ScanStep(s: HandlerState, before: seq<string>, root: string, files: seq<string>, j: nat, outcome: string -> Attempt)
    requires j < |files|
    ensures var path := JoinPath(root, files[j]);
      var done := TranscribeEach(s, MediaPaths(before + JoinAll(root, files[..j])), outcome);
      TranscribeEach(s, MediaPaths(before + JoinAll(root, files[..j + 1])), outcome)
        == if IsMedia(path) then Transcribe(done, path, outcome(path)).0 else done
  {
    var path := JoinPath(root, files[j]);
    var visited := before + JoinAll(root, files[..j]);
    JoinAllSnoc(root, files, j);
    assert before + JoinAll(root, files[..j + 1]) == visited + [path];
    MediaPathsSnoc(visited, path);
    if IsMedia(path) {
      TranscribeEachSnoc(s, MediaPaths(visited), path, outcome);
    } else {
      assert MediaPaths(visited) + [] == MediaPaths(visited);
    }
  }

  lemma JoinAllSnoc(root: string, files: seq<string>, j: nat)
    requires j < |files|
    ensures JoinAll(root, files[..j + 1]) == JoinAll(root, files[..j]) + [JoinPath(root, files[j])]
  {
    assert files[..j + 1][..j] == files[..j];
  }

  lemma WalkPathsSnoc(walk: seq<WalkEntry>, i: nat)
    requires i < |walk|
    ensures WalkPaths(walk[..i + 1]) == WalkPaths(walk[..i]) + JoinAll(walk[i].root, walk[i].files)
  {
    assert walk[..i + 1][..i] == walk[..i];
  }

  /** Something that drives the handler: a creation event or a backlog scan. */
  datatype Op =
    | Created(event: FileEvent, attempt: Attempt)
    | Scan(walk: seq<WalkEntry>, outcome: string -> Attempt)

  function Apply(s: HandlerState, op: Op): HandlerState {
    match op
    case Created(event, a) => HandleCreated(s, event, a)
    case Scan(walk, outcome) => ProcessExisting(s, walk, outcome)
  }

  function Run(s: HandlerState, ops: seq<Op>): HandlerState
    decreases |ops|
  {
    if ops == [] then s else Run(Apply(s, ops[0]), ops[1..])
  }

  // ---------------------------------------------------------------------------
  // How a later state relates to an earlier one

  /**
   * `t` is reachable from `s` without breaking the registry's guarantees:
   * nothing is forgotten, the engine is never handed a path that was
   * already processed in `s`, and every path that became processed went
   * through the engine and has its transcript on disk.
   */
  ghost predicate Extends(s: HandlerState, t: HandlerState) {
    && s.processed <= t.processed
    && s.engineCalls <= t.engineCalls
    && s.sidecars.Keys <= t.sidecars.Keys
    && (forall p :: p in s.processed ==> p !in t.engineCalls[|s.engineCalls|..])
    && (forall p :: p in t.processed && p !in s.processed ==>
          && p in t.engineCalls[|s.engineCalls|..]
          && Sidecar(p).Success?
          && Sidecar(p).value in t.sidecars)
  }

  lemma ExtendsRefl(s: HandlerState)
    ensures Extends(s, s)
  {
  }

  lemma ExtendsTrans(s: HandlerState, t: HandlerState, u: HandlerState)
    requires Extends(s, t) && Extends(t, u)
    ensures Extends(s, u)
  {
    var n, m := |s.engineCalls|, |t.engineCalls|;
    assert u.engineCalls[n..] == t.engineCalls[n..] + u.engineCalls[m..] by {
      assert u.engineCalls[..m] == t.engineCalls;
    }
  }

  /** One `transcribe_file` call keeps the registry file a subset of the processed set. */
  lemma TranscribeConsistent(s: HandlerState, path: string, a: Attempt)
    requires Consistent(s)
    ensures Consistent(Transcribe(s, path, a).0)
  {
  }

  /** One `transcribe_file` call keeps the guarantees and keeps the registry file consistent. */
  lemma TranscribeExtends(s: HandlerState, path: string, a: Attempt)
    ensures Extends(s, Transcribe(s, path, a).0)
    ensures Consistent(s) ==> Consistent(Transcribe(s, path, a).0)
  {
    var t := Transcribe(s, path, a).0;
    if path !in s.processed {
      assert t.engineCalls[|s.engineCalls|..] == [path];
    }
  }

  lemma {:induction false} EachExtends(s: HandlerState, paths: seq<string>, outcome: string -> Attempt)
    ensures Extends(s, TranscribeEach(s, paths, outcome))
    ensures Consistent(s) ==> Consistent(TranscribeEach(s, paths, outcome))
    decreases |paths|
  {
    if paths == [] {
      ExtendsRefl(s);
    } else {
      var init := paths[..|paths| - 1];
      var last := paths[|paths| - 1];
      var mid := TranscribeEach(s, init, outcome);
      EachExtends(s, init, outcome);
      TranscribeExtends(mid, last, outcome(last));
      ExtendsTrans(s, mid, Transcribe(mid, last, outcome(last)).0);
    }
  }

  lemma ApplyExtends(s: HandlerState, op: Op)
    ensures Extends(s, Apply(s, op))
    ensures Consistent(s) ==> Consistent(Apply(s, op))
  {
    match op
    case Created(event, a) =>
      if !event.isDirectory && IsMedia(event.srcPath) {
        TranscribeExtends(s, event.srcPath, a);
      } else {
        ExtendsRefl(s);
      }
    case Scan(walk, outcome) =>
      EachExtends(s, MediaPaths(WalkPaths(walk)), outcome);
  }

  /** Running two sequences of operations is running the first, then the second. */
  lemma {:induction false} RunConcat(s: HandlerState, first: seq<Op>, second: seq<Op>)
    ensures Run(s, first + second) == Run(Run(s, first), second)
    decreases |first|
  {
    if first == [] {
      assert first + second == second;
    } else {
      assert (first + second)[0] == first[0] && (first + second)[1..] == first[1..] + second;
      RunConcat(Apply(s, first[0]), first[1..], second);
    }
  }

  /**
   * Once recorded, never again: a path that is processed at any point of a
   * run is not handed to the engine by the rest of that run.
   */
  lemma RecordedNeverAgain(s: HandlerState, first: seq<Op>, second: seq<Op>, p: string)
    requires p in Run(s, first).processed
    ensures var mid := Run(s, first);
      var t := Run(s, first + second);
      && mid.engineCalls <= t.engineCalls
      && p !in t.engineCalls[|mid.engineCalls|..]
  {
    RunConcat(s, first, second);
    RunExtends(Run(s, first), second);
  }

  /**
   * At most once: over any sequence of creation events and backlog scans,
   * the processed set only grows, a path processed at the start is never
   * handed to the engine again, each newly processed path was transcribed
   * and has its sidecar on disk, and the registry file stays a subset of the
   * in-memory set.
   */
  lemma {:induction false} RunExtends(s: HandlerState, ops: seq<Op>)
    ensures Extends(s, Run(s, ops))
    ensures Consistent(s) ==> Consistent(Run(s, ops))
    decreases |ops|
  {
    if ops == [] {
      ExtendsRefl(s);
    } else {
      var next := Apply(s, ops[0]);
      ApplyExtends(s, ops[0]);
      RunExtends(next, ops[1..]);
      ExtendsTrans(s, next, Run(next, ops[1..]));
    }
  }

  /**
   * The handler a restart builds: the in-memory set is what the registry file
   * holds, the transcripts stay on disk, and the engine has not been called.
   */
  function Restart(s: HandlerState): HandlerState
    requires s.stored.Success?
  {
    HandlerState(s.stored.value, s.stored, s.sidecars, [])
  }

  /**
   * At most once across a restart, for the paths whose registry save
   * succeeded: after any run, the registry file is consistent, and a
   * restarted handler never hands a path the file lists to the engine again,
   * whatever events and scans follow.
   */
  lemma RestartAfterRun(s: HandlerState, first: seq<Op>, second: seq<Op>)
    requires Consistent(s)
    ensures var t := Run(s, first);
      && Consistent(t)
      && forall p :: p in t.stored.value ==> p !in Run(Restart(t), second).engineCalls
  {
    RunExtends(s, first);
    var r := Restart(Run(s, first));
    RunExtends(r, second);
    var u := Run(r, second);
    assert u.engineCalls[|r.engineCalls|..] == u.engineCalls;
  }

  // ---------------------------------------------------------------------------
  // One file

  /**
   * Idempotence: after a call that completes, a second call on the same
   * path changes nothing and does not reach the engine, so the engine ran
   * once and one transcript was written.
   */
  lemma TranscribeTwice(s: HandlerState, path: string, first: Attempt, second: Attempt)
    requires Transcribe(s, path, first).1.Completed?
    ensures var s1 := Transcribe(s, path, first).0;
      && Transcribe(s1, path, second) == (s1, Skipped)
      && s1.engineCalls == s.engineCalls + [path]
      && s1.processed == s.processed + {path}
  {
  }

  /**
   * A failed attempt (engine error or failed sidecar write) leaves the
   * processed set and the registry file as they were, so the path can be
   * retried by a later event or scan.
   */
  lemma FailureLeavesPathEligible(s: HandlerState, path: string, a: Attempt)
    requires path !in s.processed && !Succeeds(a)
    ensures Transcribe(s, path, a).0.processed == s.processed
    ensures Transcribe(s, path, a).0.stored == s.stored
    ensures path !in Transcribe(s, path, a).0.processed
  {
  }

  /** Creating the transcript of a media file never starts another transcription. */
  lemma SidecarCreationIgnored(s: HandlerState, path: string, a: Attempt)
    requires IsMedia(path)
    ensures Sidecar(path).Success?
    ensures HandleCreated(s, FileEvent(Sidecar(path).value, false), a) == s
  {
    SidecarOfMedia(path);
  }

  /**
   * The creation event of a new media file hands it to the engine, whatever
   * the outcome; when the attempt succeeds the path is processed and its
   * transcript is written, and otherwise the registry is left as it was.
   */
  lemma CreatedMediaTranscribed(s: HandlerState, p: string, a: Attempt)
    requires IsMedia(p) && p !in s.processed
    ensures var t := HandleCreated(s, FileEvent(p, false), a);
      && t.engineCalls == s.engineCalls + [p]
      && Sidecar(p).Success?
      && (Succeeds(a) ==>
            && p in t.processed
            && t.sidecars == s.sidecars[Sidecar(p).value := a.engine.text])
      && (!Succeeds(a) ==> t.processed == s.processed && t.stored == s.stored)
  {
    MediaHasName(p);
  }

  /** The sidecar of a bare file name `stem.ext` is the bare name `stem.txt`. */
  lemma PlainSidecar(stem: string, ext: string)
    requires IsComponent(stem) && '.' !in stem
    requires |ext| >= 2 && ext[0] == '.' && '.' !in ext[1..] && Sep !in ext
    ensures Sidecar(stem + ext) == Success(stem + TranscriptSuffix)
  {
    BareNameWithSuffix(stem, ext, TranscriptSuffix);
  }

  /**
   * Two media files that differ only in extension share one transcript
   * path: `a.mp3` and `a.wav` both write `a.txt`.
   */
  lemma SidecarsCollide(stem: string, ext1: string, ext2: string)
    requires IsComponent(stem) && '.' !in stem
    requires ext1 in SupportedFormats && ext2 in SupportedFormats && ext1 != ext2
    ensures stem + ext1 != stem + ext2
    ensures Sidecar(stem + ext1) == Sidecar(stem + ext2) == Success(stem + TranscriptSuffix)
  {
    FormatShape(ext1);
    FormatShape(ext2);
    PlainSidecar(stem, ext1);
    PlainSidecar(stem, ext2);
    DistinctEndings(stem, ext1, ext2);
  }

  lemma DistinctEndings(stem: string, e1: string, e2: string)
    requires e1 != e2
    ensures stem + e1 != stem + e2
  {
    assert (stem + e1)[|stem|..] == e1 && (stem + e2)[|stem|..] == e2;
  }

  // ---------------------------------------------------------------------------
  // Backlog scan

  /** The paths among `paths` whose attempt succeeds. */
  function Succeeded(paths: seq<string>, outcome: string -> Attempt): set<string> {
    set q | q in paths && Succeeds(outcome(q))
  }

  lemma SucceededLast(paths: seq<string>, outcome: string -> Attempt)
    requires paths != []
    ensures var last := paths[|paths| - 1];
      Succeeded(paths, outcome)
        == Succeeded(paths[..|paths| - 1], outcome) + (if Succeeds(outcome(last)) then {last} else {})
  {
    var init := paths[..|paths| - 1];
    var last := paths[|paths| - 1];
    var lhs := Succeeded(paths, outcome);
    var rhs := Succeeded(init, outcome) + (if Succeeds(outcome(last)) then {last} else {});
    assert paths == init + [last];
    forall q | q in lhs ensures q in rhs {
      assert q in init || q == last;
    }
    forall q | q in rhs ensures q in lhs {
      assert q in init + [last];
    }
  }

  /** Where the sidecar path exists, a call adds its path exactly when the attempt succeeds. */
  lemma TranscribeProcessed(s: HandlerState, path: string, a: Attempt)
    requires Sidecar(path).Success?
    ensures Transcribe(s, path, a).0.processed == s.processed + (if Succeeds(a) then {path} else {})
  {
  }

  /** Every path of `paths` has a sidecar path. */
  predicate AllHaveSidecars(paths: seq<string>)
    decreases |paths|
  {
    paths == [] || (AllHaveSidecars(paths[..|paths| - 1]) && Sidecar(paths[|paths| - 1]).Success?)
  }

  lemma {:induction false} EachProcessed(s: HandlerState, paths: seq<string>, outcome: string -> Attempt)
    requires AllHaveSidecars(paths)
    ensures TranscribeEach(s, paths, outcome).processed == s.processed + Succeeded(paths, outcome)
    decreases |paths|
  {
    if paths != [] {
      var init := paths[..|paths| - 1];
      var last := paths[|paths| - 1];
      var mid := TranscribeEach(s, init, outcome);
      EachProcessed(s, init, outcome);
      TranscribeProcessed(mid, last, outcome(last));
      SucceededLast(paths, outcome);
    }
  }

  lemma {:induction false} EachCallsOnly(s: HandlerState, paths: seq<string>, outcome: string -> Attempt)
    ensures var t := TranscribeEach(s, paths, outcome);
      && s.engineCalls <= t.engineCalls
      && forall q :: q in t.engineCalls[|s.engineCalls|..] ==> q in paths
    decreases |paths|
  {
    if paths != [] {
      var init := paths[..|paths| - 1];
      var last := paths[|paths| - 1];
      var mid := TranscribeEach(s, init, outcome);
      EachCallsOnly(s, init, outcome);
      var t := TranscribeEach(s, paths, outcome);
      if last !in mid.processed {
        assert t.engineCalls[|s.engineCalls|..] == mid.engineCalls[|s.engineCalls|..] + [last];
      }
    }
  }

  /**
   * A backlog scan adds to the processed set exactly the media paths of the
   * walk whose attempt succeeds: a failing file does not stop the others and
   * stays unprocessed; order does not matter.
   */
  lemma ScanProcessed(s: HandlerState, walk: seq<WalkEntry>, outcome: string -> Attempt)
    ensures ProcessExisting(s, walk, outcome).processed
      == s.processed + (set q | q in WalkPaths(walk) && IsMedia(q) && Succeeds(outcome(q)))
  {
    var media := MediaPaths(WalkPaths(walk));
    AllMediaHaveSidecars(WalkPaths(walk));
    EachProcessed(s, media, outcome);
    SucceededMedia(WalkPaths(walk), outcome);
  }

  lemma {:induction false} AllMediaHaveSidecars(paths: seq<string>)
    ensures AllHaveSidecars(MediaPaths(paths))
    decreases |paths|
  {
    if paths != [] {
      var init := paths[..|paths| - 1];
      var last := paths[|paths| - 1];
      AllMediaHaveSidecars(init);
      MediaPathsLast(paths);
      if IsMedia(last) {
        MediaHasName(last);
        AllHaveSidecarsSnoc(MediaPaths(init), last);
      }
    }
  }

  lemma MediaPathsLast(paths: seq<string>)
    requires paths != []
    ensures var init := paths[..|paths| - 1];
      var last := paths[|paths| - 1];
      MediaPaths(paths) == if IsMedia(last) then MediaPaths(init) + [last] else MediaPaths(init)
  {
    assert MediaPaths(paths[..|paths| - 1]) + [] == MediaPaths(paths[..|paths| - 1]);
  }

  lemma AllHaveSidecarsSnoc(paths: seq<string>, path: string)
    requires AllHaveSidecars(paths) && Sidecar(path).Success?
    ensures AllHaveSidecars(paths + [path])
  {
    assert (paths + [path])[..|paths|] == paths;
  }

  lemma SucceededMedia(paths: seq<string>, outcome: string -> Attempt)
    ensures Succeeded(MediaPaths(paths), outcome)
      == (set q | q in paths && IsMedia(q) && Succeeds(outcome(q)))
  {
    var direct := set q | q in paths && IsMedia(q) && Succeeds(outcome(q));
    forall q | q in direct ensures q in Succeeded(MediaPaths(paths), outcome) {
      assert q in MediaPaths(paths);
    }
  }

  /** With every attempt successful, every media path of the walk ends up processed. */
  lemma ScanAllSucceed(s: HandlerState, walk: seq<WalkEntry>, outcome: string -> Attempt)
    requires forall q :: Succeeds(outcome(q))
    ensures forall q :: q in WalkPaths(walk) && IsMedia(q) ==> q in ProcessExisting(s, walk, outcome).processed
  {
    ScanProcessed(s, walk, outcome);
  }

  /** A backlog scan hands the engine only media paths of the walk. */
  lemma ScanCallsOnlyMedia(s: HandlerState, walk: seq<WalkEntry>, outcome: string -> Attempt)
    ensures var t := ProcessExisting(s, walk, outcome);
      && s.engineCalls <= t.engineCalls
      && forall q :: q in t.engineCalls[|s.engineCalls|..] ==> q in WalkPaths(walk) && IsMedia(q)
  {
    EachCallsOnly(s, MediaPaths(WalkPaths(walk)), outcome);
  }
}
