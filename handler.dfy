/**
 * `TranscriptionHandler` as an object: `processed_files` is a field the
 * methods update in place, and the registry file, the transcripts on disk
 * and the engine trace are fields the methods overwrite. Each method is
 * proved to move the object's state exactly as the corresponding function
 * of module Registry says.
 */
module Handler {
  import opened Wrappers
  import opened Paths
  import opened Media
  import opened Registry

  /** `list(s)`: the elements of a set, each once, in an unspecified order. */
  method ListOf(s: set<string>) returns (r: seq<string>)
    ensures |r| == |s|
    ensures forall x :: x in r <==> x in s
    ensures forall i, j :: 0 <= i < j < |r| ==> r[i] != r[j]
  {
    r := [];
    var rest := s;
    while rest != {}
      invariant rest <= s
      invariant forall x :: x in r <==> x in s && x !in rest
      invariant |r| + |rest| == |s|
      invariant forall i, j :: 0 <= i < j < |r| ==> r[i] != r[j]
      decreases |rest|
    {
      var x :| x in rest;
      r := r + [x];
      rest := rest - {x};
    }
  }

  class TranscriptionHandler {
    var processed: set<string>
    var registryFile: RegistryFile
    ghost var sidecars: map<string, string>
    ghost var engineCalls: seq<string>

    ghost function State(): HandlerState
      reads this
    {
      HandlerState(processed, LoadProcessed(registryFile), sidecars, engineCalls)
    }

    ghost predicate Valid()
      reads this
    {
      Consistent(State())
    }

    /**
     * `__init__`, once `load_processed_files` has returned: the processed
     * set is what the registry file holds (empty when there is no file).
     */
    constructor (file: RegistryFile, ghost existingSidecars: map<string, string>)
      requires LoadProcessed(file).Success?
      ensures Valid()
      ensures processed == LoadProcessed(file).value && registryFile == file
      ensures sidecars == existingSidecars && engineCalls == []
    {
      processed := LoadProcessed(file).value;
      registryFile := file;
      sidecars := existingSidecars;
      engineCalls := [];
    }

    /** `save_processed_files`: the registry file becomes the list of the processed set. */
    method SaveProcessed()
      modifies this`registryFile
      ensures LoadProcessed(registryFile) == Success(processed)
    {
      var order := ListOf(processed);
      registryFile := JsonList(order);
      assert (set p | p in order) == processed;
    }

    /** `transcribe_file(path)`, with the outcomes of the engine, the write and the save given by `a`. */
    method TranscribeFile(path: string, a: Attempt) returns (outcome: Outcome)
      requires Valid()
      modifies this
      ensures (State(), outcome) == Transcribe(old(State()), path, a)
      ensures Valid()
      ensures path in old(processed) ==>
                && outcome == Skipped && processed == old(processed)
                && engineCalls == old(engineCalls) && sidecars == old(sidecars)
                && registryFile == old(registryFile)
    {
      TranscribeConsistent(State(), path, a);
      if path in processed {
        return Skipped;
      }
      engineCalls := engineCalls + [path];
      match a.engine {
        case EngineError =>
          return EngineFailed;
        case Text(text) =>
          var output := Sidecar(path);
          if output.Failure? {
            return NoSidecarPath;
          }
          if !a.writeOk {
            return WriteFailed(output.value);
          }
          sidecars := sidecars[output.value := text];
          processed := processed + {path};
          if !a.saveOk {
            return Completed(output.value, false);
          }
          SaveProcessed();
          return Completed(output.value, true);
      }
    }

    /** `on_created(event)` */
    method OnCreated(event: FileEvent, a: Attempt)
      requires Valid()
      modifies this
      ensures Valid()
      ensures State() == HandleCreated(old(State()), event, a)
    {
      if event.isDirectory {
        return;
      }
      if IsMedia(event.srcPath) {
        var _ := TranscribeFile(event.srcPath, a);
      }
    }

    /** `process_existing_files`, over the tuples `os.walk` yields. */
    method ProcessExistingFiles(walk: seq<WalkEntry>, outcome: string -> Attempt)
      requires Valid()
      modifies this
      ensures Valid()
      ensures State() == ProcessExisting(old(State()), walk, outcome)
    {
      ghost var start := State();
      for i := 0 to |walk|
        invariant Valid()
        invariant State() == TranscribeEach(start, MediaPaths(WalkPaths(walk[..i])), outcome)
      {
        var entry := walk[i];
        ghost var before := WalkPaths(walk[..i]);
        assert before + JoinAll(entry.root, entry.files[..0]) == before;
        for j := 0 to |entry.files|
          invariant Valid()
          invariant State() == TranscribeEach(start, MediaPaths(before + JoinAll(entry.root, entry.files[..j])), outcome)
        {
          var path := JoinPath(entry.root, entry.files[j]);
          ScanStep(start, before, entry.root, entry.files, j, outcome);
          if IsMedia(path) {
            var _ := TranscribeFile(path, outcome(path));
          }
        }
        assert entry.files[..|entry.files|] == entry.files;
        WalkPathsSnoc(walk, i);
      }
      assert walk[..|walk|] == walk;
    }
  }

  /**
   * A caller's view: a file that completes once is skipped the second time,
   * whatever the engine would have said.
   */
  method TranscribeTwiceClient(h: TranscriptionHandler, path: string, first: Attempt, second: Attempt)
    requires h.Valid() && path !in h.processed && Succeeds(first) && IsMedia(path)
    modifies h
    ensures h.processed == old(h.processed) + {path}
    ensures h.engineCalls == old(h.engineCalls) + [path]
  {
    MediaHasName(path);
    var o1 := h.TranscribeFile(path, first);
    var o2 := h.TranscribeFile(path, second);
    assert o2 == Skipped;
  }
}
