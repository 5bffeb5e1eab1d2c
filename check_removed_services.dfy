/**
 * The reconciliation of declared blocked services against the service
 * definition files on disk: load the declared list, keep the records whose
 * `id` no on-disk file declares, write each of them back as `<id>.yml`, and
 * warn with the list of restored ids.
 *
 * The file system is the map `ServicesDirectory.files` from file name to
 * content; reading the source artifact, `JSON.parse`, `yaml.dump`, the
 * on-disk index and the success of each write are supplied in an `Env`.
 */
module CheckRemovedServices {
  import opened ServiceModel

  /** What reading the source artifact gave. */
  datatype FileRead = ReadFailed | ReadOk(text: string)

  /**
   * The `blocked_services` property of the parsed artifact: an array of
   * service records, or any other value (absent, `null`, an object, a string, ...).
   */
  datatype BlockedServicesField = ServiceArray(records: seq<Service>) | NotAnArray

  /**
   * `JSON.parse` of the artifact's text: a syntax error, the document `null`
   * (whose property access throws), or a value whose `blocked_services`
   * property is given.
   */
  datatype ParseResult = SyntaxError | NullDocument | Document(blockedServices: BlockedServicesField)

  /** Why the artifact could not be loaded. */
  datatype LoadCause = ReadError | ParseError | NullAccess

  /** The errors a run ends with. */
  datatype RunError =
    | LoadError(cause: LoadCause)
    | ShapeError(message: string)
    | WriteError(fileName: string)

  const NotAnArrayMessage: string := "Blocked services data is not an array"
  const ReadErrorPrefix: string := "Error while reading file "
  const WarningPrefix: string := "These services have been removed: "
  const WarningSuffix: string := ", and were restored"
  const IdSeparator: string := ", "

  datatype LogLevel = ErrorLevel | WarningLevel

  datatype LogEntry = LogEntry(level: LogLevel, message: string)

  /** What the logger received during a run, and the error the run ended with, if any. */
  datatype Report = Report(log: seq<LogEntry>, failure: Option<RunError>)

  /** The directory after a run, with the run's report. */
  datatype Outcome = Outcome(files: map<string, Content>, report: Report)

  /**
   * Everything a run depends on besides the services directory: the read of
   * the source artifact, `JSON.parse`, the descriptors of the files already on
   * disk, the file names whose write fails, what a failed write leaves in its
   * file, and `yaml.dump`.
   */
  datatype Env = Env(
    source: FileRead,
    parse: string -> ParseResult,
    serviceFiles: seq<ServiceFile>,
    unwritable: set<string>,
    leftBehind: string -> Option<Content>,
    dump: Service -> Content)

  function ReadErrorMessage(filePath: string): string
  {
    ReadErrorPrefix + filePath
  }

  function WarningMessage(ids: seq<string>): string
  {
    WarningPrefix + Join(ids, IdSeparator) + WarningSuffix
  }

  /** Reads the list of ids back out of a warning. */
  function RestoredIds(message: string): seq<string>
    requires |WarningPrefix| + |WarningSuffix| <= |message|
  {
    Split(message[|WarningPrefix|..|message| - |WarningSuffix|], IdSeparator)
  }

  /** The result of loading the artifact, with what the logger received. */
  datatype Loaded = Loaded(data: Result<BlockedServicesField, LoadCause>, log: seq<LogEntry>)

  /**
   * Reads and parses the artifact and takes its `blocked_services` property.
   * Any failure on the way is logged at error level, naming the path, and
   * rethrown.
   */
  function GetBlockedServicesData(filePath: string, source: FileRead, parse: string -> ParseResult): (r: Loaded)
    ensures r.data.Success? <==> source.ReadOk? && parse(source.text).Document?
    ensures r.data.Success? ==> r.data.value == parse(source.text).blockedServices && r.log == []
    ensures r.data.Failure? ==> |r.log| == 1 && r.log[0].level == ErrorLevel
    ensures r.data.Failure? ==>
      var m := r.log[0].message; |filePath| <= |m| && m[|m| - |filePath|..] == filePath
  {
    match source
    case ReadFailed => Loaded(Failure(ReadError), [LogEntry(ErrorLevel, ReadErrorMessage(filePath))])
    case ReadOk(text) =>
      match parse(text)
      case SyntaxError => Loaded(Failure(ParseError), [LogEntry(ErrorLevel, ReadErrorMessage(filePath))])
      case NullDocument => Loaded(Failure(NullAccess), [LogEntry(ErrorLevel, ReadErrorMessage(filePath))])
      case Document(field) => Loaded(Success(field), [])
  }

  /** A declared service is missing when no on-disk descriptor carries its id. */
  predicate IsMissing(s: Service, serviceFiles: seq<ServiceFile>)
  {
    Find(serviceFiles, s.id).None?
  }

  /** `a` is `b` with some elements left out, the others kept in order. */
  ghost predicate IsSubsequence<T>(a: seq<T>, b: seq<T>)
    decreases |b|
  {
    if |a| == 0 then true
    else if |b| == 0 then false
    else (a[0] == b[0] && IsSubsequence(a[1..], b[1..])) || IsSubsequence(a, b[1..])
  }

  /**
   * The declared services whose id matches no on-disk descriptor: the
   * subsequence of `declared` that keeps every occurrence of a missing
   * service and nothing else.
   */
  function Differences(declared: seq<Service>, serviceFiles: seq<ServiceFile>): (r: seq<Service>)
    ensures IsSubsequence(r, declared)
    ensures forall s :: multiset(r)[s] == if IsMissing(s, serviceFiles) then multiset(declared)[s] else 0
  {
    if |declared| == 0 then []
    else
      var rest := Differences(declared[1..], serviceFiles);
      assert declared == [declared[0]] + declared[1..];
      if IsMissing(declared[0], serviceFiles) then
        assert ([declared[0]] + rest)[1..] == rest;
        [declared[0]] + rest
      else rest
  }

  /** The directory after writing each record, in order, as `<id>.yml`. */
  function Written(files: map<string, Content>, records: seq<Service>, dump: Service -> Content): map<string, Content>
    decreases |records|
  {
    if |records| == 0 then files
    else Written(files[FileName(records[0].id) := dump(records[0])], records[1..], dump)
  }

  /** The file names a list of records is written under. */
  function FileNames(records: seq<Service>): set<string>
  {
    set r | r in records :: FileName(r.id)
  }

  /**
   * The number of records written before the first write that fails, the
   * index of the failing record when there is one.
   */
  function FirstUnwritable(records: seq<Service>, unwritable: set<string>): (k: nat)
    ensures k <= |records|
    ensures forall j :: 0 <= j < k ==> FileName(records[j].id) !in unwritable
    ensures k < |records| ==> FileName(records[k].id) in unwritable
  {
    if |records| == 0 || FileName(records[0].id) in unwritable then 0
    else 1 + FirstUnwritable(records[1..], unwritable)
  }

  /**
   * The directory after a write to `name` fails: the file is as it was when
   * the open failed (`None`), or it holds whatever the truncating open and the
   * interrupted write left (`Some`), possibly an empty new file.
   */
  function AfterFailedWrite(files: map<string, Content>, name: string, leftBehind: Option<Content>): map<string, Content>
  {
    match leftBehind
    case None => files
    case Some(c) => files[name := c]
  }

  /** The records a run declares: the artifact's array, or none when it cannot be had. */
  function Declared(filePath: string, env: Env): seq<Service>
  {
    var loaded := GetBlockedServicesData(filePath, env.source, env.parse);
    if loaded.data.Success? && loaded.data.value.ServiceArray? then loaded.data.value.records else []
  }

  /** The declared services missing from disk in a run. */
  function Missing(filePath: string, env: Env): seq<Service>
  {
    Differences(Declared(filePath, env), env.serviceFiles)
  }

  /** One run of the restoration, as a function of the directory and the environment. */
  function Reconcile(files: map<string, Content>, resultFilePath: string, env: Env): Outcome
  {
    var loaded := GetBlockedServicesData(resultFilePath, env.source, env.parse);
    if loaded.data.Failure? then
      Outcome(files, Report(loaded.log, Some(LoadError(loaded.data.error))))
    else if !loaded.data.value.ServiceArray? then
      Outcome(files, Report([], Some(ShapeError(NotAnArrayMessage))))
    else
      var differences := Differences(loaded.data.value.records, env.serviceFiles);
      if |differences| == 0 then
        Outcome(files, Report([], None))
      else
        var k := FirstUnwritable(differences, env.unwritable);
        var written := Written(files, differences[..k], env.dump);
        if k < |differences| then
          var name := FileName(differences[k].id);
          Outcome(AfterFailedWrite(written, name, env.leftBehind(name)), Report([], Some(WriteError(name))))
        else
          Outcome(written, Report([LogEntry(WarningLevel, WarningMessage(Ids(differences)))], None))
  }

  /** Writing one more record updates the one file named after it. */
  lemma {:induction false} WrittenSnoc(files: map<string, Content>, records: seq<Service>, r: Service, dump: Service -> Content)
    ensures Written(files, records + [r], dump) == Written(files, records, dump)[FileName(r.id) := dump(r)]
    decreases |records|
  {
    if |records| > 0 {
      var next := files[FileName(records[0].id) := dump(records[0])];
      assert (records + [r])[1..] == records[1..] + [r];
      WrittenSnoc(next, records[1..], r, dump);
    }
  }

  /** The services directory: definition file names and their contents. */
  class ServicesDirectory {
    var files: map<string, Content>

    constructor (files: map<string, Content>)
      ensures this.files == files
    {
      this.files := files;
    }

    /**
     * Writes each removed service, in order, as `<id>.yml` with the content
     * `dump` gives; stops at the first write that fails and reports its file
     * name, whose file is left as `leftBehind` says. Nothing is deleted;
     * earlier writes stay.
     */
    method WriteRemovedServices(removed: seq<Service>, unwritable: set<string>,
                                leftBehind: string -> Option<Content>, dump: Service -> Content)
      returns (failed: Option<string>)
      modifies this
      ensures var k := FirstUnwritable(removed, unwritable);
              && failed == (if k < |removed| then Some(FileName(removed[k].id)) else None)
              && files == if k < |removed|
                          then AfterFailedWrite(Written(old(files), removed[..k], dump), failed.value, leftBehind(failed.value))
                          else Written(old(files), removed, dump)
    {
      var i := 0;
      while i < |removed|
        invariant 0 <= i <= |removed|
        invariant files == Written(old(files), removed[..i], dump)
        invariant forall j :: 0 <= j < i ==> FileName(removed[j].id) !in unwritable
      {
        var name := FileName(removed[i].id);
        if name in unwritable {
          files := AfterFailedWrite(files, name, leftBehind(name));
          return Some(name);
        }
        WrittenSnoc(old(files), removed[..i], removed[i], dump);
        assert removed[..i + 1] == removed[..i] + [removed[i]];
        files := files[name := dump(removed[i])];
        i := i + 1;
      }
      assert removed[..i] == removed;
      return None;
    }

    /**
     * Restores every declared service whose definition file is missing from
     * the directory, and reports what the logger received and how the run ended.
     */
    method RestoreRemovedInputServices(resultFilePath: string, env: Env) returns (report: Report)
      modifies this
      ensures Outcome(files, report) == Reconcile(old(files), resultFilePath, env)
    {
      var loaded := GetBlockedServicesData(resultFilePath, env.source, env.parse);
      if loaded.data.Failure? {
        return Report(loaded.log, Some(LoadError(loaded.data.error)));
      }
      var blockedServices := loaded.data.value;
      if !blockedServices.ServiceArray? {
        return Report([], Some(ShapeError(NotAnArrayMessage)));
      }
      var differences := Differences(blockedServices.records, env.serviceFiles);
      if |differences| > 0 {
        ghost var k := FirstUnwritable(differences, env.unwritable);
        ghost var written := Written(old(files), differences[..k], env.dump);
        var failed := WriteRemovedServices(differences, env.unwritable, env.leftBehind, env.dump);
        if failed.Some? {
          assert files == AfterFailedWrite(written, failed.value, env.leftBehind(failed.value));
          return Report([], Some(WriteError(failed.value)));
        }
        assert differences[..k] == differences;
        var removedServices := Ids(differences);
        return Report([LogEntry(WarningLevel, WarningMessage(removedServices))], None);
      }
      return Report([], None);
    }
  }
}
