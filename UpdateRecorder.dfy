/** The recorder that remembers, per vault path, the last modification the host
    reported (Services/UpdateRecorder.ts), and the dump that lists them.

    The JavaScript `Map` it keeps is modelled as a map plus the order in which
    keys were first inserted, which is the order `forEach` visits them in. */
module UpdateRecorder {
  import opened Wrappers
  import opened JsString
  import opened DataModel

  /** The contents of the recorder's `Map`. */
  datatype Table = Table(records: map<string, FileRecord>, order: seq<string>)

  const EmptyTable := Table(map[], [])

  /** The order lists every key of the map exactly once. */
  predicate WellFormed(t: Table) {
    && (forall i, j :: 0 <= i < j < |t.order| ==> t.order[i] != t.order[j])
    && (forall k :: k in t.records ==> k in t.order)
    && (forall i :: 0 <= i < |t.order| ==> t.order[i] in t.records)
  }

  /** Every record is stored under the path of its own file. */
  predicate KeyedByPath(t: Table) {
    forall k :: k in t.records ==> t.records[k].file.path == k
  }

  /** `map.get(key)`. */
  function Get(t: Table, key: string): Option<FileRecord> {
    if key in t.records then Some(t.records[key]) else None
  }

  /** `map.set(key, rec)`: an existing key keeps its place, a new one goes last.
      Afterwards `get` sees the new record at `key` and nothing else moves. */
  function Set(t: Table, key: string, rec: FileRecord): (r: Table)
    ensures Get(r, key) == Some(rec)
    ensures forall k :: k != key ==> Get(r, k) == Get(t, k)
    ensures t.order <= r.order
  {
    Table(t.records[key := rec], if key in t.records then t.order else t.order + [key])
  }

  lemma SetWellFormed(t: Table, key: string, rec: FileRecord)
    requires WellFormed(t)
    ensures WellFormed(Set(t, key, rec))
  {
  }

  /** The earlier keys keep their places, and the order grows by one exactly
      when `key` is new. */
  lemma SetOrder(t: Table, key: string, rec: FileRecord)
    requires WellFormed(t)
    ensures t.order <= Set(t, key, rec).order
    ensures |Set(t, key, rec).order| == if key in t.order then |t.order| else |t.order| + 1
  {
  }

  /** Writing a key twice leaves what writing the second record once leaves. */
  lemma SetOverwrite(t: Table, key: string, first: FileRecord, second: FileRecord)
    ensures Set(Set(t, key, first), key, second) == Set(t, key, second)
  {
  }

  /** What the host reports to the recorder's handlers. A `file-open` may carry
      no file. */
  datatype Event =
    | FileOpen(openedFile: Option<FileRef>)
    | Rename(file: FileRef, oldPath: string)
    | Delete(file: FileRef)

  /** The table after one event: `onFileOpen`, `handleRename`, `handleDelete`.
      Each handler writes exactly what `Written` says, under its file's path. */
  function Handle(t: Table, e: Event): (r: Table)
    ensures Written(e).None? ==> r == t
    ensures Written(e).Some? ==> r == Set(t, Written(e).value.file.path, Written(e).value)
  {
    match e
    case FileOpen(openedFile) => if openedFile.None? then t else Set(t, openedFile.value.path, Record(openedFile.value, Updated))
    case Rename(file, oldPath) => Set(t, file.path, Record(file, Created))
    case Delete(file) => Set(t, file.path, Record(file, Deleted))
  }

  /** The record an event writes, independently of any table; it is always
      stored under its file's path. */
  function Written(e: Event): Option<FileRecord> {
    match e
    case FileOpen(openedFile) => if openedFile.None? then None else Some(FileRecord(openedFile.value, Updated))
    case Rename(file, _) => Some(FileRecord(file, Created))
    case Delete(file) => Some(FileRecord(file, Deleted))
  }

  /** The table after a run of events, from the empty one. */
  function Replay(events: seq<Event>): Table {
    if events == [] then EmptyTable
    else Handle(Replay(events[..|events| - 1]), events[|events| - 1])
  }

  /** The last record written to `path` by any of the events, if one is. */
  function LastWrite(events: seq<Event>, path: string): Option<FileRecord> {
    if events == [] then None
    else
      var w := Written(events[|events| - 1]);
      if w.Some? && w.value.file.path == path then w
      else LastWrite(events[..|events| - 1], path)
  }

  lemma HandleInvariants(t: Table, e: Event)
    requires WellFormed(t) && KeyedByPath(t)
    ensures WellFormed(Handle(t, e)) && KeyedByPath(Handle(t, e))
    ensures t.order <= Handle(t, e).order
  {
    if Written(e).Some? {
      SetWellFormed(t, Written(e).value.file.path, Written(e).value);
    }
  }

  /** A rename records the file as created under its new path and leaves any
      record under the old path as it was. */
  lemma RenameKeepsOldPath(t: Table, file: FileRef, oldPath: string)
    ensures Get(Handle(t, Rename(file, oldPath)), file.path) == Some(FileRecord(file, Created))
    ensures oldPath != file.path ==> Get(Handle(t, Rename(file, oldPath)), oldPath) == Get(t, oldPath)
  {
  }

  lemma {:induction false} ReplayInvariants(events: seq<Event>)
    ensures WellFormed(Replay(events)) && KeyedByPath(Replay(events))
  {
    if events != [] {
      ReplayInvariants(events[..|events| - 1]);
      HandleInvariants(Replay(events[..|events| - 1]), events[|events| - 1]);
    }
  }

  /** The recorder holds, for each path, the last record written to it. */
  lemma {:induction false} ReplayLastWriteWins(events: seq<Event>, path: string)
    ensures Get(Replay(events), path) == LastWrite(events, path)
  {
    if events != [] {
      var prefix, e := events[..|events| - 1], events[|events| - 1];
      ReplayLastWriteWins(prefix, path);
    }
  }

  /** Paths keep the place of their first write: the order after a prefix of
      the events begins the order after all of them. */
  lemma {:induction false} ReplayOrderGrows(events: seq<Event>, n: nat)
    requires n <= |events|
    ensures Replay(events[..n]).order <= Replay(events).order
    decreases |events|
  {
    if n < |events| {
      var prefix := events[..|events| - 1];
      assert prefix[..n] == events[..n];
      ReplayOrderGrows(prefix, n);
      ReplayInvariants(prefix);
      HandleInvariants(Replay(prefix), events[|events| - 1]);
    } else {
      assert events[..n] == events;
    }
  }

  /** The dump lists a path exactly when some event wrote to it. */
  lemma ReplayListsWrittenPaths(events: seq<Event>, path: string)
    ensures path in Replay(events).order <==> LastWrite(events, path).Some?
  {
    ReplayInvariants(events);
    ReplayLastWriteWins(events, path);
  }

  const NoRecordsMessage := "No file records available."
  const DumpHeader := "Dumping file records:"

  /** The dump's line for one entry: the `Path: ` label, the key, the
      `, Record: ` label and the record's own line, in that order. */
  function RecordLine(path: string, rec: FileRecord): (r: string)
    ensures |r| == |path| + |ToString(rec)| + 16
    ensures r[..6] == "Path: "
    ensures r[6..6 + |path|] == path
    ensures r[6 + |path|..6 + |path| + 10] == ", Record: "
    ensures r[|r| - |ToString(rec)|..] == ToString(rec)
  {
    var line := "Path: " + path + ", Record: " + ToString(rec);
    assert line[..6] == "Path: ";
    assert line[6..6 + |path|] == path;
    assert line[6 + |path|..6 + |path| + 10] == ", Record: ";
    assert line[|line| - |ToString(rec)|..] == ToString(rec);
    line
  }

  /** The entries' lines, in the order `forEach` visits them. */
  function Lines(records: map<string, FileRecord>, keys: seq<string>): seq<string>
    requires forall k :: k in keys ==> k in records
  {
    seq(|keys|, i requires 0 <= i < |keys| => RecordLine(keys[i], records[keys[i]]))
  }

  /** Visiting one more key adds that key's line at the end. */
  lemma LinesExtend(records: map<string, FileRecord>, keys: seq<string>, i: nat)
    requires forall k :: k in keys ==> k in records
    requires i < |keys|
    ensures Lines(records, keys[..i + 1])
      == Lines(records, keys[..i]) + [RecordLine(keys[i], records[keys[i]])]
  {
    assert keys[..i + 1][..i] == keys[..i];
  }

  /** `dumpRecords`' result: the fixed message when nothing is recorded, and
      otherwise the header followed by the entries' lines. */
  function Report(t: Table): (r: string)
    requires WellFormed(t)
    ensures |t.records| == 0 ==> r == NoRecordsMessage
    ensures |t.records| != 0 ==> DumpHeader <= r
  {
    if |t.records| == 0 then NoRecordsMessage
    else Join([DumpHeader] + Lines(t.records, t.order), "\n")
  }

  /** An empty recorder, and only an empty one, reports that it has nothing. */
  lemma ReportEmpty(t: Table)
    requires WellFormed(t)
    ensures Report(t) == NoRecordsMessage <==> t.order == []
  {
    if t.order != [] {
      assert t.order[0] in t.records;
      var parts := [DumpHeader] + Lines(t.records, t.order);
      var first := JoinPartAt(parts, "\n", 0);
      assert Report(t)[0] == DumpHeader[0];
    } else {
      assert t.records == map[];
    }
  }

  /** A non-empty dump is the join of its header and the entries' lines, and
      the line after the header for the `i`th key is that key's line. */
  lemma ReportParts(t: Table, i: nat, path: string) returns (parts: seq<string>)
    requires WellFormed(t) && i < |t.order| && t.order[i] == path
    ensures path in t.records
    ensures Report(t) == Join(parts, "\n") && 0 < i + 1 < |parts|
    ensures parts[0] == DumpHeader
    ensures parts[i + 1] == RecordLine(path, t.records[path])
  {
    parts := [DumpHeader] + Lines(t.records, t.order);
  }

  /** A non-empty dump starts with its header and lists every entry on a line
      of its own. */
  lemma ReportListsRecord(t: Table, path: string) returns (pos: nat)
    requires WellFormed(t) && path in t.records
    ensures OccursAt(Report(t), DumpHeader, 0)
    ensures pos >= 1 && OccursAt(Report(t), RecordLine(path, t.records[path]), pos)
    ensures Report(t)[pos - 1] == '\n'
  {
    var i :| 0 <= i < |t.order| && t.order[i] == path;
    var parts := ReportParts(t, i, path);
    pos := JoinLineAt(parts, i + 1, Report(t), RecordLine(path, t.records[path]));
    var first := JoinPartAt(parts, "\n", 0);
  }

  /** The dump in full: the message when nothing is recorded, and otherwise
      the header followed by, for each key in insertion order, a newline and
      that entry's line, and nothing else. */
  lemma ReportContents(t: Table)
    requires WellFormed(t)
    ensures Report(t) == if t.order == [] then NoRecordsMessage
      else DumpHeader + Concat(Prefixed(Lines(t.records, t.order), "\n"))
  {
    if t.order != [] {
      assert t.order[0] in t.records;
      var parts := [DumpHeader] + Lines(t.records, t.order);
      JoinConcat(parts, "\n");
      assert parts[1..] == Lines(t.records, t.order);
    } else {
      assert t.records == map[];
    }
  }

  /** The plugin object the recorder is handed; none of its members are read
      by the modelled code. */
  class Plugin {
    constructor() {}
  }

  class UpdateRecorder {
    var plugin: Plugin
    var fileRecordMap: map<string, FileRecord>
    var keyOrder: seq<string>

    function State(): Table
      reads this
    {
      Table(fileRecordMap, keyOrder)
    }

    ghost predicate Valid()
      reads this
    {
      WellFormed(State()) && KeyedByPath(State())
    }

    /** The constructor, for a plugin that is present. */
    constructor(plugin: Plugin)
      ensures this.plugin == plugin && State() == EmptyTable && Valid()
    {
      this.plugin := plugin;
      fileRecordMap := map[];
      keyOrder := [];
    }

    /** `new UpdateRecorder(plugin)`, which throws when no plugin is given. */
    static method Create(plugin: Plugin?) returns (r: Result<UpdateRecorder, string>)
      ensures r.Failure? <==> plugin == null
      ensures r.Failure? ==> r.error == "Plugin instance is required"
      ensures r.Success? ==>
        fresh(r.value) && r.value.plugin == plugin && r.value.State() == EmptyTable && r.value.Valid()
    {
      if plugin == null {
        return Failure("Plugin instance is required");
      }
      var recorder := new UpdateRecorder(plugin);
      return Success(recorder);
    }

    /** `dumpRecords`. */
    method DumpRecords() returns (output: string)
      requires Valid()
      ensures output == Report(State())
    {
      if |fileRecordMap| == 0 {
        return NoRecordsMessage;
      }
      var lines: seq<string> := [];
      lines := lines + [DumpHeader];
      var i := 0;
      while i < |keyOrder|
        invariant 0 <= i <= |keyOrder|
        invariant lines == [DumpHeader] + Lines(fileRecordMap, keyOrder[..i])
      {
        var path := keyOrder[i];
        LinesExtend(fileRecordMap, keyOrder, i);
        lines := lines + [RecordLine(path, fileRecordMap[path])];
        i := i + 1;
      }
      assert keyOrder[..i] == keyOrder;
      output := Join(lines, "\n");
    }

    /** `this._fileRecordMap.set(key, rec)`. */
    method SetRecord(key: string, rec: FileRecord)
      requires Valid() && rec.file.path == key
      modifies this
      ensures Valid() && plugin == old(plugin)
      ensures State() == Set(old(State()), key, rec)
    {
      if key !in fileRecordMap {
        keyOrder := keyOrder + [key];
      }
      fileRecordMap := fileRecordMap[key := rec];
    }

    /** `updateData`: the file is recorded as updated under its path. */
    method UpdateData(file: FileRef)
      requires Valid()
      modifies this
      ensures Valid() && plugin == old(plugin)
      ensures State() == Handle(old(State()), FileOpen(Some(file)))
      ensures fileRecordMap == old(fileRecordMap)[file.path := FileRecord(file, Updated)]
    {
      SetRecord(file.path, Record(file, Updated));
    }

    /** `onFileOpen`: nothing happens without a file. */
    method OnFileOpen(openedFile: Option<FileRef>)
      requires Valid()
      modifies this
      ensures Valid() && plugin == old(plugin)
      ensures State() == Handle(old(State()), FileOpen(openedFile))
      ensures openedFile.None? ==> State() == old(State())
    {
      if openedFile.None? {
        return;
      }
      UpdateData(openedFile.value);
    }

    /** `handleRename`: the file is recorded as created under its new path. */
    method HandleRename(file: FileRef, oldPath: string)
      requires Valid()
      modifies this
      ensures Valid() && plugin == old(plugin)
      ensures State() == Handle(old(State()), Rename(file, oldPath))
      ensures fileRecordMap == old(fileRecordMap)[file.path := FileRecord(file, Created)]
    {
      SetRecord(file.path, Record(file, Created));
    }

    /** `handleDelete`: the file is recorded as deleted under its path. */
    method HandleDelete(file: FileRef)
      requires Valid()
      modifies this
      ensures Valid() && plugin == old(plugin)
      ensures State() == Handle(old(State()), Delete(file))
      ensures fileRecordMap == old(fileRecordMap)[file.path := FileRecord(file, Deleted)]
    {
      SetRecord(file.path, Record(file, Deleted));
    }
  }
}
