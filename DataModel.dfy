/** What the plugin remembers about a vault file (DataModel/FileRecord.ts):
    the file and the kind of the last modification seen, and the line that
    describes it. */
module DataModel {
  import opened Wrappers

  /** The modification kinds, with the string values of the enum declared in
      main.ts. */
  datatype FileModificationType = Created | Updated | Deleted

  function ModificationName(t: FileModificationType): (r: string)
    ensures |r| == 7
  {
    match t
    case Created => "created"
    case Updated => "updated"
    case Deleted => "deleted"
  }

  /** Reading a modification kind back from its string value. */
  function ParseModification(s: string): (r: Option<FileModificationType>)
    ensures r.Some? ==> ModificationName(r.value) == s
  {
    if s == "created" then Some(Created)
    else if s == "updated" then Some(Updated)
    else if s == "deleted" then Some(Deleted)
    else None
  }

  /** Every kind reads back as itself, so distinct kinds have distinct names. */
  lemma ParseModificationName(t: FileModificationType)
    ensures ParseModification(ModificationName(t)) == Some(t)
  {
  }

  lemma ModificationNameInjective(a: FileModificationType, b: FileModificationType)
    requires ModificationName(a) == ModificationName(b)
    ensures a == b
  {
    ParseModificationName(a);
    ParseModificationName(b);
  }

  /** A host file, reduced to the two properties the plugin reads. */
  datatype FileRef = FileRef(path: string, name: string)

  datatype FileRecord = FileRecord(file: FileRef, modType: FileModificationType)

  /** The field initialiser's value, which the constructor always overwrites. */
  const InitialModificationType := Created

  /** `new FileRecord(file, modType)`. */
  function NewFileRecord(file: FileRef, modType: FileModificationType): (r: FileRecord)
    ensures r.file == file && r.modType == modType
  {
    var initial := FileRecord(file, InitialModificationType);
    initial.(modType := modType)
  }

  /** `FileRecord.record`, the static factory. */
  function Record(file: FileRef, modType: FileModificationType): (r: FileRecord)
    ensures r.file == file && r.modType == modType
  {
    NewFileRecord(file, modType)
  }

  const Separator := " - modification: "

  /** The text before the separator: the path, a slash, then the name. */
  function FileDisplay(file: FileRef): string {
    file.path + "/" + file.name
  }

  /** `toString`: the file, the separator, then the kind's name. */
  function ToString(rec: FileRecord): (r: string)
    ensures |r| == |rec.file.path| + |rec.file.name| + 25
  {
    FileDisplay(rec.file) + Separator + ModificationName(rec.modType)
  }

  /** The kind, read from the last seven characters of a record's line. */
  function ModificationOfLine(line: string): (r: Option<FileModificationType>)
    ensures |line| < 7 ==> r == None
  {
    if |line| < 7 then None else ParseModification(line[|line| - 7..])
  }

  /** The file part, everything before the separator and the kind. */
  function FileOfLine(line: string): (r: string)
    ensures |r| == if |line| < 24 then 0 else |line| - 24
  {
    if |line| < 24 then "" else line[..|line| - 24]
  }

  /** A record's line gives back its kind and the text of its file. */
  lemma ToStringRoundTrip(rec: FileRecord)
    ensures ModificationOfLine(ToString(rec)) == Some(rec.modType)
    ensures FileOfLine(ToString(rec)) == FileDisplay(rec.file)
    ensures ToString(rec)[|ToString(rec)| - 24..|ToString(rec)| - 7] == Separator
  {
    var display, name := FileDisplay(rec.file), ModificationName(rec.modType);
    var line := display + Separator + name;
    assert line[|line| - 7..] == name;
    assert line[..|line| - 24] == display;
    assert line[|line| - 24..|line| - 7] == Separator;
    ParseModificationName(rec.modType);
  }

  /** Hence two records with the same line have the same kind. */
  lemma ToStringDeterminesModification(a: FileRecord, b: FileRecord)
    requires ToString(a) == ToString(b)
    ensures a.modType == b.modType
    ensures FileDisplay(a.file) == FileDisplay(b.file)
  {
    ToStringRoundTrip(a);
    ToStringRoundTrip(b);
  }

  /** The line does not determine the file: the slash between path and name
      cannot be told apart from one inside either. */
  lemma ToStringLosesPathBoundary()
    ensures var a, b := FileRecord(FileRef("a/b", "c"), Created), FileRecord(FileRef("a", "b/c"), Created);
      a != b && ToString(a) == ToString(b)
  {
    assert "a/b" + "/" + "c" == "a" + "/" + "b/c";
  }

  /** Cases from __tests__/FileRecord.test.ts. */
  lemma ConstructedExample()
    ensures ToString(NewFileRecord(FileRef("folder/file.md", "file.md"), Created))
      == "folder/file.md/file.md - modification: created"
  {
    var file := FileRef("folder/file.md", "file.md");
    var line := file.path + "/" + file.name + Separator + "created";
    assert ToString(NewFileRecord(file, Created)) == line;
  }

  lemma RecordUpdatedExample()
    ensures ToString(Record(FileRef("folder/another.md", "another.md"), Updated))
      == "folder/another.md/another.md - modification: updated"
  {
    var file := FileRef("folder/another.md", "another.md");
    var line := file.path + "/" + file.name + Separator + "updated";
    assert ToString(Record(file, Updated)) == line;
  }

  lemma RecordDeletedExample()
    ensures ToString(Record(FileRef("deleted/file.md", "file.md"), Deleted))
      == "deleted/file.md/file.md - modification: deleted"
  {
    var file := FileRef("deleted/file.md", "file.md");
    var line := file.path + "/" + file.name + Separator + "deleted";
    assert ToString(Record(file, Deleted)) == line;
  }
}
