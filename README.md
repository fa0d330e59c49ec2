# obsidian-maple: a Dafny model of the draw.io helpers and the update recorder

This project models the core of the obsidian-maple plugin for Obsidian:

- **`StringHelper`** (`DrawioIntegation/StringHelper.ts`): `NormalizePath` turns
  a file name the user typed into a vault path. Backslashes become slashes,
  runs of slashes collapse, the result is trimmed, and each whitespace run left
  becomes a hyphen. `ExtractDrawioFileExtension` takes the compound extension
  (such as `.drawio.png`) from a template's name. `AppendDrawioFileExtension`
  adds that extension to a new file's name.
- **`FileExt`** (`DrawioIntegation/FileExt.ts`): `isRenderedDrawioFile` and
  `isDrawioFile` classify a file by its lower-cased name. The host file is
  modelled as its name, the only part the checks read.
- **`DataModel`** (`DataModel/FileRecord.ts`, enum values from `main.ts`): the
  record of a file's last modification, and its `toString`.
- **`UpdateRecorder`** (`Services/UpdateRecorder.ts`): the recorder keeps a
  JavaScript `Map` from a path to the last record written for it. The host's
  `file-open`, `rename` and `delete` events feed it, and `dumpRecords` lists it.
  It is an imperative class. Its fields are `fileRecordMap` and `keyOrder`, the
  map's insertion order, which is the order `forEach` visits. Each method's
  contract ties the new fields to a pure function over a `Table` value:
  - `Set`: the `Map.set` semantics;
  - `Handle`: one event;
  - `Report`: the dump.

  `Replay`, the table after a run of events from the empty one, is the
  lemmas' model of a sequence of handler calls.

`JsString` models the ECMAScript built-ins these files call:
- the `\s` / `trim` whitespace class;
- `toLowerCase`, `endsWith`, `lastIndexOf` and `Array.prototype.join`;
- a global one-character `replace`;
- a global `replace` of `c+` runs.

`Wrappers` holds `Option` and `Result`.

Three points about the code that the model keeps as they are:
- **Extraction is case-sensitive.** The checks in `FileExt.ts` lower-case the
  name. `ExtractDrawioFileExtension` instead searches for `.drawio` exactly.
  So a template named `x.DRAWIO.PNG` counts as an export, yet no extension is
  appended from it (`FileExt.UpperCaseTemplate`).
- **An extension already present is appended again.** The doc comment of
  `AppendDrawioFileExtension` (StringHelper.ts:18-19) promises to return the
  path unchanged in that case. The code appends it anyway
  (`StringHelper.AppendIgnoresPresentExtension`).
- **The recorder is stateful.** `UpdateRecorder` keeps a `Map` that its
  handlers update in place, so it is modelled as a class with fields.

## Model

| member | source | states |
|---|---|---|
| JsString.LastIndexOf | DrawioIntegation/StringHelper.ts:9 | `lastIndexOf` is -1 exactly when the pattern does not occur; otherwise the pattern occurs there and at no later index |
| JsString.ToLowerChar | DrawioIntegation/FileExt.ts:14 | an upper-case ASCII letter becomes the lower-case letter at the same place in the alphabet; the result is never an upper-case ASCII letter, and any other character is unchanged |
| JsString.ToLowerCase | DrawioIntegation/FileExt.ts:14 | lower-casing keeps the length; each character is mapped by `ToLowerChar` on its own |
| JsString.EndsWith | DrawioIntegation/FileExt.ts:15-16 | `endsWith` holds exactly when the string is some prefix followed by the suffix |
| JsString.Join | Services/UpdateRecorder.ts:42 | `join` of no parts is empty, of one part is that part, and of more starts with the first part and the separator |
| JsString.ReplaceChar | DrawioIntegation/StringHelper.ts:3 | a global one-character replace keeps the length, turns each occurrence into the replacement and keeps every other character |
| JsString.ReplaceRuns | DrawioIntegation/StringHelper.ts:3-4 | replacing `c+` runs never lengthens the string |
| JsString.TrimInterior | DrawioIntegation/StringHelper.ts:3 | `trim` of pieces joined at non-whitespace characters only trims the outer pieces' far ends |
| JsString.IsWhitespaceCodePoints | DrawioIntegation/StringHelper.ts:3-4 | `IsWhitespace`, the class that `trim` removes and that `\s` matches, holds of exactly the 25 ECMAScript WhiteSpace and LineTerminator code points; U+FEFF is one of them, while U+180E, U+0085 and U+200B are not |
| JsString.Trim | DrawioIntegation/StringHelper.ts:3 | `trim` never lengthens, and the result neither starts nor ends with whitespace |
| JsString.TrimIsSlice | DrawioIntegation/StringHelper.ts:3 | `trim`'s result is a contiguous slice of its input |
| JsString.TrimSurrounded | DrawioIntegation/StringHelper.ts:3 | whitespace around a string does not change what `trim` returns |
| JsString.TrimIdentity | DrawioIntegation/StringHelper.ts:3 | a string that has no whitespace at either end is returned as it is |
| JsString.ReplaceRunsEnds | DrawioIntegation/StringHelper.ts:3-4 | replacing runs gives an empty result only for empty input, and keeps the first and last characters or turns them into the replacement |
| JsString.ReplaceRunsOutsideClass | DrawioIntegation/StringHelper.ts:3-4 | after a `c+` run replacement every character is the replacement or outside the class |
| JsString.ReplaceRunsNoAdjacentRuns | DrawioIntegation/StringHelper.ts:3-4 | when the replacement is in the class, no two class characters are left side by side |
| JsString.ReplaceRunsIdentity | DrawioIntegation/StringHelper.ts:3-4 | a string whose class characters are isolated copies of the replacement is unchanged |
| JsString.ReplaceRunsOfRun | DrawioIntegation/StringHelper.ts:3 | a non-empty string made only of class characters becomes the single replacement |
| JsString.ReplaceRunsAppend | DrawioIntegation/StringHelper.ts:3-4 | run replacement distributes over a concatenation whose seam is not inside a run |
| JsString.ReplaceRunsKeepsNoAdjacent | DrawioIntegation/StringHelper.ts:3-4 | replacing runs of one class keeps another, disjoint class free of neighbours |
| JsString.ReplaceRunsKeepsAll | DrawioIntegation/StringHelper.ts:3-4 | a property of every character that the replacement also has survives the replacement |
| JsString.ReplaceCharAbsent | DrawioIntegation/StringHelper.ts:3 | a global one-character replace changes nothing when the character is absent |
| JsString.JoinConcat | Services/UpdateRecorder.ts:42 | `join` is the first part followed by every later part, in order, each with the separator in front, and nothing else |
| JsString.JoinLineAt | Services/UpdateRecorder.ts:42 | with a newline separator, every part after the first starts right after a newline |
| JsString.JoinPartAt | Services/UpdateRecorder.ts:42 | every part of `join` appears in the result: the first at the start, each later one right after a separator |
| StringHelper.FixSlashes | DrawioIntegation/StringHelper.ts:3 | the two slash stages never lengthen the path, and leave no backslash and no two slashes side by side |
| StringHelper.NormalizePath | DrawioIntegation/StringHelper.ts:2-5 | a normalised path is never longer than the input |
| StringHelper.NormalizePathNoBackslash | DrawioIntegation/StringHelper.ts:3 | a normalised path contains no backslash |
| StringHelper.NormalizePathNoDoubleSlash | DrawioIntegation/StringHelper.ts:3 | a normalised path has no two slashes side by side |
| StringHelper.NormalizePathNoWhitespace | DrawioIntegation/StringHelper.ts:3-4 | a normalised path contains no whitespace at all |
| StringHelper.NormalizePathIdempotent | DrawioIntegation/StringHelper.ts:2-5 | normalising a normalised path changes nothing |
| StringHelper.NormalizePathIgnoresSurroundingWhitespace | DrawioIntegation/StringHelper.ts:3 | leading and trailing whitespace is removed, never turned into hyphens |
| StringHelper.NormalizePathHyphenatesInteriorRun | DrawioIntegation/StringHelper.ts:3-4 | a whitespace run of any length between a part that does not end and a part that does not start with whitespace becomes one hyphen, and the parts are normalised independently |
| StringHelper.HyphenateInterior | DrawioIntegation/StringHelper.ts:4 | a whitespace run between pieces that do not end (resp. start) with whitespace becomes one hyphen, and the pieces are rewritten independently |
| StringHelper.NormalizePathOfSlashes | DrawioIntegation/StringHelper.ts:3 | any non-empty mixture of slashes and backslashes normalises to `/` |
| StringHelper.FixSlashesSeparated | DrawioIntegation/StringHelper.ts:3 | any run of slashes and backslashes between two parts becomes one slash |
| StringHelper.FixSlashesIdentity | DrawioIntegation/StringHelper.ts:3 | the slash stages leave alone a path with no backslash and no double slash |
| StringHelper.NormalizePathWord | DrawioIntegation/StringHelper.ts:2-5 | a path that is already normal is returned as it is |
| StringHelper.NormalizePathEmptyExample | DrawioIntegation/StringHelper.test.ts:22 | the empty path normalises to the empty path |
| StringHelper.NormalizePathSlashesExample | DrawioIntegation/StringHelper.test.ts:26 | `/////` normalises to `/` |
| StringHelper.ExtractDrawioFileExtension | DrawioIntegation/StringHelper.ts:7-15 | the result is empty exactly when `.drawio` is absent or ends the path; otherwise it is a suffix of the path that starts with the last `.drawio` and is longer than it |
| StringHelper.ExtractRenderedSuffix | DrawioIntegation/StringHelper.ts:9-14 | a path ending in `.drawio.png` or `.drawio.svg` yields exactly those eleven characters |
| StringHelper.ExtractExamples | DrawioIntegation/StringHelper.test.ts:36-40 | `testfile.drawio.png` and `testfile.drawio.svg` yield their extensions |
| StringHelper.ExtractWithoutExtensionExamples | DrawioIntegation/StringHelper.test.ts:44-48 | `testfile` and `testfile.drawio` yield the empty string |
| StringHelper.AppendDrawioFileExtension | DrawioIntegation/StringHelper.ts:24-33 | the file path is always a prefix of the result; it is returned unchanged exactly when the template has no extension to extract; otherwise the added text is a suffix of the template that starts with `.drawio` and holds no later `.drawio` |
| StringHelper.AppendIgnoresPresentExtension | DrawioIntegation/StringHelper.ts:26-32 | a path that already ends with the extension still gets it appended, contrary to the doc comment |
| StringHelper.AppendRepeats | DrawioIntegation/StringHelper.ts:24-33 | appending twice appends the extension twice |
| StringHelper.AppendExamples | DrawioIntegation/StringHelper.test.ts:54-62 | the three append cases: empty base, `.png` template, `.svg` template |
| FileExt.IsRenderedDrawioFile | DrawioIntegation/FileExt.ts:13-20 | an export's name has at least the eleven characters of its extension |
| FileExt.IsDrawioFile | DrawioIntegation/FileExt.ts:23-31 | every export is a diagram file, and a diagram file's name has at least the seven characters of `.drawio` |
| FileExt.LowerEndsWith | DrawioIntegation/FileExt.ts:14-15 | a lower-cased name ends in `x` exactly when its last `\|x\|` characters lower-case to `x` |
| FileExt.RenderedBySuffix | DrawioIntegation/FileExt.ts:13-20 | a name is an export exactly when its last eleven characters lower-case to `.drawio.png` or `.drawio.svg` |
| FileExt.DrawioFileCases | DrawioIntegation/FileExt.ts:23-31 | a name is a diagram file exactly when it is an export or its last seven characters lower-case to `.drawio` |
| FileExt.SourceIsNotRendered | DrawioIntegation/FileExt.ts:25-27 | a diagram file that is not an export ends in `.drawio`, up to case |
| FileExt.RenderedIsNotSource | DrawioIntegation/FileExt.ts:25-27 | an export never ends in `.drawio`, up to case |
| FileExt.CaseInsensitive | DrawioIntegation/FileExt.ts:13-31 | names equal up to ASCII case classify the same under both checks |
| FileExt.RenderedWithExtension | DrawioIntegation/FileExt.ts:15-16 | any stem followed by a tail that lower-cases to an export extension is an export and a diagram file |
| FileExt.SourceWithExtension | DrawioIntegation/FileExt.ts:25-27 | any stem followed by a tail that lower-cases to `.drawio` is a diagram file and not an export |
| FileExt.NotDrawioByLastChar | DrawioIntegation/FileExt.ts:25-27 | a name whose last character is neither `g` nor `o`, up to case, is neither kind |
| FileExt.NotDrawioByDots | DrawioIntegation/FileExt.ts:25-27 | a name with no dot where any of the three extensions would begin is neither kind |
| FileExt.EmptyNameIsNeither | DrawioIntegation/FileExt.test.ts:42 | the empty name is neither kind |
| FileExt.PngExportExample | DrawioIntegation/FileExt.test.ts:11 | `diagram.drawio.png` is an export |
| FileExt.SvgExportExample | DrawioIntegation/FileExt.test.ts:16 | `diagram.drawio.svg` is an export |
| FileExt.UpperCaseExport | DrawioIntegation/FileExt.ts:14-16 | any name ending in `.DRAWIO.PNG` is an export |
| FileExt.UpperCaseExportExample | DrawioIntegation/FileExt.test.ts:31 | `diagram.DRAWIO.PNG` is an export |
| FileExt.BareExportExample | DrawioIntegation/FileExt.test.ts:46 | `.drawio.png` on its own is an export |
| FileExt.MultipleDotsExample | DrawioIntegation/FileExt.test.ts:53 | `a.b.c.drawio.png` is an export and a diagram file |
| FileExt.SourceExamples | DrawioIntegation/FileExt.test.ts:60 | `diagram.drawio` is a diagram file and not an export |
| FileExt.UpperCaseSourceExample | DrawioIntegation/FileExt.test.ts:77 | `diagram.DRAWIO` is a diagram file |
| FileExt.RejectedByLastCharExamples | DrawioIntegation/FileExt.test.ts:67-84 | `diagram.drawio.pdf`, `diagram.drawio.txt` and `diagram.drawio2` are not diagram files |
| FileExt.RejectedMissingDotExample | DrawioIntegation/FileExt.test.ts:85 | `diagram.drawiopng` is not a diagram file |
| FileExt.RejectedDoubledLetterExample | DrawioIntegation/FileExt.test.ts:98 | `diagram.drawioo` is not a diagram file |
| FileExt.RejectedNumberedExample | DrawioIntegation/FileExt.test.ts:99 | `diagram.drawio2.png` is not a diagram file |
| FileExt.AppendRenderedTemplate | DrawioIntegation/DrawIOCommandBuilder.ts:44 | naming a diagram after an export template appends the template's eleven-character extension, and the new name is an export |
| FileExt.UpperCaseTemplate | DrawioIntegation/DrawIOCommandBuilder.ts:44 | a template named in upper case is an export, yet appending takes no extension from it |
| DataModel.ModificationName | main.ts:267-271 | every modification kind's string value has seven characters |
| DataModel.ParseModificationName | main.ts:267-271 | each kind's string value reads back as that kind |
| DataModel.ModificationNameInjective | main.ts:267-271 | distinct kinds have distinct string values |
| DataModel.NewFileRecord | DataModel/FileRecord.ts:7-12 | the constructor stores the file and the given kind, overriding the `CREATED` default |
| DataModel.Record | DataModel/FileRecord.ts:14-17 | the static factory stores the file and the given kind |
| DataModel.ToString | DataModel/FileRecord.ts:20-22 | the line is 25 characters longer than the path and name together |
| DataModel.ToStringRoundTrip | DataModel/FileRecord.ts:21 | the kind can be read back from the line's last seven characters, `path/name` from what precedes the separator, and the separator sits between them |
| DataModel.ToStringDeterminesModification | DataModel/FileRecord.ts:21 | records with equal lines have equal kinds and equal `path/name` text |
| DataModel.ToStringLosesPathBoundary | DataModel/FileRecord.ts:21 | different files can give the same line, because the slash between path and name is ambiguous |
| DataModel.ConstructedExample | __tests__/FileRecord.test.ts:20-22 | the constructed record's line |
| DataModel.RecordUpdatedExample | __tests__/FileRecord.test.ts:26-28 | the line of an `UPDATED` record made by the factory |
| DataModel.RecordDeletedExample | __tests__/FileRecord.test.ts:32-34 | the line of a `DELETED` record made by the factory |
| UpdateRecorder.SetWellFormed | Services/UpdateRecorder.ts:13 | `Map.set` keeps every key listed exactly once in the insertion order |
| UpdateRecorder.Set | Services/UpdateRecorder.ts:69 | after `Map.set`, `get` returns the new record for that key and the old answer for every other key, and the earlier insertion order is kept as a prefix |
| UpdateRecorder.SetOrder | Services/UpdateRecorder.ts:38-40 | `set` keeps the earlier order as a prefix, and the order grows by one exactly when the key is new |
| UpdateRecorder.SetOverwrite | Services/UpdateRecorder.ts:69 | writing a key twice leaves the same map as writing the second record once |
| UpdateRecorder.Handle | Services/UpdateRecorder.ts:49-86 | each handler writes exactly the record `Written` gives for its event, under that file's path; a `file-open` without a file leaves the table as it was |
| UpdateRecorder.HandleInvariants | Services/UpdateRecorder.ts:49-86 | every handler keeps the map well formed and the earlier order as a prefix, and, with each record holding a copy of its file's path, keeps every record under that path |
| UpdateRecorder.RenameKeepsOldPath | Services/UpdateRecorder.ts:73-79 | a rename records `created` under the new path and leaves the old path's entry as it was |
| UpdateRecorder.ReplayInvariants | Services/UpdateRecorder.ts:13-86 | after any run of events, the map is well formed and, with records holding copied paths, each record sits under its file's path |
| UpdateRecorder.ReplayLastWriteWins | Services/UpdateRecorder.ts:66-86 | after any run of events, each path holds the last record written to it |
| UpdateRecorder.ReplayOrderGrows | Services/UpdateRecorder.ts:38-40 | a path keeps the place of its first write: the order after a prefix of the events begins the final order |
| UpdateRecorder.ReplayListsWrittenPaths | Services/UpdateRecorder.ts:38-40 | a path is listed exactly when some event wrote to it |
| UpdateRecorder.Report | Services/UpdateRecorder.ts:28-46 | the dump is `No file records available.` when the map is empty, and otherwise starts with `Dumping file records:` |
| UpdateRecorder.RecordLine | Services/UpdateRecorder.ts:39 | an entry's line is `Path: `, then the key, then `, Record: `, then the record's line, and nothing else: its length is 16 more than the key and the record's line together |
| UpdateRecorder.ReportContents | Services/UpdateRecorder.ts:28-46 | the dump is the no-records message for an empty map, and otherwise exactly the header followed by, for each key in insertion order, a newline and that entry's line |
| UpdateRecorder.ReportEmpty | Services/UpdateRecorder.ts:29-32 | the dump is `No file records available.` exactly when nothing is recorded |
| UpdateRecorder.ReportListsRecord | Services/UpdateRecorder.ts:35-42 | a non-empty dump starts with its header and holds every entry's line right after a newline |
| UpdateRecorder.UpdateRecorder.constructor | Services/UpdateRecorder.ts:15-20 | a recorder starts with the given plugin and an empty map |
| UpdateRecorder.UpdateRecorder.Create | Services/UpdateRecorder.ts:15-20 | construction fails with `Plugin instance is required` exactly when no plugin is given |
| UpdateRecorder.UpdateRecorder.DumpRecords | Services/UpdateRecorder.ts:28-46 | the loop over the map builds exactly `Report` of the current state |
| UpdateRecorder.UpdateRecorder.SetRecord | Services/UpdateRecorder.ts:69 | the fields change as `Map.set` does, and the invariant is kept |
| UpdateRecorder.UpdateRecorder.UpdateData | Services/UpdateRecorder.ts:66-71 | the file is recorded as `updated` under its path; nothing else changes |
| UpdateRecorder.UpdateRecorder.OnFileOpen | Services/UpdateRecorder.ts:49-58 | a missing file leaves the state unchanged; otherwise this is `updateData` |
| UpdateRecorder.UpdateRecorder.HandleRename | Services/UpdateRecorder.ts:73-79 | the file is recorded as `created` under its new path; nothing else changes |
| UpdateRecorder.UpdateRecorder.HandleDelete | Services/UpdateRecorder.ts:81-86 | the file is recorded as `deleted` under its path; nothing else changes |

## Left out

- JsString.ToLowerChar: lower-cases the ASCII letters only. JavaScript's `toLowerCase` maps the whole Unicode range; the plugin's suffixes are ASCII.
- Strings are sequences of Unicode scalar values, while JavaScript strings are UTF-16 code units. Lengths and indices, such as `length - 7` at StringHelper.ts:11, agree only for text without astral characters.
- The `console.log` calls in `dumpRecords` and the handlers are left out; they are output only.
- `RegisterEvents` is left out. It subscribes host events; each event is a call of the matching method here, or an `Event` value.
- The handlers are `async` arrow functions, but none of them awaits anything. They are modelled as plain synchronous methods.
- `TFile` and `TAbstractFile` are reduced to their `path` and `name`. A `FileRecord` in the plugin holds a reference to the host's file object, whose path the host updates on a rename. The model takes a copy of path and name when the record is made. So it does not show a later `toString` reflecting the new path. Nor does it show that, in the plugin, a record left under a file's old path after a rename then names the new path, so the key and the record's path differ; `KeyedByPath`, and the rows of `HandleInvariants` and `ReplayInvariants` that cite it, hold only for the copied paths.
- The plugin object the recorder is given (`MyPlugin` in `main.ts`) is modelled as the empty class `Plugin`; the modelled code reads none of its members.
- `DataModel/FileModificationType.ts` is not part of this model; the enum values follow `main.ts:267-271`.
- The rest of `main.ts` is left out: it is the plugin's lifecycle, settings and commands. This includes the copy of the recorder at lines 166-265, which behaves like `Services/UpdateRecorder.ts`.
- `DrawIOCommandBuilder.ts` and `PromptFilenameModal.ts` are left out; they are host and UI plumbing. Their use of `AppendDrawioFileExtension` is covered by the `FileExt` template lemmas.
- `__tests__/TestClass.test.ts` is left out; it does not exercise the plugin.
- The `NormalizePath` test strings with letters in them (StringHelper.test.ts:6, 10, 14, 18 and 30) are not stated as literal lemmas. The general lemmas cover them: `FixSlashesSeparated`, `NormalizePathIgnoresSurroundingWhitespace` and `NormalizePathHyphenatesInteriorRun`.
