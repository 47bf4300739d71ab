# ResxService, modelled in Dafny

ResxTranslationTool finds localisable strings in a tree of .NET ResX resource
files. It collects every entry flagged for translation with a marker tag
(`[translate me]` by default). Later it writes the translated text back into
the files. This project models the engine behind both steps, the
`ResxService` class. It proves what the two operations do.

- **Scan** (`GetResources`): checks that the root directory exists, defaults
  the tag, and walks the listed files. For each file it computes the path
  relative to the root. It keeps the plain string entries whose text contains
  the tag, ignoring case. It emits one translation record per kept entry.
  Records come file by file, and in entry order within each file.
- **Update** (`UpdateResources`): drops records with no translated text and
  groups the rest by relative file name. For each group it resolves the file
  with `Path.Combine`, reads all its entries into a dictionary, and sets each
  record's key to the translated string. A missing key is added. Then it
  writes every entry back.

Layout:

- `wrappers.dfy`: `Option` and `Result`. Exceptions become `Failure` values.
- `platform.dfy`: the base-library behaviour the service relies on.
  - The exceptions it raises.
  - `Path.Combine` and `Path.IsPathRooted`.
  - The `OrdinalIgnoreCase` substring search.
- `resources.dfy`: what the ResX reader and writer give the service.
  - A file is an insertion-ordered map from key to entry.
  - An entry is `StringEntry(text, comment)` or `Opaque(payload, comment)`.
  - The disk is a set of directories plus a map from full path to file; a stored file may be unparsable.
  - The update's `Dictionary<string, object>` holds a data node or a bare string.
- `models.dfy`: the `Translation` record. It has Id, FileName, OriginalText and
  TranslatedText, plus the `Comment` that the scan assigns.
- `resx_service.dfy`: the service itself.
  - The constructor checks.
  - Both operations as methods with loops.
  - The functions that specify them, and the lemmas about those functions.

The disk is passed to both operations, and an update returns the new disk.
The files a directory walk finds are passed in as a sequence of full paths
(`listing`), in enumeration order.

Two behaviours of the code that the model keeps:

- `UpdateResources` does not check that the root directory exists. A missing
  file fails with the reader's error, and any groups already processed
  stay written.
- Every entry is written back with `AddResource(string, object)`. For an
  overwritten entry the object is the translated string, so it becomes a
  plain string entry, and any comment it had is lost.

## Model

| member | source | states |
|---|---|---|
| `ResxServices.NewResxService` | ResxTranslationTool/Services/ResxService.cs:19-29 | creation succeeds iff the path and the file mask are both non-empty; an empty path is reported first (parameter "path"), then an empty mask ("fileMask"); a created service is a `ValidService`, whose path and mask are non-empty |
| `ResxServices.EffectiveTag` | ResxTranslationTool/Services/ResxService.cs:36 | an absent or empty tag becomes `[translate me]`; any other tag is used as given; the tag used is never empty |
| `ResxServices.ScanDefaultTag` | ResxTranslationTool/Services/ResxService.cs:36 | a scan with no tag, with the empty tag and with `[translate me]` gives the same result |
| `Platform.FoldCase` | ResxTranslationTool/Services/ResxService.cs:60 | ordinal case folding maps a-z to A-Z and leaves every other character alone |
| `Platform.IndexOfFrom` | ResxTranslationTool/Services/ResxService.cs:60 | the result is -1 when no case-insensitive match starts at or after the start position; otherwise it is the first such match |
| `Platform.IndexOfIgnoreCase` | ResxTranslationTool/Services/ResxService.cs:60 | the index is non-negative iff the tag occurs in the text ignoring case, and then it is the first occurrence |
| `ResxServices.RelativeNameAsWritten` | ResxTranslationTool/Services/ResxService.cs:47 | fails iff the full path is no longer than the root; otherwise drops the root's length plus one character |
| `ResxServices.RelativeName` | ResxTranslationTool/Services/ResxService.cs:47 | fails iff the full path is no longer than the root; otherwise the full path is the root's length of characters, then one separator when the character after the root is a separator, then the result |
| `ResxServices.RelativeNameRoundTrip` | ResxTranslationTool/Services/ResxService.cs:47 | for a file directly below the root (with or without a trailing separator on the root), the relative name is the file name and `Path.Combine(root, name)` gives back the file |
| `ResxServices.RelativeNameAgrees` | ResxTranslationTool/Services/ResxService.cs:47 | when a separator follows the root, the corrected relative name equals the one the code computes |
| `ResxServices.RelativeNameAsWrittenDropsFirstChar` | ResxTranslationTool/Services/ResxService.cs:47 | for a root ending in a separator, the code drops the first character of the file name, and `Path.Combine` then misses the file |
| `ResxServices.DriveRootExample` | ResxTranslationTool/Services/ResxService.cs:47 | root `C:\` and file `C:\Strings.resx` give `trings.resx` as written and `Strings.resx` when corrected |
| `ResxServices.RecordOf` | ResxTranslationTool/Services/ResxService.cs:61-67 | a record carries the entry's key as Id, the relative name as FileName, its text as OriginalText and its comment; TranslatedText is unset |
| `ResxServices.IsTagged` | ResxTranslationTool/Services/ResxService.cs:56-60 | an entry is tagged iff it is a plain string entry (no file reference, string value) whose text contains the tag, ignoring case |
| `ResxServices.SelectKeys` | ResxTranslationTool/Services/ResxService.cs:53-67 | for each key in order, the record of its entry when that entry is tagged; at most one record per key, each carrying the file's relative name and no translated text |
| `ResxServices.SelectTagged` | ResxTranslationTool/Services/ResxService.cs:53-67 | the records of one file: `SelectKeys` over the file's keys in file order |
| `ResxServices.SelectKeysMembers` | ResxTranslationTool/Services/ResxService.cs:54-67 | a record is produced for a key iff its entry is a plain string whose text contains the tag ignoring case, and it carries that entry's fields |
| `ResxServices.SelectTaggedMembers` | ResxTranslationTool/Services/ResxService.cs:54-67 | the same for a whole file: opaque entries (file references, non-string values) never yield a record |
| `ResxServices.SelectKeysAppend` | ResxTranslationTool/Services/ResxService.cs:53-67 | records follow entry order: selecting over two runs of keys is the concatenation of the selections |
| `ResxServices.TaggedKeys` | ResxTranslationTool/Services/ResxService.cs:54-60 | the keys kept are keys of the file whose entries are tagged |
| `ResxServices.SelectKeysIds` | ResxTranslationTool/Services/ResxService.cs:53-67 | the records' keys are exactly the tagged keys, one record per key, in entry order |
| `ResxServices.TaggedKeysDistinct` | ResxTranslationTool/Services/ResxService.cs:53-60 | keeping only the tagged keys of distinct keys leaves them distinct |
| `ResxServices.SelectTaggedOnePerEntry` | ResxTranslationTool/Services/ResxService.cs:53-67 | a file yields one record per tagged entry, in file order, so no key gets two records |
| `ResxServices.ScanFile` | ResxTranslationTool/Services/ResxService.cs:44-68 | one file succeeds iff it is longer than the root and readable; too short fails with an out-of-range error; success gives the tagged records of its entries under its relative name |
| `ResxServices.Join` | ResxTranslationTool/Services/ResxService.cs:38-69 | adding one file's records to those so far: the first error wins, otherwise the records are concatenated in order |
| `ResxServices.ScanListing` | ResxTranslationTool/Services/ResxService.cs:41-69 | the listed files in enumeration order, each scanned and joined to the records so far; the first failing file ends the scan with its error, and no record has a translated text |
| `ResxServices.Scan` | ResxTranslationTool/Services/ResxService.cs:33-69 | a root that is not an existing directory fails with DirectoryNotFound; otherwise `ScanListing` with the effective tag |
| `ResxServices.ScanListingAppend` | ResxTranslationTool/Services/ResxService.cs:41-69 | scanning two runs of files is scanning each and concatenating in enumeration order; the earlier error wins |
| `ResxServices.JoinAssociative` | ResxTranslationTool/Services/ResxService.cs:41-69 | accumulating results is associative, so files can be grouped freely |
| `ResxServices.ScanListingFailStable` | ResxTranslationTool/Services/ResxService.cs:44-69 | once a file fails, the whole scan fails with that file's error and its records so far are dropped |
| `ResxServices.ScanListingSucceeds` | ResxTranslationTool/Services/ResxService.cs:44-69 | a scan succeeds iff every listed file is longer than the root and is a readable resource file |
| `ResxServices.ScanListingRecords` | ResxTranslationTool/Services/ResxService.cs:44-69 | a record belongs to a successful scan iff it is a record of one of the listed files |
| `ResxServices.ListedBelowResolves` | ResxTranslationTool/Services/ResxService.cs:47 | for a file listed below the root, `Path.Combine` of the root and the file's relative name is the file |
| `ResxServices.ScanRecordsResolve` | ResxTranslationTool/Services/ResxService.cs:47 | every record of a successful scan resolves, through `Path.Combine(root, FileName)`, to a listed file: the join key of an update |
| `ResxServices.ResxService.GetResources` | ResxTranslationTool/Services/ResxService.cs:31-72 | a missing root fails with DirectoryNotFound before any file is read; otherwise the result is the scan of the listed files with the effective tag |
| `Resources.ReadAll` | ResxTranslationTool/Services/ResxService.cs:86-90 | reading succeeds iff the path holds a parsable file and then gives its entries; a missing file gives FileNotFound, an unparsable one FormatError |
| `Resources.Nodes` | ResxTranslationTool/Services/ResxService.cs:89 | the dictionary read from a file holds every entry, as its data node, in file order |
| `Resources.Put` | ResxTranslationTool/Services/ResxService.cs:95 | `dictionary[key] = value` sets the value; an existing key keeps its place and a new key is appended; keys stay distinct |
| `Resources.WrittenEntry` | ResxTranslationTool/Services/ResxService.cs:103 | a data node is written back as read; a bare string becomes a string entry with no comment |
| `Resources.Written` | ResxTranslationTool/Services/ResxService.cs:99-105 | the written file has the dictionary's keys in the same order, and each value written as by `AddResource` |
| `Resources.WrittenNodesRoundTrip` | ResxTranslationTool/Services/ResxService.cs:86-105 | reading a file and writing every entry back reproduces it exactly: keys, order, kinds, values and comments |
| `Resources.WrittenPutText` | ResxTranslationTool/Services/ResxService.cs:95-103 | setting a bare string and then writing equals writing and then setting a comment-less string entry |
| `ResxServices.Pending` | ResxTranslationTool/Services/ResxService.cs:78 | keeps exactly the records whose translated text is non-empty |
| `ResxServices.PendingAppend` | ResxTranslationTool/Services/ResxService.cs:78 | the filter keeps order: filtering a concatenation concatenates the filtered parts |
| `ResxServices.PendingUntranslated` | ResxTranslationTool/Services/ResxService.cs:78 | records that all lack a translated text leave nothing to write |
| `ResxServices.FileNames` | ResxTranslationTool/Services/ResxService.cs:78 | each file name occurs once, and a name occurs iff some record uses it |
| `ResxServices.InFile` | ResxTranslationTool/Services/ResxService.cs:78 | keeps exactly the records of one file name, in order |
| `ResxServices.InFileAppend` | ResxTranslationTool/Services/ResxService.cs:78 | grouping keeps input order: the records of one file in a concatenation are those of the first part, then those of the second |
| `ResxServices.FileNamesFirstAppearance` | ResxTranslationTool/Services/ResxService.cs:78 | names come in order of first appearance: before any record of a later name there is a record of every earlier name |
| `ResxServices.GroupsOf` | ResxTranslationTool/Services/ResxService.cs:78 | one group per name, holding that name's records |
| `ResxServices.GroupByFile` | ResxTranslationTool/Services/ResxService.cs:78 | group names are distinct; each group holds all records of its file and is non-empty; every record has a group |
| `ResxServices.GroupByFileOrder` | ResxTranslationTool/Services/ResxService.cs:78 | groups come in order of the first appearance of their file name among the records |
| `Platform.Combine` | ResxTranslationTool/Services/ResxService.cs:82 | an empty name gives the root; with an empty root or a rooted name the name wins; otherwise the result extends the root, and is root + name exactly when the root ends in a separator or a volume colon, else root + separator + name |
| `Platform.CombineInjective` | ResxTranslationTool/Services/ResxService.cs:82 | two non-rooted relative names resolve to the same path under one root only if they are equal |
| `Platform.IsRooted` | ResxTranslationTool/Services/ResxService.cs:82 | `Path.IsPathRooted` on Windows: the path starts with a separator, or its second character is a volume colon |
| `ResxServices.Ids` | ResxTranslationTool/Services/ResxService.cs:93-96 | a key is among the keys a group writes iff some record of the group has it |
| `ResxServices.LastText` | ResxTranslationTool/Services/ResxService.cs:93-96 | the text is the translated text of the last record of the group with that key |
| `ResxServices.ApplyGroup` | ResxTranslationTool/Services/ResxService.cs:86-104 | one file's update: each record in turn sets its key to a comment-less string with its translated text, an existing key in place and a new key at the end; the file grows by at most one key per record |
| `ResxServices.ResxService.UpdateResources` | ResxTranslationTool/Services/ResxService.cs:74-107 | directories are unchanged, and the files and error are those of the update specification over the grouped non-empty records |
| `ResxServices.Overwrite` | ResxTranslationTool/Services/ResxService.cs:93-96 | the loop over a group leaves a dictionary that, once written, is the file with the group's records applied in order |
| `ResxServices.WriteAll` | ResxTranslationTool/Services/ResxService.cs:99-105 | the write loop produces the whole dictionary as a resource file, entry by entry in order |
| `ResxServices.ApplyGroupLookup` | ResxTranslationTool/Services/ResxService.cs:89-104 | after a group: old keys keep their order and come first; each record's key holds the LAST translated text for it, as a string with no comment; missing keys are added; all other keys keep their entries |
| `ResxServices.ApplyGroupKeys` | ResxTranslationTool/Services/ResxService.cs:89-96 | old keys keep their order and come first; the keys after a group are the old keys plus the records' keys |
| `ResxServices.ApplyGroupValues` | ResxTranslationTool/Services/ResxService.cs:93-96 | each record's key holds the last translated text for it with no comment; every other old key keeps its entry |
| `ResxServices.ApplyGroupAppend` | ResxTranslationTool/Services/ResxService.cs:93-96 | applying two runs of records is applying the first, then the second |
| `ResxServices.ApplyGroupKnownKeys` | ResxTranslationTool/Services/ResxService.cs:93-96 | when every record's key already exists, no key moves and none is added |
| `ResxServices.ApplyGroupIdempotent` | ResxTranslationTool/Services/ResxService.cs:89-104 | applying the same records to a file twice gives the same file as once |
| `ResxServices.Step` | ResxTranslationTool/Services/ResxService.cs:80-106 | one group after those before it: nothing more happens once an error occurred; otherwise the group's file is read, with its read error stopping the update, or rewritten with the group applied |
| `ResxServices.ApplyGroups` | ResxTranslationTool/Services/ResxService.cs:80-106 | the groups in order, one `Step` each; an error can only come from some group |
| `ResxServices.Update` | ResxTranslationTool/Services/ResxService.cs:74-107 | the pending records grouped by file name in first-appearance order, applied group by group; the first unreadable file stops it, and earlier files stay written; no records leave the files as they were |
| `ResxServices.ApplyGroupsFailStable` | ResxTranslationTool/Services/ResxService.cs:80-106 | after the first unreadable file the update stops; files written before it stay written |
| `ResxServices.ApplyGroupsKeepsReadable` | ResxTranslationTool/Services/ResxService.cs:80-106 | an update creates and deletes no file, and changes no file's readability |
| `ResxServices.ApplyGroupsSucceeds` | ResxTranslationTool/Services/ResxService.cs:80-90 | the group loop succeeds iff every group's resolved file is readable |
| `ResxServices.ApplyGroupsFailure` | ResxTranslationTool/Services/ResxService.cs:80-90 | the group loop fails iff some group stops it: the first group whose file cannot be read, after every earlier group has been applied, with that file's read error |
| `ResxServices.ApplyGroupsUntouched` | ResxTranslationTool/Services/ResxService.cs:80-106 | a path no group resolves to is left exactly as it was, whatever the outcome |
| `ResxServices.ApplyGroupsAt` | ResxTranslationTool/Services/ResxService.cs:80-106 | after a successful loop, a readable file holds its old content with every record of the groups resolving to it applied, group after group |
| `ResxServices.UpdateIgnoresUntranslated` | ResxTranslationTool/Services/ResxService.cs:77-78 | inserting records without translated text anywhere in the input changes neither the files nor the error |
| `ResxServices.UpdateLeavesOtherFiles` | ResxTranslationTool/Services/ResxService.cs:77-106 | for file names spelled as a scan records them: a file that no translated record resolves to is neither read nor rewritten, even by an update that fails |
| `ResxServices.UpdateSucceeds` | ResxTranslationTool/Services/ResxService.cs:80-90 | an update fails iff some translated record resolves to a missing or unparsable file |
| `ResxServices.UpdateFailure` | ResxTranslationTool/Services/ResxService.cs:74-107 | a failed update reports FileNotFound for a missing file or FormatError for an unparsable one, for the first such group in order of first appearance; the files of all earlier groups stay rewritten |
| `ResxServices.RecordsForRelative` | ResxTranslationTool/Services/ResxService.cs:78-82 | for file names spelled as a scan records them: with distinct, non-rooted group names, only the group with that name resolves to the path built from it |
| `ResxServices.UpdateFileContents` | ResxTranslationTool/Services/ResxService.cs:77-106 | for file names spelled as a scan records them, when the root is non-empty and no translated record names a rooted path: after a successful update, each named file holds its old content with exactly that file's translated records applied in input order; with ApplyGroupLookup, later records for the same key win and other keys are unchanged |
| `ResxServices.LastTranslated` | ResxTranslationTool/Services/ResxService.cs:77-96 | the text is that of the last record in the input that gives a translated text for the key in the file |
| `ResxServices.LastTextPending` | ResxTranslationTool/Services/ResxService.cs:77-96 | filtering and grouping keep the order: the last record for a key in a file's group is the last translating record of the input |
| `ResxServices.UpdateLastWins` | ResxTranslationTool/Services/ResxService.cs:74-107 | for file names spelled as a scan records them, when the root is non-empty, the name is not rooted and no translated record names a rooted path: after a successful update, the file holds, for each translated key, a comment-less string entry with the last translated text the input gives for that file and key |
| `ResxServices.UpdateIdempotent` | ResxTranslationTool/Services/ResxService.cs:74-107 | running a successful update a second time with the same records leaves the files as they were after the first run |

## Left out

- Directory enumeration and glob matching (`Directory.GetFiles` with the file mask, recursive): the platform library does this, so the found files are a parameter. The file mask is stored but not otherwise used.
- ResX XML parsing and serialisation (`ResXResourceReader`, `ResXResourceWriter`): foreign library code. A file is an ordered key-to-entry map, and an unparsable file is `Unreadable`. In the model, writing back what was read is exact.
- The reflection test on the value's type name: foreign runtime machinery. The entry's `StringEntry`/`Opaque` tag is decided when the file is read.
- `Path.GetFullPath`: it depends on the working directory. Listed paths are taken to be full, normalised paths, and the root is taken to be one too. A relative root is not modelled.
- `Path.Combine`'s checks for invalid path characters, and all null arguments: the model has no null strings. An unset TranslatedText or Comment is the empty string, which `string.IsNullOrEmpty` treats the same way.
- IndexOfIgnoreCase: only ASCII letters are case-folded. The culture-independent upper-casing of other scripts is not modelled.
- The order of .NET `Dictionary` enumeration is taken to be insertion order. It is for a dictionary that is only added to and overwritten, as here.
- I/O failures other than a missing or unparsable file are not modelled: a missing parent directory (which the reader reports as DirectoryNotFoundException, not FileNotFoundException), denied access, a failing write. A write never fails in the model, so an update never stops after reading a file.
- A rewrite keeps only data entries: the reader's enumerator yields no `<metadata>` elements, so the program drops them on rewrite. Metadata elements are not modelled, and a file here holds only data entries.
- Paths are compared as exact strings. Windows' case-insensitive file names, `/` as a second separator and `.`/`..` segments are not modelled, so two spellings of one file are two files here. Records whose file names spell one file two ways form two groups in the program too, but there both read and write the same file.
- Resource files with duplicate keys: the reader is taken to deliver distinct keys.
- Disposal of readers and writers (`using`), and concurrent edits to a file between its read and its write: there is no concurrency in the model.
- `TranslationFileService` (XML save/load of the worklist): plain I/O over a library serializer.
- The WPF view models and window: user interface only.
- Culture-variant synchronisation: that code is not part of this model.

- ResxServices.ScanFile: records the corrected relative name (`RelativeName`) rather than the one line 47 computes; the difference is the Findings row below, modelled by `RelativeNameAsWritten`.
- ResxServices.ScanListing: records the corrected relative name through ScanFile; see the Findings row below.
- ResxServices.Scan: records the corrected relative name through ScanListing; see the Findings row below.
- ResxServices.ResxService.GetResources: records the corrected relative name, as ScanFile does; see the Findings row below.

## Findings

| source | as written | input that shows it | evidently intended | confidence | as-written member | corrected member |
|---|---|---|---|---|---|---|
| ResxTranslationTool/Services/ResxService.cs:47 | the relative name is `Substring(_path.Length + 1)`, which always skips one character after the root | root `C:\` (a drive root, which ends in its separator) and file `C:\Strings.resx` give `trings.resx`; the update then combines that into `C:\trings.resx` and does not find the file | strip the root, then a separator only if one follows, so that `Path.Combine(root, name)` gives the file back | medium, not executed | `ResxServices.RelativeNameAsWrittenDropsFirstChar` | `ResxServices.RelativeNameRoundTrip` |
