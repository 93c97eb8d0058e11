# BackupHyperV core, modelled in Dafny

BackupHyperV is a Windows service that backs up Hyper-V virtual machines. It
exports each machine through the Hyper-V WMI API into a dated directory and
archives the export. This project models three pieces of its logic and proves
properties about them:

- **Task acquisition** (`BackupTaskService`, in `backup_task_service.dfy`).
  The service runs in stand-alone mode only. The backup task is read from the
  file that the `BackupTaskFile` setting names. When that file is missing, the
  host's Hyper-V namespace is selected (`ROOT\virtualization` or
  `ROOT\virtualization\v2`) and its guests are listed. The service then writes
  a task with one conservative entry per guest, all with disabled schedules,
  and reads that file back.
- **The export of one machine** (`VmExporter`, in `vm_exporter.dfy`).
  - The export looks up the machine and makes sure its export directory
    exists, with any missing parent directories; a path that is empty or
    only spaces throws instead. It then submits `ExportSystemDefinition` and
    validates the answer.
  - A started job is polled until its first terminal state. The percentage
    of every non-terminal reading is copied into the machine's progress
    counter; the terminal reading's percentage is not.
  - A failed job's embedded `Msvm_Error` instances are scanned for their
    `ErrorSource` and `Message` properties.
- **The machine's per-run state** (`Models`, in `virtual_machine.dfy`).
  - Path templates are resolved through ten placeholders: host, guest and
    zero-padded date fields, with trailing `\` removed.
  - The two resolved paths are cached so that they stay stable within a run.
  - The status and the two percent counters are plain fields.

Two modules hold shared pieces:

- `Primitives` (`primitives.dfy`) holds `Option` for C# references that may
  be null, `Result` for operations that throw, and the .NET integer widths.
- `Text` (`text.dfy`) models the .NET string operations the code relies on:
  - `String.IsNullOrWhiteSpace`;
  - `ToLower` and ordinal case-insensitive comparison;
  - ordinal `Replace`, which replaces every occurrence scanning left to right;
  - `TrimEnd(char)`;
  - `ToString("D<n>")` zero padding.

The outside world enters as parameters:

- **Clock and host identity.** The clock is a `DateTime` value. The machine
  name and DNS domain are a `HostEnvironment`.
- **Hyper-V.** Each Hyper-V answer is a value:
  - namespace lists and guest `ElementName`s (`HyperVHost`);
  - the computer systems' names;
  - the export call's return value and the job it started (`ExportOutput`).
- **The export job.** The job is the finite sequence of
  `(JobState, PercentComplete)` readings that successive `Get()` calls show.
- **File system and directories.** The file system is a map from path to the
  deserialized task (`None` for text that does not hold a task). The existing
  directories are a set. Both are passed in, and the new state is returned.

## Model

| member | source | states |
|---|---|---|
| Text.ReplaceAllWithoutOccurrence | BackupHyperV.Service/Models/VirtualMachine.cs:113-122 | `Replace` leaves a string in which the pattern does not occur unchanged |
| Text.ReplaceAllRemovesPattern | BackupHyperV.Service/Models/VirtualMachine.cs:117-122 | replacing a digit-free placeholder by a non-empty digit string removes every occurrence of it |
| Text.ReplaceAllKeepsAbsent | BackupHyperV.Service/Models/VirtualMachine.cs:117-122 | a digit replacement never creates an occurrence of a digit-free placeholder, so later date substitutions cannot bring back one already removed |
| Text.ReplaceAllIntroducesDigit | BackupHyperV.Service/Models/VirtualMachine.cs:117-122 | when a date placeholder occurs, the result of replacing it contains a digit |
| Text.ReplaceAllKeepsDigit | BackupHyperV.Service/Models/VirtualMachine.cs:117-122 | replacing a digit-free placeholder by digits never removes a digit already present |
| Text.ReplaceAllWithItself | BackupHyperV.Service/Models/VirtualMachine.cs:113-122 | replacing a pattern by itself gives back the input: the left-to-right scan copies every character it does not replace, in order |
| Text.DigitFreePrefixIsCopied | BackupHyperV.Service/Models/VirtualMachine.cs:117-122 | a digit-free prefix of a date substitution's result is an unchanged prefix of its input |
| Text.TrimEnd | BackupHyperV.Service/Models/VirtualMachine.cs:124 | the result is a prefix of the input that does not end with the trimmed character, and everything removed was that character |
| Text.TrimEndKeepsDigit | BackupHyperV.Service/Models/VirtualMachine.cs:124 | trimming separators never removes a digit |
| Text.DecimalDigits | BackupHyperV.Service/Models/VirtualMachine.cs:117-122 | the decimal rendering of `n` is a non-empty digit string that reads back as `n` |
| Text.ZeroPad | BackupHyperV.Service/Models/VirtualMachine.cs:117-122 | `ToString("D<width>")` is a digit string at least `width` long |
| Text.ZeroPadRoundTrip | BackupHyperV.Service/Models/VirtualMachine.cs:117-122 | the padded string reads back as `n`, and is exactly `width` long when `n` has at most `width` digits |
| Models.GetShortName | BackupHyperV.Service/Models/VirtualMachine.cs:127-131 | the result is the prefix of the name before its first '.', the whole name when there is none, and contains no '.' |
| Models.ShortNameWithoutDot | BackupHyperV.Service/Models/VirtualMachine.cs:127-131 | a name without '.' is its own short name |
| Models.ShortNameOfDotted | BackupHyperV.Service/Models/VirtualMachine.cs:127-131 | the short name of `a.b` is `a` when `a` has no '.' |
| Models.GetCurrentServerFQDN | BackupHyperV.Service/Models/VirtualMachine.cs:139-148 | the lower-cased machine name exactly when the domain is null or blank, otherwise `machine.domain` |
| Models.ShortNameOfServerFQDN | BackupHyperV.Service/Models/VirtualMachine.cs:113-116 | for a machine name without '.', `{HV_HOST_SHORT}` and the short name of `{HV_HOST_FULL}` agree |
| Models.NameSubstitutions | BackupHyperV.Service/Models/VirtualMachine.cs:113-116 | the four host and guest placeholders are non-empty patterns |
| Models.DateSubstitutions | BackupHyperV.Service/Models/VirtualMachine.cs:117-122 | the six date placeholders are digit-free and are replaced by non-empty digit strings |
| Models.ReplacePlaceholders | BackupHyperV.Service/Models/VirtualMachine.cs:108-125 | the resolved path never ends with the directory separator |
| Models.SubstituteAllWithoutPatterns | BackupHyperV.Service/Models/VirtualMachine.cs:113-122 | a chain of replacements whose patterns all are absent leaves the string unchanged |
| Models.SubstituteAllKeepsAbsent | BackupHyperV.Service/Models/VirtualMachine.cs:117-122 | the date substitutions never create an absent digit-free pattern |
| Models.SubstituteAllRemovesPatterns | BackupHyperV.Service/Models/VirtualMachine.cs:117-122 | after the date substitutions none of the date placeholders is left |
| Models.SubstituteAllKeepsDigit | BackupHyperV.Service/Models/VirtualMachine.cs:117-122 | the date substitutions keep any digit already present |
| Models.DigitFreeOutcomeHadNoPatterns | BackupHyperV.Service/Models/VirtualMachine.cs:117-122 | a digit-free result of the date substitutions means none of the date placeholders occurred |
| Models.DatePlaceholdersReplaced | BackupHyperV.Service/Models/VirtualMachine.cs:117-124 | no `{YEAR}`, `{MONTH}`, `{DAY}`, `{HOUR}`, `{MINUTE}` or `{SECOND}` is left in a resolved path, whatever the machine and guest names hold |
| Models.DateFieldsZeroPadded | BackupHyperV.Service/Models/VirtualMachine.cs:117-122 | the year is rendered in 4 digits and the other fields in 2, each reading back as its field |
| Models.TemplateWithoutPlaceholdersUnchanged | BackupHyperV.Service/Models/VirtualMachine.cs:108-125 | a template with none of the ten placeholders and no trailing separator resolves to itself |
| Models.BlankResolutionIgnoresClock | BackupHyperV.Service/Models/VirtualMachine.cs:48-57 | a resolution that comes out blank (so the getter will resolve again) comes out the same at any later time |
| Models.VirtualMachine.constructor | BackupHyperV.Service/Models/VirtualMachine.cs:85-90 | a new machine is Idle, with both counters 0 and both paths unresolved |
| Models.VirtualMachine.SetStatus | BackupHyperV.Service/Models/VirtualMachine.cs:41-45 | the status becomes the value set, and nothing else changes |
| Models.VirtualMachine.SetExportPercentComplete | BackupHyperV.Service/Models/VirtualMachine.cs:72-76 | the export percent becomes the value set (and is appended to the ghost write log `exportPercentWrites`), and nothing else changes |
| Models.VirtualMachine.SetArchivePercentComplete | BackupHyperV.Service/Models/VirtualMachine.cs:79-83 | the archive percent becomes the value set, and nothing else changes |
| Models.VirtualMachine.CreateExportPathFromTemplate | BackupHyperV.Service/Models/VirtualMachine.cs:95-98 | the export path becomes the export template resolved at the given time |
| Models.VirtualMachine.CreateArchivePathFromTemplate | BackupHyperV.Service/Models/VirtualMachine.cs:103-106 | the archive path becomes the archive template resolved at the given time |
| Models.VirtualMachine.ExportPath | BackupHyperV.Service/Models/VirtualMachine.cs:48-57 | a non-blank cached export path is returned unchanged; a blank one is resolved first; the value returned is the one cached |
| Models.VirtualMachine.ArchivePath | BackupHyperV.Service/Models/VirtualMachine.cs:60-69 | the same caching for the archive path |
| Models.VirtualMachine.ExportPathIsStable | BackupHyperV.Service/Models/VirtualMachine.cs:48-57 | two reads of the export path, at any two times, return the same string |
| Models.VirtualMachine.ArchivePathIsStable | BackupHyperV.Service/Models/VirtualMachine.cs:60-69 | two reads of the archive path, at any two times, return the same string |
| VmExporter.JobStateClassification | BackupHyperV.Service/Impl/VmExporter.cs:156-173 | complete means exactly Completed, CompletedWithWarnings, Terminated, Exception or Killed; successful means exactly Completed or CompletedWithWarnings, so success implies completion; the failed terminal states are Terminated, Exception and Killed |
| VmExporter.IsJobComplete | BackupHyperV.Service/Impl/VmExporter.cs:156-164 | a state is not complete exactly when it is New, Starting, Running, Suspended, ShuttingDown or Service |
| VmExporter.IsJobSuccessful | BackupHyperV.Service/Impl/VmExporter.cs:167-172 | a successful state is complete; a complete state is unsuccessful exactly when it is Terminated, Exception or Killed |
| VmExporter.FirstComplete | BackupHyperV.Service/Impl/VmExporter.cs:103-114 | the poll stops at a terminal reading, and no earlier reading is terminal |
| VmExporter.PropIdAfter | BackupHyperV.Service/Impl/VmExporter.cs:205-221 | only a PROPERTY node with an attribute can select a field (1 ErrorSource, 2 Message); every other node leaves 0 |
| VmExporter.NeverAssignedStaysEmpty | BackupHyperV.Service/Impl/VmExporter.cs:197-235 | a field that no VALUE-after-matching-PROPERTY pair assigns stays the empty string |
| VmExporter.LastAssignmentWins | BackupHyperV.Service/Impl/VmExporter.cs:203-235 | a field holds the text of the last VALUE node that immediately follows a PROPERTY naming it |
| VmExporter.ScanErrorTokens | BackupHyperV.Service/Impl/VmExporter.cs:195-240 | the reader loop's source and message are the last assignments of fields 1 and 2 |
| VmExporter.PrintMsvmErrors | BackupHyperV.Service/Impl/VmExporter.cs:176-246 | a GetErrorEx that does not return Completed throws; a null error list yields nothing; otherwise one (source, message) per error, in order |
| VmExporter.CompletedCallSkipsPolling | BackupHyperV.Service/Impl/VmExporter.cs:92-152 | return code Completed gives true and polls nothing |
| VmExporter.OtherCodeFails | BackupHyperV.Service/Impl/VmExporter.cs:142-150 | any code but Started and Completed gives false without polling, and throws only when throwIfFailed is set |
| VmExporter.StartedJobOutcome | BackupHyperV.Service/Impl/VmExporter.cs:103-139 | for a started job and throwIfFailed false, the result is whether the first terminal reading is successful; the only exception left is a failing GetErrorEx on a failed job |
| VmExporter.PollWritesNonTerminalPercents | BackupHyperV.Service/Impl/VmExporter.cs:103-114 | the poll writes the percent of every reading before the first terminal one, in order, and never the terminal reading's |
| VmExporter.ValidateOutput | BackupHyperV.Service/Impl/VmExporter.cs:82-153 | the result or exception is the outcome of the three-way decision on the return code; the percents written are exactly those of the non-terminal readings before the first terminal one, in order; the counter ends at the last of them, or keeps its old value when none is written |
| VmExporter.GetVirtualMachine | BackupHyperV.Service/Impl/VmExporter.cs:69-79 | the first system whose name matches ignoring case, or the not-found exception when none matches |
| VmExporter.ExportVirtualSystem | BackupHyperV.Service/Impl/VmExporter.cs:26-66 | the counter is set to 0 first; an unknown machine throws with nothing else done; otherwise the export path is resolved and cached; a path that is empty or only spaces throws with the directories unchanged and the counter left at 0; any other path exists afterwards with its missing ancestors, the result or exception is the validation's, the polled percents are written after the 0, and the counter ends at 100 when validation returns (successful or not) and at the last polled percent (or 0) when it throws |
| VmExporter.DirectoryChain | BackupHyperV.Service/Impl/VmExporter.cs:38 | the directories `CreateDirectory` makes: the path itself and each prefix of it that ends just before a separator, and no other string |
| VmExporter.EnsureDirectory | BackupHyperV.Service/Impl/VmExporter.cs:37-38 | afterwards the path exists and every existing directory is kept; each directory added is the path or one of its ancestors |
| VmExporter.CreateExportDirectory | BackupHyperV.Service/Impl/VmExporter.cs:37-38 | throws the argument exception exactly when the path is empty or only spaces, changing nothing; otherwise the directories become those of EnsureDirectory, which hold the path |
| VmExporter.ExportPathRead | BackupHyperV.Service/Models/VirtualMachine.cs:48-57 | a non-blank cached path is the value read, and it is never empty or only spaces |
| VmExporter.PrepareExportDirectory | BackupHyperV.Service/Impl/VmExporter.cs:37-53 | the path is resolved and cached; it throws exactly when that path is empty or only spaces; otherwise the directory is ensured and the path given as ExportDirectory is the one the directory was made for |
| VmExporter.SubmitExport | BackupHyperV.Service/Impl/VmExporter.cs:57-64 | the result or exception is the validation's; the polled percents are written, then 100 unless validation threw; the counter ends at 100, or, when validation threw, at the last polled percent (its old value if none was polled) |
| VmExporter.ExportSucceedsIff | BackupHyperV.Service/Impl/VmExporter.cs:26-153 | the export reports success exactly when the call completed at once, or when it started a job whose first terminal state is successful |
| VmExporter.ThreePollsScenario | BackupHyperV.Service/Impl/VmExporter.cs:103-118 | a job read as Running 40, Running 70, then Completed succeeds, and 40 and 70 are the percents written |
| BackupTaskService.IsStandAloneMode | BackupHyperV.Service/Impl/BackupTaskService.cs:48-52 | always stand-alone |
| BackupTaskService.NamespaceExists | BackupHyperV.Service/Impl/BackupTaskService.cs:194-205 | true exactly when some non-null namespace name equals the target ignoring case |
| BackupTaskService.GetHyperVNamespace | BackupHyperV.Service/Impl/BackupTaskService.cs:174-192 | null exactly without a `virtualization` child of ROOT; `ROOT\virtualization\v2` exactly when that has a `v2` child too; `ROOT\virtualization` otherwise |
| BackupTaskService.SelectedNamespaceIsNotBlank | BackupHyperV.Service/Impl/BackupTaskService.cs:129-132 | the namespace check fails exactly when no namespace was found |
| BackupTaskService.KeptNamesMembership | BackupHyperV.Service/Impl/BackupTaskService.cs:139-148 | a name is kept exactly when it is listed and is neither null nor blank |
| BackupTaskService.KeptNamesAppend | BackupHyperV.Service/Impl/BackupTaskService.cs:139-148 | filtering commutes with concatenation, so discovery order is kept, and never keeps more names than listed |
| BackupTaskService.GetLocalVMsNames | BackupHyperV.Service/Impl/BackupTaskService.cs:126-152 | throws exactly when there is no Hyper-V namespace; otherwise returns the kept names in order |
| BackupTaskService.CreateDefaultVMs | BackupHyperV.Service/Impl/BackupTaskService.cs:94-124 | one default entry per name, in order, each named after its machine |
| BackupTaskService.GeneratedEntriesAreConservative | BackupHyperV.Service/Impl/BackupTaskService.cs:98-117 | each generated entry keeps exports 2 days and archives 5, archives at level 1, and has exactly one schedule: a disabled DailySchedule at 00:00; no generated schedule is enabled |
| BackupTaskService.GeneratedTaskShape | BackupHyperV.Service/Impl/BackupTaskService.cs:81-149 | a task is generated exactly when a Hyper-V namespace exists and some name is kept; it runs one backup at a time and has one entry per kept name, in order |
| BackupTaskService.CreateNewBackupTaskFile | BackupHyperV.Service/Impl/BackupTaskService.cs:79-92 | a failed discovery or zero machines throws and writes nothing; otherwise the generated task is written to the path and nothing else changes |
| BackupTaskService.GetBackupTaskFromLocalFile | BackupHyperV.Service/Impl/BackupTaskService.cs:60-77 | a null or blank setting throws before any file is touched; an existing file is read as is; a missing one is generated and then read |
| BackupTaskService.ReadTask | BackupHyperV.Service/Impl/BackupTaskService.cs:75-76 | a file that holds a task yields that task; a file that holds none is reported as unreadable, naming the path |
| BackupTaskService.GetBackupTask | BackupHyperV.Service/Impl/BackupTaskService.cs:36-46 | always the local-file outcome |
| BackupTaskService.OnlyMissingFileIsWritten | BackupHyperV.Service/Impl/BackupTaskService.cs:60-92 | the file system changes only by creating the missing task file, which then holds the task returned; an existing file is never rewritten |
| BackupTaskService.SecondRunReadsSameTask | BackupHyperV.Service/Impl/BackupTaskService.cs:60-77 | once a run has produced the task, a later run returns the same task and changes nothing, whatever the host reports by then |

## Left out

- WMI plumbing is not modelled: scopes, `ManagementObject`/`ManagementClass`, `InvokeMethod`, `job.Get()`, `scope.Connect` and `WmiQuery`. Their answers are inputs instead.
- The `Msvm_VirtualSystemExportSettingData` descriptor is not modelled, nor the `snapshotExport` argument. Both only build the request sent to Hyper-V.
- `Thread.Sleep(500)` between polls is not modelled. `Interlocked.Exchange` and `volatile` on the status and percent fields are not modelled either: they are about timing and concurrency with the progress reporter, and the fields are plain fields here.
- Newtonsoft JSON serialization is not modelled. A file holds the task it deserializes to. Writing and reading back a task is assumed to be lossless. The text `null`, which deserializes to a null task, is treated like any text that holds no task.
- The `XmlReader` parser is not modelled. Each error string is the sequence of nodes the reader visits. In particular, when a `VALUE` element is read for a selected property (field 1 or 2), the node right after it is not visited, because `ReadElementContentAsString` has already moved past it; a `VALUE` read with no field selected is followed by its next node as usual. Malformed XML, which makes the reader throw, is not modelled.
- Logging calls are not modelled.
- The central-server stub (BackupTaskService.cs:54-58) is not modelled; it can never be reached, because the mode is always stand-alone.
- Common/Models/HttpPostBackupProgress.cs (a data-transfer object) and BackupHyperV.Service/Interfaces/IProgressReporter.cs (an interface) are not part of this model.
- `LoadedSchedules` and the SimpleSchedules types are external. A schedule entry is kept as its four configured fields.
- `ToLower` and the case-insensitive comparisons fold ASCII letters only. Culture-specific case mapping is not modelled.
- `JobState` is a closed enumeration. A numeric job state outside its named values is not modelled.
- VmExporter.ValidateOutput: requires a started job to reach a terminal reading eventually. The source polls forever otherwise.
- VmExporter.GetVirtualMachine: the WQL `ElementName = "name"` query is modelled as a case-insensitive comparison of whole names. Quoting characters inside the name are not modelled.
- Models.ReplacePlaceholders: a null template or a null virtual-machine `Name`, which make the source throw, are not modelled. Templates and names are strings.
- VmExporter.ExportVirtualSystem: of the paths `Directory.CreateDirectory` refuses, only the empty path and a path of spaces are modelled, as the argument exception. Invalid characters, other whitespace, a file in the way, a missing drive or missing permission also make it throw, and are modelled as a successful creation.
- VmExporter.DirectoryChain: the path is split at `\` only. The other separator `/`, drive roots, UNC prefixes and the normalisation `Path.GetFullPath` applies are not modelled.
- BackupTaskService.GetBackupTaskFromLocalFile: a task file exists only when its path is a key of the file-system map, compared as an exact string. `File.Exists` on Windows ignores case, so a file stored under the same path in another case is found there. Here it counts as missing, and a generated task is written under the second spelling. The I/O failures of the two file calls are not modelled either (see the CreateNewBackupTaskFile and ReadTask lines): a write or read that would throw is modelled as one that succeeds.
- VmExporter.EnsureDirectory: a directory exists only when its path is in the set, compared as an exact string. `Directory.Exists` on Windows ignores case. A directory that exists under another case therefore counts as missing here, and its whole chain is added again in the new spelling.
- BackupTaskService.CreateNewBackupTaskFile: `File.WriteAllText` is modelled as a write that always succeeds. In the source it throws when the parent directory does not exist (it does not create one), when access is denied, when the path names a directory (which `File.Exists` reports as missing), or when the path is invalid. The model then returns the generated task and records the file.
- BackupTaskService.ReadTask: `File.ReadAllText` on an existing file is modelled as a read that always succeeds. A locked or unreadable file, which makes the source throw, is not modelled. Only text that holds no task is reported as unreadable.
