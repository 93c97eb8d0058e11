/**
 * BackupHyperV.Service/Impl/BackupTaskService.cs: finds the backup task the
 * service runs. In stand-alone mode (the only mode) the task is read from
 * the file the BackupTaskFile setting names; when that file is missing, the
 * Hyper-V host is asked for its virtual machines and a file with one
 * conservative, disabled entry per machine is written first.
 *
 * The Hyper-V host is an input (the namespace names WMI lists and the
 * ElementName of every guest it lists), and so is the file system: a map
 * from path to the task its JSON text deserializes to, None for text that
 * does not hold a task.
 */
module BackupTaskService {
  import opened Primitives
  import opened Text
  import opened Models

  /** What WMI reports: the names of the __NAMESPACE instances under ROOT and
      under ROOT\virtualization, and the ElementName of every
      Msvm_ComputerSystem that is not the hosting computer system. A name
      WMI gives as null is None. */
  datatype HyperVHost = HyperVHost(
    rootNamespaces: seq<Option<string>>,
    virtualizationNamespaces: seq<Option<string>>,
    elementNames: seq<Option<string>>)

  /** Path to the deserialized content of the file there. */
  type FileSystem = map<string, Option<BackupTask>>

  /** The exceptions task acquisition lets escape. */
  datatype TaskError =
    | InvalidConfig(message: string)
    | DiscoveryFailure(message: string)
    | UnreadableTaskFile(path: string)

  const CONFIG_MISSING := "BackupTaskFile config option is null or empty."
  const NO_HYPER_V_NAMESPACE :=
    "Could not detect Hyper-V namespace in WMI API. Check if current host is a valid Hyper-V server."
  const NO_VIRTUAL_MACHINES := "Could not find any virtual machines. Cannot continue."

  const VIRTUALIZATION_NAMESPACE := "ROOT\\virtualization"
  const VIRTUALIZATION_V2_NAMESPACE := "ROOT\\virtualization\\v2"

  // ------------------------------------------------------------------- mode

  /** Central-server recognition is not implemented: always stand-alone. */
  function IsStandAloneMode(): (r: bool)
    ensures r
  {
    true
  }

  // -------------------------------------------------------- Hyper-V namespace

  /** A namespace name equals `target` once both are lower-cased; a null
      name equals nothing. */
  predicate NameMatches(name: Option<string>, target: string) {
    name.Some? && ToLower(target) == ToLower(name.value)
  }

  /** Some listed namespace is `target`, ignoring case. */
  predicate HasNamespace(names: seq<Option<string>>, target: string) {
    exists i :: 0 <= i < |names| && NameMatches(names[i], target)
  }

  /** NamespaceExists: walks the namespaces and stops at the first match. */
  method NamespaceExists(names: seq<Option<string>>, target: string) returns (found: bool)
    ensures found <==> HasNamespace(names, target)
  {
    for i := 0 to |names|
      invariant forall j :: 0 <= j < i ==> !NameMatches(names[j], target)
    {
      if names[i].Some? && ToLower(target) == ToLower(names[i].value) {
        return true;
      }
    }
    return false;
  }

  /** The namespace the Hyper-V classes live in, newest first. */
  function HyperVNamespace(host: HyperVHost): Option<string> {
    if !HasNamespace(host.rootNamespaces, "virtualization") then None
    else if HasNamespace(host.virtualizationNamespaces, "v2") then Some(VIRTUALIZATION_V2_NAMESPACE)
    else Some(VIRTUALIZATION_NAMESPACE)
  }

  /** Get_HyperV_Namespace: ROOT\virtualization when ROOT has that child,
      upgraded to ROOT\virtualization\v2 when that one has a v2 child, and
      null when there is no virtualization namespace. */
  method GetHyperVNamespace(host: HyperVHost) returns (ns: Option<string>)
    ensures ns == HyperVNamespace(host)
    ensures ns.None? <==> !HasNamespace(host.rootNamespaces, "virtualization")
    ensures ns == Some(VIRTUALIZATION_V2_NAMESPACE) <==>
              HasNamespace(host.rootNamespaces, "virtualization")
              && HasNamespace(host.virtualizationNamespaces, "v2")
    ensures ns == Some(VIRTUALIZATION_NAMESPACE) <==>
              HasNamespace(host.rootNamespaces, "virtualization")
              && !HasNamespace(host.virtualizationNamespaces, "v2")
  {
    ns := None;
    var hasVirtualization := NamespaceExists(host.rootNamespaces, "virtualization");
    if hasVirtualization {
      ns := Some(VIRTUALIZATION_NAMESPACE);
      var hasV2 := NamespaceExists(host.virtualizationNamespaces, "v2");
      if hasV2 {
        ns := Some(VIRTUALIZATION_V2_NAMESPACE);
      }
    }
    assert |VIRTUALIZATION_V2_NAMESPACE| != |VIRTUALIZATION_NAMESPACE|;
  }

  /** A namespace the selection returns is never blank, so the blank check
      of the discovery fails exactly when there is no namespace. */
  lemma SelectedNamespaceIsNotBlank(host: HyperVHost)
    ensures IsNullOrWhiteSpace(HyperVNamespace(host)) <==> HyperVNamespace(host).None?
  {
    var ns := HyperVNamespace(host);
    if ns.Some? {
      assert !IsWhiteSpace(ns.value[0]);
    }
  }

  // ------------------------------------------------------ virtual machine names

  /** The names discovery keeps: the non-null, non-blank ones, in order. */
  function KeptNames(names: seq<Option<string>>): seq<string>
    decreases |names|
  {
    if names == [] then []
    else
      var last := names[|names| - 1];
      KeptNames(names[..|names| - 1]) + (if IsNullOrWhiteSpace(last) then [] else [last.value])
  }

  /** A name is kept exactly when it is listed and not blank. */
  lemma {:induction false} KeptNamesMembership(names: seq<Option<string>>, s: string)
    ensures s in KeptNames(names) <==> Some(s) in names && !IsNullOrWhiteSpace(Some(s))
    decreases |names|
  {
    if names != [] {
      var init := names[..|names| - 1];
      KeptNamesMembership(init, s);
      assert names == init + [names[|names| - 1]];
    }
  }

  /** Filtering commutes with concatenation: discovery keeps the order of
      the list, and never keeps more names than it is given. */
  lemma {:induction false} KeptNamesAppend(a: seq<Option<string>>, b: seq<Option<string>>)
    ensures KeptNames(a + b) == KeptNames(a) + KeptNames(b)
    ensures |KeptNames(a)| <= |a|
    decreases |b|, |a|
  {
    if b == [] {
      assert a + b == a;
      if a != [] {
        KeptNamesAppend(a[..|a| - 1], []);
      }
    } else {
      var init := b[..|b| - 1];
      assert (a + b)[..|a + b| - 1] == a + init;
      KeptNamesAppend(a, init);
    }
  }

  /** What GetLocalVMsNames returns or throws. */
  function LocalVmNames(host: HyperVHost): Result<seq<string>, TaskError> {
    if IsNullOrWhiteSpace(HyperVNamespace(host)) then Failure(DiscoveryFailure(NO_HYPER_V_NAMESPACE))
    else Success(KeptNames(host.elementNames))
  }

  /** GetLocalVMsNames: with no Hyper-V namespace it throws; otherwise it
      lists the guests' names, skipping null and blank ones. */
  method GetLocalVMsNames(host: HyperVHost) returns (r: Result<seq<string>, TaskError>)
    ensures r == LocalVmNames(host)
    ensures r.Failure? <==> !HasNamespace(host.rootNamespaces, "virtualization")
  {
    SelectedNamespaceIsNotBlank(host);
    var hvNamespace := GetHyperVNamespace(host);
    if IsNullOrWhiteSpace(hvNamespace) {
      return Failure(DiscoveryFailure(NO_HYPER_V_NAMESPACE));
    }
    var names := host.elementNames;
    var vmNames: seq<string> := [];
    for i := 0 to |names|
      invariant vmNames == KeptNames(names[..i])
    {
      assert names[..i + 1][..i] == names[..i];
      if !IsNullOrWhiteSpace(names[i]) {
        vmNames := vmNames + [names[i].value];
      }
    }
    assert names[..|names|] == names;
    r := Success(vmNames);
  }

  // ------------------------------------------------------------ default entries

  const DEFAULT_EXPORT_TEMPLATE :=
    "C:\\Backup\\{HV_HOST_FULL}\\{HV_GUEST_FULL}\\Daily_{YEAR}_{MONTH}_{DAY}_{HOUR}_{MINUTE}"
  const DEFAULT_ARCHIVE_TEMPLATE :=
    "C:\\Backup\\{HV_HOST_FULL}\\{HV_GUEST_FULL}\\{HV_HOST_SHORT}_HV_VM_{HV_GUEST_FULL}_export_{YEAR}.{MONTH}.{DAY}.{HOUR}.{MINUTE}.zip"

  /** The one schedule every generated entry gets: daily at midnight, and
      switched off until someone has checked the file. */
  const DISABLED_SCHEDULE := ScheduleConfig(
    "SimpleSchedules.DailySchedule", "00:00", false,
    "This schedule is disabled. Check Backup Task properties and after that enable this schedule.")

  /** The entry generated for a discovered machine. */
  function DefaultVm(name: string): VmSettings {
    VmSettings(name, DEFAULT_EXPORT_TEMPLATE, 2, true, DEFAULT_ARCHIVE_TEMPLATE, 1, 5, [DISABLED_SCHEDULE])
  }

  /** The entries generated for the discovered machines, in order. */
  function DefaultVms(names: seq<string>): seq<VmSettings> {
    seq(|names|, i requires 0 <= i < |names| => DefaultVm(names[i]))
  }

  /** CreateDefaultVMs: one default entry per name. */
  method CreateDefaultVMs(vmNames: seq<string>) returns (result: seq<VmSettings>)
    ensures result == DefaultVms(vmNames)
    ensures |result| == |vmNames|
    ensures forall i :: 0 <= i < |result| ==> result[i].name == vmNames[i]
  {
    result := [];
    for i := 0 to |vmNames|
      invariant result == DefaultVms(vmNames[..i])
    {
      result := result + [DefaultVm(vmNames[i])];
    }
    assert vmNames[..|vmNames|] == vmNames;
  }

  /** Every generated entry names its machine, keeps exports 2 days and
      archives 5, archives with compression level 1, and has exactly one
      schedule, which is a disabled daily one at midnight; so a generated
      task runs nothing until it is edited. */
  lemma GeneratedEntriesAreConservative(names: seq<string>)
    ensures |DefaultVms(names)| == |names|
    ensures forall i :: 0 <= i < |names| ==>
              var vm := DefaultVms(names)[i];
              && vm.name == names[i]
              && vm.exportRotateDays == 2 && vm.createArchive && vm.archiveCompressionLevel == 1
              && vm.archiveRotateDays == 5
              && vm.schedulesConfigs == [ScheduleConfig("SimpleSchedules.DailySchedule", "00:00", false, DISABLED_SCHEDULE.description)]
    ensures forall vm, sc :: vm in DefaultVms(names) && sc in vm.schedulesConfigs ==> !sc.enabled
  {
  }

  // ------------------------------------------------------------ the task file

  /** The task a missing file is generated with, or why it cannot be. */
  function GeneratedTask(host: HyperVHost): Result<BackupTask, TaskError> {
    match LocalVmNames(host)
    case Failure(e) => Failure(e)
    case Success(names) =>
      if |names| == 0 then Failure(DiscoveryFailure(NO_VIRTUAL_MACHINES))
      else Success(BackupTask(1, DefaultVms(names)))
  }

  /** A generated task runs one backup at a time and has one entry per
      kept name, in discovery order; it exists exactly when there is a
      Hyper-V namespace and at least one kept name. */
  lemma GeneratedTaskShape(host: HyperVHost)
    ensures GeneratedTask(host).Success? <==>
              HasNamespace(host.rootNamespaces, "virtualization") && KeptNames(host.elementNames) != []
    ensures GeneratedTask(host).Success? ==>
              && GeneratedTask(host).value.parallelBackups == 1
              && |GeneratedTask(host).value.virtualMachines| == |KeptNames(host.elementNames)|
              && forall i :: 0 <= i < |KeptNames(host.elementNames)| ==>
                   GeneratedTask(host).value.virtualMachines[i].name == KeptNames(host.elementNames)[i]
  {
    SelectedNamespaceIsNotBlank(host);
  }

  /** CreateNewBackupTaskFile: discovers the machines and writes the
      generated task to `path`; when discovery fails or finds no machine it
      throws and writes nothing. */
  method CreateNewBackupTaskFile(host: HyperVHost, path: string, fs: FileSystem)
    returns (r: Result<BackupTask, TaskError>, fs': FileSystem)
    ensures r == GeneratedTask(host)
    ensures r.Failure? ==> fs' == fs
    ensures r.Success? ==> fs' == fs[path := Some(r.value)]
  {
    fs' := fs;
    var localVMs := GetLocalVMsNames(host);
    if localVMs.Failure? {
      return Failure(localVMs.error), fs';
    }
    if |localVMs.value| == 0 {
      return Failure(DiscoveryFailure(NO_VIRTUAL_MACHINES)), fs';
    }
    var vms := CreateDefaultVMs(localVMs.value);
    var bt := BackupTask(1, vms);
    fs' := fs'[path := Some(bt)];
    r := Success(bt);
  }

  /** File.ReadAllText followed by deserialization. */
  function ReadTask(fs: FileSystem, path: string): (r: Result<BackupTask, TaskError>)
    requires path in fs
    ensures r.Success? ==> fs[path] == Some(r.value)
    ensures r.Failure? ==> fs[path].None? && r.error == UnreadableTaskFile(path)
  {
    if fs[path].Some? then Success(fs[path].value) else Failure(UnreadableTaskFile(path))
  }

  /** What GetBackupTaskFromLocalFile returns or throws, and the file system
      after it. */
  function LocalTaskOutcome(config: Option<string>, host: HyperVHost, fs: FileSystem)
    : (Result<BackupTask, TaskError>, FileSystem)
  {
    if IsNullOrWhiteSpace(config) then (Failure(InvalidConfig(CONFIG_MISSING)), fs)
    else if config.value in fs then (ReadTask(fs, config.value), fs)
    else match GeneratedTask(host)
      case Failure(e) => (Failure(e), fs)
      case Success(task) => (Success(task), fs[config.value := Some(task)])
  }

  /** GetBackupTaskFromLocalFile: `config` is the BackupTaskFile setting. */
  method GetBackupTaskFromLocalFile(config: Option<string>, host: HyperVHost, fs: FileSystem)
    returns (r: Result<BackupTask, TaskError>, fs': FileSystem)
    ensures (r, fs') == LocalTaskOutcome(config, host, fs)
    ensures IsNullOrWhiteSpace(config) ==> r == Failure(InvalidConfig(CONFIG_MISSING)) && fs' == fs
  {
    if IsNullOrWhiteSpace(config) {
      return Failure(InvalidConfig(CONFIG_MISSING)), fs;
    }
    var backupTaskFile := config.value;
    fs' := fs;
    if backupTaskFile !in fs' {
      var created;
      created, fs' := CreateNewBackupTaskFile(host, backupTaskFile, fs');
      if created.Failure? {
        return Failure(created.error), fs';
      }
    }
    r := ReadTask(fs', backupTaskFile);
  }

  /** GetBackupTask: the stand-alone branch is the only one taken. */
  method GetBackupTask(config: Option<string>, host: HyperVHost, fs: FileSystem)
    returns (r: Result<BackupTask, TaskError>, fs': FileSystem)
    ensures (r, fs') == LocalTaskOutcome(config, host, fs)
  {
    if IsStandAloneMode() {
      r, fs' := GetBackupTaskFromLocalFile(config, host, fs);
    } else {
      assert false;
    }
  }

  /** The file system changes only by the creation of a missing task file:
      an existing file is never rewritten, nothing else is touched, and the
      file written holds exactly the task returned. */
  lemma OnlyMissingFileIsWritten(config: Option<string>, host: HyperVHost, fs: FileSystem)
    ensures var (r, fs') := LocalTaskOutcome(config, host, fs);
            fs' == fs
            || (&& !IsNullOrWhiteSpace(config) && config.value !in fs
                && r.Success? && fs' == fs[config.value := Some(r.value)])
    ensures !IsNullOrWhiteSpace(config) && config.value in fs ==>
              LocalTaskOutcome(config, host, fs) == (ReadTask(fs, config.value), fs)
  {
  }

  /** Once a run has produced the task, every later run reads the same task
      back without touching the file system, whatever the host reports by
      then. */
  lemma SecondRunReadsSameTask(config: Option<string>, host: HyperVHost, later: HyperVHost, fs: FileSystem)
    requires LocalTaskOutcome(config, host, fs).0.Success?
    ensures var (r, fs') := LocalTaskOutcome(config, host, fs);
            LocalTaskOutcome(config, later, fs') == (r, fs')
  {
  }
}
