/**
 * BackupHyperV.Service/Impl/VmExporter.cs: exports one virtual machine through
 * the Hyper-V management service and drives the export job to a terminal
 * state.
 *
 * The Hyper-V side is an input: the ElementNames of the host's
 * Msvm_ComputerSystem instances, and what ExportSystemDefinition answers
 * (its return value and the job it started). The job is the finite list of
 * (JobState, PercentComplete) readings it shows: the first when the job
 * object is first read, one more after every Get(). The detailed errors that
 * GetErrorEx returns are lists of XML nodes, as the reader visits them.
 */
module VmExporter {
  import opened Primitives
  import opened Text
  import opened Models

  // ------------------------------------------------------------ job states

  /** The JobState values of Msvm_ConcreteJob. */
  datatype JobState =
    | New | Starting | Running | Suspended | ShuttingDown | Completed
    | Terminated | Killed | Exception | Service | CompletedWithWarnings

  /** ReturnCode.Completed: the method finished synchronously. */
  const RETURN_COMPLETED: uint32 := 0
  /** ReturnCode.Started: the method started an asynchronous job. */
  const RETURN_STARTED: uint32 := 4096

  /** The job has stopped, well or badly: every state but the six in which
      it is still pending or running. */
  predicate IsJobComplete(state: JobState): (b: bool)
    ensures !b <==> state.New? || state.Starting? || state.Running? || state.Suspended?
                    || state.ShuttingDown? || state.Service?
  {
    state == JobState.Completed || state == CompletedWithWarnings || state == Terminated
    || state == Exception || state == Killed
  }

  /** The job has stopped well: a successful job is complete, and a complete
      job that is not successful was terminated, raised an exception or was
      killed. */
  predicate IsJobSuccessful(state: JobState): (b: bool)
    ensures b ==> IsJobComplete(state)
    ensures IsJobComplete(state) && !b <==> state.Terminated? || state.Exception? || state.Killed?
  {
    state == JobState.Completed || state == CompletedWithWarnings
  }

  /** Terminal states are exactly the five listed; the successful ones are
      exactly two of them, so success implies completion. */
  lemma JobStateClassification(state: JobState)
    ensures IsJobComplete(state) <==> state in {JobState.Completed, CompletedWithWarnings, Terminated, Exception, Killed}
    ensures IsJobSuccessful(state) <==> state in {JobState.Completed, CompletedWithWarnings}
    ensures IsJobSuccessful(state) ==> IsJobComplete(state)
    ensures IsJobComplete(state) && !IsJobSuccessful(state) <==> state in {Terminated, Exception, Killed}
  {
  }

  // ----------------------------------------------------------- the job record

  /** One read of the job object. */
  datatype JobReading = JobReading(state: JobState, percentComplete: uint16)

  /** One node the XmlReader visits: its name, the values of its attributes
      in document order, and the text ReadElementContentAsString returns. */
  datatype XmlToken = XmlToken(name: string, attributes: seq<string>, content: string)

  /** What the Hyper-V job shows over its life. */
  datatype JobRecord = JobRecord(
    readings: seq<JobReading>,
    errorDescription: Option<string>,
    getErrorExReturn: uint32,
    errors: Option<seq<seq<XmlToken>>>)

  /** The output parameters of ExportSystemDefinition. */
  datatype ExportOutput = ExportOutput(returnValue: uint32, job: JobRecord)

  /** The exceptions the export lets escape. */
  datatype ExportError =
    | VirtualMachineNotFound(name: string)
    | ManagementFailure(message: string)
    | InvalidDirectoryPath(path: string)

  /** Source and message extracted from one Msvm_Error instance. */
  datatype ErrorDetail = ErrorDetail(source: string, message: string)

  /** The job reaches a terminal state at some reading. */
  predicate EventuallyComplete(readings: seq<JobReading>) {
    exists i :: 0 <= i < |readings| && IsJobComplete(readings[i].state)
  }

  /** The index of the first terminal reading. */
  function FirstComplete(readings: seq<JobReading>): (k: nat)
    requires EventuallyComplete(readings)
    ensures k < |readings| && IsJobComplete(readings[k].state)
    ensures forall j :: 0 <= j < k ==> !IsJobComplete(readings[j].state)
    decreases |readings|
  {
    if IsJobComplete(readings[0].state) then 0
    else
      var i :| 0 <= i < |readings| && IsJobComplete(readings[i].state);
      assert readings[1..][i - 1] == readings[i];
      1 + FirstComplete(readings[1..])
  }

  /** The percents the poll loop writes: those of the readings before the
      first terminal one, in order. */
  function PercentsBefore(readings: seq<JobReading>, k: nat): (ps: seq<int32>)
    requires k <= |readings|
    ensures |ps| == k
  {
    seq(k, j requires 0 <= j < k => readings[j].percentComplete as int32)
  }

  // ---------------------------------------------------------- Msvm_Error scan

  /** propId values of the scan. */
  const NO_PROPERTY: nat := 0
  const ERROR_SOURCE: nat := 1
  const MESSAGE: nat := 2

  /** The propId the scan holds right after visiting `t`: set by a PROPERTY
      node from its first attribute, reset by every other node. */
  function PropIdAfter(t: XmlToken): (id: nat)
    ensures id <= MESSAGE
    ensures id != NO_PROPERTY ==> EqualsIgnoreCase(t.name, "PROPERTY") && |t.attributes| > 0
  {
    if EqualsIgnoreCase(t.name, "PROPERTY") && |t.attributes| > 0 then
      if EqualsIgnoreCase(t.attributes[0], "ErrorSource") then ERROR_SOURCE
      else if EqualsIgnoreCase(t.attributes[0], "Message") then MESSAGE
      else NO_PROPERTY
    else NO_PROPERTY
  }

  /** The node at `i` is a VALUE node immediately preceded by a PROPERTY
      node naming the field `propId`: the scan assigns that field there. */
  predicate AssignsAt(tokens: seq<XmlToken>, i: int, propId: nat) {
    0 < i < |tokens|
    && EqualsIgnoreCase(tokens[i].name, "VALUE")
    && PropIdAfter(tokens[i - 1]) == propId
  }

  /** The field `propId` after the scan: the text of its last assignment, or
      the empty string when it is never assigned. */
  function LastAssigned(tokens: seq<XmlToken>, propId: nat): string
    decreases |tokens|
  {
    if tokens == [] then ""
    else if AssignsAt(tokens, |tokens| - 1, propId) then tokens[|tokens| - 1].content
    else LastAssigned(tokens[..|tokens| - 1], propId)
  }

  /** A field that no node assigns keeps its empty initial value. */
  lemma {:induction false} NeverAssignedStaysEmpty(tokens: seq<XmlToken>, propId: nat)
    requires forall i :: 0 <= i < |tokens| ==> !AssignsAt(tokens, i, propId)
    ensures LastAssigned(tokens, propId) == ""
    decreases |tokens|
  {
    if tokens != [] {
      var init := tokens[..|tokens| - 1];
      forall i | 0 <= i < |init| ensures !AssignsAt(init, i, propId) {
        assert AssignsAt(init, i, propId) ==> AssignsAt(tokens, i, propId);
      }
      NeverAssignedStaysEmpty(init, propId);
    }
  }

  /** A field holds the text of the last node that assigns it. */
  lemma {:induction false} LastAssignmentWins(tokens: seq<XmlToken>, propId: nat, i: nat)
    requires i < |tokens| && AssignsAt(tokens, i, propId)
    requires forall j :: i < j < |tokens| ==> !AssignsAt(tokens, j, propId)
    ensures LastAssigned(tokens, propId) == tokens[i].content
    decreases |tokens|
  {
    if i < |tokens| - 1 {
      var init := tokens[..|tokens| - 1];
      assert AssignsAt(init, i, propId);
      forall j | i < j < |init| ensures !AssignsAt(init, j, propId) {
        assert AssignsAt(init, j, propId) ==> AssignsAt(tokens, j, propId);
      }
      LastAssignmentWins(init, propId, i);
    }
  }

  /** The reader loop of PrintMsvmErrors over one error instance. */
  method ScanErrorTokens(tokens: seq<XmlToken>) returns (detail: ErrorDetail)
    ensures detail.source == LastAssigned(tokens, ERROR_SOURCE)
    ensures detail.message == LastAssigned(tokens, MESSAGE)
  {
    var errorSource := "";
    var errorMessage := "";
    var propId := NO_PROPERTY;
    var i := 0;
    while i < |tokens|
      invariant 0 <= i <= |tokens|
      invariant propId == if i == 0 then NO_PROPERTY else PropIdAfter(tokens[i - 1])
      invariant errorSource == LastAssigned(tokens[..i], ERROR_SOURCE)
      invariant errorMessage == LastAssigned(tokens[..i], MESSAGE)
    {
      var t := tokens[i];
      if EqualsIgnoreCase(t.name, "PROPERTY") {
        propId := NO_PROPERTY;
        if |t.attributes| > 0 {
          var propName := t.attributes[0];
          if EqualsIgnoreCase(propName, "ErrorSource") {
            propId := ERROR_SOURCE;
          } else if EqualsIgnoreCase(propName, "Message") {
            propId := MESSAGE;
          }
        }
      } else if EqualsIgnoreCase(t.name, "VALUE") {
        if propId == ERROR_SOURCE {
          errorSource := t.content;
        } else if propId == MESSAGE {
          errorMessage := t.content;
        }
        propId := NO_PROPERTY;
      } else {
        propId := NO_PROPERTY;
      }
      assert tokens[..i + 1][..i] == tokens[..i];
      i := i + 1;
    }
    assert tokens[..|tokens|] == tokens;
    detail := ErrorDetail(errorSource, errorMessage);
  }

  /** PrintMsvmErrors: asks the job for its errors and extracts source and
      message from each (the lines it logs). */
  method PrintMsvmErrors(job: JobRecord) returns (r: Result<seq<ErrorDetail>, ExportError>)
    ensures job.getErrorExReturn != RETURN_COMPLETED ==>
              r == Failure(ManagementFailure("GetErrorEx() call on the job failed"))
    ensures job.getErrorExReturn == RETURN_COMPLETED && job.errors.None? ==> r == Success([])
    ensures job.getErrorExReturn == RETURN_COMPLETED && job.errors.Some? ==>
              r.Success? && |r.value| == |job.errors.value|
              && forall i :: 0 <= i < |r.value| ==>
                   r.value[i] == ErrorDetail(LastAssigned(job.errors.value[i], ERROR_SOURCE),
                                             LastAssigned(job.errors.value[i], MESSAGE))
  {
    if job.getErrorExReturn != RETURN_COMPLETED {
      return Failure(ManagementFailure("GetErrorEx() call on the job failed"));
    }
    if job.errors.None? {
      return Success([]);
    }
    var errorList := job.errors.value;
    var details: seq<ErrorDetail> := [];
    for i := 0 to |errorList|
      invariant |details| == i
      invariant forall j :: 0 <= j < i ==>
                  details[j] == ErrorDetail(LastAssigned(errorList[j], ERROR_SOURCE),
                                            LastAssigned(errorList[j], MESSAGE))
    {
      var detail := ScanErrorTokens(errorList[i]);
      details := details + [detail];
    }
    r := Success(details);
  }

  // ------------------------------------------------------------ ValidateOutput

  /** What ValidateOutput returns (or throws) for a call's output. */
  function ValidationOutcome(output: ExportOutput, throwIfFailed: bool, printErrors: bool): Result<bool, ExportError>
    requires output.returnValue == RETURN_STARTED ==> EventuallyComplete(output.job.readings)
  {
    var job := output.job;
    if output.returnValue == RETURN_STARTED then
      if IsJobSuccessful(job.readings[FirstComplete(job.readings)].state) then Success(true)
      else if printErrors && job.getErrorExReturn != RETURN_COMPLETED then
        Failure(ManagementFailure("GetErrorEx() call on the job failed"))
      else if throwIfFailed then
        Failure(ManagementFailure(
          if IsNullOrWhiteSpace(job.errorDescription) then "The method call failed."
          else job.errorDescription.value))
      else Success(false)
    else if output.returnValue != RETURN_COMPLETED then
      if throwIfFailed then Failure(ManagementFailure("The method call failed.")) else Success(false)
    else Success(true)
  }

  /** The percents ValidateOutput writes to ExportPercentComplete. */
  function PolledPercents(output: ExportOutput): seq<int32>
    requires output.returnValue == RETURN_STARTED ==> EventuallyComplete(output.job.readings)
  {
    if output.returnValue == RETURN_STARTED then
      PercentsBefore(output.job.readings, FirstComplete(output.job.readings))
    else []
  }

  /** A synchronous completion succeeds without polling. */
  lemma CompletedCallSkipsPolling(output: ExportOutput, throwIfFailed: bool, printErrors: bool)
    requires output.returnValue == RETURN_COMPLETED
    ensures ValidationOutcome(output, throwIfFailed, printErrors) == Success(true)
    ensures PolledPercents(output) == []
  {
  }

  /** Any other code than Started or Completed fails without polling, and
      without throwing unless asked to. */
  lemma OtherCodeFails(output: ExportOutput, throwIfFailed: bool, printErrors: bool)
    requires output.returnValue != RETURN_STARTED && output.returnValue != RETURN_COMPLETED
    ensures !throwIfFailed ==> ValidationOutcome(output, throwIfFailed, printErrors) == Success(false)
    ensures throwIfFailed ==> ValidationOutcome(output, throwIfFailed, printErrors).Failure?
    ensures PolledPercents(output) == []
  {
  }

  /** A started job's outcome is decided by its first terminal reading; with
      throwIfFailed false, the only exception left is a failed GetErrorEx. */
  lemma StartedJobOutcome(output: ExportOutput, printErrors: bool)
    requires output.returnValue == RETURN_STARTED && EventuallyComplete(output.job.readings)
    ensures var k := FirstComplete(output.job.readings);
            var outcome := ValidationOutcome(output, false, printErrors);
            && (outcome.Success? ==> outcome.value == IsJobSuccessful(output.job.readings[k].state))
            && (outcome.Failure? <==>
                  !IsJobSuccessful(output.job.readings[k].state) && printErrors
                  && output.job.getErrorExReturn != RETURN_COMPLETED)
  {
  }

  /** For a started job the poll writes the percent of every reading before
      the first terminal one, in order, and never the terminal reading's. */
  lemma PollWritesNonTerminalPercents(output: ExportOutput)
    requires output.returnValue == RETURN_STARTED && EventuallyComplete(output.job.readings)
    ensures var ps := PolledPercents(output);
            var readings := output.job.readings;
            && |ps| < |readings|
            && IsJobComplete(readings[|ps|].state)
            && forall j :: 0 <= j < |ps| ==>
                 !IsJobComplete(readings[j].state) && ps[j] == readings[j].percentComplete as int32
  {
  }

  /** ValidateOutput: classifies the call's return value and, for a started
      job, polls until the first terminal reading, copying the percent of
      every earlier reading to the machine. */
  method ValidateOutput(vm: VirtualMachine, output: ExportOutput, throwIfFailed: bool, printErrors: bool)
    returns (r: Result<bool, ExportError>)
    requires output.returnValue == RETURN_STARTED ==> EventuallyComplete(output.job.readings)
    modifies vm`exportPercentComplete, vm`exportPercentWrites
    ensures r == ValidationOutcome(output, throwIfFailed, printErrors)
    ensures vm.exportPercentWrites == old(vm.exportPercentWrites) + PolledPercents(output)
    ensures vm.exportPercentComplete ==
              if PolledPercents(output) == [] then old(vm.exportPercentComplete)
              else PolledPercents(output)[|PolledPercents(output)| - 1]
  {
    var succeeded := true;
    var errorMessage := "The method call failed.";

    if output.returnValue == RETURN_STARTED {
      var job := output.job;
      ghost var k := FirstComplete(job.readings);
      var i := 0;
      while !IsJobComplete(job.readings[i].state)
        invariant 0 <= i <= k
        invariant vm.exportPercentWrites == old(vm.exportPercentWrites) + PercentsBefore(job.readings, i)
        invariant vm.exportPercentComplete ==
                    if i == 0 then old(vm.exportPercentComplete) else job.readings[i - 1].percentComplete as int32
        decreases k - i
      {
        vm.SetExportPercentComplete(job.readings[i].percentComplete as int32);
        // Thread.Sleep(500), then job.Get() refreshes the job to its next reading.
        i := i + 1;
      }
      assert i == k;
      if !IsJobSuccessful(job.readings[i].state) {
        succeeded := false;
        if !IsNullOrWhiteSpace(job.errorDescription) {
          errorMessage := job.errorDescription.value;
        }
        if printErrors {
          var printed := PrintMsvmErrors(job);
          if printed.Failure? {
            return Failure(printed.error);
          }
        }
        if throwIfFailed {
          return Failure(ManagementFailure(errorMessage));
        }
      }
    } else if output.returnValue != RETURN_COMPLETED {
      succeeded := false;
      if throwIfFailed {
        return Failure(ManagementFailure(errorMessage));
      }
    }
    r := Success(succeeded);
  }

  // ------------------------------------------------------ ExportVirtualSystem

  /** GetVirtualMachine: the first computer system whose ElementName matches
      (WQL compares strings without regard to case), or the not-found
      exception. */
  function GetVirtualMachine(systems: seq<string>, name: string): (r: Result<nat, ExportError>)
    ensures r.Success? ==> r.value < |systems| && EqualsIgnoreCase(systems[r.value], name)
                           && forall j :: 0 <= j < r.value ==> !EqualsIgnoreCase(systems[j], name)
    ensures r.Failure? ==> r.error == VirtualMachineNotFound(name)
                           && forall j :: 0 <= j < |systems| ==> !EqualsIgnoreCase(systems[j], name)
    decreases |systems|
  {
    if systems == [] then Failure(VirtualMachineNotFound(name))
    else if EqualsIgnoreCase(systems[0], name) then Success(0)
    else match GetVirtualMachine(systems[1..], name)
      case Success(k) => Success(k + 1)
      case Failure(e) => Failure(e)
  }

  /** A path with no character but spaces: Directory.Exists reports it
      missing and Directory.CreateDirectory rejects it with an
      ArgumentException. */
  predicate EffectivelyEmpty(path: string) {
    forall i :: 0 <= i < |path| ==> path[i] == ' '
  }

  /** The directories Directory.CreateDirectory(path) makes sure of: the path
      itself and every ancestor, that is every non-empty prefix that stops
      just before a separator. */
  function DirectoryChain(path: string): (chain: set<string>)
    ensures path != [] ==> path in chain
    ensures forall i :: 0 < i < |path| && path[i] == DirectorySeparator ==> path[..i] in chain
    ensures forall d :: d in chain ==>
              0 < |d| <= |path| && d == path[..|d|] && (|d| == |path| || path[|d|] == DirectorySeparator)
  {
    var chain := set i | 0 < i <= |path| && (i == |path| || path[i] == DirectorySeparator) :: path[..i];
    assert path[..|path|] == path;
    chain
  }

  /** `if (!Directory.Exists(path)) Directory.CreateDirectory(path);` for a
      path that is not effectively empty: afterwards the path exists, nothing
      existing is lost, and whatever is new is the path or an ancestor. */
  function EnsureDirectory(directories: set<string>, path: string): (r: set<string>)
    requires !EffectivelyEmpty(path)
    ensures path in r && directories <= r
    ensures forall d :: d in r && d !in directories ==>
              |d| <= |path| && d == path[..|d|] && (|d| == |path| || path[|d|] == DirectorySeparator)
  {
    if path in directories then directories else directories + DirectoryChain(path)
  }

  /** `if (!Directory.Exists(path)) Directory.CreateDirectory(path);`: an
      effectively empty path does not exist and cannot be created, so it
      throws; any other path exists afterwards, with its ancestors. */
  method CreateExportDirectory(directories: set<string>, path: string)
    returns (r: Result<(), ExportError>, directories': set<string>)
    ensures EffectivelyEmpty(path) <==> r.Failure?
    ensures r.Failure? ==> r.error == InvalidDirectoryPath(path) && directories' == directories
    ensures r.Success? ==> directories' == EnsureDirectory(directories, path)
    ensures r.Success? ==> path in directories' && directories <= directories'
  {
    if EffectivelyEmpty(path) {
      return Failure(InvalidDirectoryPath(path)), directories;
    }
    r := Success(());
    directories' := directories;
    if path !in directories' {
      directories' := directories' + DirectoryChain(path);
    }
  }

  /** The path the ExportPath getter returns given the cached value: the
      cache when it is not blank, otherwise the export template resolved now. */
  function ExportPathRead(cached: Option<string>, settings: VmSettings, env: HostEnvironment, now: DateTime): (path: string)
    ensures !IsNullOrWhiteSpace(cached) ==> Some(path) == cached && !EffectivelyEmpty(path)
  {
    if IsNullOrWhiteSpace(cached) then ReplacePlaceholders(settings.exportPathTemplate, settings.name, env, now)
    else cached.value
  }

  /** The export percent once the export returns: 100 when validation
      returned, otherwise the last percent written (the poll's last, or the
      initial 0). */
  function LastWritten(polled: seq<int32>, initial: int32, returned: bool): (p: int32)
    ensures returned ==> p == 100
    ensures !returned && polled == [] ==> p == initial
    ensures !returned && polled != [] ==> p == polled[|polled| - 1]
  {
    if returned then 100 else if polled == [] then initial else polled[|polled| - 1]
  }

  /** The directory steps of ExportVirtualSystem: read the machine's export
      path, create the directory when it does not exist, and read the path
      again for the request's ExportDirectory; both reads give the same path. */
  method PrepareExportDirectory(vm: VirtualMachine, env: HostEnvironment, now: DateTime, later: DateTime,
                                directories: set<string>)
    returns (r: Result<string, ExportError>, directories': set<string>)
    modifies vm`exportPath
    ensures vm.exportPath == Some(ExportPathRead(old(vm.exportPath), vm.settings, env, now))
    ensures r.Failure? <==> EffectivelyEmpty(ExportPathRead(old(vm.exportPath), vm.settings, env, now))
    ensures r.Failure? ==>
              r.error == InvalidDirectoryPath(ExportPathRead(old(vm.exportPath), vm.settings, env, now))
              && directories' == directories
    ensures r.Success? ==>
              r.value == ExportPathRead(old(vm.exportPath), vm.settings, env, now)
              && directories' == EnsureDirectory(directories, r.value)
  {
    var exportPath := vm.ExportPath(env, now);
    var created;
    created, directories' := CreateExportDirectory(directories, exportPath);
    if created.Failure? {
      return Failure(created.error), directories';
    }
    ghost var cached := vm.exportPath;
    var exportDirectory := vm.ExportPath(env, later);
    if IsNullOrWhiteSpace(cached) {
      // A blank first resolution used no date field.
      BlankResolutionIgnoresClock(vm.settings.exportPathTemplate, vm.settings.name, env, now, later);
    }
    assert exportDirectory == exportPath;
    r := Success(exportDirectory);
  }

  /** The last steps of ExportVirtualSystem: validate the hypervisor's answer
      (throwing on every failure) and, unless that threw, set the percent to 100. */
  method SubmitExport(vm: VirtualMachine, output: ExportOutput) returns (r: Result<bool, ExportError>)
    requires output.returnValue == RETURN_STARTED ==> EventuallyComplete(output.job.readings)
    modifies vm`exportPercentComplete, vm`exportPercentWrites
    ensures r == ValidationOutcome(output, false, true)
    ensures vm.exportPercentWrites == old(vm.exportPercentWrites) + PolledPercents(output)
                                      + (if r.Success? then [100] else [])
    ensures vm.exportPercentComplete == LastWritten(PolledPercents(output), old(vm.exportPercentComplete), r.Success?)
  {
    r := ValidateOutput(vm, output, false, true);
    if r.Failure? {
      assert vm.exportPercentWrites + [] == vm.exportPercentWrites;
      return;
    }
    vm.SetExportPercentComplete(100);
  }

  /** ExportVirtualSystem: resets the percent, finds the machine, makes sure
      the export directory exists, submits the export and validates it
      (throwIfFailed false, printErrors true), and sets the percent to 100
      when validation returns. `now` and `later` are the clock at the two
      reads of ExportPath; `directories` the existing directories. */
  method ExportVirtualSystem(
    vm: VirtualMachine, systems: seq<string>, env: HostEnvironment, now: DateTime, later: DateTime,
    directories: set<string>, output: ExportOutput)
    returns (r: Result<bool, ExportError>, directories': set<string>)
    requires output.returnValue == RETURN_STARTED ==> EventuallyComplete(output.job.readings)
    modifies vm`exportPercentComplete, vm`exportPercentWrites, vm`exportPath
    ensures GetVirtualMachine(systems, vm.settings.name).Failure? ==>
              && r == Failure(VirtualMachineNotFound(vm.settings.name))
              && directories' == directories
              && vm.exportPath == old(vm.exportPath)
              && vm.exportPercentComplete == 0
              && vm.exportPercentWrites == old(vm.exportPercentWrites) + [0]
    ensures GetVirtualMachine(systems, vm.settings.name).Success? ==>
              vm.exportPath == Some(ExportPathRead(old(vm.exportPath), vm.settings, env, now))
    ensures GetVirtualMachine(systems, vm.settings.name).Success?
            && EffectivelyEmpty(ExportPathRead(old(vm.exportPath), vm.settings, env, now)) ==>
              && r == Failure(InvalidDirectoryPath(ExportPathRead(old(vm.exportPath), vm.settings, env, now)))
              && directories' == directories
              && vm.exportPercentComplete == 0
              && vm.exportPercentWrites == old(vm.exportPercentWrites) + [0]
    ensures GetVirtualMachine(systems, vm.settings.name).Success?
            && !EffectivelyEmpty(ExportPathRead(old(vm.exportPath), vm.settings, env, now)) ==>
              && r == ValidationOutcome(output, false, true)
              && directories' == EnsureDirectory(directories, ExportPathRead(old(vm.exportPath), vm.settings, env, now))
    ensures GetVirtualMachine(systems, vm.settings.name).Success?
            && !EffectivelyEmpty(ExportPathRead(old(vm.exportPath), vm.settings, env, now)) ==>
              && vm.exportPercentWrites == old(vm.exportPercentWrites) + [0] + PolledPercents(output)
                                           + (if r.Success? then [100] else [])
              && vm.exportPercentComplete == LastWritten(PolledPercents(output), 0, r.Success?)
  {
    vm.SetExportPercentComplete(0);
    directories' := directories;

    var found := GetVirtualMachine(systems, vm.settings.name);
    if found.Failure? {
      return Failure(found.error), directories';
    }

    var prepared;
    prepared, directories' := PrepareExportDirectory(vm, env, now, later, directories');
    if prepared.Failure? {
      return Failure(prepared.error), directories';
    }

    r := SubmitExport(vm, output);
  }

  /** The export reports success exactly when the call completed at once or
      started a job whose first terminal state is a successful one. */
  lemma ExportSucceedsIff(output: ExportOutput)
    requires output.returnValue == RETURN_STARTED ==> EventuallyComplete(output.job.readings)
    ensures ValidationOutcome(output, false, true) == Success(true) <==>
              output.returnValue == RETURN_COMPLETED
              || (output.returnValue == RETURN_STARTED
                  && IsJobSuccessful(output.job.readings[FirstComplete(output.job.readings)].state))
  {
  }

  /** A started job read as Running at 40 and 70 percent, then Completed:
      the export succeeds, and 40 and 70 are the percents the poll writes. */
  lemma ThreePollsScenario(description: Option<string>, errors: Option<seq<seq<XmlToken>>>, code: uint32)
    ensures var job := JobRecord([JobReading(Running, 40), JobReading(Running, 70), JobReading(JobState.Completed, 100)],
                                 description, code, errors);
            var output := ExportOutput(RETURN_STARTED, job);
            EventuallyComplete(job.readings)
            && ValidationOutcome(output, false, true) == Success(true)
            && PolledPercents(output) == [40, 70]
  {
    var readings := [JobReading(Running, 40), JobReading(Running, 70), JobReading(JobState.Completed, 100)];
    assert IsJobComplete(readings[2].state);
    assert FirstComplete(readings) == 2;
  }
}
