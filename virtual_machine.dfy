/**
 * BackupHyperV.Service/Models/VirtualMachine.cs: one virtual machine's backup
 * job. Its persisted settings (what the task file holds) are a value; the
 * runtime fields (status, the two percent counters and the two resolved
 * paths, computed lazily and then kept for the rest of the run) live in the
 * class VirtualMachine.
 *
 * The clock (DateTime.Now), the machine name (Environment.MachineName) and
 * the DNS domain (IPGlobalProperties.DomainName) are parameters.
 */
module Models {
  import opened Primitives
  import opened Text

  // ------------------------------------------------------------------ values

  /** The local time fields ReplacePlaceholders reads from DateTime.Now. */
  datatype DateTime = DateTime(year: nat, month: nat, day: nat, hour: nat, minute: nat, second: nat)

  /** The ranges of a System.DateTime. */
  predicate ValidDateTime(dt: DateTime) {
    1 <= dt.year <= 9999 && 1 <= dt.month <= 12 && 1 <= dt.day <= 31
    && dt.hour < 24 && dt.minute < 60 && dt.second < 60
  }

  /** What the host reports about itself: Environment.MachineName and the DNS
      domain name of IPGlobalProperties (null when unknown). */
  datatype HostEnvironment = HostEnvironment(machineName: string, domainName: Option<string>)

  /** Status of a backup job (the enum BackupJobStatus, declared outside the
      modelled files); Idle is its zero value. */
  datatype BackupJobStatus = Idle | Exporting | Archiving | RotatingRetention | Completed | Failed

  /** A schedule entry of the task file (SimpleSchedules.ScheduleConfig). */
  datatype ScheduleConfig = ScheduleConfig(scheduleType: string, occursOnceAt: string, enabled: bool, description: string)

  /** The persisted properties of a VirtualMachine, as the task file holds them. */
  datatype VmSettings = VmSettings(
    name: string,
    exportPathTemplate: string,
    exportRotateDays: uint32,
    createArchive: bool,
    archivePathTemplate: string,
    archiveCompressionLevel: int32,
    archiveRotateDays: uint32,
    schedulesConfigs: seq<ScheduleConfig>)

  /** The whole task file: how many backups may run at once and the machines. */
  datatype BackupTask = BackupTask(parallelBackups: uint32, virtualMachines: seq<VmSettings>)

  // ------------------------------------------------------------- host names

  /** name.Split('.')[0]: the part of the name before its first '.'. */
  function GetShortName(name: string): (r: string)
    ensures |r| <= |name| && r == name[..|r|]
    ensures '.' !in r
    ensures |r| == |name| || name[|r|] == '.'
    decreases |name|
  {
    if name == [] || name[0] == '.' then []
    else
      var rest := GetShortName(name[1..]);
      assert name[..|rest| + 1] == [name[0]] + name[1..][..|rest|];
      [name[0]] + rest
  }

  /** A name without '.' is its own short name. */
  lemma {:induction false} ShortNameWithoutDot(name: string)
    requires '.' !in name
    ensures GetShortName(name) == name
    decreases |name|
  {
    if name != [] {
      assert name[0] in name;
      assert forall c :: c in name[1..] ==> c in name;
      ShortNameWithoutDot(name[1..]);
    }
  }

  /** The lower-cased machine name, followed by "." and the domain when the
      domain is neither null nor white space. */
  function GetCurrentServerFQDN(env: HostEnvironment): (r: string)
    ensures IsNullOrWhiteSpace(env.domainName) <==> r == ToLower(env.machineName)
    ensures !IsNullOrWhiteSpace(env.domainName) ==>
              r == ToLower(env.machineName) + "." + env.domainName.value
  {
    var srv := ToLower(env.machineName);
    if IsNullOrWhiteSpace(env.domainName) then srv else srv + "." + env.domainName.value
  }

  lemma {:induction false} ShortNameOfDotted(a: string, b: string)
    requires '.' !in a
    ensures GetShortName(a + "." + b) == a
    decreases |a|
  {
    if a != [] {
      assert (a + "." + b)[1..] == a[1..] + "." + b;
      ShortNameOfDotted(a[1..], b);
    }
  }

  /** For a machine name without '.', the short form of the host's fully
      qualified name is the {HV_HOST_SHORT} value: the lower-cased machine name. */
  lemma ShortNameOfServerFQDN(env: HostEnvironment)
    requires '.' !in env.machineName
    ensures GetShortName(GetCurrentServerFQDN(env)) == ToLower(env.machineName)
  {
    var srv := ToLower(env.machineName);
    assert '.' !in srv by {
      forall i | 0 <= i < |srv| ensures srv[i] != '.' {
        assert env.machineName[i] != '.';
      }
    }
    if IsNullOrWhiteSpace(env.domainName) {
      ShortNameWithoutDot(srv);
    } else {
      ShortNameOfDotted(srv, env.domainName.value);
    }
  }

  // ------------------------------------------------------------ placeholders

  const HV_HOST_FULL := "{HV_HOST_FULL}"
  const HV_HOST_SHORT := "{HV_HOST_SHORT}"
  const HV_GUEST_FULL := "{HV_GUEST_FULL}"
  const HV_GUEST_SHORT := "{HV_GUEST_SHORT}"
  const YEAR := "{YEAR}"
  const MONTH := "{MONTH}"
  const DAY := "{DAY}"
  const HOUR := "{HOUR}"
  const MINUTE := "{MINUTE}"
  const SECOND := "{SECOND}"

  /** Path.DirectorySeparatorChar on the Windows hosts the service runs on. */
  const DirectorySeparator := '\\'

  /** The ten placeholders a path template may hold. */
  const Placeholders: seq<string> :=
    [HV_HOST_FULL, HV_HOST_SHORT, HV_GUEST_FULL, HV_GUEST_SHORT, YEAR, MONTH, DAY, HOUR, MINUTE, SECOND]

  /** A list of (placeholder, value) pairs, applied in order. */
  predicate ValidPatterns(subs: seq<(string, string)>) {
    forall k :: 0 <= k < |subs| ==> |subs[k].0| > 0
  }

  /** Pairs whose placeholders hold no digit and whose values are non-empty
      digit strings, as the date fields are. */
  predicate DigitSubstitutions(subs: seq<(string, string)>) {
    forall k :: 0 <= k < |subs| ==>
      |subs[k].0| > 0 && NoDigits(subs[k].0) && |subs[k].1| > 0 && AllDigits(subs[k].1)
  }

  /** One String.Replace per pair, in list order. */
  function SubstituteAll(s: string, subs: seq<(string, string)>): string
    requires ValidPatterns(subs)
    decreases |subs|
  {
    if subs == [] then s else SubstituteAll(ReplaceAll(s, subs[0].0, subs[0].1), subs[1..])
  }

  /** The first four replacements: host and guest names. */
  function NameSubstitutions(name: string, env: HostEnvironment): (subs: seq<(string, string)>)
    ensures ValidPatterns(subs)
  {
    [(HV_HOST_FULL, GetCurrentServerFQDN(env)),
     (HV_HOST_SHORT, ToLower(env.machineName)),
     (HV_GUEST_FULL, name),
     (HV_GUEST_SHORT, GetShortName(name))]
  }

  /** The last six replacements: the date fields, zero-padded. */
  function DateSubstitutions(now: DateTime): (subs: seq<(string, string)>)
    ensures DigitSubstitutions(subs) && ValidPatterns(subs)
  {
    [(YEAR, ZeroPad(now.year, 4)),
     (MONTH, ZeroPad(now.month, 2)),
     (DAY, ZeroPad(now.day, 2)),
     (HOUR, ZeroPad(now.hour, 2)),
     (MINUTE, ZeroPad(now.minute, 2)),
     (SECOND, ZeroPad(now.second, 2))]
  }

  /** VirtualMachine.ReplacePlaceholders: the ten replacements in source order,
      then every trailing directory separator removed. */
  function ReplacePlaceholders(template: string, name: string, env: HostEnvironment, now: DateTime): (r: string)
    ensures r == [] || r[|r| - 1] != DirectorySeparator
  {
    var withNames := SubstituteAll(template, NameSubstitutions(name, env));
    TrimEnd(SubstituteAll(withNames, DateSubstitutions(now)), DirectorySeparator)
  }

  // ---------------------------------------------- lemmas about SubstituteAll

  lemma {:induction false} SubstituteAllWithoutPatterns(s: string, subs: seq<(string, string)>)
    requires ValidPatterns(subs)
    requires forall k :: 0 <= k < |subs| ==> !Contains(s, subs[k].0)
    ensures SubstituteAll(s, subs) == s
    decreases |subs|
  {
    if subs != [] {
      ReplaceAllWithoutOccurrence(s, subs[0].0, subs[0].1);
      SubstituteAllWithoutPatterns(s, subs[1..]);
    }
  }

  lemma {:induction false} SubstituteAllKeepsAbsent(s: string, subs: seq<(string, string)>, p: string)
    requires DigitSubstitutions(subs) && ValidPatterns(subs)
    requires |p| > 0 && NoDigits(p) && !Contains(s, p)
    ensures !Contains(SubstituteAll(s, subs), p)
    decreases |subs|
  {
    if subs != [] {
      ReplaceAllKeepsAbsent(s, subs[0].0, subs[0].1, p);
      SubstituteAllKeepsAbsent(ReplaceAll(s, subs[0].0, subs[0].1), subs[1..], p);
    }
  }

  /** After digit substitutions none of their placeholders is left. */
  lemma {:induction false} SubstituteAllRemovesPatterns(s: string, subs: seq<(string, string)>)
    requires DigitSubstitutions(subs) && ValidPatterns(subs)
    ensures forall k :: 0 <= k < |subs| ==> !Contains(SubstituteAll(s, subs), subs[k].0)
    decreases |subs|
  {
    if subs != [] {
      var s' := ReplaceAll(s, subs[0].0, subs[0].1);
      ReplaceAllRemovesPattern(s, subs[0].0, subs[0].1);
      SubstituteAllKeepsAbsent(s', subs[1..], subs[0].0);
      SubstituteAllRemovesPatterns(s', subs[1..]);
      forall k | 1 <= k < |subs| ensures !Contains(SubstituteAll(s, subs), subs[k].0) {
        assert subs[1..][k - 1] == subs[k];
      }
    }
  }

  lemma {:induction false} SubstituteAllKeepsDigit(s: string, subs: seq<(string, string)>)
    requires DigitSubstitutions(subs) && ValidPatterns(subs) && HasDigit(s)
    ensures HasDigit(SubstituteAll(s, subs))
    decreases |subs|
  {
    if subs != [] {
      ReplaceAllKeepsDigit(s, subs[0].0, subs[0].1);
      SubstituteAllKeepsDigit(ReplaceAll(s, subs[0].0, subs[0].1), subs[1..]);
    }
  }

  /** A digit-free outcome of digit substitutions means that none of their
      placeholders was present in the input. */
  lemma {:induction false} DigitFreeOutcomeHadNoPatterns(s: string, subs: seq<(string, string)>)
    requires DigitSubstitutions(subs) && ValidPatterns(subs)
    ensures !HasDigit(SubstituteAll(s, subs)) ==>
              forall k :: 0 <= k < |subs| ==> !Contains(s, subs[k].0)
    decreases |subs|
  {
    if subs != [] && !HasDigit(SubstituteAll(s, subs)) {
      var s' := ReplaceAll(s, subs[0].0, subs[0].1);
      if Contains(s, subs[0].0) {
        ReplaceAllIntroducesDigit(s, subs[0].0, subs[0].1);
        SubstituteAllKeepsDigit(s', subs[1..]);
      } else {
        ReplaceAllWithoutOccurrence(s, subs[0].0, subs[0].1);
        DigitFreeOutcomeHadNoPatterns(s, subs[1..]);
        forall k | 1 <= k < |subs| ensures !Contains(s, subs[k].0) {
          assert subs[1..][k - 1] == subs[k];
        }
      }
    }
  }

  // ---------------------------------------- properties of ReplacePlaceholders

  /** Every occurrence of every date placeholder is replaced: none is left in
      the resolved path, whatever the names substituted before them hold. */
  lemma DatePlaceholdersReplaced(template: string, name: string, env: HostEnvironment, now: DateTime)
    ensures forall p :: p in [YEAR, MONTH, DAY, HOUR, MINUTE, SECOND] ==>
              !Contains(ReplacePlaceholders(template, name, env, now), p)
  {
    var withNames := SubstituteAll(template, NameSubstitutions(name, env));
    var subs := DateSubstitutions(now);
    var full := SubstituteAll(withNames, subs);
    SubstituteAllRemovesPatterns(withNames, subs);
    var r := ReplacePlaceholders(template, name, env, now);
    var dates := [YEAR, MONTH, DAY, HOUR, MINUTE, SECOND];
    forall p | p in dates ensures !Contains(r, p) {
      var k :| 0 <= k < |dates| && dates[k] == p;
      assert subs[k].0 == p;
      NotContainsPrefix(full, p, |r|);
    }
  }

  /** The date values are zero-padded: the year to four digits and the other
      fields to two, each reading back as the field it was made from. */
  lemma DateFieldsZeroPadded(now: DateTime)
    requires ValidDateTime(now)
    ensures var subs := DateSubstitutions(now);
      && |subs[0].1| == 4 && DigitsValue(subs[0].1) == now.year
      && |subs[1].1| == 2 && DigitsValue(subs[1].1) == now.month
      && |subs[2].1| == 2 && DigitsValue(subs[2].1) == now.day
      && |subs[3].1| == 2 && DigitsValue(subs[3].1) == now.hour
      && |subs[4].1| == 2 && DigitsValue(subs[4].1) == now.minute
      && |subs[5].1| == 2 && DigitsValue(subs[5].1) == now.second
  {
    assert Pow10(2) == 100;
    assert Pow10(4) == 10000;
    var subs := DateSubstitutions(now);
    assert subs[0].1 == ZeroPad(now.year, 4) && subs[1].1 == ZeroPad(now.month, 2)
        && subs[2].1 == ZeroPad(now.day, 2) && subs[3].1 == ZeroPad(now.hour, 2)
        && subs[4].1 == ZeroPad(now.minute, 2) && subs[5].1 == ZeroPad(now.second, 2);
    ZeroPadRoundTrip(now.year, 4);
    ZeroPadRoundTrip(now.month, 2);
    ZeroPadRoundTrip(now.day, 2);
    ZeroPadRoundTrip(now.hour, 2);
    ZeroPadRoundTrip(now.minute, 2);
    ZeroPadRoundTrip(now.second, 2);
  }

  /** A template with none of the ten placeholders and no trailing separator
      resolves to itself. */
  lemma TemplateWithoutPlaceholdersUnchanged(template: string, name: string, env: HostEnvironment, now: DateTime)
    requires forall p :: p in Placeholders ==> !Contains(template, p)
    requires template == [] || template[|template| - 1] != DirectorySeparator
    ensures ReplacePlaceholders(template, name, env, now) == template
  {
    var names := NameSubstitutions(name, env);
    var dates := DateSubstitutions(now);
    assert forall k :: 0 <= k < |names| ==> names[k].0 == Placeholders[k];
    assert forall k :: 0 <= k < |dates| ==> dates[k].0 == Placeholders[k + 4];
    SubstituteAllWithoutPatterns(template, names);
    SubstituteAllWithoutPatterns(template, dates);
  }

  /** The date placeholders searched for do not depend on the clock. */
  lemma DatePatternsIgnoreClock(now: DateTime, later: DateTime)
    ensures |DateSubstitutions(later)| == |DateSubstitutions(now)|
    ensures forall k :: 0 <= k < |DateSubstitutions(now)| ==>
              DateSubstitutions(later)[k].0 == DateSubstitutions(now)[k].0
  {
  }

  /** A resolution that comes out blank used no date field, so it comes out
      the same at any other time. */
  lemma BlankResolutionIgnoresClock(template: string, name: string, env: HostEnvironment, now: DateTime, later: DateTime)
    ensures IsNullOrWhiteSpace(Some(ReplacePlaceholders(template, name, env, now))) ==>
              ReplacePlaceholders(template, name, env, later) == ReplacePlaceholders(template, name, env, now)
  {
    var r := ReplacePlaceholders(template, name, env, now);
    if IsNullOrWhiteSpace(Some(r)) {
      var withNames := SubstituteAll(template, NameSubstitutions(name, env));
      var subs := DateSubstitutions(now);
      var subs' := DateSubstitutions(later);
      var full := SubstituteAll(withNames, subs);
      TrimEndKeepsDigit(full, DirectorySeparator);
      assert !HasDigit(r);
      DigitFreeOutcomeHadNoPatterns(withNames, subs);
      SubstituteAllWithoutPatterns(withNames, subs);
      DatePatternsIgnoreClock(now, later);
      SubstituteAllWithoutPatterns(withNames, subs');
    }
  }

  // ------------------------------------------------------------------- class

  /** A virtual machine's backup job with its per-run state. The C# fields are
      volatile and set through Interlocked.Exchange so that the progress
      reporter can read them while the job runs; here they are plain fields. */
  class VirtualMachine {
    const settings: VmSettings
    var status: BackupJobStatus
    var exportPercentComplete: int32
    var archivePercentComplete: int32
    /** _exportPath and _archivePath: null until first resolved. */
    var exportPath: Option<string>
    var archivePath: Option<string>
    /** Every value written to ExportPercentComplete, oldest first. */
    ghost var exportPercentWrites: seq<int32>

    /** A machine as the task file describes it: nothing resolved, nothing done. */
    constructor (settings: VmSettings)
      ensures this.settings == settings
      ensures status == Idle && exportPercentComplete == 0 && archivePercentComplete == 0
      ensures exportPath == None && archivePath == None
      ensures exportPercentWrites == []
    {
      this.settings := settings;
      status := Idle;
      exportPercentComplete := 0;
      archivePercentComplete := 0;
      exportPath := None;
      archivePath := None;
      exportPercentWrites := [];
    }

    /** The Status setter: only _status changes. */
    method SetStatus(value: BackupJobStatus)
      modifies this`status
      ensures status == value
    {
      status := value;
    }

    /** The ExportPercentComplete setter: only _exportPercentComplete changes. */
    method SetExportPercentComplete(value: int32)
      modifies this`exportPercentComplete, this`exportPercentWrites
      ensures exportPercentComplete == value
      ensures exportPercentWrites == old(exportPercentWrites) + [value]
    {
      exportPercentComplete := value;
      exportPercentWrites := exportPercentWrites + [value];
    }

    /** The ArchivePercentComplete setter: only _archivePercentComplete changes. */
    method SetArchivePercentComplete(value: int32)
      modifies this`archivePercentComplete
      ensures archivePercentComplete == value
    {
      archivePercentComplete := value;
    }

    /** Resolves the export template at time `now` and keeps the result. */
    method CreateExportPathFromTemplate(env: HostEnvironment, now: DateTime)
      modifies this`exportPath
      ensures exportPath == Some(ReplacePlaceholders(settings.exportPathTemplate, settings.name, env, now))
    {
      exportPath := Some(ReplacePlaceholders(settings.exportPathTemplate, settings.name, env, now));
    }

    /** Resolves the archive template at time `now` and keeps the result. */
    method CreateArchivePathFromTemplate(env: HostEnvironment, now: DateTime)
      modifies this`archivePath
      ensures archivePath == Some(ReplacePlaceholders(settings.archivePathTemplate, settings.name, env, now))
    {
      archivePath := Some(ReplacePlaceholders(settings.archivePathTemplate, settings.name, env, now));
    }

    /** The ExportPath getter: a kept non-blank path is returned as it is;
        otherwise the template is resolved now and kept. */
    method ExportPath(env: HostEnvironment, now: DateTime) returns (path: string)
      modifies this`exportPath
      ensures !IsNullOrWhiteSpace(old(exportPath)) ==> exportPath == old(exportPath)
      ensures IsNullOrWhiteSpace(old(exportPath)) ==>
                exportPath == Some(ReplacePlaceholders(settings.exportPathTemplate, settings.name, env, now))
      ensures exportPath == Some(path)
    {
      if IsNullOrWhiteSpace(exportPath) {
        CreateExportPathFromTemplate(env, now);
      }
      path := exportPath.value;
    }

    /** The ArchivePath getter, with the same caching as ExportPath. */
    method ArchivePath(env: HostEnvironment, now: DateTime) returns (path: string)
      modifies this`archivePath
      ensures !IsNullOrWhiteSpace(old(archivePath)) ==> archivePath == old(archivePath)
      ensures IsNullOrWhiteSpace(old(archivePath)) ==>
                archivePath == Some(ReplacePlaceholders(settings.archivePathTemplate, settings.name, env, now))
      ensures archivePath == Some(path)
    {
      if IsNullOrWhiteSpace(archivePath) {
        CreateArchivePathFromTemplate(env, now);
      }
      path := archivePath.value;
    }

    /** Two reads of ExportPath with no CreateExportPathFromTemplate between
        them give the same path, however far the clock moved in between. */
    method ExportPathIsStable(env: HostEnvironment, now: DateTime, later: DateTime) returns (first: string, second: string)
      modifies this`exportPath
      ensures first == second
      ensures exportPath == Some(first)
    {
      first := ExportPath(env, now);
      second := ExportPath(env, later);
      BlankResolutionIgnoresClock(settings.exportPathTemplate, settings.name, env, now, later);
    }

    /** The same for ArchivePath. */
    method ArchivePathIsStable(env: HostEnvironment, now: DateTime, later: DateTime) returns (first: string, second: string)
      modifies this`archivePath
      ensures first == second
      ensures archivePath == Some(first)
    {
      first := ArchivePath(env, now);
      second := ArchivePath(env, later);
      BlankResolutionIgnoresClock(settings.archivePathTemplate, settings.name, env, now, later);
    }
  }
}
