/**
 The resumable monthly backfill (`main` in backend/scripts/download_living_population_history.py, with
 `download_one` of backend/scripts/download_living_population.py) as a step machine over the data
 directory. Every disk access is a step of its own, may fail, and may be the last one before a crash.
 */
module Backfill {
  import opened Outcomes
  import BackfillMonths
  import TextOrder

  type Content = seq<bv8>

  /** The digest of a file, and whether it is a whole ZIP archive with members. */
  datatype World = World(hash: Content -> string, whole: Content -> bool)

  const HEX_DIGITS := "0123456789abcdef"

  predicate IsHexDigest(s: string) {
    |s| == 64 && forall i :: 0 <= i < |s| ==> s[i] in HEX_DIGITS
  }

  datatype Status = Planned | Downloaded | SkippedVerified | Failed | Unsupported

  predicate Success(status: Status) {
    status.Downloaded? || status.SkippedVerified?
  }

  /** A file entry of a manifest; `named` says that its seq and filename are those of its month. */
  datatype Entry = Entry(month: string, named: bool, status: Status, sizeBytes: Option<int>, sha256: Option<string>)

  datatype RunStatus = InProgress | RunFailed | Complete

  /** The manifest file; `known` says that its schema version and dataset are the expected ones. */
  datatype Manifest = Unreadable | Manifest(known: bool, start: string, end: string, status: RunStatus,
                                            files: seq<Entry>)

  /** The data directory: published files, `.part` files and the manifest, by month. */
  datatype Disk = Disk(files: map<string, Content>, parts: map<string, Content>, manifest: Option<Manifest>)

  datatype Args = Args(start: string, end: string, apply: bool, resume: bool)

  /** The manifest in memory. */
  datatype Run = Run(args: Args, entries: seq<Entry>)

  datatype Code = Refused | DryRun | Broken(run: Run) | Succeeded(run: Run)

  datatype Process =
    | Idle
    | Preflight(run: Run, prior: Option<seq<Entry>>, k: nat)
    | FirstWrite(run: Run)
    | Ready(run: Run, k: nat)
    | Fetching(run: Run, k: nat)
    | Fetched(run: Run, k: nat, content: Content)
    | Linked(run: Run, k: nat, content: Content)
    | Recording(run: Run, k: nat)
    | Failing(run: Run)
    | Completing(run: Run)
    | Stopped(code: Code)

  datatype State = State(disk: Disk, process: Process)

  /**
   What may happen next: a command line is started, the next action of the process succeeds or raises
   (and then removes its `.part` file or not), a download ends with its bytes, the process is killed, or
   somebody else publishes a month.
   */
  datatype Event =
    | Start(args: Args)
    | Proceed
    | Break(cleaned: bool)
    | Receive(content: Content)
    | Crash
    | OtherPublishes(month: string, content: Content)

  // ---------------------------------------------------------------------------------------
  // Preflight
  // ---------------------------------------------------------------------------------------

  function EntryOf(files: seq<Entry>, month: string): (found: Option<Entry>)
    ensures found.Some? ==> found.value in files && found.value.month == month
    ensures found.None? ==> forall e :: e in files ==> e.month != month
  {
    if files == [] then None else if files[0].month == month then Some(files[0]) else EntryOf(files[1..], month)
  }

  predicate DistinctMonths(files: seq<Entry>) {
    forall i, j :: 0 <= i < j < |files| ==> files[i].month != files[j].month
  }

  function MonthsIn(files: seq<Entry>): set<string> {
    set e | e in files :: e.month
  }

  /** The checks of `_load_resume_entries`. */
  predicate Authorizes(manifest: Manifest, args: Args, months: seq<string>) {
    && manifest.Manifest? && manifest.known && manifest.start == args.start && manifest.end == args.end
    && DistinctMonths(manifest.files) && MonthsIn(manifest.files) == (set m | m in months)
    && forall e :: e in manifest.files ==> e.named && !e.status.Unsupported?
  }

  function PlannedEntry(month: string): Entry {
    Entry(month, true, Planned, None, None)
  }

  function PlannedEntries(months: seq<string>): (entries: seq<Entry>)
    ensures |entries| == |months| && forall i :: 0 <= i < |months| ==> entries[i] == PlannedEntry(months[i])
  {
    seq(|months|, i requires 0 <= i < |months| => PlannedEntry(months[i]))
  }

  /** What is known before the destinations are looked at. */
  function Begin(disk: Disk, args: Args): Process {
    match BackfillMonths.MonthsOf(args.start, args.end)
    case Error(_) => Stopped(Refused)
    case Ok(months) =>
      var run := Run(args, PlannedEntries(months));
      match disk.manifest
      case None => if args.resume then Stopped(Refused) else Preflight(run, None, 0)
      case Some(manifest) =>
        if !args.resume then if args.apply then Stopped(Refused) else Preflight(run, None, 0)
        else if Authorizes(manifest, args, months) then Preflight(run, Some(manifest.files), 0)
        else Stopped(Refused)
  }

  predicate ValidMetadata(e: Entry) {
    e.sizeBytes.Some? && e.sizeBytes.value > 0 && e.sha256.Some? && IsHexDigest(e.sha256.value)
  }

  /** The preflight of one destination; a raised error ends the run. */
  function CheckEntry(w: World, disk: Disk, args: Args, prior: Option<seq<Entry>>, month: string): Result<Entry> {
    if month in disk.parts then Error("stale partial file exists")
    else if month !in disk.files then Ok(PlannedEntry(month))
    else if !args.resume || prior.None? then Error("existing destination; use --resume to verify and skip")
    else
      match EntryOf(prior.value, month)
      case None => Error("existing destination has no prior manifest entry")
      case Some(e) =>
        var content := disk.files[month];
        if !Success(e.status) then Error("existing destination has no successful prior manifest entry")
        else if !ValidMetadata(e) then Error("prior manifest has invalid digest metadata")
        else if !w.whole(content) then Error("existing destination is not a valid ZIP")
        else if |content| != e.sizeBytes.value || w.hash(content) != e.sha256.value then
          Error("existing destination does not match prior manifest digest")
        else Ok(Entry(month, true, SkippedVerified, Some(|content|), Some(w.hash(content))))
  }

  /** The prior manifest says a month succeeded whose file the preflight has not found. */
  predicate SuccessWithoutFile(run: Run, prior: seq<Entry>) {
    exists e :: e in run.entries && !e.status.SkippedVerified?
                && EntryOf(prior, e.month).Some? && Success(EntryOf(prior, e.month).value.status)
  }

  function PreflightStep(w: World, disk: Disk, run: Run, prior: Option<seq<Entry>>, k: nat): Process {
    if k < |run.entries| then
      match CheckEntry(w, disk, run.args, prior, run.entries[k].month)
      case Error(_) => Stopped(Refused)
      case Ok(e) => Preflight(run.(entries := run.entries[k := e]), prior, k + 1)
    else if prior.Some? && SuccessWithoutFile(run, prior.value) then Stopped(Refused)
    else if run.args.apply then FirstWrite(run)
    else Stopped(DryRun)
  }

  // ---------------------------------------------------------------------------------------
  // Downloads
  // ---------------------------------------------------------------------------------------

  /** `_write_manifest`, which replaces the manifest file in one step. */
  function WriteManifest(disk: Disk, run: Run, status: RunStatus): Disk {
    disk.(manifest := Some(Manifest(true, run.args.start, run.args.end, status, run.entries)))
  }

  function FailEntry(run: Run, k: nat): Run
    requires k < |run.entries|
  {
    run.(entries := run.entries[k := run.entries[k].(status := Failed)])
  }

  function RecordEntry(w: World, run: Run, k: nat, content: Content): Run
    requires k < |run.entries|
  {
    run.(entries := run.entries[k := run.entries[k].(status := Downloaded, sizeBytes := Some(|content|),
                                                     sha256 := Some(w.hash(content)))])
  }

  function Without(parts: map<string, Content>, month: string): map<string, Content> {
    map m | m in parts && m != month :: parts[m]
  }

  function Cleaned(disk: Disk, month: string, cleaned: bool): Disk {
    if cleaned then disk.(parts := Without(disk.parts, month)) else disk
  }

  /** The next action succeeds. */
  function Proceeded(w: World, s: State): State {
    var disk := s.disk;
    match s.process
    case Idle => s
    case Stopped(_) => s
    case Preflight(run, prior, k) => s.(process := PreflightStep(w, disk, run, prior, k))
    case FirstWrite(run) => State(WriteManifest(disk, run, InProgress), Ready(run, 0))
    case Ready(run, k) =>
      if k >= |run.entries| then s.(process := Completing(run))
      else
        var e := run.entries[k];
        if e.status.SkippedVerified? then s.(process := Ready(run, k + 1))
        else if e.month in disk.files || e.month in disk.parts then s.(process := Failing(FailEntry(run, k)))
        else State(disk.(parts := disk.parts[e.month := []]), Fetching(run, k))
    case Fetching(_, _) => s
    case Fetched(run, k, content) =>
      if k >= |run.entries| then s
      else
        var month := run.entries[k].month;
        if month in disk.files then State(Cleaned(disk, month, true), Failing(FailEntry(run, k)))
        else State(disk.(files := disk.files[month := content]), Linked(run, k, content))
    case Linked(run, k, content) =>
      if k >= |run.entries| then s
      else State(Cleaned(disk, run.entries[k].month, true), Recording(RecordEntry(w, run, k, content), k))
    case Recording(run, k) => State(WriteManifest(disk, run, InProgress), Ready(run, k + 1))
    case Failing(run) => State(WriteManifest(disk, run, RunFailed), Stopped(Broken(run)))
    case Completing(run) => State(WriteManifest(disk, run, Complete), Stopped(Succeeded(run)))
  }

  /** The next action raises. */
  function Broke(s: State, cleaned: bool): State {
    var disk := s.disk;
    match s.process
    case Idle => s
    case Stopped(_) => s
    case Preflight(_, _, _) => s.(process := Stopped(Refused))
    case FirstWrite(run) => s.(process := Failing(run))
    case Ready(run, k) =>
      if k >= |run.entries| || run.entries[k].status.SkippedVerified? then s
      else s.(process := Failing(FailEntry(run, k)))
    case Fetching(run, k) =>
      if k >= |run.entries| then s
      else State(Cleaned(disk, run.entries[k].month, cleaned), Failing(FailEntry(run, k)))
    case Fetched(run, k, _) =>
      if k >= |run.entries| then s
      else State(Cleaned(disk, run.entries[k].month, cleaned), Failing(FailEntry(run, k)))
    case Linked(run, k, _) => if k >= |run.entries| then s else s.(process := Failing(FailEntry(run, k)))
    case Recording(run, _) => s.(process := Failing(run))
    case Failing(run) => s.(process := Stopped(Broken(run)))
    case Completing(run) => s.(process := Failing(run))
  }

  function Next(w: World, s: State, event: Event): State {
    match event
    case Start(args) => if s.process.Idle? || s.process.Stopped? then s.(process := Begin(s.disk, args)) else s
    case Proceed => Proceeded(w, s)
    case Break(cleaned) => Broke(s, cleaned)
    case Receive(content) =>
      if s.process.Fetching? && s.process.k < |s.process.run.entries| && content != [] then
        State(s.disk.(parts := s.disk.parts[s.process.run.entries[s.process.k].month := content]),
              Fetched(s.process.run, s.process.k, content))
      else s
    case Crash => s.(process := Idle)
    case OtherPublishes(month, content) =>
      if month in s.disk.files then s else s.(disk := s.disk.(files := s.disk.files[month := content]))
  }

  function After(w: World, s: State, events: seq<Event>): State {
    if events == [] then s else Next(w, After(w, s, events[..|events| - 1]), events[|events| - 1])
  }

  // ---------------------------------------------------------------------------------------
  // Published files are never lost
  // ---------------------------------------------------------------------------------------

  predicate KeepsFiles(before: Disk, after: Disk) {
    forall month :: month in before.files ==> month in after.files && after.files[month] == before.files[month]
  }

  lemma StepKeepsFiles(w: World, s: State, event: Event)
    ensures KeepsFiles(s.disk, Next(w, s, event).disk)
  {
    hide PreflightStep, Begin;
  }

  /** No run, resumed, interrupted or raced, overwrites or removes a published month. */
  lemma {:induction false} PublishedFilesAreNeverLost(w: World, s: State, events: seq<Event>)
    ensures KeepsFiles(s.disk, After(w, s, events).disk)
  {
    hide Next;
    if events != [] {
      PublishedFilesAreNeverLost(w, s, events[..|events| - 1]);
      StepKeepsFiles(w, After(w, s, events[..|events| - 1]), events[|events| - 1]);
    }
  }

  // ---------------------------------------------------------------------------------------
  // The manifest tells the truth
  // ---------------------------------------------------------------------------------------

  /** A successful entry names a published file of that size and digest. */
  predicate EntryAttested(w: World, disk: Disk, e: Entry) {
    Success(e.status) ==>
      e.month in disk.files && e.sizeBytes == Some(|disk.files[e.month]|)
      && e.sha256 == Some(w.hash(disk.files[e.month]))
  }

  predicate Attested(w: World, disk: Disk, entries: seq<Entry>) {
    forall e :: e in entries ==> EntryAttested(w, disk, e)
  }

  predicate ManifestAttested(w: World, disk: Disk) {
    disk.manifest.Some? && disk.manifest.value.Manifest? ==> Attested(w, disk, disk.manifest.value.files)
  }

  predicate HasRun(p: Process) {
    !p.Idle? && !p.Stopped?
  }

  predicate SucceededBefore(entries: seq<Entry>, k: nat) {
    k <= |entries| && forall j :: 0 <= j < k ==> Success(entries[j].status)
  }

  /** The entries of a run are those of its months, in order. */
  predicate RunFits(run: Run) {
    var months := BackfillMonths.MonthsOf(run.args.start, run.args.end);
    && months.Ok? && |run.entries| == |months.value|
    && forall i :: 0 <= i < |run.entries| ==>
                     run.entries[i].month == months.value[i] && run.entries[i].named
                     && !run.entries[i].status.Unsupported?
  }

  /** How far a process has come. */
  predicate ProgressFits(disk: Disk, p: Process) {
    match p
    case Idle => true
    case Preflight(run, prior, k) => k <= |run.entries|
    case FirstWrite(run) => run.args.apply
    case Ready(run, k) => run.args.apply && SucceededBefore(run.entries, k)
    case Fetching(run, k) => run.args.apply && k < |run.entries| && SucceededBefore(run.entries, k)
    case Fetched(run, k, _) => run.args.apply && k < |run.entries| && SucceededBefore(run.entries, k)
    case Linked(run, k, content) =>
      && run.args.apply && k < |run.entries| && SucceededBefore(run.entries, k)
      && run.entries[k].month in disk.files && disk.files[run.entries[k].month] == content
    case Recording(run, k) => run.args.apply && SucceededBefore(run.entries, k + 1)
    case Failing(run) => run.args.apply
    case Completing(run) => run.args.apply && SucceededBefore(run.entries, |run.entries|)
    case Stopped(code) =>
      && (code.Broken? ==> RunFits(code.run))
      && (code.Succeeded? ==>
            && RunFits(code.run) && SucceededBefore(code.run.entries, |code.run.entries|)
            && disk.manifest
               == Some(Manifest(true, code.run.args.start, code.run.args.end, Complete, code.run.entries)))
  }

  predicate Inv(w: World, s: State) {
    && ManifestAttested(w, s.disk)
    && (HasRun(s.process) ==> RunFits(s.process.run) && Attested(w, s.disk, s.process.run.entries))
    && ProgressFits(s.disk, s.process)
  }

  lemma AttestedStays(w: World, before: Disk, after: Disk, entries: seq<Entry>)
    requires Attested(w, before, entries) && KeepsFiles(before, after)
    ensures Attested(w, after, entries)
  {
  }

  lemma AttestedAfterUpdate(w: World, disk: Disk, entries: seq<Entry>, k: nat, e: Entry)
    requires Attested(w, disk, entries) && k < |entries| && EntryAttested(w, disk, e)
    ensures Attested(w, disk, entries[k := e])
  {
  }

  lemma BeginKeepsInv(w: World, s: State, args: Args)
    requires Inv(w, s)
    ensures Inv(w, s.(process := Begin(s.disk, args)))
  {
    hide BackfillMonths.MonthsOf, Authorizes, ManifestAttested;
  }

  lemma CheckedEntryIsAttested(w: World, disk: Disk, args: Args, prior: Option<seq<Entry>>, month: string)
    requires CheckEntry(w, disk, args, prior, month).Ok?
    ensures var e := CheckEntry(w, disk, args, prior, month).value;
            e.month == month && e.named && !e.status.Unsupported? && EntryAttested(w, disk, e)
  {
    hide EntryOf;
  }

  lemma PreflightKeepsInv(w: World, s: State)
    requires Inv(w, s) && s.process.Preflight?
    ensures Inv(w, Proceeded(w, s))
  {
    hide CheckEntry, BackfillMonths.MonthsOf, ManifestAttested, SuccessWithoutFile, EntryAttested, Attested;
    var run, k := s.process.run, s.process.k;
    if k < |run.entries| {
      var checked := CheckEntry(w, s.disk, run.args, s.process.prior, run.entries[k].month);
      if checked.Ok? {
        CheckedEntryIsAttested(w, s.disk, run.args, s.process.prior, run.entries[k].month);
        AttestedAfterUpdate(w, s.disk, run.entries, k, checked.value);
      }
    }
  }

  lemma ProceedKeepsInv(w: World, s: State)
    requires Inv(w, s) && !s.process.Preflight?
    ensures Inv(w, Proceeded(w, s))
  {
    hide PreflightStep, BackfillMonths.MonthsOf;
    StepKeepsFiles(w, s, Proceed);
    if HasRun(s.process) {
      AttestedStays(w, s.disk, Proceeded(w, s).disk, s.process.run.entries);
    }
  }

  lemma FailEntryKeeps(w: World, disk: Disk, run: Run, k: nat)
    requires RunFits(run) && Attested(w, disk, run.entries) && k < |run.entries|
    ensures RunFits(FailEntry(run, k)) && Attested(w, disk, FailEntry(run, k).entries)
    ensures FailEntry(run, k).args == run.args
  {
    hide BackfillMonths.MonthsOf;
  }

  lemma BreakKeepsInv(w: World, s: State, cleaned: bool)
    requires Inv(w, s)
    ensures Inv(w, Broke(s, cleaned))
  {
    hide RunFits, Attested, FailEntry;
    var disk := Broke(s, cleaned).disk;
    if disk.manifest.Some? && disk.manifest.value.Manifest? {
      AttestedStays(w, s.disk, disk, disk.manifest.value.files);
    }
    if HasRun(s.process) {
      var p := s.process;
      AttestedStays(w, s.disk, disk, p.run.entries);
      if (p.Ready? || p.Fetching? || p.Fetched? || p.Linked?) && p.k < |p.run.entries| {
        FailEntryKeeps(w, disk, p.run, p.k);
      }
    }
  }

  lemma OtherKeepsInv(w: World, s: State, event: Event)
    requires Inv(w, s) && (event.Receive? || event.Crash? || event.OtherPublishes?)
    ensures Inv(w, Next(w, s, event))
  {
    hide BackfillMonths.MonthsOf, RunFits;
  }

  lemma StepKeepsInv(w: World, s: State, event: Event)
    requires Inv(w, s)
    ensures Inv(w, Next(w, s, event))
  {
    hide Inv, Begin, Proceeded, Broke;
    match event
    case Start(args) => BeginKeepsInv(w, s, args);
    case Proceed =>
      if s.process.Preflight? { PreflightKeepsInv(w, s); } else { ProceedKeepsInv(w, s); }
    case Break(cleaned) => BreakKeepsInv(w, s, cleaned);
    case Receive(_) => OtherKeepsInv(w, s, event);
    case Crash => OtherKeepsInv(w, s, event);
    case OtherPublishes(_, _) => OtherKeepsInv(w, s, event);
  }

  /**
   From a directory whose manifest, if any, tells the truth, every sequence of runs leaves a manifest in
   which each successful entry names a published file of that size and digest.
   */
  lemma {:induction false} ManifestNeverLies(w: World, s: State, events: seq<Event>)
    requires Inv(w, s)
    ensures Inv(w, After(w, s, events)) && ManifestAttested(w, After(w, s, events).disk)
  {
    hide Next, ManifestAttested, ProgressFits, RunFits, Attested;
    if events != [] {
      ManifestNeverLies(w, s, events[..|events| - 1]);
      StepKeepsInv(w, After(w, s, events[..|events| - 1]), events[|events| - 1]);
    }
  }

  /** A run that ends successfully leaves every month of its range published, and its manifest says so. */
  lemma SuccessMeansEveryMonthIsPublished(w: World, s: State, events: seq<Event>, month: string)
    requires Inv(w, s)
    requires var p := After(w, s, events).process; p.Stopped? && p.code.Succeeded?
    requires var args := After(w, s, events).process.code.run.args;
             BackfillMonths.ParseMonth(month).Ok? && !TextOrder.Before(month, args.start)
             && !TextOrder.Before(args.end, month)
    ensures var disk := After(w, s, events).disk;
            && month in disk.files && disk.manifest.Some? && disk.manifest.value.Manifest?
            && disk.manifest.value.status == Complete
            && exists e :: e in disk.manifest.value.files && e.month == month && Success(e.status)
                           && e.sizeBytes == Some(|disk.files[month]|) && e.sha256 == Some(w.hash(disk.files[month]))
  {
    hide BackfillMonths.MonthsOf, TextOrder.Before, BackfillMonths.ParseMonth, After;
    ManifestNeverLies(w, s, events);
    var t := After(w, s, events);
    var run := t.process.code.run;
    BackfillMonths.RangeIsExact(run.args.start, run.args.end);
    var months := BackfillMonths.MonthsOf(run.args.start, run.args.end).value;
    var i :| 0 <= i < |months| && months[i] == month;
    assert run.entries[i] in t.disk.manifest.value.files;
  }

  // ---------------------------------------------------------------------------------------
  // A refused run and a dry run change nothing
  // ---------------------------------------------------------------------------------------

  predicate BeforeFirstWrite(p: Process) {
    p.Preflight? || p.FirstWrite? || (p.Stopped? && (p.code.Refused? || p.code.DryRun?))
  }

  lemma BeforeFirstWriteComesFromBefore(w: World, s: State, event: Event)
    requires !event.OtherPublishes? && !event.Start? && BeforeFirstWrite(Next(w, s, event).process)
    ensures BeforeFirstWrite(s.process) && Next(w, s, event).disk == s.disk
  {
    hide CheckEntry, SuccessWithoutFile;
  }

  /** Whatever the preflight meets, a run that is refused or dry leaves the directory as it was. */
  lemma {:induction false} RefusedOrDryRunChangesNothing(w: World, s: State, args: Args, events: seq<Event>)
    requires !HasRun(s.process) && forall e :: e in events ==> !e.OtherPublishes? && !e.Start?
    requires BeforeFirstWrite(After(w, Next(w, s, Start(args)), events).process)
    ensures After(w, Next(w, s, Start(args)), events).disk == s.disk
  {
    hide Proceeded, Broke, Begin, BeforeFirstWrite;
    if events != [] {
      var before, last := events[..|events| - 1], events[|events| - 1];
      assert last in events;
      BeforeFirstWriteComesFromBefore(w, After(w, Next(w, s, Start(args)), before), last);
      RefusedOrDryRunChangesNothing(w, s, args, before);
    }
  }

  // ---------------------------------------------------------------------------------------
  // When a preflight passes
  // ---------------------------------------------------------------------------------------

  /** The rest of a preflight on a directory nobody touches. */
  function PreflightFrom(w: World, disk: Disk, run: Run, prior: Option<seq<Entry>>, k: nat): Process
    decreases |run.entries| - k
  {
    var next := PreflightStep(w, disk, run, prior, k);
    if next.Preflight? && k < |run.entries| && next.k == k + 1 && |next.run.entries| == |run.entries| then
      PreflightFrom(w, disk, next.run, next.prior, next.k)
    else next
  }

  function PreflightOutcome(w: World, disk: Disk, args: Args): Process {
    var begun := Begin(disk, args);
    if begun.Preflight? then PreflightFrom(w, disk, begun.run, begun.prior, begun.k) else begun
  }

  predicate Passes(p: Process) {
    p.FirstWrite? || p == Stopped(DryRun)
  }

  predicate EntryPasses(w: World, disk: Disk, args: Args, prior: Option<seq<Entry>>, month: string) {
    && CheckEntry(w, disk, args, prior, month).Ok?
    && (prior.Some? && EntryOf(prior.value, month).Some? && Success(EntryOf(prior.value, month).value.status) ==>
          month in disk.files)
  }

  /** An entry the preflight has passed, or has not come to. */
  predicate CheckedUpTo(w: World, disk: Disk, run: Run, prior: Option<seq<Entry>>, k: nat) {
    && k <= |run.entries|
    && forall j :: 0 <= j < k ==>
                     CheckEntry(w, disk, run.args, prior, run.entries[j].month) == Ok(run.entries[j])
  }

  lemma CheckNamesMonth(w: World, disk: Disk, args: Args, prior: Option<seq<Entry>>, month: string)
    requires CheckEntry(w, disk, args, prior, month).Ok?
    ensures var e := CheckEntry(w, disk, args, prior, month).value;
            e.month == month && (e.status.SkippedVerified? <==> month in disk.files)
            && (e.status.Planned? <==> month !in disk.files)
  {
    hide EntryOf;
  }

  lemma SuccessWithoutFileIsMissing(w: World, disk: Disk, run: Run, prior: seq<Entry>)
    requires CheckedUpTo(w, disk, run, Some(prior), |run.entries|)
    ensures SuccessWithoutFile(run, prior) <==>
            !(forall j :: 0 <= j < |run.entries| ==> EntryPasses(w, disk, run.args, Some(prior), run.entries[j].month))
  {
    hide CheckEntry, EntryOf;
    forall j | 0 <= j < |run.entries|
      ensures run.entries[j].status.SkippedVerified? <==> run.entries[j].month in disk.files
    {
      CheckNamesMonth(w, disk, run.args, Some(prior), run.entries[j].month);
    }
    if e :| e in run.entries && !e.status.SkippedVerified?
            && EntryOf(prior, e.month).Some? && Success(EntryOf(prior, e.month).value.status) {
      var j :| 0 <= j < |run.entries| && run.entries[j] == e;
      assert !EntryPasses(w, disk, run.args, Some(prior), run.entries[j].month);
    }
    if j :| 0 <= j < |run.entries| && !EntryPasses(w, disk, run.args, Some(prior), run.entries[j].month) {
      assert run.entries[j] in run.entries;
    }
  }

  lemma {:induction false} PreflightFromPasses(w: World, disk: Disk, run: Run, prior: Option<seq<Entry>>, k: nat)
    requires CheckedUpTo(w, disk, run, prior, k)
    ensures Passes(PreflightFrom(w, disk, run, prior, k)) <==>
            forall j :: 0 <= j < |run.entries| ==> EntryPasses(w, disk, run.args, prior, run.entries[j].month)
    decreases |run.entries| - k
  {
    hide CheckEntry, EntryOf, SuccessWithoutFile;
    if k < |run.entries| {
      var checked := CheckEntry(w, disk, run.args, prior, run.entries[k].month);
      if checked.Ok? {
        CheckNamesMonth(w, disk, run.args, prior, run.entries[k].month);
        var more := run.(entries := run.entries[k := checked.value]);
        assert forall j :: 0 <= j < |run.entries| ==> more.entries[j].month == run.entries[j].month;
        PreflightFromPasses(w, disk, more, prior, k + 1);
      }
    } else {
      if prior.Some? {
        SuccessWithoutFileIsMissing(w, disk, run, prior.value);
      }
    }
  }

  predicate HashesAreHex(w: World, disk: Disk) {
    forall month :: month in disk.files ==> IsHexDigest(w.hash(disk.files[month]))
  }

  /**
   Some entry for the month agrees with the directory: a published file is a whole archive that a successful entry
   gives the size and digest of, and no entry calls a missing file a success.
   */
  ghost predicate MonthVerifies(w: World, disk: Disk, files: seq<Entry>, month: string) {
    && month !in disk.parts
    && exists e :: e in files && e.month == month &&
                   if month in disk.files then
                     var content := disk.files[month];
                     && Success(e.status) && content != [] && w.whole(content)
                     && e.sizeBytes == Some(|content|) && e.sha256 == Some(w.hash(content))
                   else !Success(e.status)
  }

  lemma MonthVerifiesByEntry(w: World, disk: Disk, args: Args, files: seq<Entry>, month: string)
    requires DistinctMonths(files) && HashesAreHex(w, disk) && args.resume && month in MonthsIn(files)
    ensures EntryPasses(w, disk, args, Some(files), month) <==> MonthVerifies(w, disk, files, month)
  {
    hide EntryOf, IsHexDigest;
    var e := EntryOf(files, month).value;
    forall d | d in files && d.month == month
      ensures d == e
    {
      var i :| 0 <= i < |files| && files[i] == d;
      var j :| 0 <= j < |files| && files[j] == e;
    }
  }

  /**
   Whatever the manifest says, a resumed preflight passes exactly when the manifest authorizes this range, no month
   of it has a partial file, and for every month the recorded outcome, size and digest are those of the file.
   */
  lemma ResumeVerifiesExactly(w: World, disk: Disk, args: Args)
    requires HashesAreHex(w, disk) && args.resume
    ensures Passes(PreflightOutcome(w, disk, args)) <==>
            && BackfillMonths.MonthsOf(args.start, args.end).Ok? && disk.manifest.Some?
            && Authorizes(disk.manifest.value, args, BackfillMonths.MonthsOf(args.start, args.end).value)
            && forall month :: month in BackfillMonths.MonthsOf(args.start, args.end).value ==>
                                 MonthVerifies(w, disk, disk.manifest.value.files, month)
  {
    hide BackfillMonths.MonthsOf, CheckEntry, EntryOf, HashesAreHex, MonthVerifies, PreflightFrom, EntryPasses,
         DistinctMonths;
    var begun := Begin(disk, args);
    if begun.Preflight? {
      var months, files := BackfillMonths.MonthsOf(args.start, args.end).value, disk.manifest.value.files;
      PreflightFromPasses(w, disk, begun.run, begun.prior, 0);
      forall j | 0 <= j < |months|
        ensures EntryPasses(w, disk, args, Some(files), begun.run.entries[j].month)
                <==> MonthVerifies(w, disk, files, months[j])
      {
        assert months[j] in (set m | m in months);
        MonthVerifiesByEntry(w, disk, args, files, months[j]);
      }
      assert forall month :: month in months ==> exists j :: 0 <= j < |months| && months[j] == month;
      assert forall j :: 0 <= j < |months| ==> months[j] in months;
    }
  }

  /**
   With a truthful manifest, a resumed preflight passes exactly when the manifest authorizes this range and
   no month of it has a partial file, and every published month is recorded as successful and is a
   nonempty whole ZIP archive.
   */
  lemma ResumePassesExactly(w: World, disk: Disk, args: Args)
    requires ManifestAttested(w, disk) && HashesAreHex(w, disk) && args.resume
    ensures Passes(PreflightOutcome(w, disk, args)) <==>
            && BackfillMonths.MonthsOf(args.start, args.end).Ok? && disk.manifest.Some?
            && Authorizes(disk.manifest.value, args, BackfillMonths.MonthsOf(args.start, args.end).value)
            && forall month :: month in BackfillMonths.MonthsOf(args.start, args.end).value ==>
                                 MonthResumes(w, disk, disk.manifest.value.files, month)
  {
    hide BackfillMonths.MonthsOf, CheckEntry, EntryOf, HashesAreHex, MonthResumes, PreflightFrom, EntryPasses, Attested;
    var begun := Begin(disk, args);
    if begun.Preflight? {
      var months, files := BackfillMonths.MonthsOf(args.start, args.end).value, disk.manifest.value.files;
      PreflightFromPasses(w, disk, begun.run, begun.prior, 0);
      forall j | 0 <= j < |months|
        ensures EntryPasses(w, disk, args, Some(files), begun.run.entries[j].month)
                <==> MonthResumes(w, disk, files, months[j])
      {
        assert months[j] in (set m | m in months);
        MonthPasses(w, disk, args, files, months[j]);
      }
      assert forall month :: month in months ==> exists j :: 0 <= j < |months| && months[j] == month;
      assert forall j :: 0 <= j < |months| ==> months[j] in months;
    }
  }

  predicate MonthResumes(w: World, disk: Disk, files: seq<Entry>, month: string) {
    && month !in disk.parts
    && (month in disk.files ==>
          && EntryOf(files, month).Some? && Success(EntryOf(files, month).value.status)
          && disk.files[month] != [] && w.whole(disk.files[month]))
  }

  lemma MonthPasses(w: World, disk: Disk, args: Args, files: seq<Entry>, month: string)
    requires Attested(w, disk, files) && HashesAreHex(w, disk) && args.resume && month in MonthsIn(files)
    ensures EntryPasses(w, disk, args, Some(files), month) <==> MonthResumes(w, disk, files, month)
  {
    hide EntryOf, IsHexDigest;
    var e := EntryOf(files, month).value;
    assert EntryAttested(w, disk, e);
  }

  /** A fresh preflight passes exactly when nothing of the range is there, and, to write, no manifest either. */
  lemma FreshPassesExactly(w: World, disk: Disk, args: Args)
    requires !args.resume
    ensures Passes(PreflightOutcome(w, disk, args)) <==>
            && BackfillMonths.MonthsOf(args.start, args.end).Ok? && (args.apply ==> disk.manifest.None?)
            && forall month :: month in BackfillMonths.MonthsOf(args.start, args.end).value ==>
                                 month !in disk.parts && month !in disk.files
  {
    hide BackfillMonths.MonthsOf, EntryOf, PreflightFrom;
    var begun := Begin(disk, args);
    if begun.Preflight? {
      var months := BackfillMonths.MonthsOf(args.start, args.end).value;
      PreflightFromPasses(w, disk, begun.run, None, 0);
      assert forall j :: 0 <= j < |months| ==> begun.run.entries[j].month == months[j] && months[j] in months;
    }
  }

  // ---------------------------------------------------------------------------------------
  // Which interruptions a resume survives
  // ---------------------------------------------------------------------------------------

  /** No month of the run is half written, and each published one is a success of the run. */
  predicate Settled(disk: Disk, entries: seq<Entry>) {
    forall j :: 0 <= j < |entries| ==> EntrySettled(disk, entries[j])
  }

  predicate EntrySettled(disk: Disk, e: Entry) {
    e.month !in disk.parts && (e.month in disk.files ==> Success(e.status))
  }

  /** Settled but for the entry in progress. */
  predicate SettledBut(disk: Disk, entries: seq<Entry>, k: nat) {
    forall j :: 0 <= j < |entries| && j != k ==> EntrySettled(disk, entries[j])
  }

  predicate ManifestIsOf(disk: Disk, run: Run) {
    && disk.manifest.Some? && disk.manifest.value.Manifest? && disk.manifest.value.known
    && disk.manifest.value.start == run.args.start && disk.manifest.value.end == run.args.end
    && disk.manifest.value.files == run.entries
  }

  /** Entries from `k` on are still planned or were verified by the preflight. */
  predicate UntouchedFrom(entries: seq<Entry>, k: nat) {
    forall j :: k <= j < |entries| ==> entries[j].status.Planned? || entries[j].status.SkippedVerified?
  }

  predicate DistinctEntries(entries: seq<Entry>) {
    forall i, j :: 0 <= i < j < |entries| ==> entries[i].month != entries[j].month
  }

  /** The manifest file has an entry for the month, and not a successful one. */
  predicate UnrecordedOnDisk(disk: Disk, month: string) {
    && disk.manifest.Some? && disk.manifest.value.Manifest?
    && exists e :: e in disk.manifest.value.files && e.month == month && !Success(e.status)
  }

  /** What an undisturbed run keeps. */
  predicate Orderly(s: State) {
    match s.process
    case Idle => true
    case Preflight(run, _, k) =>
      k <= |run.entries| && Settled(s.disk, run.entries[..k]) && UntouchedFrom(run.entries, 0)
    case FirstWrite(run) => Settled(s.disk, run.entries) && UntouchedFrom(run.entries, 0)
    case Ready(run, k) => Settled(s.disk, run.entries) && UntouchedFrom(run.entries, k) && ManifestIsOf(s.disk, run)
    case Fetching(run, k) =>
      && k < |run.entries| && SettledBut(s.disk, run.entries, k)
      && run.entries[k].month !in s.disk.files && !Success(run.entries[k].status)
      && UntouchedFrom(run.entries, k) && ManifestIsOf(s.disk, run) && run.entries[k].month in s.disk.parts
    case Fetched(run, k, _) =>
      && k < |run.entries| && SettledBut(s.disk, run.entries, k)
      && run.entries[k].month !in s.disk.files && !Success(run.entries[k].status)
      && UntouchedFrom(run.entries, k) && ManifestIsOf(s.disk, run) && run.entries[k].month in s.disk.parts
    case Linked(run, k, _) =>
      && k < |run.entries| && SettledBut(s.disk, run.entries, k) && UntouchedFrom(run.entries, k)
      && ManifestIsOf(s.disk, run) && run.entries[k].month in s.disk.parts && !Success(run.entries[k].status)
      && run.entries[k].month in s.disk.files
    case Recording(run, k) =>
      && k < |run.entries| && Settled(s.disk, run.entries) && UntouchedFrom(run.entries, k + 1)
      && run.entries[k].month in s.disk.files && UnrecordedOnDisk(s.disk, run.entries[k].month)
    case Failing(run) => Settled(s.disk, run.entries)
    case Completing(run) => Settled(s.disk, run.entries) && ManifestIsOf(s.disk, run)
    case Stopped(code) =>
      code.Broken? || code.Succeeded? ==> Settled(s.disk, code.run.entries) && ManifestIsOf(s.disk, code.run)
  }

  /** The actions of a run that loses at most a download or the publication of one. */
  predicate Gentle(s: State, event: Event) {
    event.Proceed? || event.Receive? || (event == Break(true) && (s.process.Fetching? || s.process.Fetched?))
  }

  lemma FitsAreDistinct(run: Run)
    requires RunFits(run)
    ensures DistinctEntries(run.entries)
  {
    hide BackfillMonths.MonthsOf, TextOrder.Before, BackfillMonths.ParseMonth;
    BackfillMonths.RangeIsExact(run.args.start, run.args.end);
    var months := BackfillMonths.MonthsOf(run.args.start, run.args.end).value;
    forall i, j | 0 <= i < j < |run.entries|
      ensures run.entries[i].month != run.entries[j].month
    {
      TextOrder.NotBeforeItself(months[i]);
    }
  }

  lemma PreflightIsOrderly(w: World, s: State)
    requires Orderly(s) && s.process.Preflight?
    ensures Orderly(Proceeded(w, s))
  {
    hide EntryOf, SuccessWithoutFile;
    var run, k := s.process.run, s.process.k;
    if k < |run.entries| {
      var checked := CheckEntry(w, s.disk, run.args, s.process.prior, run.entries[k].month);
      if checked.Ok? {
        assert run.entries[k := checked.value][..k + 1] == run.entries[..k] + [checked.value];
      }
    } else {
      assert run.entries[..k] == run.entries;
    }
  }

  lemma ProceedIsOrderly(w: World, s: State)
    requires Orderly(s) && !s.process.Preflight? && (HasRun(s.process) ==> DistinctEntries(s.process.run.entries))
    ensures Orderly(Proceeded(w, s))
  {
    hide PreflightStep;
    match s.process
    case Idle =>
    case Preflight(_, _, _) =>
    case FirstWrite(run) =>
    case Ready(run, k) =>
    case Fetching(_, _) =>
    case Fetched(run, k, content) =>
    case Linked(run, k, content) =>
      if k < |run.entries| {
        assert run.entries[k] in s.disk.manifest.value.files;
      }
    case Recording(run, k) =>
    case Failing(run) =>
    case Completing(run) =>
    case Stopped(_) =>
  }

  lemma ReceiveIsOrderly(w: World, s: State, content: Content)
    requires Orderly(s) && (HasRun(s.process) ==> DistinctEntries(s.process.run.entries))
    ensures Orderly(Next(w, s, Receive(content)))
  {
  }

  lemma FailedDownloadIsOrderly(s: State)
    requires Orderly(s) && (s.process.Fetching? || s.process.Fetched?) && DistinctEntries(s.process.run.entries)
    ensures Orderly(Broke(s, true))
  {
  }

  lemma GentleStepIsOrderly(w: World, s: State, event: Event)
    requires Inv(w, s) && Orderly(s) && Gentle(s, event)
    ensures Orderly(Next(w, s, event))
  {
    hide Orderly, Proceeded, Broke, RunFits, DistinctEntries, Attested, ProgressFits;
    if HasRun(s.process) {
      FitsAreDistinct(s.process.run);
    }
    match event
    case Proceed => if s.process.Preflight? { PreflightIsOrderly(w, s); } else { ProceedIsOrderly(w, s); }
    case Receive(content) => ReceiveIsOrderly(w, s, content);
    case Break(_) => FailedDownloadIsOrderly(s);
  }

  predicate GentleRun(w: World, s: State, events: seq<Event>) {
    events == []
    || (GentleRun(w, s, events[..|events| - 1]) && Gentle(After(w, s, events[..|events| - 1]), events[|events| - 1]))
  }

  lemma {:induction false} GentleRunsAreOrderly(w: World, s: State, events: seq<Event>)
    requires Inv(w, s) && Orderly(s) && GentleRun(w, s, events)
    ensures Inv(w, After(w, s, events)) && Orderly(After(w, s, events))
  {
    hide Inv, Orderly, Next, Gentle;
    if events != [] {
      var before := After(w, s, events[..|events| - 1]);
      GentleRunsAreOrderly(w, s, events[..|events| - 1]);
      GentleStepIsOrderly(w, before, events[|events| - 1]);
      StepKeepsInv(w, before, events[|events| - 1]);
    }
  }

  lemma BegunIsOrderly(w: World, s: State, args: Args)
    requires !HasRun(s.process)
    ensures Orderly(Next(w, s, Start(args)))
  {
    hide BackfillMonths.MonthsOf, Authorizes;
  }

  /** A process that has written its manifest, and so has a run to resume. */
  predicate Resumes(p: Process) {
    p.Ready? || p.Completing? || (p.Stopped? && (p.code.Broken? || p.code.Succeeded?))
  }

  predicate InDownload(p: Process) {
    p.Fetching? || p.Fetched? || p.Linked? || p.Recording?
  }

  function RunOf(p: Process): Run
    requires Resumes(p) || InDownload(p)
  {
    if p.Stopped? then p.code.run else p.run
  }

  predicate WholeFiles(w: World, disk: Disk) {
    forall month :: month in disk.files ==> disk.files[month] != [] && w.whole(disk.files[month])
  }

  lemma SettledManifestResumes(w: World, disk: Disk, run: Run)
    requires RunFits(run) && Settled(disk, run.entries) && ManifestIsOf(disk, run)
    requires ManifestAttested(w, disk) && HashesAreHex(w, disk) && WholeFiles(w, disk)
    ensures Passes(PreflightOutcome(w, disk, run.args.(resume := true)))
  {
    hide BackfillMonths.MonthsOf, PreflightOutcome, HashesAreHex, ManifestAttested, EntryOf;
    var args := run.args.(resume := true);
    var months, files := BackfillMonths.MonthsOf(args.start, args.end).value, run.entries;
    FitsAreDistinct(run);
    ResumePassesExactly(w, disk, args);
    MonthsOfEntries(run.entries, months);
    forall month | month in months
      ensures MonthResumes(w, disk, files, month)
    {
      var j :| 0 <= j < |months| && months[j] == month;
      assert EntrySettled(disk, run.entries[j]);
      EntryIsFound(files, j);
    }
  }

  lemma MonthsOfEntries(entries: seq<Entry>, months: seq<string>)
    requires |entries| == |months| && forall i :: 0 <= i < |entries| ==> entries[i].month == months[i]
    ensures MonthsIn(entries) == (set m | m in months)
  {
    forall month
      ensures month in MonthsIn(entries) <==> month in months
    {
      if month in months {
        var i :| 0 <= i < |months| && months[i] == month;
        assert entries[i] in entries;
      }
      if month in MonthsIn(entries) {
        var e :| e in entries && e.month == month;
        var i :| 0 <= i < |entries| && entries[i] == e;
        assert months[i] == month;
      }
    }
  }

  lemma {:induction false} EntryIsFound(files: seq<Entry>, j: nat)
    requires j < |files| && DistinctEntries(files)
    ensures EntryOf(files, files[j].month) == Some(files[j])
  {
    if j > 0 {
      assert files[0].month != files[j].month;
      EntryIsFound(files[1..], j - 1);
    }
  }

  /** A published or half-written month that the manifest does not record stops every later preflight. */
  lemma UnrecordedMonthIsRefused(w: World, disk: Disk, run: Run, k: nat)
    requires RunFits(run) && k < |run.entries| && ManifestAttested(w, disk) && HashesAreHex(w, disk)
    requires run.entries[k].month in disk.parts
             || (run.entries[k].month in disk.files && UnrecordedOnDisk(disk, run.entries[k].month))
    ensures !Passes(PreflightOutcome(w, disk, run.args.(resume := true)))
  {
    hide BackfillMonths.MonthsOf, PreflightOutcome, HashesAreHex, ManifestAttested, EntryOf;
    var args, month := run.args.(resume := true), run.entries[k].month;
    ResumePassesExactly(w, disk, args);
    var months := BackfillMonths.MonthsOf(args.start, args.end).value;
    assert months[k] == month && month in months;
    if month !in disk.parts && disk.manifest.Some? && Authorizes(disk.manifest.value, args, months) {
      var files := disk.manifest.value.files;
      var e :| e in files && e.month == month && !Success(e.status);
      var j :| 0 <= j < |files| && files[j] == e;
      EntryIsFound(files, j);
      assert !MonthResumes(w, disk, files, month);
    }
  }

  /**
   An applied run loses at most downloads and is then killed. A resume of the same range passes if the kill
   came between two downloads or after the last one, and is refused if it came while one was in progress:
   between creating its partial file and recording it.
   */
  lemma ResumeSurvivesKillsBetweenDownloads(w: World, s: State, args: Args, events: seq<Event>)
    requires Inv(w, s) && !HasRun(s.process) && GentleRun(w, Next(w, s, Start(args)), events)
    requires var t := After(w, Next(w, s, Start(args)), events);
             && (Resumes(t.process) || InDownload(t.process)) && HashesAreHex(w, t.disk) && WholeFiles(w, t.disk)
    ensures var t := After(w, Next(w, s, Start(args)), events);
            Passes(PreflightOutcome(w, Next(w, t, Crash).disk, RunOf(t.process).args.(resume := true)))
            <==> Resumes(t.process)
  {
    hide After, GentleRun, Begin, PreflightOutcome, HashesAreHex, WholeFiles, RunFits, ManifestAttested, Attested,
         UntouchedFrom, SettledBut, Settled, ManifestIsOf, UnrecordedOnDisk;
    var begun := Next(w, s, Start(args));
    StepKeepsInv(w, s, Start(args));
    BegunIsOrderly(w, s, args);
    GentleRunsAreOrderly(w, begun, events);
    var t := After(w, begun, events);
    if Resumes(t.process) {
      StoppedRunFits(w, t);
      SettledManifestResumes(w, t.disk, RunOf(t.process));
    } else {
      UnrecordedMonthIsRefused(w, t.disk, t.process.run, t.process.k);
    }
  }

  lemma StoppedRunFits(w: World, s: State)
    requires Inv(w, s) && Resumes(s.process)
    ensures RunFits(RunOf(s.process))
  {
    hide BackfillMonths.MonthsOf;
  }
}
