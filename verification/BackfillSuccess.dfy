/**
 A backfill that nothing disturbs (`main` in backend/scripts/download_living_population_history.py): once its
 preflight passes it downloads, publishes and records every month that is not there, and ends successfully.
 And one in which an action raises: it ends with a manifest that says so.
 */
module BackfillSuccess {
  import opened Backfill
  import opened Outcomes
  import BackfillMonths
  import TextOrder

  /** The bytes the source sends for a month. */
  type Contents = string -> Content

  // ---------------------------------------------------------------------------------------
  // The schedule
  // ---------------------------------------------------------------------------------------

  function Proceeds(n: nat): (events: seq<Event>)
    ensures |events| == n && forall i :: 0 <= i < n ==> events[i] == Proceed
  {
    seq(n, _ => Proceed)
  }

  /** One step past a month that is there; open, receive, link, unlink and record for one that is not. */
  function MonthEvents(month: string, present: set<string>, contents: Contents): seq<Event> {
    if month in present then [Proceed]
    else [Proceed, Receive(contents(month)), Proceed, Proceed, Proceed]
  }

  function DownloadEvents(months: seq<string>, present: set<string>, contents: Contents): seq<Event> {
    if months == [] then []
    else MonthEvents(months[0], present, contents) + DownloadEvents(months[1..], present, contents)
  }

  /** The preflight with its verdict, the first manifest, the months, and the last manifest. */
  function Undisturbed(months: seq<string>, present: set<string>, contents: Contents): seq<Event> {
    Proceeds(|months| + 2) + DownloadEvents(months, present, contents) + Proceeds(2)
  }

  lemma {:induction false} AfterAppend(w: World, s: State, a: seq<Event>, b: seq<Event>)
    ensures After(w, s, a + b) == After(w, After(w, s, a), b)
  {
    hide Next;
    if b == [] {
      assert a + b == a;
    } else {
      assert a + b == (a + b[..|b| - 1]) + [b[|b| - 1]];
      assert (a + b)[..|a + b| - 1] == a + b[..|b| - 1];
      AfterAppend(w, s, a, b[..|b| - 1]);
    }
  }

  lemma AfterFirst(w: World, s: State, event: Event, rest: seq<Event>)
    ensures After(w, s, [event] + rest) == After(w, Next(w, s, event), rest)
  {
    hide Next;
    AfterAppend(w, s, [event], rest);
    assert [event][..0] == [];
  }

  // ---------------------------------------------------------------------------------------
  // The preflight
  // ---------------------------------------------------------------------------------------

  lemma {:induction false} PreflightRuns(w: World, disk: Disk, run: Run, prior: Option<seq<Entry>>, k: nat)
    requires k <= |run.entries| && PreflightFrom(w, disk, run, prior, k).FirstWrite?
    ensures After(w, State(disk, Preflight(run, prior, k)), Proceeds(|run.entries| - k + 1))
            == State(disk, PreflightFrom(w, disk, run, prior, k))
    decreases |run.entries| - k
  {
    hide CheckEntry, SuccessWithoutFile, After;
    var n := |run.entries| - k;
    var next := PreflightStep(w, disk, run, prior, k);
    assert Proceeds(n + 1) == [Proceed] + Proceeds(n);
    AfterFirst(w, State(disk, Preflight(run, prior, k)), Proceed, Proceeds(n));
    if k < |run.entries| {
      PreflightRuns(w, disk, next.run, next.prior, next.k);
    } else {
      AfterNothing(w, State(disk, next));
      assert Proceeds(0) == [];
    }
  }

  lemma AfterNothing(w: World, s: State)
    ensures After(w, s, []) == s
  {
  }

  /** A month to download, or one that is there with the size and digest of its entry. */
  predicate ToDo(w: World, disk: Disk, e: Entry) {
    && e.month !in disk.parts
    && if e.month !in disk.files then e == PlannedEntry(e.month)
       else e.status.SkippedVerified? && EntryAttested(w, disk, e)
  }

  lemma CheckedIsToDo(w: World, disk: Disk, args: Args, prior: Option<seq<Entry>>, month: string)
    requires CheckEntry(w, disk, args, prior, month).Ok?
    ensures var e := CheckEntry(w, disk, args, prior, month).value; e.month == month && ToDo(w, disk, e)
  {
    hide EntryOf;
  }

  lemma {:induction false} PreflightChecks(w: World, disk: Disk, run: Run, prior: Option<seq<Entry>>, k: nat)
    requires k <= |run.entries| && PreflightFrom(w, disk, run, prior, k).FirstWrite?
    requires forall j :: 0 <= j < k ==> ToDo(w, disk, run.entries[j])
    ensures var passed := PreflightFrom(w, disk, run, prior, k).run;
            && passed.args == run.args && |passed.entries| == |run.entries|
            && forall j :: 0 <= j < |run.entries| ==>
                             passed.entries[j].month == run.entries[j].month && ToDo(w, disk, passed.entries[j])
    decreases |run.entries| - k
  {
    hide CheckEntry, SuccessWithoutFile, ToDo;
    if k < |run.entries| {
      CheckedIsToDo(w, disk, run.args, prior, run.entries[k].month);
      var next := PreflightStep(w, disk, run, prior, k);
      PreflightChecks(w, disk, next.run, next.prior, next.k);
    }
  }

  // ---------------------------------------------------------------------------------------
  // The downloads
  // ---------------------------------------------------------------------------------------

  /** The entry a month ends with. */
  function DoneEntry(w: World, e: Entry, contents: Contents): Entry {
    if e.status.SkippedVerified? then e
    else Entry(e.month, e.named, Downloaded, Some(|contents(e.month)|), Some(w.hash(contents(e.month))))
  }

  /** The entries when the months from `k` on are done. */
  function DoneFrom(w: World, entries: seq<Entry>, k: nat, contents: Contents): (done: seq<Entry>)
    ensures |done| == |entries|
    ensures forall j :: 0 <= j < |entries| ==>
                          done[j] == if j < k then entries[j] else DoneEntry(w, entries[j], contents)
  {
    seq(|entries|, j requires 0 <= j < |entries| => if j < k then entries[j] else DoneEntry(w, entries[j], contents))
  }

  /** The files when these months are published too. */
  function Published(files: map<string, Content>, months: seq<string>, contents: Contents): map<string, Content>
    decreases |months|
  {
    if months == [] then files
    else Published(if months[0] in files then files else files[months[0] := contents(months[0])], months[1..], contents)
  }

  lemma {:induction false} PublishedFiles(files: map<string, Content>, months: seq<string>, contents: Contents)
    ensures var after := Published(files, months, contents);
            && (forall m :: m in after <==> m in files || m in months)
            && (forall m :: m in after ==> after[m] == if m in files then files[m] else contents(m))
    decreases |months|
  {
    if months != [] {
      var more := if months[0] in files then files else files[months[0] := contents(months[0])];
      PublishedFiles(more, months[1..], contents);
      assert months == [months[0]] + months[1..];
    }
  }

  /** The process is at month `k`, every month from there on is to do, and none comes twice. */
  predicate AtMonth(w: World, disk: Disk, run: Run, months: seq<string>, k: nat) {
    && |run.entries| == |months| && k <= |months|
    && (forall j :: 0 <= j < |months| ==> run.entries[j].month == months[j])
    && (forall i, j :: 0 <= i < j < |months| ==> months[i] != months[j])
    && forall j :: k <= j < |months| ==> ToDo(w, disk, run.entries[j])
  }

  /** Open, receive, link, unlink and record one month that is not there. */
  lemma OneDownload(w: World, disk: Disk, run: Run, k: nat, contents: Contents)
    requires k < |run.entries| && ToDo(w, disk, run.entries[k]) && run.entries[k].month !in disk.files
    requires contents(run.entries[k].month) != []
    ensures var month := run.entries[k].month;
            var more := run.(entries := run.entries[k := DoneEntry(w, run.entries[k], contents)]);
            After(w, State(disk, Ready(run, k)), [Proceed, Receive(contents(month)), Proceed, Proceed, Proceed])
            == State(WriteManifest(disk.(files := disk.files[month := contents(month)]), more, InProgress),
                     Ready(more, k + 1))
  {
    var month, content := run.entries[k].month, contents(run.entries[k].month);
    var s0 := State(disk, Ready(run, k));
    var s1 := Next(w, s0, Proceed);
    var s2 := Next(w, s1, Receive(content));
    var s3 := Next(w, s2, Proceed);
    var s4 := Next(w, s3, Proceed);
    assert s4.disk.parts == disk.parts;
    var s5 := Next(w, s4, Proceed);
    hide After, Next;
    FiveSteps(w, s0, [Proceed, Receive(content), Proceed, Proceed, Proceed]);
  }

  lemma FiveSteps(w: World, s: State, e: seq<Event>)
    requires |e| == 5
    ensures After(w, s, e) == Next(w, Next(w, Next(w, Next(w, Next(w, s, e[0]), e[1]), e[2]), e[3]), e[4])
  {
    hide Next;
    assert e[..4][..3] == e[..3] && e[..3][..2] == e[..2] && e[..2][..1] == e[..1] && e[..1][..0] == [];
    assert e[..5] == e;
    OneMoreEvent(w, s, e, 4);
    OneMoreEvent(w, s, e, 3);
    OneMoreEvent(w, s, e, 2);
    OneMoreEvent(w, s, e, 1);
    OneMoreEvent(w, s, e, 0);
  }

  lemma OneMoreEvent(w: World, s: State, e: seq<Event>, k: nat)
    requires k < |e|
    ensures After(w, s, e[..k + 1]) == Next(w, After(w, s, e[..k]), e[k])
    ensures After(w, s, e[..0]) == s
  {
    hide Next;
    assert e[..k + 1][..k] == e[..k];
  }

  /** The state in which a run has succeeded with these entries, having published these months. */
  function Succeeding(w: World, disk: Disk, run: Run, months: seq<string>, k: nat, contents: Contents): State {
    var done := Run(run.args, DoneFrom(w, run.entries, k, contents));
    State(WriteManifest(disk.(files := Published(disk.files, months, contents)), done, Complete),
          Stopped(Succeeded(done)))
  }

  lemma DownloadKeepsToDo(w: World, disk: Disk, run: Run, months: seq<string>, k: nat, contents: Contents)
    requires AtMonth(w, disk, run, months, k) && k < |months| && months[k] !in disk.files
    ensures var more := run.(entries := run.entries[k := DoneEntry(w, run.entries[k], contents)]);
            var files := disk.files[months[k] := contents(months[k])];
            var written := WriteManifest(disk.(files := files), more, InProgress);
            && AtMonth(w, written, more, months, k + 1)
            && DoneFrom(w, more.entries, k + 1, contents) == DoneFrom(w, run.entries, k, contents)
  {
    var more := run.(entries := run.entries[k := DoneEntry(w, run.entries[k], contents)]);
    var written := WriteManifest(disk.(files := disk.files[months[k] := contents(months[k])]), more, InProgress);
    forall j | k + 1 <= j < |months|
      ensures ToDo(w, written, more.entries[j])
    {
      assert ToDo(w, disk, run.entries[j]) && more.entries[j] == run.entries[j] && months[j] != months[k];
    }
  }

  lemma {:induction false} MonthsRun(
      w: World, disk: Disk, run: Run, months: seq<string>, k: nat, present: set<string>, contents: Contents)
    requires AtMonth(w, disk, run, months, k)
    requires forall j :: k <= j < |months| ==> (months[j] in present <==> months[j] in disk.files)
    requires forall month :: contents(month) != []
    ensures After(w, State(disk, Ready(run, k)), DownloadEvents(months[k..], present, contents) + Proceeds(2))
            == Succeeding(w, disk, run, months[k..], k, contents)
    decreases |months| - k
  {
    hide After, ToDo, AtMonth;
    var s := State(disk, Ready(run, k));
    AtMonthParts(w, disk, run, months, k);
    if k == |months| {
      LastSteps(w, disk, run, contents);
      assert DownloadEvents(months[k..], present, contents) + Proceeds(2) == Proceeds(2);
    } else {
      var rest := DownloadEvents(months[k + 1..], present, contents) + Proceeds(2);
      var first := MonthEvents(months[k], present, contents);
      assert months[k..][1..] == months[k + 1..];
      assert DownloadEvents(months[k..], present, contents) + Proceeds(2) == first + rest;
      AfterAppend(w, s, first, rest);
      if months[k] in disk.files {
        AfterFirst(w, s, Proceed, []);
        AfterNothing(w, Next(w, s, Proceed));
        assert first == [Proceed] + [];
        MonthsRun(w, disk, run, months, k + 1, present, contents);
        assert DoneFrom(w, run.entries, k, contents) == DoneFrom(w, run.entries, k + 1, contents);
      } else {
        OneDownload(w, disk, run, k, contents);
        DownloadKeepsToDo(w, disk, run, months, k, contents);
        var more := run.(entries := run.entries[k := DoneEntry(w, run.entries[k], contents)]);
        var written := WriteManifest(disk.(files := disk.files[months[k] := contents(months[k])]), more, InProgress);
        assert forall j :: k + 1 <= j < |months| ==> months[j] != months[k];
        MonthsRun(w, written, more, months, k + 1, present, contents);
      }
    }
  }

  lemma AtMonthParts(w: World, disk: Disk, run: Run, months: seq<string>, k: nat)
    requires AtMonth(w, disk, run, months, k)
    ensures |run.entries| == |months| && k <= |months|
    ensures k < |months| ==> ToDo(w, disk, run.entries[k]) && run.entries[k].month == months[k]
    ensures k < |months| && months[k] in disk.files ==>
              run.entries[k].status.SkippedVerified? && AtMonth(w, disk, run, months, k + 1)
    ensures forall i, j :: 0 <= i < j < |months| ==> months[i] != months[j]
  {
  }

  lemma LastSteps(w: World, disk: Disk, run: Run, contents: Contents)
    ensures After(w, State(disk, Ready(run, |run.entries|)), Proceeds(2))
            == Succeeding(w, disk, run, [], |run.entries|, contents)
  {
    hide After;
    var s := State(disk, Ready(run, |run.entries|));
    assert DoneFrom(w, run.entries, |run.entries|, contents) == run.entries;
    assert Proceeds(2) == [Proceed] + [Proceed] && [Proceed] == [Proceed] + [];
    AfterFirst(w, s, Proceed, [Proceed]);
    AfterFirst(w, Next(w, s, Proceed), Proceed, []);
    AfterNothing(w, Next(w, Next(w, s, Proceed), Proceed));
  }

  // ---------------------------------------------------------------------------------------
  // The whole run
  // ---------------------------------------------------------------------------------------

  lemma RunToFirstMonth(w: World, s: State, args: Args)
    requires !HasRun(s.process) && PreflightOutcome(w, s.disk, args).FirstWrite?
    ensures BackfillMonths.MonthsOf(args.start, args.end).Ok?
    ensures var months, run := BackfillMonths.MonthsOf(args.start, args.end).value,
                               PreflightOutcome(w, s.disk, args).run;
            && After(w, Next(w, s, Start(args)), Proceeds(|months| + 2))
               == State(WriteManifest(s.disk, run, InProgress), Ready(run, 0))
            && run.args == args && AtMonth(w, WriteManifest(s.disk, run, InProgress), run, months, 0)
  {
    hide BackfillMonths.MonthsOf, CheckEntry, EntryOf, After, Authorizes, PreflightFrom, ToDo;
    var begun := Begin(s.disk, args);
    var months := BackfillMonths.MonthsOf(args.start, args.end).value;
    var passed := PreflightOutcome(w, s.disk, args);
    PreflightRuns(w, s.disk, begun.run, begun.prior, 0);
    PreflightChecks(w, s.disk, begun.run, begun.prior, 0);
    assert Proceeds(|months| + 2) == Proceeds(|months| + 1) + Proceeds(1);
    assert Proceeds(1) == [Proceed] + [];
    AfterAppend(w, State(s.disk, begun), Proceeds(|months| + 1), Proceeds(1));
    AfterFirst(w, State(s.disk, passed), Proceed, []);
    AfterNothing(w, Next(w, State(s.disk, passed), Proceed));
    MonthsAreDistinct(args);
    forall j | 0 <= j < |months|
      ensures ToDo(w, WriteManifest(s.disk, passed.run, InProgress), passed.run.entries[j])
    {
      ToDoIsAboutFiles(w, s.disk, WriteManifest(s.disk, passed.run, InProgress), passed.run.entries[j]);
    }
  }

  lemma ToDoIsAboutFiles(w: World, a: Disk, b: Disk, e: Entry)
    requires ToDo(w, a, e) && a.files == b.files && a.parts == b.parts
    ensures ToDo(w, b, e)
  {
  }

  lemma MonthsAreDistinct(args: Args)
    requires BackfillMonths.MonthsOf(args.start, args.end).Ok?
    ensures var months := BackfillMonths.MonthsOf(args.start, args.end).value;
            forall i, j :: 0 <= i < j < |months| ==> months[i] != months[j]
  {
    hide BackfillMonths.MonthsOf, TextOrder.Before, BackfillMonths.ParseMonth;
    BackfillMonths.RangeIsExact(args.start, args.end);
    var months := BackfillMonths.MonthsOf(args.start, args.end).value;
    forall i, j | 0 <= i < j < |months|
      ensures months[i] != months[j]
    {
      TextOrder.NotBeforeItself(months[i]);
    }
  }

  /** The entry is a success and has size and digest of its published file. */
  predicate Records(w: World, disk: Disk, e: Entry, month: string) {
    && e.month == month && Success(e.status) && month in disk.files
    && e.sizeBytes == Some(|disk.files[month]|) && e.sha256 == Some(w.hash(disk.files[month]))
  }

  /**
   Whenever the preflight of an applied run passes, the run that nothing disturbs succeeds: each month of the
   range that was missing holds exactly the bytes received for it, every other file is as it was, no partial file
   is left, and the complete manifest records each month with the size and digest of its file, in order.
   */
  lemma UndisturbedRunSucceeds(w: World, s: State, args: Args, contents: Contents)
    requires !HasRun(s.process) && args.apply && Passes(PreflightOutcome(w, s.disk, args))
    requires forall month :: contents(month) != []
    ensures BackfillMonths.MonthsOf(args.start, args.end).Ok?
    ensures var months := BackfillMonths.MonthsOf(args.start, args.end).value;
            var t := After(w, Next(w, s, Start(args)), Undisturbed(months, s.disk.files.Keys, contents));
            && t.process.Stopped? && t.process.code.Succeeded? && t.disk.parts == s.disk.parts
            && (forall m :: m in t.disk.files <==> m in s.disk.files || m in months)
            && (forall m :: m in t.disk.files ==>
                              t.disk.files[m] == if m in s.disk.files then s.disk.files[m] else contents(m))
            && t.disk.manifest.Some? && t.disk.manifest.value.Manifest?
            && t.disk.manifest.value.status == Complete && |t.disk.manifest.value.files| == |months|
            && forall i :: 0 <= i < |months| ==> Records(w, t.disk, t.disk.manifest.value.files[i], months[i])
  {
    hide BackfillMonths.MonthsOf, PreflightFrom, After, Next, ToDo, Published, CheckEntry, Authorizes;
    PassedAppliedRun(w, s.disk, args);
    RunToFirstMonth(w, s, args);
    var months := BackfillMonths.MonthsOf(args.start, args.end).value;
    var run, present := PreflightOutcome(w, s.disk, args).run, s.disk.files.Keys;
    var disk := WriteManifest(s.disk, run, InProgress);
    var downloads := DownloadEvents(months, present, contents);
    assert Undisturbed(months, present, contents) == Proceeds(|months| + 2) + (downloads + Proceeds(2));
    AfterAppend(w, Next(w, s, Start(args)), Proceeds(|months| + 2), downloads + Proceeds(2));
    assert months[0..] == months;
    MonthsRun(w, disk, run, months, 0, present, contents);
    PublishedFiles(disk.files, months, contents);
    var t := Succeeding(w, disk, run, months, 0, contents);
    forall i | 0 <= i < |months|
      ensures Records(w, t.disk, t.disk.manifest.value.files[i], months[i])
    {
      DoneIsRecorded(w, disk, t.disk, run.entries[i], contents);
    }
  }

  lemma PassedAppliedRun(w: World, disk: Disk, args: Args)
    requires args.apply && Passes(PreflightOutcome(w, disk, args))
    ensures PreflightOutcome(w, disk, args).FirstWrite?
  {
    hide BackfillMonths.MonthsOf, CheckEntry, Authorizes, SuccessWithoutFile;
    var begun := Begin(disk, args);
    if begun.Preflight? {
      NoDryRun(w, disk, begun.run, begun.prior, begun.k);
    }
  }

  lemma {:induction false} NoDryRun(w: World, disk: Disk, run: Run, prior: Option<seq<Entry>>, k: nat)
    requires run.args.apply
    ensures PreflightFrom(w, disk, run, prior, k) != Stopped(DryRun)
    decreases |run.entries| - k
  {
    hide CheckEntry, SuccessWithoutFile;
    var next := PreflightStep(w, disk, run, prior, k);
    if next.Preflight? && k < |run.entries| {
      NoDryRun(w, disk, next.run, next.prior, next.k);
    }
  }

  lemma DoneIsRecorded(w: World, disk: Disk, after: Disk, e: Entry, contents: Contents)
    requires ToDo(w, disk, e) && e.month in after.files
    requires after.files[e.month] == if e.month in disk.files then disk.files[e.month] else contents(e.month)
    ensures Records(w, after, DoneEntry(w, e, contents), e.month)
  {
  }

  // ---------------------------------------------------------------------------------------
  // A fault is recorded
  // ---------------------------------------------------------------------------------------

  /** A run past its preflight that has something left to do other than to say that it failed. */
  predicate Writing(p: Process) {
    match p
    case FirstWrite(_) => true
    case Ready(run, k) => k < |run.entries| && !run.entries[k].status.SkippedVerified?
    case Fetching(_, _) => true
    case Fetched(_, _, _) => true
    case Linked(_, _, _) => true
    case Recording(_, _) => true
    case Completing(_) => true
    case _ => false
  }

  /** The process works on the download of its month `j`. */
  predicate Downloads(p: Process, j: int) {
    (p.Ready? || p.Fetching? || p.Fetched? || p.Linked?) && p.k == j
  }

  /**
   When any action of an applied run raises, the run stops with a manifest that says so: the month in progress
   is recorded as failed, every other entry as it was, no published file is touched, and at most the partial file
   of the month in progress is gone.
   */
  lemma FaultIsRecorded(w: World, s: State, cleaned: bool)
    requires Inv(w, s) && Writing(s.process)
    ensures var p, t := s.process, After(w, s, [Break(cleaned), Proceed]);
            && t.process.Stopped? && t.process.code.Broken? && t.disk.files == s.disk.files
            && (forall month :: month in t.disk.parts ==> month in s.disk.parts)
            && (forall month :: month in s.disk.parts ==>
                  if month in t.disk.parts then t.disk.parts[month] == s.disk.parts[month]
                  else
                    && cleaned
                    && exists j :: 0 <= j < |p.run.entries| && Downloads(p, j) && p.run.entries[j].month == month)
            && t.disk.manifest.Some? && t.disk.manifest.value.Manifest? && t.disk.manifest.value.known
            && t.disk.manifest.value.status == RunFailed
            && t.disk.manifest.value.start == p.run.args.start && t.disk.manifest.value.end == p.run.args.end
            && |t.disk.manifest.value.files| == |p.run.entries|
            && forall j :: 0 <= j < |p.run.entries| ==>
                             t.disk.manifest.value.files[j] ==
                             if Downloads(p, j) then p.run.entries[j].(status := Failed) else p.run.entries[j]
  {
    hide ManifestAttested, Attested, RunFits, BackfillMonths.MonthsOf;
    var events := [Break(cleaned), Proceed];
    assert events[..2] == events;
    OneMoreEvent(w, s, events, 0);
    OneMoreEvent(w, s, events, 1);
    FaultStops(w, s, cleaned);
  }

  lemma FaultStops(w: World, s: State, cleaned: bool)
    requires Inv(w, s) && Writing(s.process)
    ensures Broke(s, cleaned).process.Failing?
  {
    hide ManifestAttested, Attested, RunFits;
  }
}
