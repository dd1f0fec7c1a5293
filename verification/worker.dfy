/** One invocation of the worker script, from its options and what it finds
    on the site to its exit code and the calls it makes. The three modes are
    the single-step run (resolve, run, report), the preprocess run (resolve
    and stop before running) and the postprocess run (report on a sample an
    earlier preprocess run resolved). */
module Worker {
  import opened Wrappers
  import opened Text
  import opened Protocol
  import opened Marker
  import opened Packaging
  import opened Resolution
  import opened Reporting

  /** Exit code when none of the requested inputs can be found. */
  const ExitCodeNoInput: nat := 11

  datatype Mode = SingleStep | Preprocess | Postprocess

  /** The options that matter to the modelled core. */
  datatype Config = Config(
    mode: Mode,
    scriptName: Option<string>,   // `-j`, when given
    jobParams: string,            // `-p`, already URL-unquoted
    inputs: seq<string>,          // `-i`
    inMap: InMap,                 // `--inMap`
    directIn: bool,               // `--directIn`
    writeInputToTxt: string)      // `--writeInputToTxt`

  /** What the worker finds around it. */
  datatype Site = Site(
    catalog: seq<CatalogEntry>,   // the pool file catalog the pilot left
    runDirFiles: set<string>,     // names in the directory the worker starts in
    script: seq<Attempt>,         // the services' answers, round by round
    rawStatus: int,               // what running the packaged payload returned
    savedMarker: Option<string>,  // the marker an earlier run left, if any
    artifact: Artifact,           // the payload's output artifact
    reportAccepted: bool)         // whether the coordinator accepts the loss

  datatype Exit = Exit(code: nat, calls: seq<Call>)

  /** One manifest write per input list to be written. */
  function ManifestCalls(manifests: seq<(string, seq<string>)>): (calls: seq<Call>)
    ensures |calls| == |manifests|
    ensures forall i :: 0 <= i < |calls| ==> calls[i] == WriteManifest(manifests[i].0, manifests[i].1)
  {
    seq(|manifests|, i requires 0 <= i < |manifests| => WriteManifest(manifests[i].0, manifests[i].1))
  }

  lemma ManifestCallsTallies(manifests: seq<(string, seq<string>)>)
    ensures var calls := ManifestCalls(manifests);
      Fetches(calls) == 0 && MarkerWrites(calls) == 0 && Lookups(calls) == 0
    decreases |manifests|
  {
    var calls := ManifestCalls(manifests);
    if |manifests| > 0 {
      ManifestCallsTallies(manifests[1..]);
      assert calls[1..] == ManifestCalls(manifests[1..]);
    }
  }

  /** The inputs the payload will read: the merged list resolved name by
      name, or nothing when there is nothing to resolve. */
  function Inputs(cfg: Config, site: Site): (r: seq<string>)
    ensures |MergeSecondary(cfg.inputs, cfg.inMap)| == 0 ==> r == []
  {
    var merged := MergeSecondary(cfg.inputs, cfg.inMap);
    if |merged| == 0 then [] else ResolveInputs(merged, cfg.directIn, PfnByLfn(site.catalog), site.runDirFiles)
  }

  /** No input could be found although some were requested. */
  predicate NoInputFound(cfg: Config, site: Site)
  {
    |MergeSecondary(cfg.inputs, cfg.inMap)| > 0 && |Inputs(cfg, site)| == 0
  }

  /** Linking the found inputs into the run directory raises: without
      direct access, a name in the starting directory was requested twice. */
  predicate LinkFails(cfg: Config, site: Site)
  {
    !cfg.directIn && Symlinks(MergeSecondary(cfg.inputs, cfg.inMap), site.runDirFiles, {}).None?
  }

  /** A failed link means some input was found, so the run did not lack
      inputs. */
  lemma LinkFailsMeansFound(cfg: Config, site: Site)
    requires LinkFails(cfg, site)
    ensures !NoInputFound(cfg, site)
  {
    var merged := MergeSecondary(cfg.inputs, cfg.inMap);
    LinkingFailsOnRepeat(merged, site.runDirFiles);
    var i, j :| 0 <= i < j < |merged| && merged[i] == merged[j] && merged[i] in site.runDirFiles;
    assert merged[i] in ResolveInputs(merged, false, PfnByLfn(site.catalog), site.runDirFiles);
  }

  /** The characters Python's `str.split()` without an argument splits on,
      as far as they are ASCII. */
  predicate IsSpace(c: char)
  {
    c == ' ' || '\t' <= c <= '\r' || '\U{1C}' <= c <= '\U{1F}'
  }

  /** With `-j ''` the worker makes the first word of the job parameters
      executable; when the parameters hold no word at all, taking that word
      raises and the process dies. A missing `-j` is `None`, which the
      worker formats as text and never splits. */
  predicate NoCommand(cfg: Config)
  {
    cfg.scriptName == Some("") && forall i :: 0 <= i < |cfg.jobParams| ==> IsSpace(cfg.jobParams[i])
  }

  /** The job parameters the payload runs with. */
  function JobParams(cfg: Config, site: Site): string
  {
    Substitute(cfg.jobParams, Inputs(cfg, site), cfg.inMap)
  }

  /** The manifest writes `--writeInputToTxt` asks for. */
  function ManifestWrites(cfg: Config, site: Site): seq<Call>
  {
    ManifestCalls(Manifests(ParseStreamFiles(cfg.writeInputToTxt), Inputs(cfg, site), cfg.inMap))
  }

  /** The reporting phase: read the marker back, take the loss from the
      artifact and report it. A marker that does not split into exactly two
      fields makes the unpacking raise, and the process dies. Otherwise the
      exit code is `status`, whatever the reporting did. */
  function PostPhase(markerText: string, status: nat, site: Site, calls: seq<Call>): (r: Exit)
    ensures Parse(markerText).None? ==> r == Exit(ExitCodeCrash, calls)
    ensures Parse(markerText).Some? ==> r.code == status
    ensures |calls| <= |r.calls| && r.calls[..|calls|] == calls
    ensures AcknowledgedAfterReport(r.calls[|calls|..])
    ensures forall c :: c in r.calls[|calls|..] ==> c.ReportLoss? || c.AcknowledgeEvent?
    ensures ExtractLoss(site.artifact).None? ==> r.calls == calls
    ensures Parse(markerText).Some? && ExtractLoss(site.artifact).Some? ==>
      ReportLoss(Parse(markerText).value.1, ExtractLoss(site.artifact).value) in r.calls[|calls|..]
    ensures Parse(markerText).Some? ==>
      (AcknowledgeEvent(Parse(markerText).value.0) in r.calls[|calls|..] <==> ExtractLoss(site.artifact).Some? && site.reportAccepted)
  {
    match Parse(markerText)
    case None => Exit(ExitCodeCrash, calls)
    case Some((eventID, sampleID)) =>
      var reported := Report(eventID, sampleID, ExtractLoss(site.artifact), site.reportAccepted);
      assert (calls + reported)[|calls|..] == reported;
      Exit(status, calls + reported)
  }

  /** The whole invocation. */
  function RunWorker(cfg: Config, site: Site): (r: Exit)
    requires |site.script| >= MaxAttempts
    ensures r.code < StatusModulus
    ensures Fetches(r.calls) <= MaxAttempts
    ensures cfg.mode == Postprocess ==> Fetches(r.calls) == 0 && (r.code == 0 || r.code == ExitCodeCrash)
    ensures cfg.mode != Postprocess && LinkFails(cfg, site) ==> r == Exit(ExitCodeCrash, [])
    ensures cfg.mode != Postprocess && NoInputFound(cfg, site) ==> r == Exit(ExitCodeNoInput, [])
    ensures cfg.mode != Postprocess && !NoInputFound(cfg, site) && NoCommand(cfg) ==> r == Exit(ExitCodeCrash, [])
    ensures cfg.mode != Postprocess && Fetches(r.calls) > 0 ==> !LinkFails(cfg, site) && !NoInputFound(cfg, site) && !NoCommand(cfg)
    ensures forall c :: c in r.calls && c.Execute? ==> cfg.mode == SingleStep
  {
    if cfg.mode == Postprocess then PostprocessRun(site)
    else if LinkFails(cfg, site) then LinkFailsMeansFound(cfg, site); Exit(ExitCodeCrash, [])
    else if NoInputFound(cfg, site) then Exit(ExitCodeNoInput, [])
    else if NoCommand(cfg) then Exit(ExitCodeCrash, [])
    else
      Conclude(cfg.mode, JobParams(cfg, site), site, Prepared(cfg, site), Resolve(site.script).outcome)
  }

  /** The trace before the payload runs: the manifest writes, then the
      resolution loop's calls. */
  function Prepared(cfg: Config, site: Site): (calls: seq<Call>)
    requires |site.script| >= MaxAttempts
    ensures Fetches(calls) <= MaxAttempts
    ensures forall c :: c in calls ==> !c.Execute?
  {
    var writes := ManifestWrites(cfg, site);
    var run := Resolve(site.script);
    PrepareTallies(writes, run);
    writes + run.calls
  }

  /** Before the payload runs, the trace is the manifest writes and the
      resolution loop's calls. */
  lemma PrepareTallies(writes: seq<Call>, run: Run)
    requires forall c :: c in writes ==> c.WriteManifest?
    requires forall c :: c in run.calls ==> ResolutionCall(c)
    requires Fetches(run.calls) <= MaxAttempts
    ensures Fetches(writes + run.calls) <= MaxAttempts
    ensures forall c :: c in writes + run.calls ==> !c.Execute?
  {
    WriteTallies(writes);
    TalliesConcat(writes, run.calls);
  }

  /** Manifest writes never ask for an event range. */
  lemma {:induction false} WriteTallies(calls: seq<Call>)
    requires forall c :: c in calls ==> c.WriteManifest?
    ensures Fetches(calls) == 0
    decreases |calls|
  {
    if |calls| > 0 {
      assert calls[0] in calls;
      assert forall c :: c in calls[1..] ==> c in calls;
      WriteTallies(calls[1..]);
    }
  }

  /** The postprocess run: report on the sample the saved marker names; the
      payload already ran, so the status is 0. */
  function PostprocessRun(site: Site): (r: Exit)
    ensures Fetches(r.calls) == 0
    ensures r.code == 0 || r.code == ExitCodeCrash
    ensures site.savedMarker.None? ==> r == Exit(0, [])
    ensures forall c :: c in r.calls ==> !c.Execute?
  {
    match site.savedMarker
    case None => Exit(0, [])
    case Some(text) =>
      var r := PostPhase(text, 0, site, []);
      ReportTallies(r.calls);
      r
  }

  /** What follows the resolution loop: the fixed exit codes, the clean exit
      without work, the stop after preprocessing, or running the payload
      with `params` and reporting. */
  function Conclude(mode: Mode, params: string, site: Site, calls: seq<Call>, outcome: Outcome): (r: Exit)
    requires mode != Postprocess
    requires forall c :: c in calls ==> !c.Execute?
    ensures r.code < StatusModulus
    ensures Fetches(r.calls) == Fetches(calls)
    ensures forall c :: c in r.calls && c.Execute? ==> mode == SingleStep && c == Execute(params)
    ensures outcome == NoWork ==> r == Exit(0, calls)
    ensures outcome == ExitWget ==> r == Exit(ExitCodeWget, calls)
    ensures outcome == ExitEvent ==> r == Exit(ExitCodeEvent, calls)
  {
    match outcome
    case ExitWget => Exit(ExitCodeWget, calls)
    case ExitEvent => Exit(ExitCodeEvent, calls)
    case Crashed => Exit(ExitCodeCrash, calls)
    case NoWork => Exit(0, calls)
    case Resolved(eventID, sampleID, _) =>
      if mode == Preprocess then Exit(0, calls)
      else
        var ran := calls + [Execute(params)];
        var r := PostPhase(Format(eventID, sampleID), Normalise(site.rawStatus), site, ran);
        ReportTallies(r.calls[|ran|..]);
        ExecuteTallies(calls, params, r.calls[|ran|..]);
        assert r.calls == calls + [Execute(params)] + r.calls[|ran|..];
        assert mode == SingleStep;
        r
  }

  lemma ExecuteTallies(calls: seq<Call>, params: string, reported: seq<Call>)
    requires forall c :: c in calls ==> !c.Execute?
    requires forall c :: c in reported ==> c.ReportLoss? || c.AcknowledgeEvent?
    requires Fetches(reported) == 0
    ensures Fetches(calls + [Execute(params)] + reported) == Fetches(calls)
    ensures forall c :: c in calls + [Execute(params)] + reported && c.Execute? ==> c == Execute(params)
  {
    TalliesOne(Execute(params));
    TalliesConcat(calls, [Execute(params)]);
    TalliesConcat(calls + [Execute(params)], reported);
  }

  /** Reporting calls never ask for an event range. */
  lemma {:induction false} ReportTallies(calls: seq<Call>)
    requires forall c :: c in calls ==> c.ReportLoss? || c.AcknowledgeEvent?
    ensures Fetches(calls) == 0
    decreases |calls|
  {
    if |calls| > 0 {
      assert calls[0] in calls;
      assert forall c :: c in calls[1..] ==> c in calls;
      ReportTallies(calls[1..]);
    }
  }

  /** After a resolved loop, the exit code is 0 for a preprocess run;
      otherwise it is the folded payload status when the marker reads back,
      and the crash status when it does not. */
  lemma ConcludeResolved(mode: Mode, params: string, site: Site, calls: seq<Call>, e: string, s: string, p: Params)
    requires mode != Postprocess && forall c :: c in calls ==> !c.Execute?
    ensures var r := Conclude(mode, params, site, calls, Resolved(e, s, p));
      && (mode == Preprocess ==> r == Exit(0, calls))
      && (mode == SingleStep && Parse(Format(e, s)).Some? ==> r.code == Normalise(site.rawStatus))
      && (mode == SingleStep && Parse(Format(e, s)).None? ==> r.code == ExitCodeCrash)
      && (mode == SingleStep ==> Execute(params) in r.calls)
  {
    if mode == SingleStep {
      var ran := calls + [Execute(params)];
      assert Execute(params) in ran;
    }
  }

  /** The exit code does not depend on the artifact or on the coordinator's
      answer to the report. */
  lemma ConcludeIgnoresReporting(mode: Mode, params: string, site: Site, calls: seq<Call>, outcome: Outcome, artifact: Artifact, accepted: bool)
    requires mode != Postprocess && forall c :: c in calls ==> !c.Execute?
    ensures Conclude(mode, params, site.(artifact := artifact, reportAccepted := accepted), calls, outcome).code
      == Conclude(mode, params, site, calls, outcome).code
  {
  }

  /** Whatever the output artifact holds and whatever the coordinator says
      to the loss report, the exit code is the same. */
  lemma ReportingNeverChangesExit(cfg: Config, site: Site, artifact: Artifact, accepted: bool)
    requires |site.script| >= MaxAttempts
    ensures RunWorker(cfg, site.(artifact := artifact, reportAccepted := accepted)).code == RunWorker(cfg, site).code
  {
    var other := site.(artifact := artifact, reportAccepted := accepted);
    if cfg.mode != Postprocess {
      assert Inputs(cfg, other) == Inputs(cfg, site);
      if !LinkFails(cfg, site) && !NoInputFound(cfg, site) && !NoCommand(cfg) {
        var run := Resolve(site.script);
        assert Prepared(cfg, other) == Prepared(cfg, site);
        ConcludeIgnoresReporting(cfg.mode, JobParams(cfg, site), site, Prepared(cfg, site), run.outcome, artifact, accepted);
      }
    }
  }

  /** An empty event-range list in the first round ends the run with exit
      code 0, without asking the coordinator, writing a marker or running
      the payload. */
  /** With `-j ''` and job parameters that hold no word, the worker dies
      before it asks for an event range, whatever the services would have
      answered; with no inputs nothing else can stop it first. */
  lemma BlankCommandCrashes(cfg: Config, site: Site)
    requires |site.script| >= MaxAttempts && cfg.mode != Postprocess
    requires |cfg.inputs| == 0 && |cfg.inMap| == 0
    requires cfg.scriptName == Some("") && forall i :: 0 <= i < |cfg.jobParams| ==> IsSpace(cfg.jobParams[i])
    ensures RunWorker(cfg, site) == Exit(ExitCodeCrash, [])
  {
    assert MergeSecondary(cfg.inputs, cfg.inMap) == [];
  }

  lemma EmptyRangesExitZero(cfg: Config, site: Site)
    requires |site.script| >= MaxAttempts && cfg.mode != Postprocess && !LinkFails(cfg, site) && !NoInputFound(cfg, site) && !NoCommand(cfg)
    requires site.script[0].events == Ranges([])
    ensures var r := RunWorker(cfg, site);
      r.code == 0 && Lookups(r.calls) == 0 && MarkerWrites(r.calls) == 0
      && forall c :: c in r.calls ==> !c.Execute?
  {
    var writes := ManifestWrites(cfg, site);
    var script := site.script[..MaxAttempts];
    NoEventsMeansNoWork(script);
    ManifestCallsTallies(Manifests(ParseStreamFiles(cfg.writeInputToTxt), Inputs(cfg, site), cfg.inMap));
    TalliesConcat(writes, [GetEventRanges]);
    TalliesOne(GetEventRanges);
  }

  /** A single-step run that resolves an event range without a comma in its
      ID exits with the payload's status folded into `0..254`. */
  lemma SingleStepExitIsPayloadStatus(cfg: Config, site: Site)
    requires |site.script| >= MaxAttempts && cfg.mode == SingleStep && !LinkFails(cfg, site) && !NoInputFound(cfg, site) && !NoCommand(cfg)
    requires Resolve(site.script).outcome.Resolved? && ',' !in Resolve(site.script).outcome.eventID
    ensures RunWorker(cfg, site).code == Normalise(site.rawStatus)
  {
    var run := Resolve(site.script);
    var o := run.outcome;
    LoopResolvedEnds(site.script[..MaxAttempts]);
    EventMarkerRoundTrip(o.eventID);
    ConcludeResolved(cfg.mode, JobParams(cfg, site), site, Prepared(cfg, site), o.eventID, o.sampleID, o.parameters);
  }

  /** A single-step run that resolves an event range with a comma in its ID
      runs the payload and then dies reading the marker back. */
  lemma CommaInEventCrashesAfterRun(cfg: Config, site: Site)
    requires |site.script| >= MaxAttempts && cfg.mode == SingleStep && !LinkFails(cfg, site) && !NoInputFound(cfg, site) && !NoCommand(cfg)
    requires Resolve(site.script).outcome.Resolved? && ',' in Resolve(site.script).outcome.eventID
    ensures RunWorker(cfg, site).code == ExitCodeCrash
    ensures Execute(JobParams(cfg, site)) in RunWorker(cfg, site).calls
  {
    var run := Resolve(site.script);
    var o := run.outcome;
    CommaBreaksMarker(o.eventID, o.sampleID);
    ConcludeResolved(cfg.mode, JobParams(cfg, site), site, Prepared(cfg, site), o.eventID, o.sampleID, o.parameters);
  }

  /** Without direct access, a name in the starting directory requested
      twice makes the second link raise: the process dies before asking for
      any event range. */
  lemma RepeatedInputCrashes(cfg: Config, site: Site)
    requires |site.script| >= MaxAttempts && cfg.mode != Postprocess && !cfg.directIn
    requires Repeated(MergeSecondary(cfg.inputs, cfg.inMap), site.runDirFiles)
    ensures RunWorker(cfg, site) == Exit(ExitCodeCrash, [])
  {
    LinkingFailsOnRepeat(MergeSecondary(cfg.inputs, cfg.inMap), site.runDirFiles);
  }

  /** The trace before the payload runs asks for as many event ranges as
      the resolution loop. */
  lemma PreparedFetches(cfg: Config, site: Site)
    requires |site.script| >= MaxAttempts
    ensures Fetches(Prepared(cfg, site)) == Fetches(Resolve(site.script).calls)
  {
    ManifestCallsTallies(Manifests(ParseStreamFiles(cfg.writeInputToTxt), Inputs(cfg, site), cfg.inMap));
    TalliesConcat(ManifestWrites(cfg, site), Resolve(site.script).calls);
  }

  /** The loop stops in round `k` with that round's outcome, after `k + 1`
      event-range requests, when every earlier round went on. */
  lemma StopsInRound(site: Site, k: nat)
    requires |site.script| >= MaxAttempts && k < MaxAttempts
    requires forall j :: 0 <= j < k ==> Continues(site.script[j])
    requires !Continues(site.script[k])
    ensures Resolve(site.script).outcome == Step(site.script[k]).outcome
    ensures Fetches(Resolve(site.script).calls) == k + 1
  {
    var script := site.script[..MaxAttempts];
    assert forall j :: 0 <= j <= k ==> script[j] == site.script[j];
    LoopStopsAtFirstDecisive(script, k);
  }

  /** A failed event-range request ends the run with exit code 146 in that
      round: the request is not retried, however many rounds remain. */
  lemma FetchFailureExits146(cfg: Config, site: Site, k: nat)
    requires |site.script| >= MaxAttempts && cfg.mode != Postprocess && !LinkFails(cfg, site) && !NoInputFound(cfg, site) && !NoCommand(cfg)
    requires k < MaxAttempts && forall j :: 0 <= j < k ==> Continues(site.script[j])
    requires site.script[k].events.HttpFailed?
    ensures RunWorker(cfg, site).code == ExitCodeWget
    ensures Fetches(RunWorker(cfg, site).calls) == k + 1
  {
    StopsInRound(site, k);
    PreparedFetches(cfg, site);
  }

  /** An answer the worker cannot use ends the run with exit code 147 in
      that round, with no further request. */
  lemma UnusableAnswerExits147(cfg: Config, site: Site, k: nat)
    requires |site.script| >= MaxAttempts && cfg.mode != Postprocess && !LinkFails(cfg, site) && !NoInputFound(cfg, site) && !NoCommand(cfg)
    requires k < MaxAttempts && forall j :: 0 <= j < k ==> Continues(site.script[j])
    requires Unusable(site.script[k])
    ensures RunWorker(cfg, site).code == ExitCodeEvent
    ensures Fetches(RunWorker(cfg, site).calls) == k + 1
  {
    StopsInRound(site, k);
    PreparedFetches(cfg, site);
  }

  /** An event-range ID with fewer than four `-` fields ends the run with
      exit code 147. */
  lemma ShortEventIdExits147(cfg: Config, site: Site, k: nat)
    requires |site.script| >= MaxAttempts && cfg.mode != Postprocess && !LinkFails(cfg, site) && !NoInputFound(cfg, site) && !NoCommand(cfg)
    requires k < MaxAttempts && forall j :: 0 <= j < k ==> Continues(site.script[j])
    requires site.script[k].events.Ranges? && |site.script[k].events.ids| > 0
    requires |Split(site.script[k].events.ids[0], '-')| < 4
    ensures RunWorker(cfg, site).code == ExitCodeEvent
  {
    ShortEventIdUnusable(site.script[k]);
    UnusableAnswerExits147(cfg, site, k);
  }
}
