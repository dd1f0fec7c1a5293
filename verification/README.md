# runHPO worker model

A Dafny model of `runHPO.py`, the worker-node script that evaluates one
hyperparameter-optimisation (HPO) sample for a PanDA job.

PanDA is the workload manager: it hands out *event ranges* and must be told
when one is finished. iDDS is the HPO *coordinator*: it holds every sample's
parameters and loss. The script runs in one of three modes:

- **single-step**: resolve a sample, run the payload with it, report the loss;
- **preprocess**: resolve a sample and stop before running the payload;
- **postprocess**: report the loss of a sample that an earlier preprocess run resolved.

The model keeps the script's decisions and leaves out its file and process
plumbing. The remote services are *scripted*: each round of the resolution
loop is given the answer PanDA and iDDS would send (`Resolution.Attempt`). The
payload's status, the output artifact and the coordinator's acceptance of the
report are fields of the site (`Worker.Site`). A run yields an exit code
together with the ordered trace of externally visible calls (`Protocol.Call`).

Modules, one per file:

| file | module | what it holds |
|---|---|---|
| `wrappers.dfy` | `Wrappers` | `Option` |
| `text.dfy` | `Text` | the string operations the script relies on: `str.split`, `','.join`, `str.replace` |
| `protocol.dfy` | `Protocol` | JSON values, the call trace, and counts of calls in a trace |
| `marker.dfy` | `Marker` | the sample ID inside an event-range ID, and the `event,sample` marker file |
| `packaging.dfy` | `Packaging` | merging `inMap` files into the inputs, the pool-file-catalog table, input resolution, the `writeInputToTxt` option, and `%IN` / `%TOKEN` substitution |
| `resolution.dfy` | `Resolution` | one round of the ten-attempt resolution loop and the loop itself, as corrected and as written |
| `reporting.dfy` | `Reporting` | loss extraction, loss reporting with event acknowledgement, and `status %= 255` |
| `worker.dfy` | `Worker` | one whole invocation: options and site, giving an exit code and a trace |

Behaviour of the code that the model keeps as it is:

- **Per-stream substitution.** Each `%TOKEN` replacement appends a blank, and the delimiter it matched is kept. So `run.sh %IN --extra %INPUT2` with streams `IN=[a,b]` and `INPUT2=[c]` becomes `run.sh a,b  --extra c ` (a double blank and a trailing blank). `Packaging.StreamPlaceholdersRespectBoundaries` states exactly this, and `Packaging.SubstituteStreamsLine` states it for any line and any number of streams whose file names hold no `%`, quote or newline. The substitutions run one stream after another over the whole text, so a file name that holds a later stream's placeholder is itself rewritten (`Packaging.LaterStreamRewritesFiles`).
- **Sample ID.** The sample ID is the fourth field of the event-range ID split on `-`, and nothing else separates fields (line 347).
- **Exit status.** The payload status is reduced with Python's `% 255`. A wrapper exit code `e` seen as wait status `256*e` therefore comes out as `e` (`Reporting.WaitStatus`), and an exit code of 255 comes out as 0, the success status (`Reporting.ExitCode255Vanishes`).
- **Repeated inputs.** Without direct access, a name in the starting directory requested twice makes the second `os.symlink` raise, and the process dies with status 1 before asking for an event range (`Worker.RepeatedInputCrashes`).

`Resolution.Round`, `Packaging.CollectStreams` and `Packaging.Locate` are
internal bodies with no contract of their own: their behaviour is stated by
`Resolution.Step` and `Resolution.StepAsWritten`, by
`Packaging.CollectStreamItems`, and by `Packaging.ResolveInputs`.

## Model

| member | source | states |
|---|---|---|
| Text.Split | src/runhpo/runHPO.py:286-287 | `str.split(sep)`: one more part than there are separators; no part contains the separator; every character of a part comes from the input; joining the parts with the separator gives the input back |
| Text.SplitJoin | src/runhpo/runHPO.py:286-290 | splitting a separator-joined list of separator-free parts gives back exactly those parts |
| Text.ReplaceAll | src/runhpo/runHPO.py:296 | `str.replace` does not shrink the text when the replacement is at least as long as the pattern, and does not grow it when the replacement is no longer |
| Text.ReplaceAllUnchanged | src/runhpo/runHPO.py:296 | `str.replace` leaves the text unchanged if and only if the replacement equals the pattern or the pattern does not occur |
| Text.ReplaceAllSkips | src/runhpo/runHPO.py:296 | a prefix that does not contain the pattern's first character is copied unchanged, and replacement continues after it |
| Text.ReplaceAllHead | src/runhpo/runHPO.py:296 | a pattern at the head of the text is replaced, and the scan resumes right after it |
| Marker.SampleIdOf | src/runhpo/runHPO.py:347 | the sample ID exists if and only if the event-range ID has at least three dashes; it contains no dash and only characters of the event-range ID |
| Marker.SampleIdOfFields | src/runhpo/runHPO.py:347 | for an ID built from four or more dash-free fields, the sample ID is the fourth field |
| Marker.Format | src/runhpo/runHPO.py:362-363 | the marker holds one more comma than the event and sample IDs together |
| Marker.Parse | src/runhpo/runHPO.py:459-461 | reading the marker succeeds if and only if it holds exactly one comma; both fields are then comma-free and re-formatting them gives the marker text back |
| Marker.RoundTrip | src/runhpo/runHPO.py:362-461 | the marker reads back as the written pair if and only if neither ID contains a comma |
| Marker.EventMarkerRoundTrip | src/runhpo/runHPO.py:347-461 | for a comma-free event-range ID, the marker with its own sample ID reads back as that event and sample |
| Marker.CommaBreaksMarker | src/runhpo/runHPO.py:459-461 | a comma in the event ID makes reading the marker fail |
| Packaging.MapFiles | src/runhpo/runHPO.py:182-184 | the files of `inMap` are exactly those listed under some stream |
| Packaging.AppendMissing | src/runhpo/runHPO.py:184-186 | the list keeps its prefix; the result holds exactly the old and the new files; appended files were not in the list before and are pairwise distinct |
| Packaging.MergeSecondary | src/runhpo/runHPO.py:181-186 | the original inputs keep their place; the merged list holds exactly the inputs and every `inMap` file; each added file is new and added once |
| Packaging.MergeIdempotent | src/runhpo/runHPO.py:181-186 | merging the secondary files a second time adds nothing |
| Packaging.LastSegment | src/runhpo/runHPO.py:174 | the logical name has no `/`, ends the path, and follows a `/` when it is not the whole path |
| Packaging.LastSegmentOfPath | src/runhpo/runHPO.py:174 | the logical name of `dir/name` is `name` |
| Packaging.PfnByLfn | src/runhpo/runHPO.py:165-177 | every physical name is filed under its own logical name; every catalog entry's logical name is a key; every value is a physical name of the catalog; an entry that no later entry overrides is the one filed |
| Packaging.ResolveInputs | src/runhpo/runHPO.py:241-261 | at most as many inputs come out as go in. Without direct access, the result holds exactly the requested names present in the run directory. With direct access, it holds exactly the catalog PFNs of the requested names |
| Packaging.ResolveInputsConcat | src/runhpo/runHPO.py:244-261 | names are resolved one at a time, in request order: resolving a concatenation concatenates the results |
| Packaging.Symlinks | src/runhpo/runHPO.py:244-258 | when linking succeeds, the links made are exactly those made before plus every requested name present in the starting directory |
| Packaging.SymlinksFail | src/runhpo/runHPO.py:244-258 | linking fails if and only if some present name is requested twice, or was already linked before |
| Packaging.LinkingFailsOnRepeat | src/runhpo/runHPO.py:244-258 | linking into the fresh run directory fails if and only if a name present in the starting directory is requested twice |
| Packaging.DirectInputsAreRequested | src/runhpo/runHPO.py:247-251 | in direct-access mode every resolved entry is a physical name whose logical name was requested |
| Packaging.ParseStreamFiles | src/runhpo/runHPO.py:284-290 | neither the stream names nor the file names of the parsed table contain `,` or `:` |
| Packaging.CollectStreamItems | src/runhpo/runHPO.py:286-290 | collecting clean `stream:file` items builds the table the pairs describe, a later pair for a stream winning |
| Packaging.StreamFilesRoundTrip | src/runhpo/runHPO.py:284-290 | writing a table of clean pairs as `stream:file,…` and parsing it back gives the same table |
| Packaging.SubTokenWithoutPlaceholder | src/runhpo/runHPO.py:310 | text in which no placeholder is followed by a delimiter or the end comes out of the `%TOKEN` substitution unchanged |
| Packaging.SubTokenWord | src/runhpo/runHPO.py:310 | on a plain word followed by a blank, a quote, the end or a final newline, only a placeholder that ends the word is replaced, and what follows is substituted on its own |
| Packaging.PlaceholderBeforeDelimiter | src/runhpo/runHPO.py:310 | a placeholder followed by a delimiter becomes the replacement; the delimiter is kept and the scan goes on after it |
| Packaging.QuotedPlaceholder | src/runhpo/runHPO.py:310 | a placeholder between double or single quotes is replaced, and both quotes are kept |
| Packaging.SubTokenLine | src/runhpo/runHPO.py:310 | on a blank-separated line of words without quotes or newlines, one stream's substitution replaces exactly the words that are its placeholder |
| Packaging.SubstituteStreams | src/runhpo/runHPO.py:304-310 | text without `%` comes out of the per-stream substitution unchanged, whatever the streams |
| Packaging.SubstituteStreamsLine | src/runhpo/runHPO.py:304-310 | on such a line, after every stream's substitution, each word that is a stream's placeholder holds that stream's comma-joined files and a blank (the first stream in `inMap` order wins), and every other word is kept. When no file name holds `%`, a quote or a newline, files substituted for one stream are never rewritten by a later one |
| Packaging.LaterStreamRewritesFiles | src/runhpo/runHPO.py:306-310 | a file name that holds a later stream's placeholder is rewritten by that stream: with `IN=[x%IN2]` and `IN2=[y]`, `%IN` becomes `xy` and two blanks |
| Packaging.Substitute | src/runhpo/runHPO.py:281-310 | without inputs the job parameters are unchanged, and job parameters without `%` are never changed |
| Packaging.SubTokenWords | src/runhpo/runHPO.py:310 | on a blank-separated line of plain words, the substitution replaces exactly the words that end with the placeholder, word by word |
| Packaging.Manifests | src/runhpo/runHPO.py:293-317 | No manifest is written without inputs. With an empty `inMap`, all inputs go to the file named for `IN`, if any. Otherwise there is one manifest for each stream that has a file name, holding that stream's files |
| Packaging.StreamManifests | src/runhpo/runHPO.py:306-317 | a manifest is written for a stream if and only if the stream has a file name, and it holds the stream's own files |
| Packaging.StreamManifestsConcat | src/runhpo/runHPO.py:306-317 | the manifests are written in `inMap` order, earlier streams before later ones, so when two streams name the same file the later stream's list is the one left in it |
| Packaging.PlainInReplacesInsideLongerNames | src/runhpo/runHPO.py:293-296 | with an empty `inMap`, `%IN` is replaced everywhere, including at the head of a longer name such as `%INPUT2` |
| Packaging.StreamPlaceholdersRespectBoundaries | src/runhpo/runHPO.py:304-310 | with per-stream placeholders, one stream name that is a prefix of another does not capture it; each replacement adds a blank and keeps its delimiter |
| Resolution.Step | src/runhpo/runHPO.py:322-371 | one round always asks PanDA for an event range first, and exactly once. It goes on if and only if the sample was already evaluated or iDDS could not be asked. It exits with the fetch code if and only if the fetch failed, with no work if and only if the range list is empty, and with the event code if and only if an answer is unusable (an unreadable range list, an ID with fewer than four `-` fields, no `loss` key, or no `parameters` for a pending sample). It resolves if and only if the sample is pending: it then asks iDDS for the sample named by the ID, writes the marker and then the parameters, and nothing else. An already-evaluated sample's range is acknowledged. At most one marker is written, and only when the round resolves or exits with the event code |
| Resolution.StepAsWritten | src/runhpo/runHPO.py:367-368 | as written, an iDDS failure ends the process with a crash; every other round is as in `Step` |
| Resolution.Loop | src/runhpo/runHPO.py:322-371 | the loop asks for at most one event range per attempt, and at least one when it has attempts; it never crashes; at most one marker is written, only when it resolves or exits with the event code, and always when it resolves |
| Resolution.LoopResolvedEnds | src/runhpo/runHPO.py:359-366 | a resolved loop's trace ends with the marker for the resolved event and sample, then the parameters write, and the sample is the one the event ID carries |
| Resolution.LoopCalls | src/runhpo/runHPO.py:322-371 | the loop only talks to PanDA and iDDS and writes the two local files |
| Resolution.Resolve | src/runhpo/runHPO.py:322 | with ten rounds, between one and ten event ranges are requested; the loop never crashes and makes only resolution calls |
| Resolution.LoopStopsAtFirstDecisive | src/runhpo/runHPO.py:322-371 | the loop stops in the first round that does not go on, with that round's outcome, after one request per round so far |
| Resolution.LoopExhausted | src/runhpo/runHPO.py:322-376 | when every round goes on, every attempt is used, one request each, and the outcome is no work with no marker |
| Resolution.NoEventsMeansNoWork | src/runhpo/runHPO.py:343-344 | an empty range list ends the loop at once, with no work and a single request |
| Resolution.ResolvedOnlyPending | src/runhpo/runHPO.py:355-366 | a resolved loop resolved a pending sample: some round handed out the resolved event range, every earlier round went on, and iDDS had no loss for the sample yet |
| Resolution.ShortEventIdUnusable | src/runhpo/runHPO.py:346-347 | an event-range ID with fewer than four `-` fields is an unusable answer |
| Resolution.AcknowledgedRound | src/runhpo/runHPO.py:355-358 | a round whose sample was already evaluated asks for the range, looks the sample up and acknowledges the range; the next round begins with a new request |
| Resolution.AlreadyEvaluatedAcknowledged | src/runhpo/runHPO.py:322-358 | in any round `k` reached by rounds that went on, an already-evaluated sample's event range is acknowledged after request `k + 1` and immediately before request `k + 2` |
| Resolution.LoopAsWritten | src/runhpo/runHPO.py:367-368 | as written, the loop crashes only if some round found iDDS down; without such a round it equals the corrected loop |
| Resolution.CoordinatorFailureCrashesAsWritten | src/runhpo/runHPO.py:351-368 | as written, an iDDS failure in the first round crashes the process after a single event-range request |
| Resolution.CoordinatorFailureRetried | src/runhpo/runHPO.py:351-368 | corrected, an iDDS failure is logged and the next round follows, with the same outcome as the remaining rounds |
| Reporting.ExtractLoss | src/runhpo/runHPO.py:463-482 | a loss is taken if and only if the artifact parses, its `status` is 0 and its `loss` is present and not null; the loss is then that field |
| Reporting.Report | src/runhpo/runHPO.py:485-493 | without a loss nothing is sent. With a loss, it goes to iDDS first, and the event range is acknowledged if and only if iDDS accepted it. No other call is made, and no acknowledgement precedes the report |
| Reporting.Normalise | src/runhpo/runHPO.py:418 | the status is in `0..254` and differs from the raw status by a multiple of 255 |
| Reporting.NormaliseUnique | src/runhpo/runHPO.py:418 | those two properties determine the status |
| Reporting.NormaliseIdempotent | src/runhpo/runHPO.py:418 | reducing a reduced status changes nothing |
| Reporting.WaitStatus | src/runhpo/runHPO.py:416-418 | a wait status `256*e` with an exit code `e` below 255 reduces to `e` |
| Reporting.WrappedPayloadStatus | src/runhpo/runHPO.py:391-418 | the wrapper's reduced exit code, seen from outside as a wait status, reduces to the payload's reduced status |
| Reporting.ExitCode255Vanishes | src/runhpo/runHPO.py:418 | exit code 255 of the wrapped payload reduces to 0, the success status |
| Worker.Inputs | src/runhpo/runHPO.py:241-261 | no inputs are resolved when none are requested after merging |
| Worker.PostPhase | src/runhpo/runHPO.py:459-493 | A marker that does not read back crashes the process. Otherwise the exit code is the given status. Calls made so far are kept, and what follows holds only loss reports and acknowledgements, none before a report. Without a loss nothing is added. With a loss, the report goes to the marker's sample, and the marker's event is acknowledged if and only if iDDS accepts |
| Worker.PostprocessRun | src/runhpo/runHPO.py:445-452 | a postprocess run never fetches an event range or runs the payload; it exits 0, or crashes reading the marker; without a saved marker it exits 0 with no calls |
| Worker.Conclude | src/runhpo/runHPO.py:373-418 | after the loop, the exit code is below 255 and no further event range is requested. The payload runs only in single-step mode, with the substituted parameters. With no work the run exits 0 and adds no call. A failed fetch exits 146 and an unusable answer exits 147, adding no call |
| Worker.RunWorker | src/runhpo/runHPO.py:236-544 | The exit code is below 255, with at most ten event-range requests. A postprocess run requests none and exits 0 or crashes. When no requested input can be found, the run exits 11 with no calls. When linking the inputs fails, it exits 1 with no calls. With `-j ''` and job parameters that hold no word, taking the first word raises and the run exits 1 with no calls. An event range is requested only when none of these applies. The payload runs only in single-step mode |
| Worker.ConcludeResolved | src/runhpo/runHPO.py:380-418 | After a resolved loop, preprocess exits 0. Single-step runs the payload, then exits with the reduced status if the marker reads back and crashes if it does not |
| Worker.LinkFailsMeansFound | src/runhpo/runHPO.py:244-264 | a failed link means some input was found, so the no-input exit cannot apply |
| Worker.RepeatedInputCrashes | src/runhpo/runHPO.py:244-258 | without direct access, a name present in the starting directory requested twice crashes the run with no call made |
| Worker.StopsInRound | src/runhpo/runHPO.py:322-371 | over the ten rounds, the loop stops in the first round that does not go on, with that round's outcome, after one request per round |
| Worker.FetchFailureExits146 | src/runhpo/runHPO.py:322-334 | a failed event-range request in round `k` ends the run with exit code 146 after exactly `k + 1` requests: it is not retried |
| Worker.UnusableAnswerExits147 | src/runhpo/runHPO.py:336-371 | an unusable answer in round `k` ends the run with exit code 147 after exactly `k + 1` requests |
| Worker.ShortEventIdExits147 | src/runhpo/runHPO.py:346-371 | an event-range ID with fewer than four `-` fields ends the run with exit code 147 |
| Worker.ReportingNeverChangesExit | src/runhpo/runHPO.py:463-493 | the exit code depends neither on the output artifact nor on whether iDDS accepts the loss |
| Worker.BlankCommandCrashes | src/runhpo/runHPO.py:275-278 | with no inputs, `-j ''` and blank job parameters, the run dies with status 1 before any event-range request, whatever the services would answer |
| Worker.EmptyRangesExitZero | src/runhpo/runHPO.py:343-376 | an empty first range list exits 0 without asking iDDS, writing a marker or running the payload |
| Worker.SingleStepExitIsPayloadStatus | src/runhpo/runHPO.py:416-418 | a single-step run that resolves a comma-free event range exits with the payload's reduced status |
| Worker.CommaInEventCrashesAfterRun | src/runhpo/runHPO.py:459-461 | a single-step run that resolves an event range with a comma in its ID runs the payload and then crashes reading the marker back |

## Left out

- **Option parsing** (`getopt`, `ast.literal_eval`, URL unquoting), the parameter dump and its `EC_MissingArg` (10) exit: the options are given already parsed, as `Worker.Config`.
- **Catalog XML parsing** (`xml.dom.minidom`): the catalog is the sequence of entries read before any parse failure. The GUID table `directTmpTurl` is built but never read, so it is not modelled.
- **Library and job-option archives**: the `tar` extraction, the job-option archive download over HTTP and their exits 143 and 146 happen before the modelled core. Their results come from the shell and the network, which are not modelled. A file these archives put in the run directory under an input's name would also make its link fail; the run directory is taken to start empty.
- **Shell and file-system side effects**: removing and creating directories, the `chmod` commands themselves (only whether the command word exists is modelled, `Worker.NoCommand`), `PATH`, and moving results and the catalog back. Of the symlinks only whether the next one can be made is modelled (`Packaging.Symlinks`). The manifest and sample files appear only as `WriteManifest` and `WriteSampleFile` calls.
- **Payload command construction**: writing the `trf.*.py` and `__run_main_exec.sh` wrappers. The payload run is the `Execute` call. The status it returns is `Site.rawStatus`, a parameter, and how `commands_get_status_output` computes it is not modelled.
- **The debug path** (`os.system` without reducing the status) and the echoed stdout and stderr.
- **Remote helpers** (`get_file_via_http`, `get_hpo_sample`, `update_hpo_sample`, `update_events`): these are oracles. Their answers are scripted in `Resolution.Attempt` and `Site.reportAccepted`, and their HTTP and certificate handling is not modelled.
- **The `add_user_job_metadata` call**: every `Exception` it raises is caught and ignored, so it never affects the outcome.
- **Non-ASCII white space in the job parameters.** Python's `str.split()` also splits on Unicode spaces such as U+00A0 and U+2028. `Worker.IsSpace` covers only the ASCII ones, so job parameters made only of such characters are taken to hold a word.
- **JSON encoding.** Only `null`, numbers and strings are modelled. A boolean `status` of `false`, which Python treats as equal to 0, is not.
- **Duplicate streams in `inMap`.** `inMap` is a sequence in dictionary iteration order; the uniqueness of its keys is not enforced.
- **Regular-expression special characters in stream names** are not modelled. Stream names are compared as literal text.
- **Backslashes in file names.** The comma-joined files enter the `re.sub` replacement template at line 310, where a backslash starts an escape. File names are taken to hold no backslash, so the replacement is inserted literally.
- Packaging.SubstituteStreamsLine: the word-by-word result holds only when no file name holds `%`, a quote or a newline. A file name that holds a later stream's placeholder is rewritten by that stream's substitution, as `Packaging.LaterStreamRewritesFiles` shows; a quote or newline in a file name can likewise end a placeholder the line did not have.
- **The marker file during the payload run.** In single-step mode the marker is read back after the payload has run (lines 459-461). The model reads back exactly what was written, so it takes the payload to leave that file alone.
- Resolution.Resolve: the script is required to hold at least ten attempts, one for every round the loop may run. A shorter script would stand for services that stop answering, which the script does not have.
- Packaging.ParseStreamFiles: the contract states only that the table is clean. The exact content is stated for tables that were written from pairs, by `Packaging.StreamFilesRoundTrip`.
- Worker.Inputs: the contract states only the empty case; the content of the resolved list is stated by `Packaging.ResolveInputs`.

## Findings

| source | as written | input that shows it | evidently intended | confidence | as-written member | corrected member |
|---|---|---|---|---|---|---|
| src/runhpo/runHPO.py:367-368 | the handler for an iDDS failure formats `e.message`; Python 3 exceptions have no `message` attribute, so the handler raises `AttributeError`, which nothing catches, and the process dies with status 1 | any round in which `get_hpo_sample` reports failure (`SampleFailed`), under Python 3 | log the failure and go on to the next of the ten rounds | not executed; depends on running under Python 3 | Resolution.StepAsWritten, Resolution.CoordinatorFailureCrashesAsWritten | Resolution.Step, Resolution.CoordinatorFailureRetried |
