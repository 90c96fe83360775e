# Artwork validation flow: rule registry and upload state machine

This project models the two pieces of state-machine logic inside the pages of the
artwork-submission web client:

- **The validation page** (`src/pages/Validation.tsx`). A fixed, ordered registry
  of six validation rules, each `pending`, `validating`, `passed` or `failed`. One
  press of "Validate Artwork" does three things. It resets every rule to `pending`.
  It walks the rules in order, marking each `validating` and then committing its
  verdict; every update is keyed by rule id. It lowers the `isValidating` flag that
  disabled the button. The page derives `passed`/`failed`/`total` counters from the
  rule list, plus the gate on the "Download Validation Report" button.
- **The upload page** (`src/pages/Upload.tsx`). Two nullable slots, MDF and
  artwork, each holding `{file, progress, uploaded}`. A non-PDF selection is
  rejected. A drop picks the first PDF. An accepted selection puts a fresh record
  in the slot and starts a simulated upload, which writes progress 0, 10, …, 100
  on timer ticks and then the finished record. Removal empties a slot. Submission
  needs both slots finished.

Modules:

| module | file | contents |
|---|---|---|
| `Options` | `options.dfy` | `Option`, standing in for `null`/`undefined` |
| `Rules` | `rules.dfy` | rule record, registry, reset / mark / commit steps, counts, report gate |
| `ValidationRun` | `validation_run.dfy` | the run loop as a trace of page states, the closing notification |
| `UploadSlots` | `upload_slots.dfy` | slots, PDF check, first-PDF pick, removal, submission gate |
| `UploadFlow` | `upload_flow.dfy` | simulated uploads as running jobs, timer ticks, the page invariant |

Inputs that are random or come from the environment are parameters:
- `Math.random()` becomes one boolean verdict per rule.
- The dropped or chosen files are a `File` value (name and MIME type).
- The interleaving of timer ticks with user actions is a sequence of `Event`s.
  Choosing and dropping are offered only on an empty slot, because the drop zone
  and the file picker are shown only there; removal only on an occupied one.

Behaviour of the pages worth knowing:
- The code has no per-rule trigger, no "missing artwork" check and no remote
  validation call. One button runs all six rules with a random verdict each.
- A failed rule also gets `details` ("Issues found in …"), besides `errorDetails`.
  A reset only rewrites `status`, so the details of the previous run stay attached
  to `pending` rules.
- Uploads are never cancelled. Ticks of a job keep writing into its slot after the
  slot was emptied, or emptied and given another file (`LateTickRefillsRemovedSlot`,
  `SupersededJobOverwrites`).
- `isUploading` is one flag for both slots. Whichever job ends first clears it
  (`SharedFlagDropsEarly`). So "Proceed to Validation" can be enabled with a
  stale file: after the MDF file is removed and another chosen, the old upload's
  last tick puts the old file, finished, back in the slot and lowers the flag
  while the new upload still runs (`StaleFileCanProceed`).

## Model

| member | source | states |
|---|---|---|
| Rules.Registry | src/pages/Validation.tsx:40-83 | six rules, all `pending` with no details, ids distinct and in the order layout, barcode, dimensions, colors, quality, compliance |
| Rules.Reset | src/pages/Validation.tsx:89-90 | every rule becomes `pending`; length, order, id, name, description and both detail fields are kept |
| Rules.ResetHidesReport | src/pages/Validation.tsx:89-90 | right after a reset the summary card and the report button are hidden |
| Rules.MarkValidating | src/pages/Validation.tsx:95-102 | rules with the given id become `validating` with everything else about them kept; every other rule and the length are unchanged |
| Rules.MarkValidatingTouchesOne | src/pages/Validation.tsx:96-102 | with distinct ids, marking the rule at position k changes position k alone and keeps the id list |
| Rules.Verdict | src/pages/Validation.tsx:112-121 | the committed record keeps id, name, description; it is `passed` iff the verdict passed; passed: details "<name> completed successfully" and no errorDetails; failed: details "Issues found in <lower-cased name>" and errorDetails wrapping the description |
| Rules.Commit | src/pages/Validation.tsx:123-125 | rules with the verdict's id become the verdict record built from the snapshot rule, terminal, `passed` iff the verdict passed; all other rules unchanged; ids kept |
| Rules.CommitTouchesOne | src/pages/Validation.tsx:112-125 | with distinct ids, committing the verdict of the rule at k replaces position k by the verdict record and nothing else |
| Rules.CountAll | src/pages/Validation.tsx:134-137 | a status count equals the number of rules iff every rule has that status |
| Rules.Count | src/pages/Validation.tsx:177-178 | a status count is at most the number of rules, and zero iff no rule has that status |
| Rules.CountPartition | src/pages/Validation.tsx:177-179 | pending + validating + passed + failed counts add up to the total count |
| Rules.CountsBounded | src/pages/Validation.tsx:177-179 | passed + failed never exceeds the total, and equals it iff every rule is terminal |
| Rules.ReportAvailable | src/pages/Validation.tsx:316-358 | the report button (inside a summary shown when passed > 0 or failed > 0, and only when failed == 0) is shown iff passed > 0 and failed == 0 |
| Rules.ReportHiddenWhilePending | src/pages/Validation.tsx:316-358 | when every rule is pending neither the summary nor the report button is shown |
| ValidationRun.StepAdvances | src/pages/Validation.tsx:92-125 | one loop iteration marks rule i `validating` and then turns the list with i verdicts into the list with i + 1 verdicts |
| ValidationRun.HandleValidation | src/pages/Validation.tsx:85-131 | one state per state update: the reset list; then for rule i the list with rule i marked `validating` (by id) over the i earlier verdicts, and the list with rules 0..i carrying their verdicts and the rest `pending`; then the end of the run; the flag is up (button disabled) in all but the last state, which has every rule carrying its own verdict; ids never change |
| ValidationRun.FinalRulesTerminal | src/pages/Validation.tsx:92-129 | after a run every rule is `passed` or `failed`, `passed` iff its verdict passed, metadata unchanged; passed + failed equals the total |
| ValidationRun.FinalFailedCount | src/pages/Validation.tsx:177-178 | after a run the failed counter is the number of failing verdicts and the passed counter the rest |
| ValidationRun.ReportAfterRun | src/pages/Validation.tsx:316-358 | after a run the report button is offered iff there is a rule and every verdict passed |
| ValidationRun.SnapshotToast | src/pages/Validation.tsx:134-148 | the closing notice as written: "all passed" iff every rule of the click-time list has status `passed`, otherwise the issues are the rules of that list pending, validating or failed, at least one |
| ValidationRun.NextRunReportsPreviousVerdicts | src/pages/Validation.tsx:134-148 | for every run, the notice the next press computes from its click-time list is exactly the corrected notice of this run: the page reports each run's verdicts one run late |
| ValidationRun.SnapshotToastMisreportsFirstRun | src/pages/Validation.tsx:134-148 | on the first run with six passing verdicts the report button appears, yet the notice reports six issues |
| ValidationRun.FinalToast | src/pages/Validation.tsx:134-148 | the notice computed from the list the run produced: "all passed" iff every verdict passed, otherwise the number of failing verdicts |
| UploadSlots.FirstPdf | src/pages/Upload.tsx:38-39 | returns the position of the first PDF among dropped files, with no PDF before it; none iff no file is a PDF; any PDF position with no PDF before it is the one returned |
| UploadSlots.RemoveFile | src/pages/Upload.tsx:109-115 | the slot becomes empty; the other slot and the flag are unchanged |
| UploadSlots.HandleSubmit | src/pages/Upload.tsx:117-125 | submission proceeds iff both slots hold a record and both records are finished uploads |
| UploadSlots.ProceedEnabledSubmits | src/pages/Upload.tsx:233-271 | an enabled "Proceed" button (both finished and the shared `isUploading` flag down) always proceeds; a proceeding page with the flag down has it enabled |
| UploadFlow.SimulateUpload | src/pages/Upload.tsx:81-99 | one simulation writes 12 records of the same file: progress 0, 10, …, 100 strictly increasing within 0..100 with `uploaded` as started, then `{100, uploaded}`; a finished record always shows 100 |
| UploadFlow.SelectFile | src/pages/Upload.tsx:52-79 | a non-PDF changes nothing; a PDF sets its slot to `{file, 0, false}`, keeps the other slot, raises the flag and starts a job for that slot |
| UploadFlow.DropFiles | src/pages/Upload.tsx:34-50 | with no PDF nothing changes; when the file at i is a PDF and none before it is, the result is selecting that file |
| UploadFlow.Remove | src/pages/Upload.tsx:109-115 | the slot becomes empty, the other slot, the flag and the running jobs are unchanged |
| UploadFlow.Fire | src/pages/Upload.tsx:81-101 | a tick writes the job's next record of the simulation trace into the job's slot, whatever the slot holds; the last tick writes the finished record, clears the shared flag and ends the job; the other slot is untouched |
| UploadFlow.StepKeepsGood | src/pages/Upload.tsx:34-168 | every event the page offers (choosing or dropping only on an empty slot, lines 162-168) keeps the page invariant: slots hold PDFs with progress in 0..100, finished ones at 100; jobs started fresh from a PDF; no job running means the flag is down |
| UploadFlow.RunKeepsGood | src/pages/Upload.tsx:34-115 | any run of events from a state meeting the invariant ends in one meeting it |
| UploadFlow.ReachableIsGood | src/pages/Upload.tsx:16-18 | every state reachable from the empty page meets the invariant |
| UploadFlow.SubmitMeansTwoCompletePdfs | src/pages/Upload.tsx:117-125 | in a reachable state a proceeding submission has two PDFs at progress 100 |
| UploadFlow.LateTickRefillsRemovedSlot | src/pages/Upload.tsx:84-90 | a tick of a job still running after its slot was emptied puts that job's file back in the slot |
| UploadFlow.SupersededJobOverwrites | src/pages/Upload.tsx:62-115 | after a slot is emptied and a new file is chosen for it, a tick of the older job for that slot writes the older file back |
| UploadFlow.TicksOfSoleJob | src/pages/Upload.tsx:81-91 | from a fresh selection with no other job, n ticks leave the slot at progress 10(n - 1) and the job at n ticks |
| UploadFlow.SoleUploadCompletes | src/pages/Upload.tsx:52-101 | choosing a PDF on the empty page followed by eleven ticks of its timer leaves `{file, 100, uploaded}` in the slot, no running job and the flag down |
| UploadFlow.StaleFileCanProceed | src/pages/Upload.tsx:78-125 | from a state meeting the invariant, removing the MDF file, choosing another and one tick of the old job leave "Proceed" enabled and submission proceeding with the old file while the new job runs |
| UploadFlow.SharedFlagDropsEarly | src/pages/Upload.tsx:78-101 | reachable: with the MDF job one tick from its end, choosing an artwork file raises the flag, and the MDF job's last tick lowers it while the artwork job still runs and its slot is unfinished |

## Left out

- Rendering: icons, badges, tooltips, card borders, the expanded-card state and the drag-over CSS class. These are presentation only.
- Notifications other than the run's closing notice, the 1.5 s and 100 ms delays, and the navigation to the validation page. Submission is modelled as a boolean "proceeds". Delays are modelled only as the order of events.
- The random verdict: it is the `verdicts` parameter, one boolean per rule.
- The step caption ("Step i: name", "Validation Complete") and the floating-point progress bar of the validation page. The file size in MB on the upload page. These are display values.
- Rules.Verdict: lower-cases the rule name in ASCII only, not the full Unicode `toLowerCase`. The registry's names are ASCII.
- ValidationRun.HandleValidation: requires distinct rule ids. The registry has them (`Registry`), and reset, mark and commit keep the id list. Duplicate ids would make one commit overwrite several rules.
- ValidationRun.HandleValidation: starts from the rule list at click time. No other writer acts during a run, because the button is disabled while `isValidating` holds.
- UploadFlow.Fire: React renders the two writes of the last tick (progress 100, then the finished record) as one update. The model keeps only the final value in the slot. Both writes appear in `SimulateUpload`'s trace.
- The login page (a fixed credential comparison), the landing page, the routing table and the not-found page: no logic worth modelling.
- The shared upload context: the upload page keeps its own two slots and does not use it.
- A remote validation service, barcode or contrast verdicts, per-rule triggering and a "missing artwork" error. None of these exists in the two pages.

## Findings

| source | as written | input that shows it | evidently intended | confidence | as-written member | corrected member |
|---|---|---|---|---|---|---|
| src/pages/Validation.tsx:134-137 | the closing notice counts passed rules over the rule list captured when the button was clicked, which is the list before the run; for every run, the next press reports this run's verdicts (`NextRunReportsPreviousVerdicts`) | the first run from the initial registry with all six verdicts passing: every rule ends `passed` and the report button appears, but the notice says "6 issues found" | count over the rule list the run produced, so the notice says "all passed" iff every verdict passed | high, not executed | ValidationRun.SnapshotToastMisreportsFirstRun | ValidationRun.FinalToast |
