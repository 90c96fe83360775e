/** The asynchronous part of the upload page. Each accepted selection starts a
    simulated upload that, on each of eleven timer ticks, writes the next progress
    value into its slot and, on the last, the finished record. Pending uploads are
    kept as jobs; nothing ever cancels one, so a job keeps writing into its slot
    after the slot was emptied or given another file. */
module UploadFlow {
  import opened Options
  import opened UploadSlots

  /** The last loop value of the simulation; a job has fired `fired` ticks. */
  const LastTick: nat := 10

  /** The progress written on tick `k` (the loop counter steps 0, 10, ..., 100). */
  function TickProgress(k: nat): int {
    10 * k
  }

  /** Every record one simulation of `u` writes, in order, in closed form. */
  function ProgressTrace(u: UploadedFile): seq<UploadedFile> {
    seq(LastTick + 1, k requires 0 <= k <= LastTick => u.(progress := TickProgress(k)))
      + [u.(progress := 100, uploaded := true)]
  }

  /** The simulation loop: the records it writes, in order. */
  method SimulateUpload(u: UploadedFile) returns (writes: seq<UploadedFile>)
    ensures writes == ProgressTrace(u)
    ensures |writes| == LastTick + 2
    ensures forall k :: 0 <= k < |writes| ==>
              0 <= writes[k].progress <= 100 && writes[k].file == u.file
    ensures forall k, l :: 0 <= k < l < |writes| - 1 ==> writes[k].progress < writes[l].progress
    ensures writes[0].progress == 0 && writes[|writes| - 2].progress == 100
    ensures forall k :: 0 <= k < |writes| - 1 ==> writes[k].uploaded == u.uploaded
    ensures writes[|writes| - 1] == u.(progress := 100, uploaded := true)
    ensures forall k :: 0 <= k < |writes| && writes[k].uploaded && !u.uploaded ==>
              writes[k].progress == 100
  {
    writes := [];
    var progress := 0;
    while progress <= 100
      invariant progress % 10 == 0 && 0 <= progress <= 110
      invariant |writes| == progress / 10
      invariant forall k :: 0 <= k < |writes| ==> writes[k] == u.(progress := TickProgress(k))
    {
      writes := writes + [u.(progress := progress)];
      progress := progress + 10;
    }
    writes := writes + [u.(progress := 100, uploaded := true)];
  }

  /** A simulated upload still running: its slot, the record it started from and
      the number of ticks it has already fired. */
  datatype Job = Job(slot: Slot, base: UploadedFile, fired: nat)

  datatype Session = Session(page: Page, jobs: seq<Job>)

  const Start := Session(EmptyPage, [])

  /** Choosing a file for slot `t`. A non-PDF only raises a notice; a PDF fills the
      slot with a fresh record, raises the shared flag and starts a job. */
  function SelectFile(s: Session, f: File, t: Slot): (r: Session)
    ensures !IsPdf(f) ==> r == s
    ensures IsPdf(f) ==>
              && Get(r.page, t) == Some(UploadedFile(f, 0, false))
              && Get(r.page, Other(t)) == Get(s.page, Other(t))
              && r.page.isUploading
              && r.jobs == s.jobs + [Job(t, Fresh(f), 0)]
  {
    if !IsPdf(f) then s
    else Session(Put(s.page, t, Some(Fresh(f))).(isUploading := true),
                 s.jobs + [Job(t, Fresh(f), 0)])
  }

  /** Dropping files on slot `t`: the first PDF among them is selected; with no
      PDF nothing changes. */
  function DropFiles(s: Session, files: seq<File>, t: Slot): (r: Session)
    ensures (forall j :: 0 <= j < |files| ==> !IsPdf(files[j])) ==> r == s
    ensures forall i :: 0 <= i < |files| && IsPdf(files[i]) && NoPdfBefore(files, i) ==>
              r == SelectFile(s, files[i], t)
  {
    match FirstPdf(files)
    case None => s
    case Some(i) => SelectFile(s, files[i], t)
  }

  /** Removing a file empties the slot; running jobs are left alone. */
  function Remove(s: Session, t: Slot): (r: Session)
    ensures Get(r.page, t) == None
    ensures Get(r.page, Other(t)) == Get(s.page, Other(t))
    ensures r.jobs == s.jobs && r.page.isUploading == s.page.isUploading
  {
    Session(RemoveFile(s.page, t), s.jobs)
  }

  function RemoveAt<T>(xs: seq<T>, j: nat): seq<T>
    requires j < |xs|
  {
    xs[..j] + xs[j + 1..]
  }

  /** The timer of job `j` fires. Before the last tick the job writes its next
      progress record; on the last it writes progress 100, then the finished
      record, and clears the shared flag. The write goes to the job's slot
      whatever that slot holds now. */
  function Fire(s: Session, j: nat): (r: Session)
    requires j < |s.jobs|
    ensures var job := s.jobs[j];
            && Get(r.page, Other(job.slot)) == Get(s.page, Other(job.slot))
            && (job.fired < LastTick ==>
                  && Get(r.page, job.slot) == Some(ProgressTrace(job.base)[job.fired])
                  && r.page.isUploading == s.page.isUploading
                  && r.jobs == s.jobs[j := job.(fired := job.fired + 1)])
            && (job.fired >= LastTick ==>
                  && Get(r.page, job.slot) == Some(ProgressTrace(job.base)[LastTick + 1])
                  && !r.page.isUploading
                  && r.jobs == RemoveAt(s.jobs, j))
  {
    var job := s.jobs[j];
    if job.fired < LastTick then
      Session(Put(s.page, job.slot, Some(job.base.(progress := TickProgress(job.fired)))),
              s.jobs[j := job.(fired := job.fired + 1)])
    else
      var last := Put(s.page, job.slot, Some(job.base.(progress := 100)));
      Session(Put(last, job.slot, Some(job.base.(progress := 100, uploaded := true)))
                .(isUploading := false),
              RemoveAt(s.jobs, j))
  }

  /** What can happen on the upload page. */
  datatype Event =
    | Choose(slot: Slot, file: File)
    | Drop(slot: Slot, files: seq<File>)
    | Discard(slot: Slot)
    | Tick(job: nat)

  /** Only the timer of a running job can fire; the drop zone and file picker of
      a slot are shown only while the slot is empty, its remove button only while
      it holds a file. */
  predicate Enabled(s: Session, e: Event) {
    match e
    case Choose(t, _) => Get(s.page, t).None?
    case Drop(t, _) => Get(s.page, t).None?
    case Discard(t) => Get(s.page, t).Some?
    case Tick(j) => j < |s.jobs|
  }

  function Step(s: Session, e: Event): Session
    requires Enabled(s, e)
  {
    match e
    case Choose(t, f) => SelectFile(s, f, t)
    case Drop(t, files) => DropFiles(s, files, t)
    case Discard(t) => Remove(s, t)
    case Tick(j) => Fire(s, j)
  }

  /** The session after `events`, or None if some tick names no running job. */
  function Run(s: Session, events: seq<Event>): Option<Session>
    decreases |events|
  {
    if |events| == 0 then Some(s)
    else if !Enabled(s, events[0]) then None
    else Run(Step(s, events[0]), events[1..])
  }

  /** A slot only ever holds a PDF whose progress lies in 0..100, and a finished
      upload always shows 100. */
  predicate GoodSlot(v: Option<UploadedFile>) {
    v.Some? ==> && IsPdf(v.value.file)
                && 0 <= v.value.progress <= 100
                && (v.value.uploaded ==> v.value.progress == 100)
  }

  /** A running job started from a fresh PDF record and has not yet passed its
      last tick. */
  predicate GoodJob(job: Job) {
    job.fired <= LastTick && job.base == Fresh(job.base.file) && IsPdf(job.base.file)
  }

  /** The invariant of the upload page. The flag is down whenever no job runs
      (the converse does not hold: see SharedFlagDropsEarly). */
  predicate Good(s: Session) {
    && GoodSlot(s.page.mdf)
    && GoodSlot(s.page.artwork)
    && (forall j :: 0 <= j < |s.jobs| ==> GoodJob(s.jobs[j]))
    && (|s.jobs| == 0 ==> !s.page.isUploading)
  }

  /** Every event keeps the invariant. */
  lemma StepKeepsGood(s: Session, e: Event)
    requires Good(s) && Enabled(s, e)
    ensures Good(Step(s, e))
  {
  }

  /** Every state reachable from the empty page satisfies the invariant. */
  lemma {:induction false} RunKeepsGood(s: Session, events: seq<Event>)
    requires Good(s)
    ensures Run(s, events).Some? ==> Good(Run(s, events).value)
    decreases |events|
  {
    if |events| > 0 && Enabled(s, events[0]) {
      StepKeepsGood(s, events[0]);
      RunKeepsGood(Step(s, events[0]), events[1..]);
    }
  }

  lemma ReachableIsGood(events: seq<Event>)
    ensures Run(Start, events).Some? ==> Good(Run(Start, events).value)
  {
    RunKeepsGood(Start, events);
  }

  /** In any reachable state a submission that proceeds has two complete PDFs. */
  lemma SubmitMeansTwoCompletePdfs(s: Session)
    requires Good(s)
    requires HandleSubmit(s.page)
    ensures forall t :: Get(s.page, t).Some? && IsPdf(Get(s.page, t).value.file)
                        && Get(s.page, t).value.progress == 100
  {
  }

  /** No cancellation: a tick of a job that was running when its slot was emptied
      fills the slot again with that job's file. */
  lemma LateTickRefillsRemovedSlot(s: Session, j: nat)
    requires j < |s.jobs|
    ensures var r := Fire(Remove(s, s.jobs[j].slot), j);
            && Get(r.page, s.jobs[j].slot).Some?
            && Get(r.page, s.jobs[j].slot).value.file == s.jobs[j].base.file
  {
  }

  /** No supersession: when a slot is emptied and given a new file while an older
      job for it still runs, the older job's next tick puts the older file back. */
  lemma SupersededJobOverwrites(s: Session, j: nat, f: File)
    requires j < |s.jobs| && IsPdf(f)
    requires Get(s.page, s.jobs[j].slot).Some?
    ensures var s1 := Step(Step(s, Discard(s.jobs[j].slot)), Choose(s.jobs[j].slot, f));
            && Enabled(Remove(s, s.jobs[j].slot), Choose(s.jobs[j].slot, f))
            && j < |s1.jobs| && Enabled(s1, Tick(j))
            && Get(s1.page, s.jobs[j].slot).value.file == f
            && Get(Fire(s1, j).page, s.jobs[j].slot).value.file == s.jobs[j].base.file
  {
  }

  /** The events that select `a` for the MDF slot and let its job fire all but
      its last tick. */
  function ChooseAndWait(a: File): seq<Event> {
    [Choose(Mdf, a)] + seq(LastTick, _ => Tick(0))
  }

  /** `n` ticks of the only running job from a fresh start. */
  lemma {:induction false} TicksOfSoleJob(a: File, n: nat)
    requires IsPdf(a) && n <= LastTick
    ensures var s := Session(Page(Some(Fresh(a)), None, true), [Job(Mdf, Fresh(a), 0)]);
            Run(s, seq(n, _ => Tick(0)))
              == Some(Session(Page(if n == 0 then Some(Fresh(a))
                                   else Some(Fresh(a).(progress := TickProgress(n - 1))),
                                   None, true),
                              [Job(Mdf, Fresh(a), n)]))
  {
    var s := Session(Page(Some(Fresh(a)), None, true), [Job(Mdf, Fresh(a), 0)]);
    if n > 0 {
      TicksOfSoleJob(a, n - 1);
      var mid := Run(s, seq(n - 1, _ => Tick(0))).value;
      assert mid.jobs == [Job(Mdf, Fresh(a), n - 1)];
      RunSnoc(s, seq(n - 1, _ => Tick(0)), Tick(0));
      assert seq(n - 1, _ => Tick(0)) + [Tick(0)] == seq(n, _ => Tick(0));
      assert Run(s, seq(n, _ => Tick(0))) == Some(Fire(mid, 0));
      assert Fire(mid, 0).jobs == [Job(Mdf, Fresh(a), n)];
      assert Fire(mid, 0).page.mdf == Some(Fresh(a).(progress := TickProgress(n - 1)));
    }
  }

  /** Running one more event after a run. */
  lemma {:induction false} RunSnoc(s: Session, events: seq<Event>, e: Event)
    requires Run(s, events).Some?
    ensures Run(s, events + [e])
            == (if Enabled(Run(s, events).value, e) then Some(Step(Run(s, events).value, e)) else None)
    decreases |events|
  {
    if |events| == 0 {
      assert events + [e] == [e];
    } else {
      assert (events + [e])[1..] == events[1..] + [e];
      RunSnoc(Step(s, events[0]), events[1..], e);
    }
  }

  /** An upload nobody interferes with: choosing a PDF for the empty page and
      letting its timer fire eleven times leaves a finished record in the slot,
      no running job and the flag down. */
  lemma SoleUploadCompletes(a: File)
    requires IsPdf(a)
    ensures Run(Start, ChooseAndWait(a) + [Tick(0)])
            == Some(Session(Page(Some(UploadedFile(a, 100, true)), None, false), []))
  {
    var chosen := SelectFile(Start, a, Mdf);
    assert chosen == Session(Page(Some(Fresh(a)), None, true), [Job(Mdf, Fresh(a), 0)]);
    TicksOfSoleJob(a, LastTick);
    assert ChooseAndWait(a)[1..] == seq(LastTick, _ => Tick(0));
    assert Run(Start, ChooseAndWait(a)) == Run(chosen, seq(LastTick, _ => Tick(0)));
    var waited := Run(Start, ChooseAndWait(a)).value;
    RunSnoc(Start, ChooseAndWait(a), Tick(0));
    assert RemoveAt(waited.jobs, 0) == [];
  }

  /** One shared flag: with the MDF upload one tick from its end, an artwork upload
      is started; the MDF job's last tick clears the flag although the artwork job
      is still running, so its slot is not yet complete. */
  lemma SharedFlagDropsEarly(a: File, b: File)
    requires IsPdf(a) && IsPdf(b)
    ensures var s0 := Session(Page(Some(UploadedFile(a, 90, false)), None, true),
                              [Job(Mdf, Fresh(a), LastTick)]);
            var s1 := SelectFile(s0, b, Artwork);
            var s2 := Fire(s1, 0);
            && Run(Start, ChooseAndWait(a)) == Some(s0)
            && s1.page.isUploading
            && !s2.page.isUploading
            && |s2.jobs| == 1 && s2.jobs[0] == Job(Artwork, Fresh(b), 0)
            && !Uploaded(s2.page.artwork)
  {
    var s0 := Session(Page(Some(UploadedFile(a, 90, false)), None, true),
                      [Job(Mdf, Fresh(a), LastTick)]);
    var s1 := SelectFile(s0, b, Artwork);
    var chosen := SelectFile(Start, a, Mdf);
    assert chosen == Session(Page(Some(Fresh(a)), None, true), [Job(Mdf, Fresh(a), 0)]);
    TicksOfSoleJob(a, LastTick);
    assert Fresh(a).(progress := TickProgress(LastTick - 1)) == UploadedFile(a, 90, false);
    assert ChooseAndWait(a)[1..] == seq(LastTick, _ => Tick(0));
    assert Run(Start, ChooseAndWait(a)) == Run(chosen, seq(LastTick, _ => Tick(0)));
    assert RemoveAt(s1.jobs, 0) == [Job(Artwork, Fresh(b), 0)];
  }

  /** The proceed button can be enabled with a stale file: with the artwork done
      and the MDF job one tick from its end, the user removes the MDF file and
      chooses `c`; the old job's last tick fills the slot with the finished old
      file and lowers the flag while `c`'s upload still runs. */
  lemma StaleFileCanProceed(a: File, b: File, c: File)
    requires IsPdf(a) && IsPdf(b) && IsPdf(c) && a != c
    ensures var s0 := Session(Page(Some(UploadedFile(a, 90, false)), Some(UploadedFile(b, 100, true)), true),
                              [Job(Mdf, Fresh(a), LastTick)]);
            var r := Run(s0, [Discard(Mdf), Choose(Mdf, c), Tick(0)]);
            && Good(s0)
            && r.Some?
            && ProceedEnabled(r.value.page) && HandleSubmit(r.value.page)
            && r.value.page.mdf.value.file == a
            && r.value.jobs == [Job(Mdf, Fresh(c), 0)]
  {
    var s0 := Session(Page(Some(UploadedFile(a, 90, false)), Some(UploadedFile(b, 100, true)), true),
                      [Job(Mdf, Fresh(a), LastTick)]);
    var events := [Discard(Mdf), Choose(Mdf, c), Tick(0)];
    var s1 := Remove(s0, Mdf);
    var s2 := SelectFile(s1, c, Mdf);
    var s3 := Fire(s2, 0);
    assert events[1..] == [Choose(Mdf, c), Tick(0)] && events[1..][1..] == [Tick(0)];
    assert Run(s2, [Tick(0)]) == Run(s3, []);
    assert RemoveAt(s2.jobs, 0) == [Job(Mdf, Fresh(c), 0)];
  }
}
