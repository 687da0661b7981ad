/** What every run of the logger keeps. */
module LoggerSafety {
  import opened LoggerModel

  // ----- no frame is lost, duplicated or reordered

  /** The frames of all cubes handed to writers, in the order of the launches. */
  function Saved(jobs: seq<Job>): seq<Entry> {
    if |jobs| == 0 then [] else Saved(jobs[..|jobs| - 1]) + jobs[|jobs| - 1].entries
  }

  ghost predicate Conserved(lim: Limits, g: Logger) {
    g.Open(lim) && g.past.logged == Saved(g.writers.jobs) + Region(g.store, lim.cubesize, g.counts.buffindex, g.counts.frameindex)
  }

  lemma {:induction false} ReadWrite(st: Store, c: nat, b: nat, i: nat, e: Entry, b': nat, k: nat)
    requires st.Valid(c) && b < 2 && b' < 2 && i < c && k < c
    ensures st.Write(c, b, i, e).Read(c, b', k) == if b == b' && i == k then e else st.Read(c, b', k)
  {
  }

  /** Writing entry i of a buffer changes that entry and no other. */
  lemma {:induction false} RegionWrite(st: Store, c: nat, b: nat, i: nat, e: Entry, b': nat, n: nat)
    requires st.Valid(c) && b < 2 && b' < 2 && i < c && n <= c
    ensures var r := Region(st.Write(c, b, i, e), c, b', n);
            r == if b == b' && i < n then Region(st, c, b', n)[i := e] else Region(st, c, b', n)
  {
    if n > 0 {
      RegionWrite(st, c, b, i, e, b', n - 1);
      ReadWrite(st, c, b, i, e, b', n - 1);
    }
  }

  lemma {:induction false} RegionAt(st: Store, c: nat, b: nat, n: nat, k: nat)
    requires st.Valid(c) && b < 2 && k < n <= c
    ensures Region(st, c, b, n)[k] == st.Read(c, b, k)
  {
    if k < n - 1 { RegionAt(st, c, b, n - 1, k); }
  }

  lemma {:induction false} CopyConserves(lim: Limits, g: Logger, src: Source)
    requires g.Valid(lim) && src.Valid() && Conserved(lim, g)
    ensures Conserved(lim, Copy(lim, g, src))
  {
    RegionWrite(g.store, lim.cubesize, g.counts.buffindex, g.counts.frameindex, src.Frame(), g.counts.buffindex, g.counts.frameindex);
  }

  lemma {:induction false} ObserveConserves(lim: Limits, g: Logger, src: Source)
    requires g.Valid(lim) && src.Valid() && Conserved(lim, g)
    ensures Conserved(lim, Observe(lim, g, src))
  {
    CopyConserves(lim, Limit(lim, Reset(g.(counts := g.counts.(lastcnt0 := src.stamp.cnt0)))), src);
  }

  lemma {:induction false} SavedMore(jobs: seq<Job>, job: Job)
    ensures Saved(jobs + [job]) == Saved(jobs) + job.entries
  {
    assert (jobs + [job])[..|jobs|] == jobs;
  }

  lemma {:induction false} FlushConserves(lim: Limits, g: Logger)
    requires Conserved(lim, g)
    ensures Conserved(lim, Flush(lim, g))
  {
    SavedMore(g.writers.jobs, JobFor(lim, g));
  }

  lemma {:induction false} CloseConserves(lim: Limits, g: Logger, timeout: bool)
    requires Conserved(lim, g)
    ensures Conserved(lim, Close(lim, g, timeout))
  {
    FlushConserves(lim, g.(flags := g.flags.(nextcube := false)));
  }

  lemma {:induction false} StepConserves(lim: Limits, g: Logger, ev: Event)
    requires g.Valid(lim) && ev.Valid() && Conserved(lim, g)
    ensures Conserved(lim, Step(lim, g, ev))
  {
    if ev.Seen? {
      ObserveConserves(lim, g, ev.src);
      CloseConserves(lim, Observe(lim, g, ev.src), false);
    } else if ev.TimedOut? {
      CloseConserves(lim, g, true);
    }
  }

  /** Main result: in every run, whatever happens and is toggled, the cubes handed to the writers followed
      by the current buffer up to frameindex are exactly the frames logged. */
  lemma {:induction false} NoFrameIsLost(lim: Limits, g0: Logger, evs: seq<Event>, n: nat)
    requires Initial(lim, g0) && AllValid(evs) && n <= |evs|
    ensures Conserved(lim, Run(lim, g0, evs, n))
  {
    if n > 0 {
      NoFrameIsLost(lim, g0, evs, n - 1);
      StepConserves(lim, Run(lim, g0, evs, n - 1), evs[n - 1]);
    }
  }

  // ----- the writers

  ghost predicate JobOk(lim: Limits, job: Job) {
    && job.buffer < 2 && job.stampsAt == job.buffer * lim.cubesize
    && 0 < job.size <= lim.cubesize && |job.entries| == job.size && job.partial == (job.size != lim.cubesize)
  }

  /** The last launched thread is the only one that can still be running, and the number of empty cubes
      flushed since its launch tells whether its buffer is the current one. */
  ghost predicate OneWriter(lim: Limits, g: Logger) {
    var w := g.writers;
    && g.counts.buffindex < 2 && w.started == (|w.jobs| > 0)
    && (forall j :: j in w.running ==> j == |w.jobs| - 1)
    && (forall j :: 0 <= j < |w.jobs| ==> JobOk(lim, w.jobs[j]))
    && (|w.jobs| > 0 ==> (w.jobs[|w.jobs| - 1].buffer == g.counts.buffindex <==> g.past.empties % 2 == 1))
  }

  lemma {:induction false} FlushOneWriter(lim: Limits, g: Logger)
    requires g.Open(lim) && OneWriter(lim, g)
    ensures OneWriter(lim, Flush(lim, g))
  {
    if g.counts.frameindex > 0 {
      var w, w' := g.writers, Launch(g.writers, JobFor(lim, g));
      assert forall j :: j in w'.running ==> j == |w.jobs|;
      assert forall j :: 0 <= j < |w.jobs| ==> w'.jobs[j] == w.jobs[j];
    }
  }

  lemma {:induction false} CloseOneWriter(lim: Limits, g: Logger, timeout: bool)
    requires g.Open(lim) && OneWriter(lim, g)
    ensures OneWriter(lim, Close(lim, g, timeout))
  {
    FlushOneWriter(lim, g.(flags := g.flags.(nextcube := false)));
  }

  lemma {:induction false} ObserveSameWriters(lim: Limits, g: Logger, src: Source)
    requires g.Valid(lim) && src.Valid()
    ensures var g' := Observe(lim, g, src);
            g'.writers == g.writers && g'.past.empties == g.past.empties && g'.counts.buffindex == g.counts.buffindex
  {
  }

  lemma {:induction false} StepOneWriter(lim: Limits, g: Logger, ev: Event)
    requires g.Valid(lim) && ev.Valid() && OneWriter(lim, g)
    ensures OneWriter(lim, Step(lim, g, ev))
  {
    if ev.Seen? {
      ObserveStaysOpen(lim, g, ev.src);
      ObserveSameWriters(lim, g, ev.src);
      CloseOneWriter(lim, Observe(lim, g, ev.src), false);
    } else if ev.TimedOut? {
      CloseOneWriter(lim, g, true);
    }
  }

  /** In every run at most one writer is outstanding, the one launched last. */
  lemma {:induction false} AtMostOneWriter(lim: Limits, g0: Logger, evs: seq<Event>, n: nat)
    requires Initial(lim, g0) && AllValid(evs) && n <= |evs|
    ensures OneWriter(lim, Run(lim, g0, evs, n))
  {
    if n > 0 {
      AtMostOneWriter(lim, g0, evs, n - 1);
      StepOneWriter(lim, Run(lim, g0, evs, n - 1), evs[n - 1]);
    }
  }

  /** The event makes the loop copy a frame into the buffer. */
  predicate Logs(lim: Limits, g: Logger, ev: Event) {
    && ev.Seen? && g.counts.lastcnt0 != ev.src.stamp.cnt0 && g.flags.saveON
    && (if g.flags.saveONLast then g.counts.framecnt else 0) < lim.maxframecnt
  }

  /** ... while a writer is saving, after an odd number of empty cubes. */
  predicate Overwrites(lim: Limits, g: Logger, ev: Event) {
    Logs(lim, g, ev) && g.writers.running != {} && g.past.empties % 2 == 1
  }

  lemma {:induction false} LogsCopies(lim: Limits, g: Logger, src: Source)
    requires g.Valid(lim) && src.Valid()
    ensures Observe(lim, g, src).store ==
            if Logs(lim, g, Seen(src))
            then g.store.Write(lim.cubesize, g.counts.buffindex, g.counts.frameindex, src.Frame()) else g.store
  {
  }

  /** Exactly then the frame goes to the buffer that the outstanding writer is saving. */
  lemma {:induction false} OverwritesExactly(lim: Limits, g0: Logger, evs: seq<Event>, n: nat)
    requires Initial(lim, g0) && AllValid(evs) && n < |evs|
    ensures var g := Run(lim, g0, evs, n);
            Overwrites(lim, g, evs[n]) <==>
            (Logs(lim, g, evs[n]) && exists j :: j in g.writers.running && 0 <= j < |g.writers.jobs| && g.writers.jobs[j].buffer == g.counts.buffindex)
  {
    AtMostOneWriter(lim, g0, evs, n);
    var g := Run(lim, g0, evs, n);
    if g.writers.running != {} {
      var j :| j in g.writers.running;
      assert j == |g.writers.jobs| - 1;
      assert j in g.writers.running;
    }
  }

  /** What the outstanding writer reads is what was there when it was launched. */
  ghost predicate Intact(lim: Limits, g: Logger) {
    g.store.Valid(lim.cubesize) && forall j :: j in g.writers.running && 0 <= j < |g.writers.jobs| ==> Untouched(lim, g, g.writers.jobs[j])
  }

  ghost predicate Untouched(lim: Limits, g: Logger, job: Job)
    requires g.store.Valid(lim.cubesize)
  {
    job.buffer < 2 && job.size <= lim.cubesize && Region(g.store, lim.cubesize, job.buffer, job.size) == job.entries
  }

  lemma {:induction false} ObserveIntact(lim: Limits, g: Logger, src: Source)
    requires g.Valid(lim) && src.Valid() && OneWriter(lim, g) && Intact(lim, g) && !Overwrites(lim, g, Seen(src))
    ensures Intact(lim, Observe(lim, g, src))
  {
    LogsCopies(lim, g, src);
    ObserveSameWriters(lim, g, src);
    var w, g' := g.writers, Observe(lim, g, src);
    forall j | j in w.running && 0 <= j < |w.jobs|
      ensures Untouched(lim, g', w.jobs[j])
    {
      assert Untouched(lim, g, w.jobs[j]);
      if Logs(lim, g, Seen(src)) { WrittenElsewhere(lim, g, src, w.jobs[j]); }
    }
  }

  lemma {:induction false} WrittenElsewhere(lim: Limits, g: Logger, src: Source, job: Job)
    requires g.Valid(lim) && src.Valid() && job.buffer < 2 && job.size <= lim.cubesize && job.buffer != g.counts.buffindex
    ensures var st' := g.store.Write(lim.cubesize, g.counts.buffindex, g.counts.frameindex, src.Frame());
            Region(st', lim.cubesize, job.buffer, job.size) == Region(g.store, lim.cubesize, job.buffer, job.size)
  {
    RegionWrite(g.store, lim.cubesize, g.counts.buffindex, g.counts.frameindex, src.Frame(), job.buffer, job.size);
  }

  lemma {:induction false} CloseIntact(lim: Limits, g: Logger, timeout: bool)
    requires g.Open(lim) && OneWriter(lim, g) && Intact(lim, g)
    ensures Intact(lim, Close(lim, g, timeout))
  {
    var w, g' := g.writers, Close(lim, g, timeout);
    forall j | j in g'.writers.running && 0 <= j < |g'.writers.jobs|
      ensures Untouched(lim, g', g'.writers.jobs[j])
    {
      if j in w.running && j < |w.jobs| { assert Untouched(lim, g, w.jobs[j]); }
    }
  }

  lemma {:induction false} StepIntact(lim: Limits, g: Logger, ev: Event)
    requires g.Valid(lim) && ev.Valid() && OneWriter(lim, g) && Intact(lim, g) && !Overwrites(lim, g, ev)
    ensures Intact(lim, Step(lim, g, ev))
  {
    if ev.Seen? {
      ObserveStaysOpen(lim, g, ev.src);
      ObserveSameWriters(lim, g, ev.src);
      ObserveIntact(lim, g, ev.src);
      CloseIntact(lim, Observe(lim, g, ev.src), false);
    } else if ev.TimedOut? {
      CloseIntact(lim, g, true);
    } else {
      var g' := Step(lim, g, ev);
      forall j | j in g'.writers.running && 0 <= j < |g'.writers.jobs|
        ensures Untouched(lim, g', g'.writers.jobs[j])
      {
        assert Untouched(lim, g, g.writers.jobs[j]);
      }
    }
  }

  ghost predicate NeverOverwrites(lim: Limits, g0: Logger, evs: seq<Event>, n: nat)
    requires lim.Valid() && g0.Valid(lim) && AllValid(evs) && n <= |evs|
  {
    forall k :: 0 <= k < n ==> Spared(lim, g0, evs, k)
  }

  /** Event k overwrites nothing that is being saved. */
  ghost predicate Spared(lim: Limits, g0: Logger, evs: seq<Event>, k: nat)
    requires lim.Valid() && g0.Valid(lim) && AllValid(evs) && k < |evs|
  {
    !Overwrites(lim, Run(lim, g0, evs, k), evs[k])
  }

  /** Main result: unless a frame is copied while a writer is at work after an odd number of empty cubes,
      every writer saves exactly the frames that were handed to it. */
  lemma {:induction false} WritersSeeTheirFrames(lim: Limits, g0: Logger, evs: seq<Event>, n: nat)
    requires Initial(lim, g0) && AllValid(evs) && n <= |evs| && NeverOverwrites(lim, g0, evs, n)
    ensures Intact(lim, Run(lim, g0, evs, n))
  {
    if n > 0 {
      WritersSeeTheirFrames(lim, g0, evs, n - 1);
      AtMostOneWriter(lim, g0, evs, n - 1);
      assert Spared(lim, g0, evs, n - 1);
      StepIntact(lim, Run(lim, g0, evs, n - 1), evs[n - 1]);
    }
  }

  /** No empty cube has been flushed since the last launch. */
  ghost predicate NoEmptyCube(lim: Limits, g0: Logger, evs: seq<Event>, k: nat)
    requires lim.Valid() && g0.Valid(lim) && AllValid(evs) && k < |evs|
  {
    Run(lim, g0, evs, k).past.empties == 0
  }

  /** In particular a run in which no empty cube is flushed is safe. */
  lemma {:induction false} NoEmptyCubeNoOverwrite(lim: Limits, g0: Logger, evs: seq<Event>, n: nat)
    requires Initial(lim, g0) && AllValid(evs) && n <= |evs|
    requires forall k :: 0 <= k < n ==> NoEmptyCube(lim, g0, evs, k)
    ensures Intact(lim, Run(lim, g0, evs, n))
  {
    forall k | 0 <= k < n ensures Spared(lim, g0, evs, k) {
      assert NoEmptyCube(lim, g0, evs, k);
    }
    WritersSeeTheirFrames(lim, g0, evs, n);
  }
}
