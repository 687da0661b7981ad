/** What one event does in any run: which frame is logged and where, which cube is handed over, and when saving stops. */
module LoggerSteps {
  import opened LoggerModel
  import opened LoggerSafety

  /** The event is an iteration that finds a new frame. */
  predicate Arrives(g: Logger, ev: Event) {
    ev.Seen? && g.counts.lastcnt0 != ev.src.stamp.cnt0
  }

  /** ... while saving has been turned on since the last iteration. */
  predicate Restarts(g: Logger, ev: Event) {
    Arrives(g, ev) && g.flags.saveON && !g.flags.saveONLast
  }

  /** Saving is on, and stays on under the limit on frames if a frame has arrived. */
  predicate StaysOn(lim: Limits, g: Logger, ev: Event) {
    g.flags.saveON && !(Arrives(g, ev) && (if Restarts(g, ev) then 0 else g.counts.framecnt) >= lim.maxframecnt)
  }

  /** Frames in the current cube once the frame of the event is logged. */
  function Filled(lim: Limits, g: Logger, ev: Event): nat {
    g.counts.frameindex + if Logs(lim, g, ev) then 1 else 0
  }

  /** The cube is due: it is full, or saving has gone off since the last iteration, or it was asked for, or nothing came. */
  predicate Due(lim: Limits, g: Logger, ev: Event) {
    Filled(lim, g, ev) >= lim.cubesize || (g.flags.saveONLast && !StaysOn(lim, g, ev)) || g.flags.nextcube || ev.TimedOut?
  }

  /** The current cube is the last one: marked so before, or the new frame belongs to the last file allowed.  With no
      file allowed the limit wraps around. */
  predicate LastCube(lim: Limits, g: Logger, ev: Event) {
    var filecnt := if Restarts(g, ev) then 0 else g.counts.filecnt;
    || (g.flags.lastcube && !Restarts(g, ev))
    || (Arrives(g, ev) && if lim.maxfilecnt > 0 then filecnt + 1 >= lim.maxfilecnt else filecnt >= 0xFFFF_FFFF_FFFF_FFFF)
  }

  predicate Iterates(ev: Event) {
    ev.Seen? || ev.TimedOut?
  }

  /** The state once the stream has been looked at. */
  ghost function Looked(lim: Limits, g: Logger, ev: Event): Logger
    requires g.Valid(lim) && ev.Valid()
  {
    if ev.Seen? then Observe(lim, g, ev.src) else g
  }

  lemma {:induction false} LookedIs(lim: Limits, g: Logger, ev: Event)
    requires lim.Valid() && g.Valid(lim) && ev.Valid() && Iterates(ev)
    ensures var g1 := Looked(lim, g, ev);
            && g1.Open(lim) && Step(lim, g, ev) == Close(lim, g1, ev.TimedOut?) && g1.writers == g.writers
            && g1.flags == Flags(StaysOn(lim, g, ev), g.flags.saveONLast, g.flags.nextcube, g.flags.lastcubeON, LastCube(lim, g, ev))
            && g1.counts == Counts(g.counts.buffindex, Filled(lim, g, ev),
                                   (if Restarts(g, ev) then 0 else g.counts.framecnt) + (if Logs(lim, g, ev) then 1 else 0),
                                   if Restarts(g, ev) then 0 else g.counts.filecnt,
                                   if ev.Seen? then ev.src.stamp.cnt0 else g.counts.lastcnt0)
  {
    if ev.Seen? { ObserveStaysOpen(lim, g, ev.src); }
  }

  lemma {:induction false} DueIs(lim: Limits, g: Logger, ev: Event)
    requires lim.Valid() && g.Valid(lim) && ev.Valid() && Iterates(ev)
    ensures SaveCube(lim, Looked(lim, g, ev), ev.TimedOut?) <==> Due(lim, g, ev)
  {
    LookedIs(lim, g, ev);
  }

  /** What the end of an iteration leaves of the state g1. */
  lemma {:induction false} Ended(lim: Limits, g1: Logger, timeout: bool)
    requires g1.Open(lim)
    ensures var g', due := Close(lim, g1, timeout), SaveCube(lim, g1, timeout);
            var stop := due && (g1.flags.lastcube || g1.flags.lastcubeON);
            && g'.flags == Flags(g1.flags.saveON && !stop, g1.flags.saveON && !stop, false, g1.flags.lastcubeON && !stop, g1.flags.lastcube)
            && g'.counts == Counts(if due then 1 - g1.counts.buffindex else g1.counts.buffindex,
                                   if due then 0 else g1.counts.frameindex, g1.counts.framecnt,
                                   g1.counts.filecnt + (if due then 1 else 0), g1.counts.lastcnt0)
  {
  }

  /** The counters after an iteration. */
  lemma {:induction false} CountersAfter(lim: Limits, g: Logger, ev: Event)
    requires lim.Valid() && g.Valid(lim) && ev.Valid() && Iterates(ev)
    ensures var g', due, logs := Step(lim, g, ev), Due(lim, g, ev), if Logs(lim, g, ev) then 1 else 0;
            && g'.counts.frameindex == (if due then 0 else g.counts.frameindex + logs)
            && g'.counts.buffindex == (if due then 1 - g.counts.buffindex else g.counts.buffindex)
            && g'.counts.framecnt == (if Restarts(g, ev) then 0 else g.counts.framecnt) + logs
            && g'.counts.filecnt == (if Restarts(g, ev) then 0 else g.counts.filecnt) + (if due then 1 else 0)
            && g'.counts.lastcnt0 == (if ev.Seen? then ev.src.stamp.cnt0 else g.counts.lastcnt0)
  {
    LookedIs(lim, g, ev);
    DueIs(lim, g, ev);
    Ended(lim, Looked(lim, g, ev), ev.TimedOut?);
  }

  /** Saving stops when the limit on frames is reached, and with the end of the last cube; a cube asked for, or asked for as
      the last one, is forgotten once it has ended. */
  lemma {:induction false} FlagsAfter(lim: Limits, g: Logger, ev: Event)
    requires lim.Valid() && g.Valid(lim) && ev.Valid() && Iterates(ev)
    ensures var g', due := Step(lim, g, ev), Due(lim, g, ev);
            && g'.flags.saveON == (StaysOn(lim, g, ev) && !(due && (LastCube(lim, g, ev) || g.flags.lastcubeON)))
            && g'.flags.saveONLast == g'.flags.saveON && !g'.flags.nextcube
            && g'.flags.lastcubeON == (g.flags.lastcubeON && !due) && g'.flags.lastcube == LastCube(lim, g, ev)
  {
    LookedIs(lim, g, ev);
    DueIs(lim, g, ev);
    Ended(lim, Looked(lim, g, ev), ev.TimedOut?);
  }

  /** A cube is handed to a writer exactly when it is due and not empty: the current buffer, with the frame of the event. */
  lemma {:induction false} HandedOver(lim: Limits, g: Logger, ev: Event)
    requires lim.Valid() && g.Valid(lim) && ev.Valid() && Iterates(ev)
    ensures var jobs, jobs' := g.writers.jobs, Step(lim, g, ev).writers.jobs;
            if Due(lim, g, ev) && Filled(lim, g, ev) > 0 then
              && |jobs'| == |jobs| + 1 && jobs'[..|jobs|] == jobs
              && jobs'[|jobs|].buffer == g.counts.buffindex && jobs'[|jobs|].size == Filled(lim, g, ev)
              && |jobs| in Step(lim, g, ev).writers.running
            else jobs' == jobs
  {
    LookedIs(lim, g, ev);
    DueIs(lim, g, ev);
    Launched(lim, Looked(lim, g, ev), ev.TimedOut?);
  }

  lemma {:induction false} Launched(lim: Limits, g1: Logger, timeout: bool)
    requires g1.Open(lim)
    ensures var w, w' := g1.writers, Close(lim, g1, timeout).writers;
            if SaveCube(lim, g1, timeout) && g1.counts.frameindex > 0 then
              && w'.jobs == w.jobs + [JobFor(lim, g1)] && |w.jobs| in w'.running
            else w' == w
  {
    var g2 := g1.(flags := g1.flags.(nextcube := false));
    assert JobFor(lim, g2) == JobFor(lim, g1);
  }

  /** Main result: in any run the next event adds to the frames logged exactly the frame that has arrived while saving is on
      and below the limit: of a rolling buffer the plane that the counter names, of a single image that image, with the
      counters and times of the source. */
  lemma {:induction false} FrameLogged(lim: Limits, g0: Logger, evs: seq<Event>, n: nat)
    requires lim.Valid() && g0.Valid(lim) && AllValid(evs) && n < |evs|
    ensures evs[n].Valid()
    ensures var g, g', ev := Run(lim, g0, evs, n), Run(lim, g0, evs, n + 1), evs[n];
            if Logs(lim, g, ev) then
              && |g'.past.logged| == |g.past.logged| + 1 && g'.past.logged[..|g.past.logged|] == g.past.logged
              && var entry := g'.past.logged[|g.past.logged|];
                 entry.pixels == ev.src.planes[if ev.src.rolling then ev.src.stamp.cnt1 else 0] && entry.stamp == ev.src.stamp
            else g'.past.logged == g.past.logged
  {
    StepLogs(lim, Run(lim, g0, evs, n), evs[n]);
  }

  lemma {:induction false} StepLogs(lim: Limits, g: Logger, ev: Event)
    requires lim.Valid() && g.Valid(lim) && ev.Valid()
    ensures Step(lim, g, ev).past.logged == if Logs(lim, g, ev) then g.past.logged + [Arrived(ev)] else g.past.logged
  {
  }

  /** The frame of an event, as it is logged. */
  ghost function Arrived(ev: Event): Entry
    requires ev.Seen? && ev.src.Valid()
  {
    Entry(ev.src.planes[if ev.src.rolling then ev.src.stamp.cnt1 else 0], ev.src.stamp)
  }

  /** ... and it is the next cell of the current buffer, and of its half of the timing arrays, that takes it; no other cell
      changes. */
  lemma {:induction false} FrameStored(lim: Limits, g0: Logger, evs: seq<Event>, n: nat)
    requires lim.Valid() && g0.Valid(lim) && AllValid(evs) && n < |evs|
    ensures evs[n].Valid()
    ensures var g, st', ev := Run(lim, g0, evs, n), Run(lim, g0, evs, n + 1).store, evs[n];
            var b, i := g.counts.buffindex, g.counts.frameindex;
            && b < 2 && i < lim.cubesize && g.store.Valid(lim.cubesize) && st'.Valid(lim.cubesize)
            && if Logs(lim, g, ev) then
                 var pixels := ev.src.planes[if ev.src.rolling then ev.src.stamp.cnt1 else 0];
                 && st'.pix0 == (if b == 0 then g.store.pix0[i := pixels] else g.store.pix0)
                 && st'.pix1 == (if b == 0 then g.store.pix1 else g.store.pix1[i := pixels])
                 && st'.stamps == g.store.stamps[(if b == 0 then i else lim.cubesize + i) := ev.src.stamp]
               else st' == g.store
  {
    StepStores(lim, Run(lim, g0, evs, n), evs[n]);
  }

  lemma {:induction false} StepStores(lim: Limits, g: Logger, ev: Event)
    requires lim.Valid() && g.Valid(lim) && ev.Valid()
    ensures Step(lim, g, ev).store ==
            if Logs(lim, g, ev) then g.store.Write(lim.cubesize, g.counts.buffindex, g.counts.frameindex, Arrived(ev)) else g.store
  {
  }

  /** A cube asked for is handed over in the next iteration, unless it is empty. */
  lemma {:induction false} AskedFor(lim: Limits, g: Logger, nextcube: bool, lastcubeON: bool, ev: Event)
    requires lim.Valid() && g.Valid(lim) && ev.Valid() && Iterates(ev) && g.flags.saveON && (nextcube || ev.TimedOut?)
    ensures Step(lim, g, Toggled(true, nextcube, lastcubeON)).Valid(lim)
    ensures var g1 := Step(lim, g, Toggled(true, nextcube, lastcubeON));
            var g2 := Step(lim, g1, ev);
            && |g2.writers.jobs| == |g.writers.jobs| + (if Filled(lim, g1, ev) > 0 then 1 else 0)
            && (lastcubeON ==> !g2.flags.saveON) && g2.counts.frameindex == 0
  {
    var g1 := Step(lim, g, Toggled(true, nextcube, lastcubeON));
    HandedOver(lim, g1, ev);
    FlagsAfter(lim, g1, ev);
    CountersAfter(lim, g1, ev);
  }
}
