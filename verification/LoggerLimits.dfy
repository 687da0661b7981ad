/** The limits on frames and files, and runs that show where the logger falls short. */
module LoggerLimits {
  import opened LoggerModel
  import opened LoggerSafety

  // ----- at most maxframecnt frames and maxfilecnt files

  /** `launches` counts the files since the counters were reset, until saving stops for the first time. */
  ghost predicate Bounded(lim: Limits, g: Logger) {
    && g.counts.framecnt <= lim.maxframecnt
    && g.past.launches <= lim.LastFile() + 1
    && (!g.past.stopped ==> g.past.launches <= g.counts.filecnt && g.past.launches <= lim.LastFile())
    && (g.counts.frameindex > 0 && g.counts.filecnt >= lim.LastFile() ==> g.flags.lastcube)
  }

  lemma {:induction false} ObserveBounded(lim: Limits, g: Logger, src: Source)
    requires g.Valid(lim) && src.Valid() && Bounded(lim, g)
    ensures Bounded(lim, Observe(lim, g, src))
  {
    var g1 := Reset(g.(counts := g.counts.(lastcnt0 := src.stamp.cnt0)));
    assert Bounded(lim, g1) || g1.flags != g.flags || g1.counts.filecnt == 0;
    var g2 := Limit(lim, g1);
    assert g2.counts.filecnt >= lim.LastFile() ==> g2.flags.lastcube;
  }

  lemma {:induction false} CloseBounded(lim: Limits, g: Logger, timeout: bool)
    requires lim.Valid() && g.Open(lim) && Bounded(lim, g)
    ensures Bounded(lim, Close(lim, g, timeout))
  {
  }

  lemma {:induction false} StepBounded(lim: Limits, g: Logger, ev: Event)
    requires lim.Valid() && g.Valid(lim) && ev.Valid() && Bounded(lim, g)
    ensures Bounded(lim, Step(lim, g, ev))
  {
    if ev.Seen? {
      ObserveStaysOpen(lim, g, ev.src);
      ObserveBounded(lim, g, ev.src);
      CloseBounded(lim, Observe(lim, g, ev.src), false);
    } else if ev.TimedOut? {
      CloseBounded(lim, g, true);
    }
  }

  /** Main result: in every run framecnt never exceeds maxframecnt, and from a reset of the counters until
      saving stops at most maxfilecnt >= 1 files are written. */
  lemma {:induction false} LimitsHold(lim: Limits, g0: Logger, evs: seq<Event>, n: nat)
    requires Initial(lim, g0) && AllValid(evs) && n <= |evs|
    ensures var g := Run(lim, g0, evs, n);
            g.counts.framecnt <= lim.maxframecnt && (lim.maxfilecnt >= 1 ==> g.past.launches <= lim.maxfilecnt)
    ensures Bounded(lim, Run(lim, g0, evs, n))
  {
    if n > 0 {
      LimitsHold(lim, g0, evs, n - 1);
      StepBounded(lim, Run(lim, g0, evs, n - 1), evs[n - 1]);
    }
  }

  /** While saving was off at the end of the last iteration the current cube is empty. */
  lemma {:induction false} NothingWaitsWhileOff(lim: Limits, g: Logger, ev: Event)
    requires lim.Valid() && g.Valid(lim) && ev.Valid()
    requires !g.flags.saveONLast ==> g.counts.frameindex == 0
    ensures var g' := Step(lim, g, ev); !g'.flags.saveONLast ==> g'.counts.frameindex == 0
  {
  }

  // ----- runs of note

  function Shot(k: nat): Source {
    Source([[k]], false, Stamp(k, 0, 0.0, 0.0))
  }

  function Tick(k: nat): Event {
    Seen(Shot(k))
  }

  /** Saving is on, nothing has been seen; cubes of two frames. */
  function Start(p: Pixels, s: Stamp): Logger {
    Logger(Flags(true, true, false, false, false), Counts(0, 0, 0, 0, 0),
           Store([p, p], [p, p], [s, s, s, s]), Writers(false, [], {}), Past([], 0, false, 0, 0))
  }

  /** Two timeouts in a row while the writer is still at work, and the next frame goes into the buffer
      it is saving: the file gets frame 2 where frame 1 was logged. */
  lemma {:induction false} EmptyCubeBreaksFile(p: Pixels, s: Stamp) returns (lim: Limits, g0: Logger, evs: seq<Event>)
    ensures Initial(lim, g0) && AllValid(evs) && evs == [Tick(1), TimedOut, TimedOut, Tick(2)]
    ensures !Intact(lim, Run(lim, g0, evs, 4))
  {
    lim, g0, evs := Limits(2, 100, 100), Start(p, s), [Tick(1), TimedOut, TimedOut, Tick(2)];
    assert Run(lim, g0, evs, 0) == g0;
    var e1, e2 := Shot(1).Frame(), Shot(2).Frame();
    var g1 := Logger(g0.flags, Counts(0, 1, 1, 0, 1), Store([[1], p], [p, p], [e1.stamp, s, s, s]), g0.writers, Past([e1], 0, false, 0, 0));
    assert Run(lim, g0, evs, 1) == g1;
    assert Region(g1.store, 2, 0, 0) == [];
    assert Region(g1.store, 2, 0, 1) == [e1];
    var w := Writers(true, [Job(0, 0, 1, true, [e1])], {0});
    var g2 := Logger(g0.flags, Counts(1, 0, 1, 1, 1), g1.store, w, Past([e1], 0, false, 1, 0));
    assert Run(lim, g0, evs, 2) == g2;
    var g3 := g2.(counts := Counts(0, 0, 1, 2, 1), past := Past([e1], 1, false, 1, 0));
    assert Run(lim, g0, evs, 3) == g3;
    var g4 := Logger(g0.flags, Counts(0, 1, 2, 2, 2), Store([[2], p], [p, p], [e2.stamp, s, s, s]), w, Past([e1, e2], 1, false, 1, 0));
    assert Run(lim, g0, evs, 4) == g4;
    assert Region(g4.store, 2, 0, 0) == [];
    assert Region(g4.store, 2, 0, 1) == [e2] != [e1];
    assert !Untouched(lim, g4, w.jobs[0]);
  }
}
