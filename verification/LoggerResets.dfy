/** When the logger notices that saving has been turned on, and starts its counters again. */
module LoggerResets {
  import opened LoggerModel

  predicate Iterates(ev: Event) {
    ev.Seen? || ev.TimedOut?
  }

  /** An iteration that finds a new frame. */
  predicate FindsFrame(g: Logger, ev: Event) {
    ev.Seen? && ev.src.stamp.cnt0 != g.counts.lastcnt0
  }

  /** The counters start again exactly in an iteration that finds a new frame while saving is on and was off at the
      end of the iteration before; otherwise they do not go down. */
  lemma {:induction false} StepResets(lim: Limits, g: Logger, ev: Event)
    requires lim.Valid() && g.Valid(lim) && ev.Valid()
    ensures var g' := Step(lim, g, ev);
            if FindsFrame(g, ev) && g.flags.saveON && !g.flags.saveONLast
            then g'.past.resets == g.past.resets + 1 && g'.counts.framecnt <= 1 && g'.counts.filecnt <= 1
            else g'.past.resets == g.past.resets && g'.counts.framecnt >= g.counts.framecnt && g'.counts.filecnt >= g.counts.filecnt
  {
    if ev.Seen? {
      ObserveStaysOpen(lim, g, ev.src);
      ObserveResets(lim, g, ev.src);
      CloseCounts(lim, Observe(lim, g, ev.src), false);
    } else if ev.TimedOut? {
      CloseCounts(lim, g, true);
    }
  }

  lemma {:induction false} ObserveResets(lim: Limits, g: Logger, src: Source)
    requires g.Valid(lim) && src.Valid()
    ensures var g' := Observe(lim, g, src);
            if src.stamp.cnt0 != g.counts.lastcnt0 && g.flags.saveON && !g.flags.saveONLast
            then g'.past.resets == g.past.resets + 1 && g'.counts.framecnt <= 1 && g'.counts.filecnt == 0
            else g'.past.resets == g.past.resets && g'.counts.framecnt >= g.counts.framecnt && g'.counts.filecnt == g.counts.filecnt
  {
  }

  lemma {:induction false} CloseCounts(lim: Limits, g: Logger, timeout: bool)
    requires g.Open(lim)
    ensures var g' := Close(lim, g, timeout);
            && g'.past.resets == g.past.resets && g'.counts.framecnt == g.counts.framecnt
            && g.counts.filecnt <= g'.counts.filecnt <= g.counts.filecnt + 1
  {
  }

  /** Between iterations nothing happens to what the next one looks at, but for the flags set from outside. */
  lemma {:induction false} WaitingKeeps(lim: Limits, g: Logger, evs: seq<Event>, k: nat)
    requires lim.Valid() && g.Valid(lim) && AllValid(evs) && k <= |evs| && forall i :: 0 <= i < k ==> !Iterates(evs[i])
    ensures var g' := Run(lim, g, evs, k);
            g'.flags.saveONLast == g.flags.saveONLast && g'.counts == g.counts && g'.past == g.past
  {
    if k > 0 { WaitingKeeps(lim, g, evs, k - 1); }
  }

  /** Saving is on at the end of the last iteration before event i. */
  ghost predicate OnBefore(lim: Limits, g: Logger, evs: seq<Event>, i: nat)
    requires lim.Valid() && g.Valid(lim) && AllValid(evs) && i <= |evs|
  {
    Run(lim, g, evs, i).flags.saveONLast
  }

  /** While saving stays on the counters are not reset and do not go down. */
  lemma {:induction false} NoResetWhileOn(lim: Limits, g: Logger, evs: seq<Event>, m: nat, n: nat)
    requires lim.Valid() && g.Valid(lim) && AllValid(evs) && m <= n <= |evs|
    requires forall i :: m <= i < n ==> OnBefore(lim, g, evs, i)
    ensures var a, b := Run(lim, g, evs, m), Run(lim, g, evs, n);
            b.past.resets == a.past.resets && b.counts.framecnt >= a.counts.framecnt && b.counts.filecnt >= a.counts.filecnt
  {
    if m < n {
      NoResetWhileOn(lim, g, evs, m, n - 1);
      assert OnBefore(lim, g, evs, n - 1);
      StepResets(lim, Run(lim, g, evs, n - 1), evs[n - 1]);
    }
  }

  /** Main result: saving was off, and is on when the next iteration comes, which is event k.  While saving then stays
      on, however long, the counters are reset exactly once if that iteration finds a new frame; if it does not, they are
      not reset at all and go on from where they were. */
  lemma {:induction false} NoticedAtOnceOrNever(lim: Limits, g: Logger, evs: seq<Event>, k: nat, n: nat)
    requires lim.Valid() && g.Valid(lim) && AllValid(evs) && k < n <= |evs| && !g.flags.saveONLast
    requires (forall i :: 0 <= i < k ==> !Iterates(evs[i])) && Iterates(evs[k]) && Run(lim, g, evs, k).flags.saveON
    requires forall i :: k < i < n ==> OnBefore(lim, g, evs, i)
    ensures var g' := Run(lim, g, evs, n);
            && g'.past.resets == g.past.resets + (if FindsFrame(g, evs[k]) then 1 else 0)
            && (!FindsFrame(g, evs[k]) ==> g'.counts.framecnt >= g.counts.framecnt && g'.counts.filecnt >= g.counts.filecnt)
  {
    WaitingKeeps(lim, g, evs, k);
    StepResets(lim, Run(lim, g, evs, k), evs[k]);
    assert Run(lim, g, evs, k + 1) == Step(lim, Run(lim, g, evs, k), evs[k]);
    NoResetWhileOn(lim, g, evs, k + 1, n);
  }

  lemma {:induction false} ResetsGrow(lim: Limits, g: Logger, evs: seq<Event>, n: nat)
    requires lim.Valid() && g.Valid(lim) && AllValid(evs) && n <= |evs|
    ensures var g' := Run(lim, g, evs, n);
            && g'.past.resets >= g.past.resets
            && (g'.past.resets == g.past.resets ==> g'.counts.framecnt >= g.counts.framecnt)
  {
    if n > 0 {
      ResetsGrow(lim, g, evs, n - 1);
      StepResets(lim, Run(lim, g, evs, n - 1), evs[n - 1]);
    }
  }

  /** With the limit on frames reached nothing is logged until the counters are reset. */
  lemma {:induction false} NothingLoggedBeforeReset(lim: Limits, g: Logger, evs: seq<Event>, n: nat)
    requires lim.Valid() && g.Valid(lim) && AllValid(evs) && n <= |evs| && g.counts.framecnt >= lim.maxframecnt
    requires Run(lim, g, evs, n).past.resets == g.past.resets
    ensures Run(lim, g, evs, n).past.logged == g.past.logged
  {
    if n > 0 {
      var before := Run(lim, g, evs, n - 1);
      ResetsGrow(lim, g, evs, n - 1);
      StepResets(lim, before, evs[n - 1]);
      NothingLoggedBeforeReset(lim, g, evs, n - 1);
      StepLogsNothing(lim, before, evs[n - 1]);
    }
  }

  lemma {:induction false} StepLogsNothing(lim: Limits, g: Logger, ev: Event)
    requires lim.Valid() && g.Valid(lim) && ev.Valid() && g.counts.framecnt >= lim.maxframecnt
    requires Step(lim, g, ev).past.resets == g.past.resets
    ensures Step(lim, g, ev).past.logged == g.past.logged
  {
    StepResets(lim, g, ev);
  }
}
