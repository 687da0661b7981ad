/** The stream logger: one loop fills two cube buffers in turn while a writer thread saves the other. */
module LoggerModel {

  type Pixels = seq<int>

  /** What is noted beside a frame. */
  datatype Stamp = Stamp(cnt0: nat, cnt1: nat, time: real, aqtime: real)

  /** A logged frame: its pixels and its entry in the timing arrays. */
  datatype Entry = Entry(pixels: Pixels, stamp: Stamp)

  /** The input stream as one iteration of the loop sees it; a 3-D input is a rolling buffer of planes. */
  datatype Source = Source(planes: seq<Pixels>, rolling: bool, stamp: Stamp) {
    ghost predicate Valid() {
      if rolling then stamp.cnt1 < |planes| else |planes| >= 1
    }

    function Frame(): Entry
      requires Valid()
    {
      Entry(if rolling then planes[stamp.cnt1] else planes[0], stamp)
    }
  }

  datatype Limits = Limits(cubesize: nat, maxframecnt: nat, maxfilecnt: nat) {
    ghost predicate Valid() {
      cubesize >= 1
    }

    /** The file count from which on the current cube is the last one; the subtraction is unsigned. */
    function LastFile(): nat {
      if maxfilecnt == 0 then 0xFFFF_FFFF_FFFF_FFFF else maxfilecnt - 1
    }
  }

  /** Where the timing arrays keep entry i of buffer b: each buffer owns one half. */
  function TimingIndex(c: nat, b: nat, i: nat): (k: nat)
    requires b < 2 && i < c
    ensures k == i + b * c
    ensures if b == 0 then k < c else c <= k < 2 * c
  {
    if b == 0 then i else c + i
  }

  /** The two cube buffers and the timing arrays, of which each cube buffer owns one half. */
  datatype Store = Store(pix0: seq<Pixels>, pix1: seq<Pixels>, stamps: seq<Stamp>) {
    ghost predicate Valid(c: nat) {
      |pix0| == c && |pix1| == c && |stamps| == 2 * c
    }

    function Read(c: nat, b: nat, i: nat): Entry
      requires Valid(c) && b < 2 && i < c
    {
      Entry(if b == 0 then pix0[i] else pix1[i], stamps[TimingIndex(c, b, i)])
    }

    function Write(c: nat, b: nat, i: nat, e: Entry): Store
      requires Valid(c) && b < 2 && i < c
    {
      Store(if b == 0 then pix0[i := e.pixels] else pix0, if b == 0 then pix1 else pix1[i := e.pixels], stamps[TimingIndex(c, b, i) := e.stamp])
    }
  }

  /** The first n entries of buffer b. */
  function Region(st: Store, c: nat, b: nat, n: nat): (es: seq<Entry>)
    requires st.Valid(c) && b < 2 && n <= c
    ensures |es| == n
  {
    if n == 0 then [] else Region(st, c, b, n - 1) + [st.Read(c, b, n - 1)]
  }

  /** What a writer thread is told: its buffer and half of the timing arrays, and how many frames.
      `entries` is what that region held when the thread was launched. */
  datatype Job = Job(buffer: nat, stampsAt: nat, size: nat, partial: bool, entries: seq<Entry>)

  /** The writer threads: all that were launched, and those still running. */
  datatype Writers = Writers(started: bool, jobs: seq<Job>, running: set<nat>)

  datatype Flags = Flags(saveON: bool, saveONLast: bool, nextcube: bool, lastcubeON: bool, lastcube: bool)

  datatype Counts = Counts(buffindex: nat, frameindex: nat, framecnt: nat, filecnt: nat, lastcnt0: nat)

  /** Bookkeeping the program does not do: all frames logged; empty cubes flushed since the last launch;
      since the counters were last reset, whether saving has stopped and the launches before that; and how
      often they were reset. */
  datatype Past = Past(logged: seq<Entry>, empties: nat, stopped: bool, launches: nat, resets: nat)

  datatype Logger = Logger(flags: Flags, counts: Counts, store: Store, writers: Writers, past: Past) {
    /** Within an iteration the current cube may be full. */
    ghost predicate Open(lim: Limits) {
      store.Valid(lim.cubesize) && counts.buffindex < 2 && counts.frameindex <= lim.cubesize
    }

    ghost predicate Valid(lim: Limits) {
      Open(lim) && counts.frameindex < lim.cubesize
    }
  }

  /** An iteration of the loop, or something that happens between two iterations. */
  datatype Event =
    | Seen(src: Source)
    | TimedOut
    | Toggled(saveON: bool, nextcube: bool, lastcubeON: bool)
    | Finished(job: nat)
  {
    ghost predicate Valid() {
      Seen? ==> src.Valid()
    }
  }

  // ----- one iteration

  /** Saving has just been turned on: the counters start again. */
  function Reset(g: Logger): Logger {
    if !g.flags.saveONLast && g.flags.saveON then
      g.(flags := g.flags.(lastcube := false), counts := g.counts.(framecnt := 0, filecnt := 0),
         past := g.past.(stopped := false, launches := 0, resets := g.past.resets + 1))
    else g
  }

  /** The limits, looked at when a new frame has arrived. */
  function Limit(lim: Limits, g: Logger): Logger {
    g.(flags := g.flags.(saveON := g.flags.saveON && g.counts.framecnt < lim.maxframecnt,
                         lastcube := g.flags.lastcube || g.counts.filecnt >= lim.LastFile()))
  }

  /** The new frame and its stamp go to the current buffer. */
  function Copy(lim: Limits, g: Logger, src: Source): Logger
    requires g.Valid(lim) && src.Valid()
  {
    if !g.flags.saveON then g
    else
      g.(store := g.store.Write(lim.cubesize, g.counts.buffindex, g.counts.frameindex, src.Frame()),
         counts := g.counts.(frameindex := g.counts.frameindex + 1, framecnt := g.counts.framecnt + 1),
         past := g.past.(logged := g.past.logged + [src.Frame()]))
  }

  function Observe(lim: Limits, g: Logger, src: Source): Logger
    requires g.Valid(lim) && src.Valid()
  {
    if g.counts.lastcnt0 == src.stamp.cnt0 then g
    else Copy(lim, Limit(lim, Reset(g.(counts := g.counts.(lastcnt0 := src.stamp.cnt0)))), src)
  }

  predicate SaveCube(lim: Limits, g: Logger, timeout: bool) {
    g.counts.frameindex >= lim.cubesize || (g.flags.saveONLast && !g.flags.saveON) || g.flags.nextcube || timeout
  }

  /** Waits for the thread launched last, if there is one, and launches the next. */
  function Launch(w: Writers, job: Job): Writers {
    Writers(true, w.jobs + [job], (if w.started then w.running - {|w.jobs| - 1} else w.running) + {|w.jobs|})
  }

  function JobFor(lim: Limits, g: Logger): Job
    requires g.Open(lim)
  {
    Job(g.counts.buffindex, if g.counts.buffindex == 0 then 0 else lim.cubesize, g.counts.frameindex,
        g.counts.frameindex != lim.cubesize, Region(g.store, lim.cubesize, g.counts.buffindex, g.counts.frameindex))
  }

  /** Hands the current cube to a writer, unless it is empty. */
  function HandOver(lim: Limits, g: Logger): Logger
    requires g.Open(lim)
  {
    if g.counts.frameindex > 0 then
      g.(writers := Launch(g.writers, JobFor(lim, g)),
         past := g.past.(empties := 0, launches := if g.past.stopped then g.past.launches else g.past.launches + 1))
    else g.(past := g.past.(empties := g.past.empties + 1))
  }

  /** Turns to the other buffer; after the last cube saving is turned off. */
  function Turn(g: Logger): Logger
    requires g.counts.buffindex < 2
  {
    var stop := g.flags.lastcube || g.flags.lastcubeON;
    g.(flags := g.flags.(saveON := g.flags.saveON && !stop, lastcubeON := g.flags.lastcubeON && !stop),
       counts := g.counts.(frameindex := 0, filecnt := g.counts.filecnt + 1, buffindex := 1 - g.counts.buffindex))
  }

  function Flush(lim: Limits, g: Logger): Logger
    requires g.Open(lim)
  {
    Turn(HandOver(lim, g))
  }

  /** The end of an iteration: perhaps a flush, then the flag is remembered. */
  function Close(lim: Limits, g: Logger, timeout: bool): Logger
    requires g.Open(lim)
  {
    var g1 := g.(flags := g.flags.(nextcube := false));
    var g2 := if SaveCube(lim, g, timeout) then Flush(lim, g1) else g1;
    g2.(flags := g2.flags.(saveONLast := g2.flags.saveON), past := g2.past.(stopped := g2.past.stopped || !g2.flags.saveON))
  }

  lemma {:induction false} ObserveStaysOpen(lim: Limits, g: Logger, src: Source)
    requires g.Valid(lim) && src.Valid()
    ensures Observe(lim, g, src).Open(lim)
  {
  }

  lemma {:induction false} CloseMakesRoom(lim: Limits, g: Logger, timeout: bool)
    requires lim.Valid() && g.Open(lim)
    ensures Close(lim, g, timeout).Valid(lim)
  {
  }

  function Step(lim: Limits, g: Logger, ev: Event): Logger
    requires g.Valid(lim) && ev.Valid()
  {
    match ev
    case Seen(src) =>
      ObserveStaysOpen(lim, g, src);
      Close(lim, Observe(lim, g, src), false)
    case TimedOut => Close(lim, g, true)
    case Toggled(saveON, nextcube, lastcubeON) =>
      g.(flags := g.flags.(saveON := saveON, nextcube := nextcube, lastcubeON := lastcubeON))
    case Finished(job) => g.(writers := g.writers.(running := g.writers.running - {job}))
  }

  /** The loop about to start. */
  ghost predicate Initial(lim: Limits, g: Logger) {
    && lim.Valid() && g.store.Valid(lim.cubesize)
    && g.flags.saveONLast == g.flags.saveON && !g.flags.lastcube
    && g.counts == Counts(0, 0, 0, 0, 0) && g.writers == Writers(false, [], {})
    && g.past == Past([], 0, !g.flags.saveON, 0, 0)
  }

  ghost predicate AllValid(evs: seq<Event>) {
    forall i :: 0 <= i < |evs| ==> evs[i].Valid()
  }

  /** The state after n events. */
  ghost function Run(lim: Limits, g0: Logger, evs: seq<Event>, n: nat): (g: Logger)
    requires lim.Valid() && g0.Valid(lim) && AllValid(evs) && n <= |evs|
    ensures g.Valid(lim)
  {
    if n == 0 then g0
    else
      StepStaysValid(lim, Run(lim, g0, evs, n - 1), evs[n - 1]);
      Step(lim, Run(lim, g0, evs, n - 1), evs[n - 1])
  }

  /** At each loop head there is room for a frame: frameindex < cubesize. */
  lemma {:induction false} StepStaysValid(lim: Limits, g: Logger, ev: Event)
    requires lim.Valid() && g.Valid(lim) && ev.Valid()
    ensures Step(lim, g, ev).Valid(lim)
  {
    if ev.Seen? {
      ObserveStaysOpen(lim, g, ev.src);
      CloseMakesRoom(lim, Observe(lim, g, ev.src), false);
    } else if ev.TimedOut? {
      CloseMakesRoom(lim, g, true);
    }
  }
}
