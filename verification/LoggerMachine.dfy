/** The loop of the logger over its two image buffers and its timing arrays. */
module LoggerMachine {
  import opened LoggerModel

  class StreamLog {
    const lim: Limits
    const pix0: array<Pixels>
    const pix1: array<Pixels>
    const stamps: array<Stamp>
    var saveON: bool
    var saveONLast: bool
    var nextcube: bool
    var lastcubeON: bool
    var lastcube: bool
    var buffindex: nat
    var frameindex: nat
    var framecnt: nat
    var filecnt: nat
    var lastcnt0: nat
    var threadInitialized: bool
    ghost var jobs: seq<Job>
    ghost var running: set<nat>
    ghost var past: Past

    ghost predicate Valid()
      reads this
    {
      && lim.Valid() && pix0.Length == pix1.Length == lim.cubesize && stamps.Length == 2 * lim.cubesize && pix0 != pix1
      && buffindex < 2 && frameindex <= lim.cubesize
    }

    ghost function State(): Logger
      reads this, pix0, pix1, stamps
    {
      Logger(Flags(saveON, saveONLast, nextcube, lastcubeON, lastcube), Counts(buffindex, frameindex, framecnt, filecnt, lastcnt0),
             Store(pix0[..], pix1[..], stamps[..]), Writers(threadInitialized, jobs, running), past)
    }

    constructor (limits: Limits, on: bool, blank: Stamp)
      requires limits.Valid()
      ensures Valid() && lim == limits && Initial(limits, State())
      ensures fresh(pix0) && fresh(pix1) && fresh(stamps)
    {
      lim := limits;
      pix0 := new Pixels[limits.cubesize](_ => []);
      pix1 := new Pixels[limits.cubesize](_ => []);
      stamps := new Stamp[2 * limits.cubesize](_ => blank);
      saveON, saveONLast, nextcube, lastcubeON, lastcube := on, on, false, false, false;
      buffindex, frameindex, framecnt, filecnt, lastcnt0 := 0, 0, 0, 0, 0;
      threadInitialized, jobs, running, past := false, [], {}, Past([], 0, !on, 0, 0);
    }

    /** Saving turned on since the last iteration starts the counters again. */
    method StartCounting()
      requires Valid()
      modifies this`lastcube, this`framecnt, this`filecnt, this`past
      ensures State() == old(Reset(State()))
    {
      if !saveONLast && saveON {
        lastcube, framecnt, filecnt := false, 0, 0;
        past := past.(stopped := false, launches := 0, resets := past.resets + 1);
      }
    }

    /** The limits on frames and files. */
    method CheckLimits()
      requires Valid()
      modifies this`saveON, this`lastcube
      ensures State() == old(Limit(lim, State()))
    {
      if framecnt >= lim.maxframecnt {
        saveON := false;
      }
      if filecnt >= lim.LastFile() {
        lastcube := true;
      }
    }

    /** Copies the frame to the current buffer and notes its times. */
    method CopyFrame(src: Source)
      requires Valid() && src.Valid() && frameindex < lim.cubesize
      modifies this, pix0, pix1, stamps
      ensures Valid() && State() == old(Copy(lim, State(), src))
    {
      if saveON {
        var tindex := TimingIndex(lim.cubesize, buffindex, frameindex);
        stamps[tindex] := src.stamp;
        var pixels := if src.rolling then src.planes[src.stamp.cnt1] else src.planes[0];
        if buffindex == 0 {
          pix0[frameindex] := pixels;
        } else {
          pix1[frameindex] := pixels;
        }
        frameindex := frameindex + 1;
        framecnt := framecnt + 1;
        past := past.(logged := past.logged + [src.Frame()]);
      }
    }

    /** Looks at the stream after a trigger. */
    method LookAt(src: Source)
      requires Valid() && src.Valid() && frameindex < lim.cubesize
      modifies this, pix0, pix1, stamps
      ensures Valid() && State() == old(Observe(lim, State(), src))
    {
      if lastcnt0 != src.stamp.cnt0 {
        lastcnt0 := src.stamp.cnt0;
        StartCounting();
        CheckLimits();
        CopyFrame(src);
      }
    }

    /** Fills in the message for the next writer, waits for the one before, and launches. */
    method SaveBuffer() returns (buffer: nat, stampsAt: nat, size: nat, partial: bool)
      requires Valid() && frameindex > 0
      modifies this`threadInitialized, this`jobs, this`running
      ensures State() == old(State().(writers := Launch(State().writers, JobFor(lim, State()))))
      ensures |jobs| > 0 && var job := jobs[|jobs| - 1]; job == Job(buffer, stampsAt, size, partial, job.entries)
    {
      buffer, size, partial := buffindex, frameindex, frameindex != lim.cubesize;
      stampsAt := if buffindex == 0 then 0 else lim.cubesize;
      if threadInitialized {
        running := running - {|jobs| - 1};
      }
      running := running + {|jobs|};
      jobs := jobs + [Job(buffer, stampsAt, size, partial, Region(State().store, lim.cubesize, buffer, size))];
      threadInitialized := true;
    }

    /** The cube is saved unless it is empty. */
    method EndCube()
      requires Valid()
      modifies this`threadInitialized, this`jobs, this`running, this`past
      ensures State() == old(HandOver(lim, State()))
    {
      if frameindex > 0 {
        var buffer, stampsAt, size, partial := SaveBuffer();
        past := past.(empties := 0, launches := if past.stopped then past.launches else past.launches + 1);
      } else {
        past := past.(empties := past.empties + 1);
      }
    }

    /** The buffers change roles; the last cube ends the saving. */
    method TurnBuffers()
      requires Valid()
      modifies this`frameindex, this`filecnt, this`buffindex, this`saveON, this`lastcubeON
      ensures Valid() && State() == old(Turn(State()))
    {
      frameindex := 0;
      filecnt := filecnt + 1;
      buffindex := buffindex + 1;
      if buffindex > 1 {
        buffindex := 0;
      }
      if lastcube || lastcubeON {
        saveON := false;
        lastcubeON := false;
      }
    }

    /** Should the cube be saved now? */
    method CubeDue(timeout: bool) returns (saveCube: bool)
      requires Valid()
      modifies this`nextcube
      ensures saveCube == old(SaveCube(lim, State(), timeout)) && !nextcube
    {
      saveCube := false;
      if frameindex >= lim.cubesize {
        saveCube := true;
      }
      if saveONLast && !saveON {
        saveCube := true;
      }
      if nextcube {
        nextcube := false;
        saveCube := true;
      }
      if timeout {
        saveCube := true;
      }
    }

    /** The end of an iteration. */
    method EndIteration(timeout: bool)
      requires Valid()
      modifies this
      ensures Valid() && State() == old(Close(lim, State(), timeout)) && frameindex < lim.cubesize
    {
      var saveCube := CubeDue(timeout);
      if saveCube {
        EndCube();
        TurnBuffers();
      }
      saveONLast := saveON;
      past := past.(stopped := past.stopped || !saveON);
    }

    /** One iteration of the loop after a trigger. */
    method Iterate(src: Source)
      requires Valid() && src.Valid() && frameindex < lim.cubesize
      modifies this, pix0, pix1, stamps
      ensures Valid() && State() == old(Step(lim, State(), Seen(src))) && frameindex < lim.cubesize
    {
      LookAt(src);
      EndIteration(false);
    }

    /** One iteration after the trigger has timed out. */
    method IterateTimedOut()
      requires Valid() && frameindex < lim.cubesize
      modifies this
      ensures Valid() && State() == old(Step(lim, State(), TimedOut)) && frameindex < lim.cubesize
    {
      EndIteration(true);
    }

    /** What happens between two iterations: flags are written from outside, or a writer thread ends. */
    method Outside(ev: Event)
      requires Valid() && frameindex < lim.cubesize && (ev.Toggled? || ev.Finished?)
      modifies this`saveON, this`nextcube, this`lastcubeON, this`running
      ensures State() == old(Step(lim, State(), ev))
    {
      match ev {
        case Toggled(s, n, l) =>
          saveON, nextcube, lastcubeON := s, n, l;
        case Finished(job) =>
          running := running - {job};
      }
    }

    /** The whole loop over a sequence of events. */
    method Operate(evs: seq<Event>)
      requires Valid() && frameindex < lim.cubesize && AllValid(evs)
      modifies this, pix0, pix1, stamps
      ensures Valid() && State() == Run(lim, old(State()), evs, |evs|)
    {
      ghost var g0 := State();
      for k := 0 to |evs|
        invariant Valid() && frameindex < lim.cubesize && g0.Valid(lim)
        invariant State() == Run(lim, g0, evs, k)
      {
        match evs[k] {
          case Seen(src) => Iterate(src);
          case TimedOut => IterateTimedOut();
          case _ => Outside(evs[k]);
        }
      }
    }
  }
}
