/** The engine side of the audio port: a bounded drop-oldest PCM queue filled in exact 20 ms steps. */
module AudioQueue {
  import opened Words

  const STEP_MS: nat := 20
  const STEP_FRAMES: nat := 441
  const QUEUE_FRAMES: nat := 22050 * 4
  const MAXIMUM_ADVANCE_MS: nat := 60_000
  const FRAME_PERIOD_NS: nat := 33_000_000
  const FIRST_CALL: nat := 5
  const LAST_CALL: nat := 25

  /** One stereo frame, left and right. */
  type Stereo = (int, int)

  function LastFrames(s: seq<Stereo>): seq<Stereo> {
    s[|s| - Min(|s|, QUEUE_FRAMES)..]
  }

  lemma LastOfLast(a: seq<Stereo>, b: seq<Stereo>)
    ensures LastFrames(LastFrames(a) + b) == LastFrames(a + b)
  {
  }

  lemma LastFramesIs(s: seq<Stereo>)
    ensures LastFrames(s) == if |s| > QUEUE_FRAMES then s[|s| - QUEUE_FRAMES..] else s
  {
  }

  lemma NothingDropped()
    ensures U32(0) == 0
  {
  }

  /** Dropping what no longer fits leaves the newest frames. */
  lemma PushedTail(c: seq<Stereo>, input: seq<Stereo>)
    requires |c| <= QUEUE_FRAMES
    ensures |LastFrames(input)| == Min(|input|, QUEUE_FRAMES)
    ensures c[Max(0, |c| + |LastFrames(input)| - QUEUE_FRAMES)..] + LastFrames(input) == LastFrames(c + input)
  {
  }

  class AudioPort {
    const queue: array<Stereo>
    var queued: nat
    var dropped: uint32
    var pendingMs: nat
    /** The engine runs: the guest can shut it down and start it again. */
    var initialized: bool
    var delayDepth: nat
    /** What the firmware's mixer yields in step n; the mixer itself is not part of this model. */
    const mixed: nat -> seq<Stereo>
    /** The mixer's own position: how many steps it has rendered. */
    var steps: nat

    ghost var pushed: seq<Stereo>
    ghost var pushedTotal: nat
    ghost var droppedTotal: nat
    ghost var clearedTotal: nat

    // Engine milliseconds that passed while it ran, while it was shut down, and in waits between notes.
    ghost var rendered: nat
    ghost var skipped: nat
    ghost var delayed: nat

    /** The queue holds the newest frames pushed since the last clear, and every frame is accounted for. */
    ghost predicate Valid()
      reads this, queue
    {
      && queue.Length == QUEUE_FRAMES && queued <= QUEUE_FRAMES
      && queue[..queued] == LastFrames(pushed)
      && pushedTotal == queued + droppedTotal + clearedTotal && dropped == U32(droppedTotal)
      && rendered == STEP_MS * steps + pendingMs
      && pendingMs < STEP_MS && forall n: nat :: |mixed(n)| == STEP_FRAMES
    }

    constructor (initialized: bool, mixed: nat -> seq<Stereo>)
      requires forall n: nat :: |mixed(n)| == STEP_FRAMES
      ensures Valid() && fresh(queue) && queued == 0 && pushed == [] && rendered == skipped == delayed == 0
      ensures delayDepth == 0
      ensures this.initialized == initialized && this.mixed == mixed
    {
      hide LastFrames, U32;
      this.initialized, this.mixed := initialized, mixed;
      queue := new Stereo[QUEUE_FRAMES](_ => (0, 0));
      queued, dropped, pendingMs := 0, 0, 0;
      pushed, pushedTotal, droppedTotal, clearedTotal, steps := [], 0, 0, 0, 0;
      rendered, skipped, delayed, delayDepth := 0, 0, 0, 0;
      new;
      LastFramesIs([]);
      NothingDropped();
    }

    /** Move the frames from `drop` on to the front of the queue. */
    method Shift(drop: nat)
      requires queue.Length == QUEUE_FRAMES && drop <= queued <= QUEUE_FRAMES
      modifies queue
      ensures queue[..queued - drop] == old(queue[drop..queued])
    {
      for i := 0 to queued - drop
        invariant forall k | 0 <= k < i :: queue[k] == old(queue[drop..queued])[k]
        invariant forall k | i <= k < QUEUE_FRAMES :: queue[k] == old(queue[k])
      {
        queue[i] := queue[i + drop];
      }
    }

    method Drop(more: nat)
      requires dropped == U32(droppedTotal)
      modifies this`dropped, this`droppedTotal
      ensures dropped == U32(droppedTotal) && droppedTotal == old(droppedTotal) + more
    {
      hide U32;
      AddDropped(dropped, droppedTotal, more);
      dropped, droppedTotal := U32(dropped + more), droppedTotal + more;
    }

    /** Drop the oldest frames that leave no room for `more` new ones. */
    method MakeRoom(more: nat)
      requires queue.Length == QUEUE_FRAMES && queued <= QUEUE_FRAMES && more <= QUEUE_FRAMES
      requires dropped == U32(droppedTotal)
      modifies queue, this`queued, this`dropped, this`droppedTotal
      ensures dropped == U32(droppedTotal) && droppedTotal == old(droppedTotal + queued) - queued
      ensures queued == Min(old(queued), QUEUE_FRAMES - more)
      ensures queue[..queued] == old(queue[..queued])[old(queued) - queued..]
    {
      hide U32;
      if queued + more > QUEUE_FRAMES {
        var drop := queued + more - QUEUE_FRAMES;
        Shift(drop);
        queued := queued - drop;
        Drop(drop);
        assert old(queue[..queued])[drop..] == old(queue[drop..queued]);
      }
    }

    /** Copy frames to the end of the queue. */
    method Append(frames: seq<Stereo>)
      requires queue.Length == QUEUE_FRAMES && queued + |frames| <= QUEUE_FRAMES
      modifies queue
      ensures queue[..queued + |frames|] == old(queue[..queued]) + frames
    {
      for i := 0 to |frames|
        invariant queue[..queued + i] == old(queue[..queued]) + frames[..i]
      {
        queue[queued + i] := frames[i];
      }
    }

    /** Queue frames, dropping the oldest ones that no longer fit. */
    method Push(input: seq<Stereo>)
      requires Valid()
      modifies queue, this`queued, this`dropped, this`pushed, this`pushedTotal, this`droppedTotal
      ensures Valid() && pushed == old(pushed) + input && pushedTotal == old(pushedTotal) + |input|
      ensures queued == Min(old(queued) + |input|, QUEUE_FRAMES)
      ensures droppedTotal == old(droppedTotal) + Max(0, old(queued) + |input| - QUEUE_FRAMES)
    {
      hide U32, LastFrames;
      LastFramesIs(input);
      ghost var before := queue[..queued];
      PushedTail(before, input);
      LastOfLast(pushed, input);
      var frames := input;
      if |frames| > QUEUE_FRAMES {
        Drop(|frames| - QUEUE_FRAMES);
        frames := frames[|frames| - QUEUE_FRAMES..];
      }
      MakeRoom(|frames|);
      Append(frames);
      queued := queued + |frames|;
      pushed, pushedTotal := pushed + input, pushedTotal + |input|;
    }

    /** Mix one step of sound into the queue. */
    method Step()
      requires Valid()
      modifies queue, this`queued, this`dropped, this`pushed, this`pushedTotal, this`droppedTotal, this`steps,
               this`rendered
      ensures Valid() && pushed == old(pushed) + mixed(old(steps)) && steps == old(steps) + 1
    {
      hide LastFrames, U32;
      Push(mixed(steps));
      steps, rendered := steps + 1, rendered + STEP_MS;
    }

    /** Let engine time pass: every full 20 ms is mixed, the rest stays pending. */
    method AdvanceMs(elapsed: uint32)
      requires Valid()
      modifies queue, this`queued, this`dropped, this`pendingMs, this`pushed, this`pushedTotal, this`droppedTotal,
               this`steps, this`rendered, this`skipped
      ensures Valid() && rendered + skipped == old(rendered) + old(skipped) + Min(elapsed, MAXIMUM_ADVANCE_MS)
      ensures if initialized then skipped == old(skipped) else rendered == old(rendered)
      ensures steps >= old(steps) && pushed == old(pushed) + Mixed(mixed, old(steps), steps)
    {
      hide LastFrames, U32, Mixed;
      NothingMixed(mixed, steps);
      var ms := if elapsed > MAXIMUM_ADVANCE_MS then MAXIMUM_ADVANCE_MS else elapsed;
      if !initialized {
        skipped := skipped + ms;
        return;
      }
      var pending := pendingMs + ms;
      while pending >= STEP_MS
        invariant Valid() && pendingMs == old(pendingMs) && steps >= old(steps) && skipped == old(skipped)
        invariant pending >= 0 && old(pendingMs) + ms == STEP_MS * (steps - old(steps)) + pending
        invariant pushed == old(pushed) + Mixed(mixed, old(steps), steps)
      {
        pending := pending - STEP_MS;
        OneMoreMixed(mixed, old(steps), steps);
        Step();
      }
      rendered := rendered - pendingMs + pending;
      pendingMs := pending;
    }

    /** A wait between notes is rendered, unless it happens inside another one. */
    method DelayMs(ms: uint32)
      requires Valid()
      modifies queue, this`queued, this`dropped, this`pendingMs, this`pushed, this`pushedTotal, this`droppedTotal,
               this`steps, this`rendered, this`skipped, this`delayed, this`delayDepth
      ensures Valid() && delayDepth == old(delayDepth)
      ensures delayed == old(delayed) + if delayDepth > 0 then 0 else Min(ms, MAXIMUM_ADVANCE_MS)
      ensures rendered + skipped - delayed == old(rendered) + old(skipped) - old(delayed)
      ensures if initialized then skipped == old(skipped) else rendered == old(rendered)
      ensures steps >= old(steps) && pushed == old(pushed) + Mixed(mixed, old(steps), steps)
    {
      hide LastFrames, U32;
      if delayDepth > 0 { return; }
      delayDepth := delayDepth + 1;
      AdvanceMs(ms);
      delayed := delayed + Min(ms, MAXIMUM_ADVANCE_MS);
      delayDepth := delayDepth - 1;
    }

    /** The engine's own initialisation and shutdown, which are not part of this model, leave it running or not. */
    method SetRunning(running: bool)
      requires Valid()
      modifies this`initialized
      ensures Valid() && initialized == running
    {
      initialized := running;
    }

    /** The player takes everything that is waiting. */
    method Take() returns (taken: seq<Stereo>)
      requires Valid()
      modifies this`queued, this`pushed, this`clearedTotal
      ensures Valid() && taken == LastFrames(old(pushed)) && queued == 0 && pushed == []
      ensures clearedTotal == old(clearedTotal) + |taken|
    {
      hide U32, LastFrames;
      LastFramesIs([]);
      taken := queue[..queued];
      clearedTotal := clearedTotal + queued;
      queued, pushed := 0, [];
    }
  }

  lemma AddDropped(dropped: uint32, total: nat, more: nat)
    requires dropped == U32(total)
    ensures U32(dropped + more) == U32(total + more)
  {
  }

  /** The frames of steps a to b - 1, in order. */
  function Mixed(mixed: nat -> seq<Stereo>, a: nat, b: nat): seq<Stereo>
    requires a <= b
    decreases b - a
  {
    if a == b then [] else Mixed(mixed, a, b - 1) + mixed(b - 1)
  }

  lemma NothingMixed(mixed: nat -> seq<Stereo>, a: nat)
    ensures Mixed(mixed, a, a) == []
  {
  }

  lemma OneMoreMixed(mixed: nat -> seq<Stereo>, a: nat, b: nat)
    requires a <= b
    ensures Mixed(mixed, a, b + 1) == Mixed(mixed, a, b) + mixed(b)
  {
  }

  /** The scheduler that lets the engine catch up with finished frames. */
  class FirmwareAudio {
    const port: AudioPort
    var frames: uint64
    var audioNanoseconds: uint64
    var arguments: seq<uint32>

    ghost predicate Valid()
      reads this, port, port.queue
    {
      port.Valid()
    }

    /** Engine time stands exactly at the start of the current frame, waits between notes on top. */
    ghost predicate Synchronised()
      reads this, port
    {
      audioNanoseconds == frames * FRAME_PERIOD_NS && port.rendered + port.skipped == 33 * frames + port.delayed
    }

    constructor (mixed: nat -> seq<Stereo>)
      requires forall n: nat :: |mixed(n)| == STEP_FRAMES
      ensures Valid() && Synchronised() && frames == 0 && fresh(port) && fresh(port.queue) && port.pushed == []
    {
      hide LastFrames, U32;
      port := new AudioPort(true, mixed);
      frames, audioNanoseconds, arguments := 0, 0, seq(8, _ => 0);
    }

    /** The engine should have reached the product of the frame count and the frame period, in 64 bits. */
    method CatchUp()
      requires Valid()
      modifies this`audioNanoseconds, port, port.queue
      ensures Valid() && port.delayed == old(port.delayed) && port.initialized == old(port.initialized)
      ensures var ms := Max(0, U64(frames * FRAME_PERIOD_NS) - old(audioNanoseconds)) / 1_000_000;
        && audioNanoseconds == old(audioNanoseconds) + ms * 1_000_000
        && port.rendered + port.skipped == old(port.rendered) + old(port.skipped) + Min(ms, MAXIMUM_ADVANCE_MS)
      ensures if port.initialized then port.skipped == old(port.skipped) else port.rendered == old(port.rendered)
      ensures port.steps >= old(port.steps)
      ensures port.pushed == old(port.pushed) + Mixed(port.mixed, old(port.steps), port.steps)
    {
      hide LastFrames, U32, U64;
      var now := U64(frames * FRAME_PERIOD_NS);
      if now <= audioNanoseconds { return; }
      var ms := (now - audioNanoseconds) / 1_000_000;
      if ms == 0 { return; }
      audioNanoseconds := audioNanoseconds + ms * 1_000_000;
      port.AdvanceMs(Min(ms, MAXIMUM_ADVANCE_MS));
    }

    /**
     * A frame has run. Engine time stays exactly at the frames' time, without drift, for as long as that fits 64 bits
     * of nanoseconds, and no longer. While the engine has never been shut down, exactly the full 20 ms of that time
     * are mixed and the rest is pending.
     */
    method FrameDone()
      requires Valid()
      modifies this`frames, this`audioNanoseconds, port, port.queue
      ensures Valid() && frames == U64(old(frames) + 1)
      ensures old(Synchronised()) ==> (Synchronised() <==> (old(frames) + 1) * FRAME_PERIOD_NS < TWO64)
      ensures Synchronised() && port.skipped == 0 ==>
        port.steps == (33 * frames + port.delayed) / STEP_MS && port.pendingMs == (33 * frames + port.delayed) % STEP_MS
      ensures if port.initialized then port.skipped == old(port.skipped) else port.rendered == old(port.rendered)
      ensures port.steps >= old(port.steps)
      ensures port.pushed == old(port.pushed) + Mixed(port.mixed, old(port.steps), port.steps)
    {
      hide LastFrames, U32, U64;
      if Synchronised() { NextFrame(frames, audioNanoseconds); }
      frames := U64(frames + 1);
      CatchUp();
      StepsOf(port.rendered, port.steps, port.pendingMs);
    }

    /**
     * An audio call of the guest: the engine is already at the frame's start, so nothing is rendered early, and the
     * call's argument registers are kept for when it has run.
     */
    method Before(index: nat, registers: seq<uint32>)
      requires Valid() && |registers| == 8
      modifies this`audioNanoseconds, this`arguments, port, port.queue
      ensures Valid() && arguments == if FIRST_CALL <= index <= LAST_CALL then registers else old(arguments)
      ensures old(Synchronised()) ==>
        Synchronised() && port.steps == old(port.steps) && port.pushed == old(port.pushed)
    {
      hide LastFrames, U32, U64;
      if index < FIRST_CALL || index > LAST_CALL { return; }
      if Synchronised() { ThisFrame(frames, audioNanoseconds); }
      CatchUp();
      var taken := [];
      for n := 0 to 8
        invariant taken == registers[..n]
      {
        taken := taken + [registers[n]];
      }
      assert taken == registers;
      arguments := taken;
    }

    /**
     * The part of an audio call that has to do with time: calls 9 and 10 start the engine, successfully or not, and
     * shut it down, and call 19 waits between its notes. Engine time keeps accounting for all of it.
     */
    method After(index: nat, started: bool, waits: seq<uint32>)
      requires Valid()
      modifies port, port.queue
      ensures Valid() && (old(Synchronised()) ==> Synchronised())
      ensures port.initialized == if index == 9 then started else if index == 10 then false else old(port.initialized)
      ensures index != 19 ==> port.steps == old(port.steps) && port.pushed == old(port.pushed)
      ensures port.skipped >= old(port.skipped) && (port.initialized ==> port.skipped == old(port.skipped))
    {
      hide LastFrames, U32, U64;
      if index == 9 {
        port.SetRunning(started);
      } else if index == 10 {
        port.SetRunning(false);
      } else if index == 19 {
        for i := 0 to |waits|
          invariant Valid() && port.initialized == old(port.initialized)
          invariant port.rendered + port.skipped - port.delayed
                    == old(port.rendered) + old(port.skipped) - old(port.delayed)
          invariant port.skipped >= old(port.skipped) && (port.initialized ==> port.skipped == old(port.skipped))
        {
          port.DelayMs(waits[i]);
        }
      }
    }
  }

  /** The next frame is 33 ms on, unless its time does not fit 64 bits: then the engine seems to be ahead of it. */
  lemma NextFrame(frames: uint64, ns: uint64)
    requires ns == frames * FRAME_PERIOD_NS
    ensures U64(frames + 1) == frames + 1
    ensures var now := U64((frames + 1) * FRAME_PERIOD_NS);
      if (frames + 1) * FRAME_PERIOD_NS < TWO64 then now - ns == FRAME_PERIOD_NS else now <= ns
  {
  }

  lemma ThisFrame(frames: uint64, ns: uint64)
    requires ns == frames * FRAME_PERIOD_NS
    ensures U64(frames * FRAME_PERIOD_NS) == ns
  {
  }

  lemma StepsOf(rendered: nat, steps: nat, pending: nat)
    requires rendered == STEP_MS * steps + pending && pending < STEP_MS
    ensures steps == rendered / STEP_MS && pending == rendered % STEP_MS
  {
  }
}
