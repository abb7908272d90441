/**
 * Fixed-timestep scheduler (src/game/loop.ts).
 *
 * The closure variables `running`, `lastTickTime` and `animationFrameId` become
 * fields of a GameLoop object. The host's animation-frame facility is modelled
 * by two more fields: `scheduled`, the ids of the frames requested and neither
 * delivered nor cancelled, and `nextRequest`, the id the next request returns.
 * The host delivering frame `id` at time t is the call `Frame(id, t, ...)`, and
 * the clock reading taken by `start` is the parameter `now`. The update and draw
 * callbacks are opaque except that either may call `stop` (the flags
 * `updateStops` and `drawStops` of `Frame`); ghost counters record how often
 * each callback is invoked.
 */
module Loop {
  import opened Options

  /** Milliseconds per tick (5 ticks per second). */
  const DEFAULT_TICK_RATE := 200

  class GameLoop {
    const tickRate: int
    var running: bool
    var lastTickTime: int
    var frameId: Option<nat>
    var scheduled: set<nat>
    var nextRequest: nat
    ghost var updates: nat
    ghost var draws: nat

    /** Every id handed out so far is below `nextRequest`, so a new request is a new frame. */
    ghost predicate Valid()
      reads this
    {
      (forall i :: i in scheduled ==> i < nextRequest) &&
      (frameId.Some? ==> frameId.value < nextRequest)
    }

    /**
     * One callback chain: while running exactly the frame in `frameId` is pending,
     * and while stopped nothing is pending and no id is held.
     */
    ghost predicate OneChain()
      reads this
    {
      if running then frameId.Some? && scheduled == {frameId.value}
      else frameId.None? && scheduled == {}
    }

    /** createGameLoop: not running, nothing scheduled, nothing called yet. */
    constructor (tickRate: int)
      ensures Valid() && OneChain()
      ensures this.tickRate == tickRate
      ensures !running && frameId == None && scheduled == {} && nextRequest == 0 && lastTickTime == 0
      ensures updates == 0 && draws == 0
    {
      this.tickRate := tickRate;
      running := false;
      lastTickTime := 0;
      frameId := None;
      scheduled := {};
      nextRequest := 0;
      updates, draws := 0, 0;
    }

    /** requestAnimationFrame(gameLoop): a fresh id is scheduled and kept in `frameId`. */
    method RequestFrame()
      requires Valid()
      modifies this`frameId, this`scheduled, this`nextRequest
      ensures Valid()
      ensures frameId == Some(old(nextRequest)) && nextRequest == old(nextRequest) + 1
      ensures scheduled == old(scheduled) + {old(nextRequest)}
      ensures old(nextRequest) !in old(scheduled)
    {
      frameId := Some(nextRequest);
      scheduled := scheduled + {nextRequest};
      nextRequest := nextRequest + 1;
    }

    /** start: a no-op while running; otherwise runs from `now` with one more frame requested. */
    method Start(now: int)
      requires Valid()
      modifies this
      ensures Valid()
      ensures old(running) ==> unchanged(this)
      ensures !old(running) ==>
        running && lastTickTime == now &&
        frameId == Some(old(nextRequest)) && nextRequest == old(nextRequest) + 1 &&
        scheduled == old(scheduled) + {old(nextRequest)} &&
        updates == old(updates) && draws == old(draws)
      ensures old(OneChain()) ==> OneChain()
    {
      if running {
        return;
      }
      running := true;
      lastTickTime := now;
      RequestFrame();
    }

    /** stop: not running, and the frame held in `frameId` (if any) cancelled and forgotten. */
    method Stop()
      requires Valid()
      modifies this`running, this`frameId, this`scheduled
      ensures Valid()
      ensures !running && frameId == None
      ensures scheduled == if old(frameId).Some? then old(scheduled) - {old(frameId).value} else old(scheduled)
      ensures old(OneChain()) ==> OneChain()
    {
      running := false;
      if frameId.Some? {
        scheduled := scheduled - {frameId.value};
        frameId := None;
      }
    }

    method IsRunning() returns (r: bool)
      ensures r == running
    {
      r := running;
    }

    /**
     * gameLoop(t), run when the host delivers the pending frame `id`: when not
     * running nothing else happens. Otherwise `update` runs once if at least
     * tickRate has passed since the last tick (and the tick time moves to t),
     * `draw` runs once, and a next frame is requested whether or not a callback
     * stopped the loop meanwhile.
     */
    method Frame(id: nat, currentTime: int, updateStops: bool, drawStops: bool)
      requires Valid() && id in scheduled
      modifies this
      ensures Valid()
      ensures !old(running) ==>
        !running && frameId == old(frameId) && scheduled == old(scheduled) - {id} &&
        lastTickTime == old(lastTickTime) && nextRequest == old(nextRequest) &&
        updates == old(updates) && draws == old(draws)
      ensures old(running) ==>
        var ticked := currentTime - old(lastTickTime) >= tickRate;
        var stopped := (ticked && updateStops) || drawStops;
        var cancelled := if stopped && old(frameId).Some? then {old(frameId).value} else {};
        running == !stopped && draws == old(draws) + 1 &&
        (if ticked
         then updates == old(updates) + 1 && lastTickTime == currentTime
         else updates == old(updates) && lastTickTime == old(lastTickTime)) &&
        frameId == Some(old(nextRequest)) && nextRequest == old(nextRequest) + 1 &&
        scheduled == old(scheduled) - {id} - cancelled + {old(nextRequest)}
      ensures old(OneChain()) && !updateStops && !drawStops ==> OneChain()
    {
      scheduled := scheduled - {id};
      if !running {
        return;
      }
      var timeSinceLastTick := currentTime - lastTickTime;
      if timeSinceLastTick >= tickRate {
        updates := updates + 1;
        if updateStops {
          Stop();
        }
        lastTickTime := currentTime;
      }
      draws := draws + 1;
      if drawStops {
        Stop();
      }
      RequestFrame();
    }

    /**
     * gameLoop with the next frame requested only while still running: the same
     * callbacks and tick logic as `Frame`, but a `stop` from a callback ends the
     * chain at once, so one chain is kept whatever the callbacks do.
     */
    method FrameWhileRunning(id: nat, currentTime: int, updateStops: bool, drawStops: bool)
      requires Valid() && id in scheduled
      modifies this
      ensures Valid()
      ensures !old(running) ==>
        !running && frameId == old(frameId) && scheduled == old(scheduled) - {id} &&
        lastTickTime == old(lastTickTime) && nextRequest == old(nextRequest) &&
        updates == old(updates) && draws == old(draws)
      ensures old(running) ==>
        var ticked := currentTime - old(lastTickTime) >= tickRate;
        var stopped := (ticked && updateStops) || drawStops;
        var cancelled := if stopped && old(frameId).Some? then {old(frameId).value} else {};
        running == !stopped && draws == old(draws) + 1 &&
        (if ticked
         then updates == old(updates) + 1 && lastTickTime == currentTime
         else updates == old(updates) && lastTickTime == old(lastTickTime)) &&
        (stopped ==>
          frameId == None && nextRequest == old(nextRequest) &&
          scheduled == old(scheduled) - {id} - cancelled) &&
        (!stopped ==>
          frameId == Some(old(nextRequest)) && nextRequest == old(nextRequest) + 1 &&
          scheduled == old(scheduled) - {id} + {old(nextRequest)})
      ensures old(OneChain()) ==> OneChain()
    {
      scheduled := scheduled - {id};
      if !running {
        return;
      }
      var timeSinceLastTick := currentTime - lastTickTime;
      if timeSinceLastTick >= tickRate {
        updates := updates + 1;
        if updateStops {
          Stop();
        }
        lastTickTime := currentTime;
      }
      draws := draws + 1;
      if drawStops {
        Stop();
      }
      if running {
        RequestFrame();
      }
    }
  }

  /** Starting twice in a row requests a single frame; stopping a stopped loop changes nothing. */
  method StartStopIdempotent(now: int, later: int)
  {
    var loop := new GameLoop(DEFAULT_TICK_RATE);
    loop.Start(now);
    loop.Start(later);
    assert loop.scheduled == {0} && loop.lastTickTime == now;
    loop.Stop();
    loop.Stop();
    assert !loop.running && loop.scheduled == {} && loop.OneChain();
  }

  /**
   * An `update` that calls `stop`, followed by `start` before the frame that
   * gameLoop requested after it is delivered: two frames are then pending while
   * the loop runs, and delivering both requests two more, so two chains run.
   */
  method StopInUpdateThenStart() returns (pending: nat, pendingAfterBoth: nat)
    ensures pending == 2 && pendingAfterBoth == 2
  {
    var loop := new GameLoop(DEFAULT_TICK_RATE);
    loop.Start(0);
    loop.Frame(0, DEFAULT_TICK_RATE, true, false);
    assert !loop.running && loop.scheduled == {1};
    loop.Start(DEFAULT_TICK_RATE + 1);
    assert loop.running && loop.scheduled == {1, 2};
    pending := |loop.scheduled|;
    loop.Frame(1, DEFAULT_TICK_RATE + 16, false, false);
    loop.Frame(2, DEFAULT_TICK_RATE + 16, false, false);
    assert loop.running && loop.scheduled == {3, 4} && loop.draws == 3;
    pendingAfterBoth := |loop.scheduled|;
  }

  /** The same calls with `FrameWhileRunning` leave a single chain. */
  method StopInUpdateThenStartWhileRunning() returns (pending: nat)
    ensures pending == 1
  {
    var loop := new GameLoop(DEFAULT_TICK_RATE);
    loop.Start(0);
    loop.FrameWhileRunning(0, DEFAULT_TICK_RATE, true, false);
    assert !loop.running && loop.scheduled == {};
    loop.Start(DEFAULT_TICK_RATE + 1);
    assert loop.OneChain() && loop.scheduled == {1};
    pending := |loop.scheduled|;
  }
}
