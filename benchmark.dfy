/** The run-state bookkeeping of the `Benchmark` class of src/benchmark.ts:
    the `abort`/`reset` pair and its `calledBy` guard, the start of `run`,
    `clone`, `enqueue`, `update`, and the part of `cycle` that counts
    cycles and adapts the per-cycle count. Each event a benchmark emits is
    appended to the ghost log `emitted`; what its listeners make of it
    (whether they cancel or abort it) is given as a parameter. */
module Bench {
  import opened Types
  import Statics
  import Util
  import Emitter

  /** `support`: which host features exist. */
  datatype Support = Support(browser: bool, decompilation: bool, timeout: bool)

  /** `stats` */
  datatype Stats = Stats(
    deviation: real, mean: real, moe: real, rme: real,
    sample: seq<int>, sem: real, variance: real)

  /** `times` */
  datatype Times = Times(cycle: real, elapsed: real, period: real, timeStamp: int)

  /** The value of one benchmark option. */
  datatype OptionValue = Flag(b: bool) | Number(x: real) | Text(s: string)

  type Options = map<string, OptionValue>

  /** What `run` goes on to do once `start` was emitted; the steps
      themselves belong to the scheduler and are not modelled. */
  datatype Continuation = Cancelled | CycleItself | Compute

  /** The listener `enqueue` registers on a clone: `update`. */
  const UpdateListener: Listener := 0

  function Max(a: nat, b: nat): nat
  {
    if a >= b then a else b
  }

  class Benchmark {
    var options: Options
    var name: string
    var id: string
    var aborted: bool
    var count: Extended<int>
    var initCount: int
    var cycles: nat
    var error: Option<Statics.ErrorValue>
    var hz: Extended<real>
    var running: bool
    var minTime: Option<real>
    var support: Support
    var stats: Stats
    var times: Times
    var calledBy: set<EventType>
    var timerId: Option<nat>
    var original: Benchmark?
    const emitter: Emitter.EventEmitter
    ghost var emitted: seq<EventType>

    /** `new Benchmark(name, options)`: the given name (`""` when absent),
        options and id, and the field initialisers of the class. The source
        never assigns `support`; here it is given. */
    constructor(name: string, options: Options, id: string, support: Support)
      ensures this.name == name && this.options == options && this.id == id && this.support == support
      ensures !aborted && !running && count == Finite(0) && initCount == 0 && cycles == 0
      ensures error == None && hz == Finite(0.0) && minTime == None && calledBy == {}
      ensures timerId == None && original == null
      ensures stats == Stats(0.0, 0.0, 0.0, 0.0, [], 0.0, 0.0) && times == Times(0.0, 0.0, 0.0, 0)
      ensures fresh(emitter) && emitter.events == map[] && emitted == []
    {
      this.name := name;
      this.options := options;
      this.id := id;
      this.support := support;
      aborted := false;
      running := false;
      count := Finite(0);
      initCount := 0;
      cycles := 0;
      error := None;
      hz := Finite(0.0);
      minTime := None;
      calledBy := {};
      timerId := None;
      original := null;
      stats := Stats(0.0, 0.0, 0.0, 0.0, [], 0.0, 0.0);
      times := Times(0.0, 0.0, 0.0, 0);
      emitter := new Emitter.EventEmitter();
      emitted := [];
    }

    /** The fields that neither the run state nor the count rule touch. */
    twostate predicate KeepsIdentity()
      reads this
    {
      && options == old(options) && name == old(name) && id == old(id)
      && minTime == old(minTime) && support == old(support) && stats == old(stats)
      && original == old(original)
    }

    /** The fields the count rule of `cycle` writes. */
    twostate predicate KeepsCounts()
      reads this
    {
      && count == old(count) && initCount == old(initCount) && cycles == old(cycles)
      && hz == old(hz) && times == old(times)
    }

    /** The run state, which `abort` changes. */
    twostate predicate KeepsRunState()
      reads this
    {
      && running == old(running) && aborted == old(aborted) && calledBy == old(calledBy)
      && timerId == old(timerId) && emitted == old(emitted)
    }

    /** The fields `abort` and `reset` never touch. */
    twostate predicate KeepsMeasurements()
      reads this
    {
      KeepsIdentity() && KeepsCounts() && error == old(error)
    }

    /** What `abort()` does to the run state, given whether a listener
        cancels its `abort` event: nothing when the benchmark is not running
        or the event is cancelled outside a `reset`; otherwise the `abort`
        flag of `calledBy` is cleared again, a pending timer is cleared and,
        outside a `reset`, the benchmark stops as aborted. */
    twostate predicate Aborts(cancelled: bool)
      reads this
    {
      if !old(running) || (cancelled && EventType.Reset !in old(calledBy)) then
        && running == old(running) && aborted == old(aborted)
        && calledBy == old(calledBy) && timerId == old(timerId)
      else
        && calledBy == old(calledBy) - {EventType.Abort}
        && timerId == (if support.timeout then None else old(timerId))
        && (if EventType.Reset in old(calledBy) then running == old(running) && aborted == old(aborted)
            else aborted && !running)
    }

    /** `abort()`. A running benchmark emits `abort`; unless a listener
        cancels it outside a `reset`, the nested `reset` is skipped through
        the `calledBy` guard, the pending timer is cleared and, outside a
        `reset`, the benchmark stops as aborted. */
    method Abort(cancelled: bool)
      modifies this
      decreases if EventType.Reset in calledBy then 1 else 3
      ensures KeepsMeasurements() && Aborts(cancelled)
      ensures emitted == old(emitted) + (if old(running) then [EventType.Abort] else [])
    {
      if running {
        emitted := emitted + [EventType.Abort];
        if !cancelled || EventType.Reset in calledBy {
          calledBy := calledBy + {EventType.Abort};
          Reset(cancelled);
          calledBy := calledBy - {EventType.Abort};
          if support.timeout && timerId.Some? {
            timerId := None;
          }
          if EventType.Reset !in calledBy {
            aborted := true;
            running := false;
          }
        }
      }
    }

    /** `reset()`. On a running benchmark not entered from `abort` it aborts
        under the `calledBy.reset` flag, which keeps the benchmark running
        and unaborted whatever the listeners do; otherwise it does nothing,
        since the rest of its body is not written yet. */
    method Reset(abortCancelled: bool)
      modifies this
      decreases if EventType.Abort in calledBy then 0 else 2
      ensures KeepsMeasurements()
      ensures running == old(running) && aborted == old(aborted)
      ensures old(running) && EventType.Abort !in old(calledBy) ==>
        && emitted == old(emitted) + [EventType.Abort]
        && calledBy == old(calledBy) - {EventType.Reset}
        && timerId == (if support.timeout then None else old(timerId))
      ensures !(old(running) && EventType.Abort !in old(calledBy)) ==>
        calledBy == old(calledBy) && timerId == old(timerId) && emitted == old(emitted)
    {
      if running && EventType.Abort !in calledBy {
        calledBy := calledBy + {EventType.Reset};
        Abort(abortCancelled);
        calledBy := calledBy - {EventType.Reset};
      }
    }

    /** The start of `run(options)`: the overrides are merged in, `running`
        is cleared so that `reset` does not abort, then set again, the
        count restarts from `initCount` and `start` is emitted. A
        cancelled `start` ends the call with the benchmark still marked
        running; otherwise a clone cycles itself and an original computes. */
    method Run(over: Option<Options>, now: int, startCancelled: bool) returns (next: Continuation)
      modifies this
      ensures options == Statics.Merge(old(options), over)
      ensures running && count == Finite(initCount) && initCount == old(initCount)
      ensures times == old(times).(timeStamp := now)
      ensures aborted == old(aborted) && calledBy == old(calledBy) && timerId == old(timerId)
      ensures cycles == old(cycles) && hz == old(hz) && error == old(error) && original == old(original)
      ensures name == old(name) && id == old(id) && minTime == old(minTime)
      ensures support == old(support) && stats == old(stats)
      ensures emitted == old(emitted) + [Start]
      ensures next == if startCancelled then Cancelled else if original != null then CycleItself else Compute
    {
      options := Statics.Merge(options, over);
      running := false;
      Reset(false);
      running := true;
      count := Finite(initCount);
      times := times.(timeStamp := now);
      emitted := emitted + [Start];
      if startCancelled {
        next := Cancelled;
      } else if original != null {
        next := CycleItself;
      } else {
        next := Compute;
      }
    }

    /** `clone(options)`: a new benchmark built from the merged options
        alone, so without this one's name, state or listeners. */
    method Clone(over: Option<Options>, newId: string) returns (c: Benchmark)
      ensures fresh(c) && fresh(c.emitter)
      ensures c.options == Statics.Merge(options, over) && c.id == newId && c.name == ""
      ensures c.support == support && c.original == null && c.emitter.events == map[]
      ensures !c.running && !c.aborted && c.cycles == 0 && c.count == Finite(0) && c.calledBy == {}
      ensures c.initCount == 0 && c.error == None && c.hz == Finite(0.0) && c.minTime == None && c.timerId == None
      ensures c.stats == Stats(0.0, 0.0, 0.0, 0.0, [], 0.0, 0.0) && c.times == Times(0.0, 0.0, 0.0, 0)
      ensures c.emitted == []
    {
      c := new Benchmark("", Statics.Merge(options, over), newId, support);
    }

    /** `enqueue(queue)`: pushes a clone whose events `abort`, `cycle`,
        `error` and `start` each have `update` as their only listener, and
        whose original is this benchmark. */
    method Enqueue(queue: seq<Benchmark>, newId: string) returns (q: seq<Benchmark>)
      ensures |q| == |queue| + 1 && q[..|queue|] == queue
      ensures fresh(q[|queue|]) && fresh(q[|queue|].emitter)
      ensures q[|queue|].original == this && q[|queue|].options == options
      ensures q[|queue|].emitter.events ==
        map[EventType.Abort := [UpdateListener], EventType.Cycle := [UpdateListener],
            Error := [UpdateListener], Start := [UpdateListener]]
      ensures !q[|queue|].running && !q[|queue|].aborted && q[|queue|].calledBy == {}
      ensures q[|queue|].initCount == 0 && q[|queue|].count == Finite(0) && q[|queue|].cycles == 0
      ensures q[|queue|].error == None && q[|queue|].minTime == None && q[|queue|].emitted == []
    {
      var c := Clone(None, newId);
      c.emitter.events := map[EventType.Abort := [UpdateListener], EventType.Cycle := [UpdateListener],
                              Error := [UpdateListener], Start := [UpdateListener]];
      c.original := this;
      q := queue + [c];
    }

    /** `update(event)`, run on a clone for an event of type `t`. While the
        clone runs, `start` restores its count, `error` copies its error to
        the original and `abort` aborts the original and makes it emit
        `cycle`. A stopped, aborted clone empties its own `abort` list and
        calls `abort`, which does nothing as it is not running. */
    method Update(t: EventType, abortCancelled: bool)
      requires original != this
      requires running && (t == Error || t == EventType.Abort) ==> original != null
      requires !running && aborted ==> EventType.Abort in emitter.events
      modifies this, original, emitter
      ensures KeepsSettings() && KeepsRunState()
      ensures cycles == old(cycles) && initCount == old(initCount) && hz == old(hz)
      ensures old(running) && t == Start ==> count == Finite(initCount)
      ensures !(old(running) && t == Start) ==> count == old(count)
      ensures original != null && !(old(running) && (t == Error || t == EventType.Abort)) ==>
        original.KeepsMeasurements() && original.KeepsRunState()
      ensures old(running) && t == Error ==>
        && original.error == error
        && original.KeepsIdentity() && original.KeepsCounts() && original.KeepsRunState()
      ensures old(running) && t == EventType.Abort ==>
        && original.KeepsMeasurements() && original.Aborts(abortCancelled)
        && original.emitted ==
             old(original.emitted) + (if old(original.running) then [EventType.Abort] else []) + [EventType.Cycle]
      ensures !old(running) && old(aborted) ==> emitter.events == old(emitter.events)[EventType.Abort := []]
      ensures !(!old(running) && old(aborted)) ==> emitter.events == old(emitter.events)
    {
      if running {
        if t == Start {
          count := Finite(initCount);
        } else {
          if t == Error {
            original.error := error;
          }
          if t == EventType.Abort {
            original.Abort(abortCancelled);
            original.emitted := original.emitted + [EventType.Cycle];
          }
        }
      } else if aborted {
        emitter.events := emitter.events[EventType.Abort := []];
        Abort(abortCancelled);
      }
    }

    /** The first part of `cycle` (src/benchmark.ts:507-523), run on a clone:
        a live cycle is counted on the clone and raises the original's count
        of cycles to it; a clone with an error emits `error` and, unless
        that is cancelled, aborts. */
    method BeginCycle(errorCancelled: bool, abortCancelled: bool)
      requires original != null && original != this
      modifies this, original
      ensures KeepsSettings() && count == old(count) && hz == old(hz) && initCount == old(initCount)
      ensures original.KeepsIdentity() && original.KeepsRunState() && original.error == old(original.error)
      ensures original.count == old(original.count) && original.initCount == old(original.initCount)
      ensures original.hz == old(original.hz) && original.times == old(original.times)
      ensures !old(running) ==>
        cycles == old(cycles) && original.cycles == old(original.cycles) && KeepsRunState()
      ensures old(running) ==> cycles == old(cycles) + 1 && original.cycles == Max(old(original.cycles), cycles)
      ensures old(running) && (old(error).None? || errorCancelled) ==>
        && running && aborted == old(aborted) && calledBy == old(calledBy) && timerId == old(timerId)
        && emitted == old(emitted) + (if old(error).Some? then [Error] else [])
      ensures old(running) && old(error).Some? && !errorCancelled ==>
        emitted == old(emitted) + [Error, EventType.Abort] && Aborts(abortCancelled)
    {
      if running {
        cycles := cycles + 1;
        if cycles > original.cycles {
          original.cycles := cycles;
        }
        if error.Some? {
          emitted := emitted + [Error];
          if !errorCancelled {
            Abort(abortCancelled);
          }
        }
      }
    }

    /** The fields `cycle` does not touch on the clone. */
    twostate predicate KeepsSettings()
      reads this
    {
      KeepsIdentity() && error == old(error) && times == old(times)
    }

    /** The count rule of `cycle` (src/benchmark.ts:525-542): the original
        records the cycle time and period, both record `hz` and the count
        as `initCount`, and the clone goes on running only while it is
        below `minTime` with a finite new count. */
    method AdaptCount(clocked: real)
      requires original != null && original != this
      requires running ==> count.Finite? && count.value >= 1
      requires clocked >= 0.0
      modifies this, original
      ensures KeepsSettings() && cycles == old(cycles) && aborted == old(aborted)
      ensures calledBy == old(calledBy) && timerId == old(timerId) && emitted == old(emitted)
      ensures original.KeepsIdentity() && original.KeepsRunState() && original.error == old(original.error)
      ensures original.count == old(original.count) && original.cycles == old(original.cycles)
      ensures !old(running) ==>
        running == old(running) && count == old(count) && hz == old(hz) && initCount == old(initCount)
        && original.times == old(original.times) && original.hz == old(original.hz)
        && original.initCount == old(original.initCount)
      ensures old(running) ==>
        && running == Statics.CountStep(old(count).value, clocked, minTime, cycles).running
        && count == Statics.CountStep(old(count).value, clocked, minTime, cycles).count
        && hz == Statics.CountStep(old(count).value, clocked, minTime, cycles).hz
        && original.hz == hz
        && initCount == old(count).value && original.initCount == initCount
        && original.times == old(original.times).(
             cycle := clocked,
             period := Statics.CountStep(old(count).value, clocked, minTime, cycles).period)
    {
      if running {
        var n := count.value;
        var period := clocked / (n as real);
        var newHz := if period == 0.0 then Infinity else Finite(1.0 / period);
        var next := count;
        var keepOn := minTime.Some? && clocked < minTime.value;
        if keepOn {
          var divisor := Util.Divisor(cycles);
          if clocked == 0.0 && divisor.Some? {
            next := if divisor.value == 0 then Infinity else Finite(4000000 / divisor.value);
          }
          // `count <= count` always holds, so the extrapolation always runs.
          if period == 0.0 || next.Infinity? {
            next := Infinity;
          } else {
            next := Finite(next.value + Statics.Ceil((minTime.value - clocked) / period));
          }
          keepOn := next != Infinity;
        }
        assert Statics.CountStep(n, clocked, minTime, cycles) == Statics.Adapted(period, newHz, next, keepOn);
        original.times := original.times.(cycle := clocked, period := period);
        hz := newHz;
        original.hz := newHz;
        initCount := n;
        original.initCount := n;
        count := next;
        running := keepOn;
      }
    }

    /** The end of `cycle` (src/benchmark.ts:545-549): `cycle` is emitted,
        and a listener that sets `aborted` on it makes the clone abort. */
    method EndCycle(cycleAborted: bool, abortCancelled: bool)
      modifies this
      ensures KeepsMeasurements()
      ensures !cycleAborted ==>
        running == old(running) && aborted == old(aborted) && calledBy == old(calledBy) && timerId == old(timerId)
      ensures cycleAborted ==> Aborts(abortCancelled)
      ensures emitted == old(emitted) + [EventType.Cycle] + (if cycleAborted && old(running) then [EventType.Abort] else [])
    {
      emitted := emitted + [EventType.Cycle];
      if cycleAborted {
        Abort(abortCancelled);
      }
    }

    /** `cycle(clone)` up to the point where it schedules the next cycle:
        the three parts above, in order. */
    method Cycle(clocked: real, errorCancelled: bool, errorAbortCancelled: bool,
                 cycleAborted: bool, cycleAbortCancelled: bool)
      requires original != null && original != this
      requires running ==> count.Finite? && count.value >= 1
      requires clocked >= 0.0
      modifies this, original
      ensures KeepsSettings()
      ensures original.KeepsIdentity() && original.KeepsRunState()
      ensures original.error == old(original.error) && original.count == old(original.count)
      ensures old(running) ==> cycles == old(cycles) + 1 && original.cycles == Max(old(original.cycles), cycles)
      ensures !old(running) ==>
        cycles == old(cycles) && count == old(count) && !running && emitted == old(emitted) + [EventType.Cycle]
      ensures old(running) && old(error).None? && !cycleAborted ==>
        && running == Statics.CountStep(old(count).value, clocked, minTime, cycles).running
        && count == Statics.CountStep(old(count).value, clocked, minTime, cycles).count
        && hz == Statics.CountStep(old(count).value, clocked, minTime, cycles).hz
        && original.hz == hz && original.initCount == old(count).value
        && emitted == old(emitted) + [EventType.Cycle]
    {
      BeginCycle(errorCancelled, errorAbortCancelled);
      AdaptCount(clocked);
      EndCycle(cycleAborted, cycleAbortCancelled);
    }
  }

  /** A clone from `enqueue` that is then run, with `start` not cancelled,
      goes on to cycle itself from a count of 0: `initCount` keeps its
      field default, since nothing reads the option of that name. */
  method EnqueuedCloneStartsAtZero(b: Benchmark, newId: string, now: int)
    returns (c: Benchmark, next: Continuation)
    ensures fresh(c) && c.original == b
    ensures c.running && c.count == Finite(0) && c.initCount == 0 && next == CycleItself
  {
    var q := b.Enqueue([], newId);
    c := q[0];
    next := c.Run(None, now, false);
  }

  /** `reset()` on a running benchmark, entered from neither `abort` nor
      another `reset`, emits exactly one `abort`, leaves `running` and
      `aborted` as they were and clears both `calledBy` flags, whatever the
      listeners do with that `abort`. */
  method ResetRunning(b: Benchmark, abortCancelled: bool)
    requires b.running && b.calledBy == {}
    modifies b
    ensures b.running && b.aborted == old(b.aborted)
    ensures b.calledBy == {} && b.emitted == old(b.emitted) + [EventType.Abort]
  {
    b.Reset(abortCancelled);
  }
}
