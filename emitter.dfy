/** The listener registry of src/eventEmitter.ts: a map from event type to
    an ordered list of listeners, changed in place by `on`, `off` and by
    the listeners that `emit` calls. */
module Emitter {
  import opened Types

  type Registry = map<EventType, seq<Listener>>

  /** What calling one listener does: the value it returns, and what it
      writes itself to `event.aborted` and to `event.cancelled` (`None`
      when it leaves that flag alone). */
  datatype Reaction = Reaction(ret: Value, writesAborted: Option<bool>, writesCancelled: Option<bool>)

  /** The first argument of `emit`: a type name or an `Event`. */
  datatype EmitArg = ByName(t: EventType) | ByEvent(e: Event)

  /** How often `t` occurs in `types`. */
  function Count(types: seq<EventType>, t: EventType): (n: nat)
    ensures n <= |types|
    ensures n == 0 <==> t !in types
  {
    if types == [] then 0
    else Count(types[..|types| - 1], t) + (if types[|types| - 1] == t then 1 else 0)
  }

  lemma CountNext(types: seq<EventType>, i: nat, t: EventType)
    requires i < |types|
    ensures Count(types[..i + 1], t) == Count(types[..i], t) + (if types[i] == t then 1 else 0)
  {
    assert types[..i + 1][..i] == types[..i];
  }

  /** One step of `on`: appending `l` to the list of `types[i]` extends
      the count of copies from the first `i` types to the first `i + 1`. */
  lemma OnStep(base: Registry, before: Registry, after: Registry,
               types: seq<EventType>, i: nat, l: Listener)
    requires i < |types| && types[i] in before
    requires forall u :: u in before ==> u in base && before[u] == base[u] + Repeat(l, Count(types[..i], u))
    requires after == before[types[i] := before[types[i]] + [l]]
    ensures forall u :: u in after ==> after[u] == base[u] + Repeat(l, Count(types[..i + 1], u))
  {
    forall u | u in after
      ensures after[u] == base[u] + Repeat(l, Count(types[..i + 1], u))
    {
      CountNext(types, i, u);
    }
  }

  /** `k` copies of `l`. */
  function Repeat(l: Listener, k: nat): (r: seq<Listener>)
    ensures |r| == k && forall i :: 0 <= i < k ==> r[i] == l
  {
    if k == 0 then [] else Repeat(l, k - 1) + [l]
  }

  /** `s.indexOf(l)`: the first position holding `l`, or -1. */
  function IndexOf(s: seq<Listener>, l: Listener): (i: int)
    ensures -1 <= i < |s|
    ensures i == -1 <==> l !in s
    ensures 0 <= i ==> s[i] == l && l !in s[..i]
  {
    if s == [] then -1
    else if s[0] == l then 0
    else
      var j := IndexOf(s[1..], l);
      if j == -1 then -1
      else
        assert s[..j + 1] == [s[0]] + s[1..][..j];
        j + 1
  }

  /** The list after `off(type, l)`: without its first `l`, if any. */
  function RemoveFirst(s: seq<Listener>, l: Listener): seq<Listener>
  {
    if s == [] then []
    else if s[0] == l then s[1..]
    else [s[0]] + RemoveFirst(s[1..], l)
  }

  /** `splice(indexOf(l), 1)` when `indexOf` finds `l` is `RemoveFirst`. */
  lemma {:induction false} SpliceAtIndexOf(s: seq<Listener>, l: Listener)
    ensures var i := IndexOf(s, l);
      RemoveFirst(s, l) == if i > -1 then s[..i] + s[i + 1..] else s
  {
    if s != [] && s[0] != l {
      SpliceAtIndexOf(s[1..], l);
      var j := IndexOf(s[1..], l);
      if j > -1 {
        assert s[..j + 1] == [s[0]] + s[1..][..j];
        assert s[j + 2..] == s[1..][j + 1..];
      }
    }
  }

  /** `off` drops only the first occurrence of `l`, leaves a list without `l`
      alone, and keeps the others in their order. */
  lemma {:induction false} RemoveFirstSpec(s: seq<Listener>, l: Listener)
    ensures l !in s ==> RemoveFirst(s, l) == s
    ensures l in s ==> exists i :: 0 <= i < |s| && s[i] == l && l !in s[..i]
                                   && RemoveFirst(s, l) == s[..i] + s[i + 1..]
  {
    SpliceAtIndexOf(s, l);
    var i := IndexOf(s, l);
    if i > -1 {
      assert s[i] == l && l !in s[..i];
    }
  }

  /** `off` takes exactly one `l` out of the list when there is one. */
  lemma {:induction false} RemoveFirstMultiset(s: seq<Listener>, l: Listener)
    ensures multiset(RemoveFirst(s, l)) == multiset(s) - multiset{l}
  {
    if s != [] {
      assert s == [s[0]] + s[1..];
      if s[0] != l {
        RemoveFirstMultiset(s[1..], l);
      }
    }
  }

  /** `off` with the same listener named `k` times for one type. */
  function RemoveTimes(s: seq<Listener>, l: Listener, k: nat): seq<Listener>
  {
    if k == 0 then s else RemoveFirst(RemoveTimes(s, l, k - 1), l)
  }

  /** The registry after `off(types, l)`, one named type at a time. */
  function OffEach(events: Registry, types: seq<EventType>, l: Listener): (r: Registry)
    requires forall i :: 0 <= i < |types| ==> types[i] in events
    ensures r.Keys == events.Keys
  {
    if types == [] then events
    else
      var r := OffEach(events, types[..|types| - 1], l);
      var t := types[|types| - 1];
      r[t := RemoveFirst(r[t], l)]
  }

  /** One more step of `off`: removing the first `l` from the next named list. */
  lemma OffStep(base: Registry, types: seq<EventType>, i: nat, l: Listener,
                before: Registry, after: Registry)
    requires i < |types|
    requires forall j :: 0 <= j < |types| ==> types[j] in base
    requires before == OffEach(base, types[..i], l)
    requires after == before[types[i] := RemoveFirst(before[types[i]], l)]
    ensures after == OffEach(base, types[..i + 1], l)
  {
    assert types[..i + 1][..i] == types[..i];
  }

  /** Each list loses the first occurrence of `l` once per mention of its
      type, and lists of types not mentioned are untouched. */
  lemma {:induction false} OffEachAt(events: Registry, types: seq<EventType>, l: Listener, t: EventType)
    requires forall i :: 0 <= i < |types| ==> types[i] in events
    requires t in events
    ensures OffEach(events, types, l)[t] == RemoveTimes(events[t], l, Count(types, t))
  {
    if types != [] {
      var init := types[..|types| - 1];
      OffEachAt(events, init, l, t);
    }
  }

  /** The listeners `emit` calls: a copy of the stored list when the
      event's type is a key of the registry, else none. */
  function Snapshot(events: Registry, e: Event): seq<Listener>
  {
    if e.kind.Some? && e.kind.value in events then events[e.kind.value] else []
  }

  /** A flag after a listener that may have written it. */
  function Written(w: Option<bool>, b: bool): bool
  {
    if w.Some? then w.value else b
  }

  /** The event after one listener call: the flags it wrote itself, then
      `result` is what it returned, and `cancelled` is set if that is
      exactly `false`. */
  function Step(e: Event, r: Reaction): Event
  {
    e.(aborted := Written(r.writesAborted, e.aborted),
       result := r.ret,
       cancelled := Written(r.writesCancelled, e.cancelled) || r.ret == Bool(false))
  }

  /** A listener call decides `cancelled`: it writes the flag or returns
      exactly `false`. */
  predicate Settles(r: Reaction)
  {
    r.writesCancelled.Some? || r.ret == Bool(false)
  }

  /** The value such a call leaves in `cancelled`. */
  predicate Cancels(r: Reaction)
  {
    r.ret == Bool(false) || r.writesCancelled == Some(true)
  }

  /** No call from position `k` on decides `cancelled`. */
  predicate Unsettled(rs: seq<Reaction>, k: nat)
  {
    forall j :: k <= j < |rs| ==> !Settles(rs[j])
  }

  lemma UnsettledShift(rs: seq<Reaction>, k: nat)
    requires 1 <= k <= |rs|
    ensures Unsettled(rs, k) <==> Unsettled(rs[1..], k - 1)
  {
    assert forall j :: 1 <= j < |rs| ==> rs[j] == rs[1..][j - 1];
  }

  /** The `forEach` over the snapshot, given how each call, in order,
      reacts: every listener is called; the callback's return value is
      ignored, so `aborted` stops nothing. */
  function Dispatch(rs: seq<Reaction>, e: Event): Event
  {
    if rs == [] then e else Dispatch(rs[1..], Step(e, rs[0]))
  }

  /** How each call of the snapshot reacts, keyed by its position, so one
      listener registered twice or one that looks at the event may react
      differently on each call. */
  function Reactions(ls: seq<Listener>, react: (nat, Listener) -> Reaction): (rs: seq<Reaction>)
    ensures |rs| == |ls| && forall i :: 0 <= i < |ls| ==> rs[i] == react(i, ls[i])
  {
    seq(|ls|, i requires 0 <= i < |ls| => react(i, ls[i]))
  }

  /** The registry after the listeners' own calls to `on`/`off`, the call
      at position `k` first. */
  function Effects(ls: seq<Listener>, k: nat, events: Registry,
                   effect: (nat, Listener, Registry) -> Registry): Registry
  {
    if ls == [] then events else Effects(ls[1..], k + 1, effect(k, ls[0], events), effect)
  }

  /** The event `emit` dispatches: a fresh one for a type name, the given
      one otherwise; both targets set to the emitter and `result` deleted. */
  function Prepare(arg: EmitArg, emitter: object): (e: Event)
    ensures e.currentTarget == emitter && e.target == emitter && e.result == Undefined
    ensures arg.ByEvent? ==>
      e.kind == arg.e.kind && e.aborted == arg.e.aborted && e.cancelled == arg.e.cancelled
      && e.timeStamp == arg.e.timeStamp
    ensures arg.ByName? ==> e.kind == Some(arg.t) && !e.cancelled && !e.aborted
  {
    var e := match arg
      case ByName(t) => NewEvent(t)
      case ByEvent(e) => e;
    e.(currentTarget := emitter, target := emitter, result := Undefined)
  }

  /** After dispatch, `cancelled` holds iff the last call that decided it
      cancelled, or no call decided it and it already held. */
  lemma {:induction false} DispatchCancelled(rs: seq<Reaction>, e: Event)
    ensures Dispatch(rs, e).cancelled <==>
      (exists i :: 0 <= i < |rs| && Cancels(rs[i]) && Unsettled(rs, i + 1))
      || (e.cancelled && Unsettled(rs, 0))
  {
    if rs != [] {
      var r0 := rs[0];
      var rest := rs[1..];
      DispatchCancelled(rest, Step(e, r0));
      UnsettledShift(rs, 1);
      var later := exists i :: 0 <= i < |rest| && Cancels(rest[i]) && Unsettled(rest, i + 1);
      var any := exists i :: 0 <= i < |rs| && Cancels(rs[i]) && Unsettled(rs, i + 1);
      assert any <==> (Cancels(r0) && Unsettled(rs, 1)) || later by {
        if later {
          var i :| 0 <= i < |rest| && Cancels(rest[i]) && Unsettled(rest, i + 1);
          assert rest[i] == rs[i + 1];
          UnsettledShift(rs, i + 2);
        }
        if any {
          var i :| 0 <= i < |rs| && Cancels(rs[i]) && Unsettled(rs, i + 1);
          if i > 0 {
            assert rs[i] == rest[i - 1];
            UnsettledShift(rs, i + 1);
          }
        }
      }
    }
  }

  /** When no call writes `cancelled` itself, it holds after dispatch iff
      it already did or some call returned exactly `false`. */
  lemma {:induction false} DispatchCancelledByReturn(rs: seq<Reaction>, e: Event)
    requires forall i :: 0 <= i < |rs| ==> rs[i].writesCancelled.None?
    ensures Dispatch(rs, e).cancelled <==>
      e.cancelled || exists i :: 0 <= i < |rs| && rs[i].ret == Bool(false)
  {
    if rs != [] {
      assert forall i :: 1 <= i < |rs| ==> rs[i] == rs[1..][i - 1];
      DispatchCancelledByReturn(rs[1..], Step(e, rs[0]));
      if exists i :: 0 <= i < |rs| && rs[i].ret == Bool(false) {
        var i :| 0 <= i < |rs| && rs[i].ret == Bool(false);
        if i > 0 {
          assert rs[1..][i - 1].ret == Bool(false);
        }
      }
    }
  }

  /** `emit` returns what the last call returned, or undefined when no
      listener was called. */
  lemma {:induction false} DispatchResult(rs: seq<Reaction>, e: Event)
    ensures rs == [] ==> Dispatch(rs, e).result == e.result
    ensures rs != [] ==> Dispatch(rs, e).result == rs[|rs| - 1].ret
  {
    if |rs| > 1 {
      DispatchResult(rs[1..], Step(e, rs[0]));
    }
  }

  /** Whatever `event.aborted` holds before or during dispatch, every
      listener still runs with the same effect: only that flag differs. */
  lemma {:induction false} DispatchIgnoresAborted(rs: seq<Reaction>, e: Event, b: bool)
    ensures Dispatch(rs, e.(aborted := b)).(aborted := false) == Dispatch(rs, e).(aborted := false)
  {
    if rs != [] {
      var r := rs[0];
      assert Step(e.(aborted := b), r) == Step(e, r).(aborted := Written(r.writesAborted, b));
      DispatchIgnoresAborted(rs[1..], Step(e, r), Written(r.writesAborted, b));
    }
  }

  /** Dispatch leaves the type, the targets and the time stamp alone. */
  lemma {:induction false} DispatchKeeps(rs: seq<Reaction>, e: Event)
    ensures var d := Dispatch(rs, e);
      d.kind == e.kind && d.target == e.target && d.currentTarget == e.currentTarget
      && d.timeStamp == e.timeStamp
  {
    if rs != [] {
      DispatchKeeps(rs[1..], Step(e, rs[0]));
    }
  }

  class EventEmitter {
    var events: Registry

    constructor()
      ensures events == map[]
    {
      events := map[];
    }

    /** `listeners(type)`: the stored list, or `[]` for a type never
        registered. */
    function Listeners(t: EventType): (r: seq<Listener>)
      reads this
      ensures t in events ==> r == events[t]
      ensures t !in events ==> r == []
    {
      if t in events then events[t] else []
    }

    /** `on(types, l)`: appends `l` to each named type's list, once per
        mention. The list must exist already: `on` never creates one. */
    method On(types: seq<EventType>, l: Listener)
      requires forall i :: 0 <= i < |types| ==> types[i] in events
      modifies this
      ensures events.Keys == old(events).Keys
      ensures forall t :: t in events ==> events[t] == old(events)[t] + Repeat(l, Count(types, t))
    {
      var i := 0;
      while i < |types|
        invariant 0 <= i <= |types|
        invariant events.Keys == old(events).Keys
        invariant forall t :: t in events ==> events[t] == old(events)[t] + Repeat(l, Count(types[..i], t))
      {
        var t := types[i];
        ghost var before := events;
        events := events[t := events[t] + [l]];
        OnStep(old(events), before, events, types, i, l);
        i := i + 1;
      }
      assert types[..|types|] == types;
    }

    /** `off(types, l)`: removes the first occurrence of `l` from each named
        type's list, once per mention; each list must exist. */
    method OffListener(types: seq<EventType>, l: Listener)
      requires forall i :: 0 <= i < |types| ==> types[i] in events
      modifies this
      ensures events.Keys == old(events).Keys
      ensures forall t :: t in events ==> events[t] == RemoveTimes(old(events)[t], l, Count(types, t))
    {
      var i := 0;
      while i < |types|
        invariant 0 <= i <= |types|
        invariant events.Keys == old(events).Keys
        invariant events == OffEach(old(events), types[..i], l)
      {
        var t := types[i];
        var list := events[t];
        var index := IndexOf(list, l);
        if index > -1 {
          list := list[..index] + list[index + 1..];
        }
        assert list == RemoveFirst(events[t], l) by { SpliceAtIndexOf(events[t], l); }
        ghost var before := events;
        events := events[t := list];
        OffStep(old(events), types, i, l, before, events);
        i := i + 1;
      }
      assert types[..|types|] == types;
      forall t | t in events
        ensures events[t] == RemoveTimes(old(events)[t], l, Count(types, t))
      {
        OffEachAt(old(events), types, l, t);
      }
    }

    /** `off(types)` without a listener: each named type gets a new, empty
        list, whether it had one or not. */
    method OffAll(types: seq<EventType>)
      modifies this
      ensures events.Keys == old(events).Keys + set t | t in types
      ensures forall t :: t in events ==> events[t] == if t in types then [] else old(events)[t]
    {
      var i := 0;
      while i < |types|
        invariant 0 <= i <= |types|
        invariant events.Keys == old(events).Keys + set t | t in types[..i]
        invariant forall t :: t in events ==> events[t] == if t in types[..i] then [] else old(events)[t]
      {
        events := events[types[i] := []];
        assert types[..i + 1] == types[..i] + [types[i]];
        i := i + 1;
      }
      assert types[..|types|] == types;
    }

    /** `emit(arg)`: calls each listener of the snapshot taken at the start,
        in registration order. `react` gives how the call at each position
        of the snapshot treats the event and `effect` that call's own
        changes to the registry, which cannot alter the snapshot. */
    method Emit(arg: EmitArg, react: (nat, Listener) -> Reaction,
                effect: (nat, Listener, Registry) -> Registry)
      returns (result: Value, event: Event, ghost called: seq<Listener>)
      modifies this
      ensures called == Snapshot(old(events), Prepare(arg, this))
      ensures event == Dispatch(Reactions(called, react), Prepare(arg, this))
      ensures result == event.result
      ensures events == Effects(called, 0, old(events), effect)
    {
      event := Prepare(arg, this);
      var listeners := if event.kind.Some? && event.kind.value in events then events[event.kind.value] else [];
      ghost var rs := Reactions(listeners, react);
      called := [];
      var i := 0;
      while i < |listeners|
        invariant 0 <= i <= |listeners|
        invariant called == listeners[..i]
        invariant Dispatch(rs[i..], event) == Dispatch(rs, Prepare(arg, this))
        invariant Effects(listeners[i..], i, events, effect) == Effects(listeners, 0, old(events), effect)
      {
        var l := listeners[i];
        var r := react(i, l);
        events := effect(i, l, events);
        if r.writesAborted.Some? {
          event := event.(aborted := r.writesAborted.value);
        }
        if r.writesCancelled.Some? {
          event := event.(cancelled := r.writesCancelled.value);
        }
        event := event.(result := r.ret);
        if event.result == Bool(false) {
          event := event.(cancelled := true);
        }
        assert rs[i..][0] == r && rs[i..][1..] == rs[i + 1..];
        assert listeners[i..][1..] == listeners[i + 1..];
        called := called + [l];
        i := i + 1;
      }
      assert listeners[..|listeners|] == listeners;
      result := event.result;
    }
  }

  /** `emit` calls exactly the listeners `listeners(type)` reports. */
  lemma EmitCallsListeners(em: EventEmitter, t: EventType)
    ensures Snapshot(em.events, Prepare(ByName(t), em)) == em.Listeners(t)
  {
  }

  /** With the event constructor as written, an event created from a type
      name has no type, so `emit` calls none of that type's listeners. */
  lemma UntypedEventReachesNoListener(events: Registry, t: EventType, l: Listener)
    requires t in events && events[t] == [l]
    ensures Snapshot(events, EventAsWritten(t)) == []
    ensures Snapshot(events, NewEvent(t)) == [l]
  {
  }
}
