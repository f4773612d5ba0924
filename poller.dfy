/**
 * `renderDisplays` and the polling loop of `initDisplays`. Rendering itself
 * (fetching an icon or reading a file, converting, sending) is outside this
 * module: a render is recorded as a request naming what would be drawn on
 * which display. The loop is a state machine over three events: a tick of
 * the 500 ms ticker carrying the foreground application's name, a
 * configuration reload carrying the mapping the reloaded configuration
 * holds, and an interrupt or termination signal.
 */
module Poller {
  import opened Common
  import opened DisplayMapping

  /** A call the source makes to draw one display. */
  datatype Render =
    | ProcessIcon(processName: string, displayIdx: int)  // sendProcessIconToDisplayByProcessName
    | PngFile(path: string, displayIdx: int)              // sendPNGToDisplay

  datatype Event = Tick(activeWindow: string) | ConfigReloaded(mapping: seq<DisplayMap>) | Interrupt

  /** What the loop works from: the last foreground name it saw and the current display mapping. */
  datatype LoopState = LoopState(lastActive: string, mapping: seq<DisplayMap>)

  /** The body of `renderDisplays` for one record: an icon for ".exe", a file for ".png" (both if both). */
  function Dispatch(out: seq<Render>, d: DisplayMap): seq<Render>
  {
    var withExe := if Contains(d.target, ".exe") then out + [ProcessIcon(d.target, d.displayIdx)] else out;
    if Contains(d.target, ".png") then withExe + [PngFile(d.target, d.displayIdx)] else withExe
  }

  /** Everything `renderDisplays` requests for a mapping, in mapping order. */
  function RenderAll(mapping: seq<DisplayMap>): seq<Render>
  {
    if mapping == [] then [] else Dispatch(RenderAll(mapping[..|mapping| - 1]), Last(mapping))
  }

  /** The body of the tick branch for one record: current-app records get the new name. */
  function Follow(out: seq<Render>, d: DisplayMap, name: string): seq<Render>
  {
    if d.currentApp then out + [ProcessIcon(name, d.displayIdx)] else out
  }

  /** What a tick with a new foreground name requests. */
  function FollowAll(mapping: seq<DisplayMap>, name: string): seq<Render>
  {
    if mapping == [] then [] else Follow(FollowAll(mapping[..|mapping| - 1], name), Last(mapping), name)
  }

  /** The display indexes of the current-app records, in mapping order. */
  function CurrentIndexes(mapping: seq<DisplayMap>): seq<int>
  {
    if mapping == [] then []
    else CurrentIndexes(mapping[..|mapping| - 1])
         + (if Last(mapping).currentApp then [Last(mapping).displayIdx] else [])
  }

  /** One turn of the `select`: the new state and the renders requested. */
  function Step(s: LoopState, ev: Event): (LoopState, seq<Render>)
  {
    match ev
    case Tick(name) =>
      if name != s.lastActive then (s.(lastActive := name), FollowAll(s.mapping, name)) else (s, [])
    case ConfigReloaded(m) => (s.(mapping := m), RenderAll(m))
    case Interrupt => (s, [])
  }

  /** The loop over a sequence of events; it returns at the first interrupt. */
  function Run(s: LoopState, events: seq<Event>): (LoopState, seq<Render>)
    decreases |events|
  {
    if events == [] || events[0].Interrupt? then (s, [])
    else
      var (s1, r1) := Step(s, events[0]);
      var (s2, r2) := Run(s1, events[1..]);
      (s2, r1 + r2)
  }

  predicate NoInterrupt(events: seq<Event>)
  {
    forall i :: 0 <= i < |events| ==> !events[i].Interrupt?
  }

  /** The number of ticks in `names` whose name differs from the one seen before it. */
  function Changes(last: string, names: seq<string>): nat
    decreases |names|
  {
    if names == [] then 0 else (if names[0] != last then 1 else 0) + Changes(names[0], names[1..])
  }

  function Ticks(names: seq<string>): (events: seq<Event>)
    ensures |events| == |names|
    ensures forall i :: 0 <= i < |names| ==> events[i] == Tick(names[i])
  {
    seq(|names|, i requires 0 <= i < |names| => Tick(names[i]))
  }

  lemma DispatchAppends(out: seq<Render>, d: DisplayMap)
    ensures Dispatch(out, d) == out + Dispatch([], d)
  {
    if Contains(d.target, ".exe") && Contains(d.target, ".png") {
      var a, b := ProcessIcon(d.target, d.displayIdx), PngFile(d.target, d.displayIdx);
      assert out + [a] + [b] == out + ([a] + [b]);
    }
  }

  /**
   * A reload requests an icon for exactly the records whose target contains
   * ".exe" and a file for exactly those whose target contains ".png".
   */
  lemma {:induction false} RenderAllMembers(mapping: seq<DisplayMap>, r: Render)
    ensures r in RenderAll(mapping) <==>
            exists d :: d in mapping && d.displayIdx == r.displayIdx &&
              if r.ProcessIcon? then d.target == r.processName && Contains(d.target, ".exe")
              else d.target == r.path && Contains(d.target, ".png")
  {
    if mapping != [] {
      var init := mapping[..|mapping| - 1];
      RenderAllMembers(init, r);
      DispatchAppends(RenderAll(init), Last(mapping));
      assert mapping == init + [Last(mapping)];
    }
  }

  /** A reload never requests anything for a "deej.current" record. */
  lemma ReloadSkipsCurrentApp(mapping: seq<DisplayMap>, r: Render)
    requires r in RenderAll(mapping)
    ensures (if r.ProcessIcon? then r.processName else r.path) != CurrentApp
  {
    RenderAllMembers(mapping, r);
    CurrentAppIsNoFile();
  }

  /** A new name requests one icon per current-app record, in mapping order, all for that name. */
  lemma {:induction false} FollowAllIndexes(mapping: seq<DisplayMap>, name: string)
    ensures |FollowAll(mapping, name)| == |CurrentIndexes(mapping)|
    ensures forall i :: 0 <= i < |CurrentIndexes(mapping)| ==>
              FollowAll(mapping, name)[i] == ProcessIcon(name, CurrentIndexes(mapping)[i])
  {
    if mapping != [] {
      FollowAllIndexes(mapping[..|mapping| - 1], name);
    }
  }

  /** A tick repeating the last name does nothing at all. */
  lemma RepeatedTickIsSilent(s: LoopState)
    ensures Step(s, Tick(s.lastActive)) == (s, [])
  {
  }

  /** A tick with a new name records it and follows it on every current-app display. */
  lemma NewTickFollows(s: LoopState, name: string)
    requires name != s.lastActive
    ensures Step(s, Tick(name)).0 == LoopState(name, s.mapping)
    ensures |Step(s, Tick(name)).1| == |CurrentIndexes(s.mapping)|
    ensures forall i :: 0 <= i < |CurrentIndexes(s.mapping)| ==>
              Step(s, Tick(name)).1[i] == ProcessIcon(name, CurrentIndexes(s.mapping)[i])
  {
    FollowAllIndexes(s.mapping, name);
  }

  /** Nothing after an interrupt is processed. */
  lemma {:induction false} InterruptStops(s: LoopState, before: seq<Event>, after: seq<Event>)
    requires NoInterrupt(before)
    ensures Run(s, before + [Interrupt] + after) == Run(s, before)
    decreases |before|
  {
    if before != [] {
      var (s1, _) := Step(s, before[0]);
      assert (before + [Interrupt] + after)[1..] == before[1..] + [Interrupt] + after;
      InterruptStops(s1, before[1..], after);
    } else {
      assert (before + [Interrupt] + after)[0] == Interrupt;
    }
  }

  /** Running one more event continues from where the prefix left off. */
  lemma {:induction false} RunSnoc(s: LoopState, before: seq<Event>, ev: Event)
    requires NoInterrupt(before) && !ev.Interrupt?
    ensures var (s1, r1) := Run(s, before);
            Run(s, before + [ev]) == (Step(s1, ev).0, r1 + Step(s1, ev).1)
    decreases |before|
  {
    if before == [] {
      assert before + [ev] == [ev];
      assert [ev][1..] == [];
      assert Run(Step(s, ev).0, []) == (Step(s, ev).0, []);
      assert Run(s, [ev]) == (Step(s, ev).0, Step(s, ev).1 + []);
      assert Step(s, ev).1 + [] == [] + Step(s, ev).1;
    } else {
      var (t, rt) := Step(s, before[0]);
      assert (before + [ev])[0] == before[0];
      assert (before + [ev])[1..] == before[1..] + [ev];
      RunSnoc(t, before[1..], ev);
      var (u, ru) := Run(t, before[1..]);
      assert Run(s, before) == (u, rt + ru);
      assert Run(s, before + [ev]) == (Step(u, ev).0, rt + (ru + Step(u, ev).1));
      assert rt + (ru + Step(u, ev).1) == (rt + ru) + Step(u, ev).1;
    }
  }

  /** Over ticks alone, every change of name requests one icon per current-app record, and no repeat does. */
  lemma {:induction false} TickRenderCount(s: LoopState, names: seq<string>)
    ensures |Run(s, Ticks(names)).1| == Changes(s.lastActive, names) * |CurrentIndexes(s.mapping)|
    ensures Run(s, Ticks(names)).0.mapping == s.mapping
    decreases |names|
  {
    if names != [] {
      var evs := Ticks(names);
      var k := |CurrentIndexes(s.mapping)|;
      var d := if names[0] != s.lastActive then 1 else 0;
      var (s1, r1) := Step(s, Tick(names[0]));
      assert evs[0] == Tick(names[0]) && evs[1..] == Ticks(names[1..]);
      TickRenderCount(s1, names[1..]);
      var (s2, r2) := Run(s1, Ticks(names[1..]));
      assert Run(s, evs) == (s2, r1 + r2);
      if d == 1 {
        FollowAllIndexes(s.mapping, names[0]);
      }
      assert |r1| == d * k;
      assert s1 == LoopState(names[0], s.mapping);
      assert |r2| == Changes(names[0], names[1..]) * k;
      assert Changes(s.lastActive, names) == d + Changes(names[0], names[1..]);
      assert (d + Changes(names[0], names[1..])) * k == d * k + Changes(names[0], names[1..]) * k;
    }
  }

  /** The foreground sequence a, a, b, b seen after a: one icon, for b, on the tracking display. */
  lemma ChangeDetectionExample()
    ensures var m := [DisplayMap(1, CurrentApp, true)];
            Run(LoopState("a.exe", m), Ticks(["a.exe", "a.exe", "b.exe", "b.exe"])).1 == [ProcessIcon("b.exe", 1)]
  {
    var m := [DisplayMap(1, CurrentApp, true)];
    assert FollowAll(m, "b.exe") == [ProcessIcon("b.exe", 1)] by {
      assert m[..0] == [];
    }
  }

  /**
   * The display side of the loop: the package-level last-seen name, the
   * mapping read from the configuration, and the renders requested so far.
   */
  class DisplayLoop {
    var lastActive: string
    var mapping: seq<DisplayMap>
    var requests: seq<Render>

    /** `lastActiceProcess` starts out empty. */
    constructor (mapping: seq<DisplayMap>)
      ensures lastActive == "" && this.mapping == mapping && requests == []
    {
      lastActive := "";
      this.mapping := mapping;
      requests := [];
    }

    function State(): LoopState
      reads this
    {
      LoopState(lastActive, mapping)
    }

    /** `renderDisplays`. */
    method RenderDisplays()
      modifies this`requests
      ensures requests == old(requests) + RenderAll(mapping)
    {
      var i := 0;
      while i < |mapping|
        invariant 0 <= i <= |mapping|
        invariant requests == old(requests) + RenderAll(mapping[..i])
      {
        var d := mapping[i];
        ghost var before := requests;
        if Contains(d.target, ".exe") {
          requests := requests + [ProcessIcon(d.target, d.displayIdx)];
        }
        if Contains(d.target, ".png") {
          requests := requests + [PngFile(d.target, d.displayIdx)];
        }
        assert requests == Dispatch(before, d);
        DispatchAppends(before, d);
        DispatchAppends(RenderAll(mapping[..i]), d);
        assert mapping[..i + 1][..i] == mapping[..i];
        i := i + 1;
      }
      assert mapping[..i] == mapping;
    }

    /** The tick branch once the name has changed: every current-app display follows `name`. */
    method FollowActive(name: string)
      modifies this`requests
      ensures requests == old(requests) + FollowAll(mapping, name)
    {
      var i := 0;
      while i < |mapping|
        invariant 0 <= i <= |mapping|
        invariant requests == old(requests) + FollowAll(mapping[..i], name)
      {
        var d := mapping[i];
        if d.currentApp {
          requests := requests + [ProcessIcon(name, d.displayIdx)];
        }
        assert mapping[..i + 1][..i] == mapping[..i];
        i := i + 1;
      }
      assert mapping[..i] == mapping;
    }

    /** One turn of the `select` for an event other than the interrupt. */
    method HandleEvent(ev: Event)
      requires !ev.Interrupt?
      modifies this
      ensures State() == Step(old(State()), ev).0
      ensures requests == old(requests) + Step(old(State()), ev).1
    {
      match ev
      case Tick(activeWindow) =>
        if activeWindow != lastActive {
          lastActive := activeWindow;
          FollowActive(activeWindow);
        }
      case ConfigReloaded(m) =>
        mapping := m;
        RenderDisplays();
    }

    /** The goroutine's `for { select { ... } }`, returning on the interrupt. */
    method Poll(events: seq<Event>)
      modifies this
      ensures State() == Run(old(State()), events).0
      ensures requests == old(requests) + Run(old(State()), events).1
    {
      var i := 0;
      while i < |events|
        invariant 0 <= i <= |events|
        invariant NoInterrupt(events[..i])
        invariant State() == Run(old(State()), events[..i]).0
        invariant requests == old(requests) + Run(old(State()), events[..i]).1
      {
        if events[i].Interrupt? {
          InterruptStops(old(State()), events[..i], events[i + 1..]);
          assert events[..i] + [Interrupt] + events[i + 1..] == events;
          return;
        }
        RunSnoc(old(State()), events[..i], events[i]);
        HandleEvent(events[i]);
        assert events[..i + 1] == events[..i] + [events[i]];
        i := i + 1;
      }
      assert events[..i] == events;
    }

    /** `initDisplays`: render every display once, then poll. */
    method InitDisplays(events: seq<Event>)
      modifies this
      ensures State() == Run(old(State()), events).0
      ensures requests == old(requests) + RenderAll(old(mapping)) + Run(old(State()), events).1
    {
      RenderDisplays();
      Poll(events);
    }
  }
}
