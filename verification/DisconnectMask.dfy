/** The render-side mask that hides short reconnects, over arbitrary traces of observed views. */
module DisconnectMask {
  import opened Options

  const VISIBILITY_MS := 15000

  datatype Substate = NoSubstate | Reconnecting | OtherSubstate(name: string)

  /** `substate` is absent or present; an absent one is held as `none`. */
  datatype View = View(phase: string, substate: Option<Substate>)

  datatype Mask = Mask(since: int, heldPhase: string, heldSubstate: Substate)

  /** One observation: the view, null when there is none, and the time in milliseconds. */
  datatype Observation = Observation(view: Option<View>, now: int)

  predicate IsReconnecting(v: Option<View>) {
    v.Some? && v.value.substate == Some(Reconnecting)
  }

  function HeldSubstate(v: View): Substate {
    if v.substate.Some? then v.substate.value else NoSubstate
  }

  function NextDisconnectMask(mask: Option<Mask>, previous: Option<View>, current: Option<View>,
                              now: int): Option<Mask> {
    if !IsReconnecting(current) then None
    else if mask.Some? then mask
    else if previous.None? || IsReconnecting(previous) then None
    else Some(Mask(now, previous.value.phase, HeldSubstate(previous.value)))
  }

  predicate IsActive(mask: Option<Mask>, now: int) {
    mask.Some? && now - mask.value.since < VISIBILITY_MS
  }

  function ApplyDisconnectMask(view: View, mask: Option<Mask>, now: int): View {
    if IsActive(mask, now) then View(mask.value.heldPhase, Some(mask.value.heldSubstate)) else view
  }

  // ---- Traces

  function LastView(trace: seq<Observation>): Option<View> {
    if trace == [] then None else trace[|trace| - 1].view
  }

  /** The mask after a trace. */
  function MaskAfter(trace: seq<Observation>): Option<Mask> {
    if trace == [] then None
    else
      var before, last := trace[..|trace| - 1], trace[|trace| - 1];
      NextDisconnectMask(MaskAfter(before), LastView(before), last.view, last.now)
  }

  /** There is a view, and it is reconnecting. */
  predicate Reconnects(o: Observation) {
    o.view.Some? && o.view.value.substate == Some(Reconnecting)
  }

  /** Every observation from start on, and the last one among them, was reconnecting. */
  ghost predicate StreakFrom(trace: seq<Observation>, start: nat) {
    start < |trace| && forall i :: start <= i < |trace| ==> Reconnects(trace[i])
  }

  /** The current reconnecting streak began at start, right after a view that was seen and was not
      reconnecting. */
  ghost predicate WatchedStart(trace: seq<Observation>, start: nat) {
    StreakFrom(trace, start) && start > 0 && trace[start - 1].view.Some? && !Reconnects(trace[start - 1])
  }

  function MaskFor(trace: seq<Observation>, start: nat): Mask
    requires 0 < start < |trace| && trace[start - 1].view.Some?
  {
    var held := trace[start - 1].view.value;
    Mask(trace[start].now, held.phase, if held.substate == None then NoSubstate else held.substate.value)
  }

  lemma StartUnique(trace: seq<Observation>, start: nat, start': nat)
    requires WatchedStart(trace, start) && WatchedStart(trace, start')
    ensures start == start'
  {
  }

  /** A mask exists exactly when the current streak was watched from its start, and then it holds the
      view before the streak and the time the streak began. */
  lemma {:induction false} MaskIffWatchedStart(trace: seq<Observation>)
    ensures MaskAfter(trace).Some? <==> exists start: nat :: WatchedStart(trace, start)
    ensures forall start: nat :: WatchedStart(trace, start) ==> MaskAfter(trace) == Some(MaskFor(trace, start))
  {
    if trace != [] {
      var n := |trace| - 1;
      var before, last := trace[..n], trace[n];
      MaskIffWatchedStart(before);
      forall start | 0 <= start < n
        ensures WatchedStart(trace, start) <==> WatchedStart(before, start) && IsReconnecting(last.view) {
      }
      assert WatchedStart(trace, n)
        <==> n > 0 && IsReconnecting(last.view) && LastView(before).Some? && !IsReconnecting(LastView(before));
      if MaskAfter(before).Some? && IsReconnecting(last.view) {
        var start: nat :| WatchedStart(before, start);
        assert WatchedStart(trace, start);
        assert MaskFor(trace, start) == MaskFor(before, start);
        forall other: nat | WatchedStart(trace, other) ensures other == start {
          StartUnique(trace, start, other);
        }
      } else {
        forall start: nat | WatchedStart(trace, start)
          ensures start == n && MaskAfter(trace) == Some(MaskFor(trace, start)) {
          assert start < n ==> WatchedStart(before, start);
        }
      }
    }
  }

  /** What is rendered after a trace at time now. */
  function Rendered(trace: seq<Observation>, now: int): Option<View> {
    if LastView(trace).None? then None
    else Some(ApplyDisconnectMask(LastView(trace).value, MaskAfter(trace), now))
  }

  /** The rendered view is the true one, or the true one is reconnecting, the view before the streak
      is shown in its place, and the streak is younger than the visibility threshold. */
  lemma RenderedIsTrueOrYoung(trace: seq<Observation>, now: int)
    requires LastView(trace).Some?
    ensures var rendered := Rendered(trace, now).value;
      rendered == LastView(trace).value ||
      exists start: nat :: WatchedStart(trace, start)
        && now < trace[start].now + 15000
        && var held := trace[start - 1].view.value;
           rendered == View(held.phase, if held.substate == None then Some(NoSubstate) else held.substate)
  {
    MaskIffWatchedStart(trace);
  }

  /** Conversely the old view is shown for the whole of that time: a streak watched from its start is
      not visible before the threshold. */
  lemma YoungStreakIsHidden(trace: seq<Observation>, start: nat, now: int)
    requires WatchedStart(trace, start) && now < trace[start].now + 15000
    ensures Rendered(trace, now).Some? && Rendered(trace, now).value.substate != Some(Reconnecting)
  {
    MaskIffWatchedStart(trace);
  }

  lemma {:induction false} InactiveStaysInactive(trace: seq<Observation>, more: seq<Observation>, now: int, later: int)
    requires IsReconnecting(LastView(trace)) && !IsActive(MaskAfter(trace), now) && now <= later
    requires forall i :: 0 <= i < |more| ==> Reconnects(more[i])
    ensures !IsActive(MaskAfter(trace + more), later)
    ensures IsReconnecting(LastView(trace + more)) && MaskAfter(trace + more) == MaskAfter(trace)
  {
    if more == [] {
      assert trace + more == trace;
    } else {
      var front := more[..|more| - 1];
      InactiveStaysInactive(trace, front, now, later);
      assert (trace + more)[..|trace + more| - 1] == trace + front;
      assert LastView(trace + more) == more[|more| - 1].view;
    }
  }

  /** Once a streak has become visible it stays visible: later observations of the same streak, at
      later times, are never masked again. */
  lemma VisibleStaysVisible(trace: seq<Observation>, more: seq<Observation>, now: int, later: int)
    requires trace != [] && Reconnects(trace[|trace| - 1]) && Rendered(trace, now) == trace[|trace| - 1].view
    requires now <= later && forall i :: 0 <= i < |more| ==> Reconnects(more[i])
    ensures var all := trace + more; Rendered(all, later) == all[|all| - 1].view && Reconnects(all[|all| - 1])
  {
    MaskIffWatchedStart(trace);
    InactiveStaysInactive(trace, more, now, later);
  }
}
