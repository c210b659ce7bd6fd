/** The self-rearming refresh timer of azbfs/zc_credential_token.go. startRefresh, the timer goroutines and stopRefresh
    interleave; the locked sections of refresh and stopRefresh are single steps. */
module TokenRefresh {
  import opened Common

  /** armed: the timers that will still fire. timer: the credential's timer field, the last timer created.
      inFlight: the goroutines inside refresh that have not reached its locked section. */
  datatype State = State(stopped: bool, timer: Option<nat>, armed: set<nat>, created: nat, inFlight: nat) {

    /** The refreshes that are armed or under way. */
    function Chains(): nat {
      |armed| + inFlight
    }

    /** Timers are numbered in the order created. */
    predicate Valid() {
      && (forall t | t in armed :: t < created)
      && (if created == 0 then timer.None? else timer == Some(created - 1))
    }
  }

  const IDLE := State(false, None, {}, 0, 0)

  /** Start: startRefresh clears stopped and enters refresh. Fire: a timer runs out and its goroutine enters refresh.
      Rearm: a refresh callback is done and the locked section runs. Stop: stopRefresh. */
  datatype Step = Start | Fire(timer: nat) | Rearm | Stop

  predicate Enabled(s: State, step: Step) {
    match step
    case Start => true
    case Fire(t) => t in s.armed
    case Rearm => s.inFlight > 0
    case Stop => true
  }

  function Next(s: State, step: Step): (s': State)
    requires Enabled(s, step)
    ensures s.Valid() ==> s'.Valid()
  {
    match step
    case Start => s.(stopped := false, inFlight := s.inFlight + 1)
    case Fire(t) => s.(armed := s.armed - {t}, inFlight := s.inFlight + 1)
    case Rearm =>
      if s.stopped then s.(inFlight := s.inFlight - 1)
      else s.(inFlight := s.inFlight - 1, timer := Some(s.created), armed := s.armed + {s.created}, created := s.created + 1)
    case Stop => s.(stopped := true, armed := s.armed - (if s.timer.Some? then {s.timer.value} else {}))
  }

  /** The steps of a run can be taken one after the other. */
  predicate Runs(s: State, steps: seq<Step>)
    decreases |steps|
  {
    steps == [] || (Enabled(s, steps[0]) && Runs(Next(s, steps[0]), steps[1..]))
  }

  function After(s: State, steps: seq<Step>): State
    requires Runs(s, steps)
    decreases |steps|
  {
    if steps == [] then s else After(Next(s, steps[0]), steps[1..])
  }

  function Starts(steps: seq<Step>): nat {
    if steps == [] then 0 else (if steps[0].Start? then 1 else 0) + Starts(steps[1..])
  }

  /** Starts counts the starts of a run: one for each, none for other steps, and the sum over consecutive runs. */
  lemma {:induction false} StartsAreCounted(a: seq<Step>, b: seq<Step>, step: Step)
    ensures Starts([]) == 0 && Starts([step]) == (if step == Start then 1 else 0)
    ensures Starts(a + b) == Starts(a) + Starts(b)
    decreases |a|
  {
    if a == [] {
      assert a + b == b;
    } else {
      StartsAreCounted(a[1..], b, step);
      assert (a + b)[1..] == a[1..] + b;
    }
  }

  /** Only startRefresh adds a chain. */
  lemma ChainsOfNext(s: State, step: Step)
    requires s.Valid() && Enabled(s, step)
    ensures Next(s, step).Chains() <= s.Chains() + (if step.Start? then 1 else 0)
    ensures step.Start? ==> Next(s, step).Chains() == s.Chains() + 1
  {
    match step
    case Start =>
    case Fire(t) => assert |s.armed - {t}| == |s.armed| - 1;
    case Rearm => assert s.created !in s.armed;
    case Stop =>
      if s.timer.Some? && s.timer.value in s.armed {
        assert |s.armed - {s.timer.value}| == |s.armed| - 1;
      } else if s.timer.Some? {
        assert s.armed - {s.timer.value} == s.armed;
      }
  }

  /** In every interleaving there are never more chains than calls of startRefresh. */
  lemma {:induction false} ChainsBoundedByStarts(s: State, steps: seq<Step>)
    requires s.Valid() && Runs(s, steps)
    ensures After(s, steps).Valid()
    ensures After(s, steps).Chains() <= s.Chains() + Starts(steps)
    decreases |steps|
  {
    if steps != [] {
      ChainsOfNext(s, steps[0]);
      ChainsBoundedByStarts(Next(s, steps[0]), steps[1..]);
    }
  }

  /** Until a stop, refreshing never lapses: from a start on there is one refresh more that is armed or under way. */
  lemma {:induction false} RefreshNeverLapses(s: State, steps: seq<Step>)
    requires s.Valid() && !s.stopped && Runs(s, steps)
    requires forall i | 0 <= i < |steps| :: steps[i].Fire? || steps[i].Rearm?
    ensures After(s, steps).Chains() == s.Chains() && !After(s, steps).stopped
    decreases |steps|
  {
    if steps != [] {
      var s' := Next(s, steps[0]);
      assert steps[0].Fire? || steps[0].Rearm?;
      if steps[0].Fire? {
        assert |s.armed - {steps[0].timer}| == |s.armed| - 1;
      } else {
        assert s.created !in s.armed;
      }
      RefreshNeverLapses(s', steps[1..]);
    }
  }

  /** Also after it was stopped: a start arms and fires timers again. */
  lemma StartGoesOn(s: State, steps: seq<Step>)
    requires s.Valid() && Runs(Next(s, Start), steps)
    requires forall i | 0 <= i < |steps| :: steps[i].Fire? || steps[i].Rearm?
    ensures After(Next(s, Start), steps).Chains() == s.Chains() + 1
  {
    RefreshNeverLapses(Next(s, Start), steps);
  }

  /** After stopRefresh and until another startRefresh, no timer is ever created: what is armed only runs out. */
  lemma {:induction false} NothingArmedAfterStop(s: State, steps: seq<Step>)
    requires s.stopped && Runs(s, steps) && Starts(steps) == 0
    ensures var e := After(s, steps); e.stopped && e.created == s.created && e.armed <= s.armed
    decreases |steps|
  {
    if steps != [] {
      NothingArmedAfterStop(Next(s, steps[0]), steps[1..]);
    }
  }

  lemma OnlyElement(a: set<nat>, x: nat)
    requires x in a && |a| <= 1
    ensures a == {x}
  {
    assert |a - {x}| == |a| - 1;
    assert a == (a - {x}) + {x};
  }

  /** A state with one chain whose armed timer is the current one. */
  predicate Single(s: State) {
    s.Valid() && s.Chains() <= 1 && (s.armed != {} ==> s.created - 1 in s.armed)
  }

  /** With a single chain, stopRefresh leaves nothing armed, for good. */
  lemma StopIsFinal(s: State, steps: seq<Step>)
    requires Single(s)
    requires Runs(Next(s, Stop), steps) && Starts(steps) == 0
    ensures After(Next(s, Stop), steps).armed == {}
  {
    var e := Next(s, Stop);
    if s.armed != {} {
      OnlyElement(s.armed, s.created - 1);
    }
    assert e.armed == {};
    NothingArmedAfterStop(e, steps);
  }

  /** In a single chain the armed timer, if any, is the one in the timer field, so StopIsFinal applies. */
  lemma {:induction false} ArmedIsCurrent(s: State, steps: seq<Step>)
    requires Single(s) && Runs(s, steps) && Starts(steps) == 0
    ensures Single(After(s, steps))
    decreases |steps|
  {
    if steps != [] {
      ChainsOfNext(s, steps[0]);
      if s.armed != {} {
        OnlyElement(s.armed, s.created - 1);
      }
      ArmedIsCurrent(Next(s, steps[0]), steps[1..]);
    }
  }

  /** Wherever a single chain has got to, it is single, and stopRefresh then ends it for good. */
  lemma SingleThenStop(s: State, before: seq<Step>, after: seq<Step>)
    requires Single(s) && Runs(s, before) && Starts(before) == 0
    requires Runs(Next(After(s, before), Stop), after) && Starts(after) == 0
    ensures After(s, before).Chains() <= 1
    ensures After(Next(After(s, before), Stop), after).armed == {}
  {
    ArmedIsCurrent(s, before);
    StopIsFinal(After(s, before), after);
  }

  /** The whole promise for one startRefresh on a fresh credential: at every moment at most one refresh is armed or in
      flight, and once stopRefresh has returned no timer is ever armed again. */
  lemma OneStartThenStop(before: seq<Step>, after: seq<Step>)
    requires Runs(Next(IDLE, Start), before) && Starts(before) == 0
    requires Runs(Next(After(Next(IDLE, Start), before), Stop), after) && Starts(after) == 0
    ensures After(Next(IDLE, Start), before).Chains() <= 1
    ensures After(Next(After(Next(IDLE, Start), before), Stop), after).armed == {}
  {
    SingleThenStop(Next(IDLE, Start), before, after);
  }

  // ---------- Starting again ----------

  /** What a caller can follow of one refresh: its callback is running, its timer is waiting, or it is over. */
  datatype Phase = Over | Calling | Waiting

  datatype View = View(phase: Phase, stopped: bool)

  /** A refresh is over when its callback gets to the locked section after a stop, or when a stop meets its waiting
      timer; a stop during the callback alone does not end it. */
  function Follow(v: View, step: Step): View {
    match step
    case Start => View(Calling, false)
    case Fire(_) => v.(phase := Calling)
    case Rearm => v.(phase := if v.stopped then Over else Waiting)
    case Stop => View(if v.phase.Waiting? then Over else v.phase, true)
  }

  /** Each startRefresh of the run comes when the refresh before it is over. */
  predicate StartsWhenOver(v: View, steps: seq<Step>)
    decreases |steps|
  {
    steps == [] || ((steps[0].Start? ==> v.phase.Over?) && StartsWhenOver(Follow(v, steps[0]), steps[1..]))
  }

  /** At every moment of the run at most one refresh is armed or under way. */
  predicate AlwaysSingle(s: State, steps: seq<Step>)
    requires Runs(s, steps)
    decreases |steps|
  {
    s.Chains() <= 1 && (steps != [] ==> AlwaysSingle(Next(s, steps[0]), steps[1..]))
  }

  /** The view of a state with at most one refresh. */
  predicate Sees(v: View, s: State) {
    && Single(s) && v.stopped == s.stopped
    && (v.phase.Calling? <==> s.inFlight == 1)
    && (v.phase.Waiting? <==> s.armed != {})
  }

  /** The view stays right for as long as no refresh is started on top of another. */
  lemma FollowSees(v: View, s: State, step: Step)
    requires Sees(v, s) && Enabled(s, step) && (step.Start? ==> v.phase.Over?)
    ensures Sees(Follow(v, step), Next(s, step))
  {
    if s.armed != {} {
      OnlyElement(s.armed, s.created - 1);
    }
  }

  lemma {:induction false} SingleIffStartsWhenOver(v: View, s: State, steps: seq<Step>)
    requires Sees(v, s) && Runs(s, steps)
    ensures AlwaysSingle(s, steps) <==> StartsWhenOver(v, steps)
    decreases |steps|
  {
    if steps != [] {
      if steps[0].Start? && !v.phase.Over? {
        assert Next(s, steps[0]).Chains() == 2;
      } else {
        FollowSees(v, s, steps[0]);
        SingleIffStartsWhenOver(Follow(v, steps[0]), Next(s, steps[0]), steps[1..]);
      }
    }
  }

  /** Over any run with any number of starts and stops, there is never more than one refresh exactly when every start
      finds the refresh before it over. */
  lemma RestartIsSingleIff(steps: seq<Step>)
    requires Runs(IDLE, steps)
    ensures AlwaysSingle(IDLE, steps) <==> StartsWhenOver(View(Over, false), steps)
  {
    SingleIffStartsWhenOver(View(Over, false), IDLE, steps);
  }

  lemma {:induction false} StaysSingle(v: View, s: State, steps: seq<Step>)
    requires Sees(v, s) && Runs(s, steps) && StartsWhenOver(v, steps)
    ensures Single(After(s, steps))
    decreases |steps|
  {
    if steps != [] {
      FollowSees(v, s, steps[0]);
      StaysSingle(Follow(v, steps[0]), Next(s, steps[0]), steps[1..]);
    }
  }

  /** However often it was started and stopped in that way before, a stop ends the refreshing for good. */
  lemma RestartsThenStop(before: seq<Step>, after: seq<Step>)
    requires Runs(IDLE, before) && StartsWhenOver(View(Over, false), before)
    requires Runs(Next(After(IDLE, before), Stop), after) && Starts(after) == 0
    ensures After(Next(After(IDLE, before), Stop), after).armed == {}
  {
    StaysSingle(View(Over, false), IDLE, before);
    StopIsFinal(After(IDLE, before), after);
  }

  /** The documented sequence StartRefresh, StopRefresh, StartRefresh doubles the timer when a timer has fired and its
      callback is still running: stopping does not wait for it. */
  lemma RestartCanDouble()
    ensures var steps := [Start, Rearm, Fire(0), Stop, Start, Rearm, Rearm];
            Runs(IDLE, steps) && |After(IDLE, steps).armed| == 2 && !AlwaysSingle(IDLE, steps)
  {
    var steps := [Start, Rearm, Fire(0), Stop, Start, Rearm, Rearm];
    var s1 := Next(Next(Next(IDLE, Start), Rearm), Fire(0));
    var s2 := Next(Next(s1, Stop), Start);
    var last := Next(Next(s2, Rearm), Rearm);
    assert last.armed == {1, 2};
    assert steps[1..][1..][1..] == [Stop, Start, Rearm, Rearm];
    assert [Stop, Start, Rearm, Rearm][1..][1..] == [Rearm, Rearm];
    assert [Rearm, Rearm][1..][1..] == [];
    assert Runs(s2, [Rearm, Rearm]) && After(s2, [Rearm, Rearm]) == last;
    assert Runs(s1, [Stop, Start, Rearm, Rearm]) && After(s1, [Stop, Start, Rearm, Rearm]) == last;
    assert Runs(IDLE, steps) && After(IDLE, steps) == last;
    RestartIsSingleIff(steps);
    var v := Follow(Follow(Follow(View(Over, false), Start), Rearm), Fire(0));
    assert !StartsWhenOver(v, [Stop, Start, Rearm, Rearm]);
  }
}
