/** The round loop of the simulation: in every round each agent senses the
    "DR" intensity at its node and makes an offer, the round is recorded
    (round number, total offer, the offers, a copy of the field), the loop
    stops as soon as the total reaches the target, and otherwise the world
    takes one step. */
module Simulation {
  import opened SignalField
  import opened Agents
  import opened Worlds

  /** One recorded round: its number, the total offer, every agent's offer
      in agent order, and the field the agents sensed. */
  datatype Round = Round(t: nat, total: real, offers: seq<real>, snapshot: Field)

  /** The number of rounds `range(steps)` allows: `steps`, or none when it
      is not positive. */
  function RangeLength(steps: int): nat
  {
    if steps > 0 then steps else 0
  }

  /** The sum of `s`, added from left to right starting at 0.0. */
  function Sum(s: seq<real>): real
  {
    if |s| == 0 then 0.0 else Sum(s[..|s| - 1]) + s[|s| - 1]
  }

  /** The most the agents can offer together: the sum of their capacities,
      a negative capacity counting as 0. */
  function Capacity(agents: seq<Agent>): real
  {
    if |agents| == 0 then 0.0
    else Capacity(agents[..|agents| - 1]) + Max(0.0, agents[|agents| - 1].maxShedKw)
  }

  /** The "DR" intensity at the agent's node, 0.0 where there is none. */
  function Sensed(f: Field, a: Agent): real
  {
    Get(f, Key(a.node, DR))
  }

  /** Offers that each stay within their agent's bounds add up to at most
      the capacity of all agents, and to at least 0. */
  lemma {:induction false} TotalWithinCapacity(agents: seq<Agent>, offers: seq<real>)
    requires |offers| == |agents|
    requires forall j :: 0 <= j < |offers| ==> 0.0 <= offers[j] <= Max(0.0, agents[j].maxShedKw)
    ensures 0.0 <= Sum(offers) <= Capacity(agents)
  {
    if |offers| > 0 {
      var n := |offers| - 1;
      TotalWithinCapacity(agents[..n], offers[..n]);
    }
  }

  /** Every agent, in order, senses `f` and offers; returns the offers and
      the agents with their offers recorded. */
  method CollectOffers(agents: seq<Agent>, f: Field, tanh: real -> real) returns (offers: seq<real>, agents': seq<Agent>)
    ensures |offers| == |agents| && |agents'| == |agents|
    ensures forall j :: 0 <= j < |agents| ==>
      agents'[j] == agents[j].(offeredKw := offers[j]) &&
      offers[j] == PerceiveAndOffer(agents[j], Sensed(f, agents[j]), tanh).1
    ensures forall j :: 0 <= j < |agents| ==> 0.0 <= offers[j] <= Max(0.0, agents[j].maxShedKw)
  {
    offers := [];
    agents' := [];
    var j := 0;
    while j < |agents|
      invariant 0 <= j <= |agents| && |offers| == j && |agents'| == j
      invariant forall i :: 0 <= i < j ==>
        agents'[i] == agents[i].(offeredKw := offers[i]) &&
        offers[i] == PerceiveAndOffer(agents[i], Sensed(f, agents[i]), tanh).1
      invariant forall i :: 0 <= i < j ==> 0.0 <= offers[i] <= Max(0.0, agents[i].maxShedKw)
    {
      var r := PerceiveAndOffer(agents[j], Sensed(f, agents[j]), tanh);
      offers := offers + [r.1];
      agents' := agents' + [r.0];
      j := j + 1;
    }
  }

  /** The world after one step of its field. */
  ghost function StepWorld(w: World): World
  {
    w.(field := Stepped(w.field, w.adj, w.evap, w.diff))
  }

  /** The world after `n` steps; only the field changes. */
  ghost function Evolve(w: World, n: nat): (r: World)
    ensures r.adj == w.adj && r.evap == w.evap && r.diff == w.diff
  {
    if n == 0 then w else StepWorld(Evolve(w, n - 1))
  }

  /** Round `i` of a run from world `w` with these agents: it carries its
      number, the field after `i` steps, each agent's offer for that field,
      and their sum. */
  ghost predicate Recorded(agents: seq<Agent>, w: World, tanh: real -> real, i: nat, r: Round)
  {
    && r.t == i
    && r.snapshot == Evolve(w, i).field
    && |r.offers| == |agents|
    && (forall j :: 0 <= j < |agents| ==>
          r.offers[j] == PerceiveAndOffer(agents[j], Sensed(r.snapshot, agents[j]), tanh).1)
    && r.total == Sum(r.offers)
  }

  /** How many times the world stepped during a run that produced
      `history`: once after every round except one that met the target. */
  function StepsTaken(history: seq<Round>, targetKw: real): nat
  {
    if |history| > 0 && history[|history| - 1].total >= targetKw then |history| - 1 else |history|
  }

  /** Every round of `history` is recorded under its own number. */
  ghost predicate RecordedRun(agents: seq<Agent>, w: World, tanh: real -> real, history: seq<Round>)
  {
    forall i :: 0 <= i < |history| ==> Recorded(agents, w, tanh, i, history[i])
  }

  /** A round computed by agents that differ from the original ones only in
      their last offer, on the field after `|history|` steps, extends a
      recorded run. */
  lemma RoundRecorded(agents: seq<Agent>, current: seq<Agent>, w: World, tanh: real -> real, history: seq<Round>, r: Round)
    requires RecordedRun(agents, w, tanh, history)
    requires |current| == |agents|
    requires forall j :: 0 <= j < |agents| ==> current[j] == agents[j].(offeredKw := current[j].offeredKw)
    requires r.t == |history| && r.snapshot == Evolve(w, |history|).field
    requires |r.offers| == |agents| && r.total == Sum(r.offers)
    requires forall j :: 0 <= j < |agents| ==>
      r.offers[j] == PerceiveAndOffer(current[j], Sensed(r.snapshot, current[j]), tanh).1
    ensures RecordedRun(agents, w, tanh, history + [r])
  {
    forall j | 0 <= j < |agents|
      ensures r.offers[j] == PerceiveAndOffer(agents[j], Sensed(r.snapshot, agents[j]), tanh).1
    {
      OfferIgnoresLastOffer(agents[j], current[j].offeredKw, Sensed(r.snapshot, agents[j]), tanh);
    }
    assert Recorded(agents, w, tanh, |history|, r);
  }

  /** A recorded total lies between 0 and the capacity of the agents. */
  lemma RecordedWithinCapacity(agents: seq<Agent>, w: World, tanh: real -> real, i: nat, r: Round)
    requires Recorded(agents, w, tanh, i, r)
    ensures 0.0 <= r.total <= Capacity(agents)
  {
    TotalWithinCapacity(agents, r.offers);
  }

  /** The state of a run after the rounds in `history`: every round is
      recorded, only the last may have met the target (and `met` says
      whether it did), the world has stepped once per round that missed
      it, and every agent holds its offer from the last round. */
  ghost predicate RunState(agents: seq<Agent>, w: World, tanh: real -> real, targetKw: real,
                           history: seq<Round>, current: seq<Agent>, w': World, met: bool)
  {
    && RecordedRun(agents, w, tanh, history)
    && (forall i :: 0 <= i < |history| ==> |history[i].offers| == |agents|)
    && (met <==> |history| > 0 && history[|history| - 1].total >= targetKw)
    && (forall i :: 0 <= i < |history| - 1 ==> history[i].total < targetKw)
    && w' == Evolve(w, StepsTaken(history, targetKw))
    && |current| == |agents|
    && (forall j :: 0 <= j < |agents| ==>
          current[j] == agents[j].(offeredKw := if history == [] then agents[j].offeredKw else history[|history| - 1].offers[j]))
  }

  lemma RunStateStart(agents: seq<Agent>, w: World, tanh: real -> real, targetKw: real)
    ensures RunState(agents, w, tanh, targetKw, [], agents, w, false)
  {
  }

  /** One more round of a run whose target is not met yet: the agents
      offer on the current field, the round is recorded, and the world
      steps exactly when the total misses the target. */
  lemma RunStateRound(agents: seq<Agent>, w: World, tanh: real -> real, targetKw: real,
                      history: seq<Round>, current: seq<Agent>, w1: World,
                      offers: seq<real>, next: seq<Agent>, w2: World)
    requires RunState(agents, w, tanh, targetKw, history, current, w1, false)
    requires |offers| == |agents| && |next| == |agents|
    requires forall j :: 0 <= j < |agents| ==>
      next[j] == current[j].(offeredKw := offers[j]) &&
      offers[j] == PerceiveAndOffer(current[j], Sensed(w1.field, current[j]), tanh).1
    requires w2 == if Sum(offers) >= targetKw then w1 else StepWorld(w1)
    ensures var r := Round(|history|, Sum(offers), offers, w1.field);
      RunState(agents, w, tanh, targetKw, history + [r], next, w2, Sum(offers) >= targetKw)
  {
    var r := Round(|history|, Sum(offers), offers, w1.field);
    var h := history + [r];
    RoundRecorded(agents, current, w, tanh, history, r);
    MissedTargetsExtend(history, targetKw, r);
    OffersLengthExtend(history, |agents|, r);
    WorldAfterRound(w, w1, w2, history, targetKw, r);
    OffersHeld(agents, current, offers, next);
  }

  /** After a round every agent holds the offer it just made and is
      otherwise the original agent. */
  lemma OffersHeld(agents: seq<Agent>, current: seq<Agent>, offers: seq<real>, next: seq<Agent>)
    requires |current| == |agents| && |offers| == |agents| && |next| == |agents|
    requires forall j :: 0 <= j < |agents| ==> current[j] == agents[j].(offeredKw := current[j].offeredKw)
    requires forall j :: 0 <= j < |agents| ==> next[j] == current[j].(offeredKw := offers[j])
    ensures forall j :: 0 <= j < |agents| ==> next[j] == agents[j].(offeredKw := offers[j])
  {
  }

  /** The world after a round: unchanged when the round met the target,
      stepped once otherwise. */
  lemma WorldAfterRound(w: World, w1: World, w2: World, history: seq<Round>, targetKw: real, r: Round)
    requires !(|history| > 0 && history[|history| - 1].total >= targetKw)
    requires w1 == Evolve(w, StepsTaken(history, targetKw))
    requires w2 == if r.total >= targetKw then w1 else StepWorld(w1)
    ensures w2 == Evolve(w, StepsTaken(history + [r], targetKw))
  {
  }

  lemma MissedTargetsExtend(history: seq<Round>, targetKw: real, r: Round)
    requires !(|history| > 0 && history[|history| - 1].total >= targetKw)
    requires forall i :: 0 <= i < |history| - 1 ==> history[i].total < targetKw
    ensures forall i :: 0 <= i < |history + [r]| - 1 ==> (history + [r])[i].total < targetKw
  {
  }

  lemma OffersLengthExtend(history: seq<Round>, n: nat, r: Round)
    requires forall i :: 0 <= i < |history| ==> |history[i].offers| == n
    requires |r.offers| == n
    ensures forall i :: 0 <= i < |history + [r]| ==> |(history + [r])[i].offers| == n
  {
  }

  /** One round of the loop body: the agents offer on the current field,
      the round is recorded, and the world steps unless the total met the
      target. */
  method PlayRound(ghost agents: seq<Agent>, ghost w: World, tanh: real -> real, targetKw: real,
                   history: seq<Round>, current: seq<Agent>, w1: World)
    returns (history': seq<Round>, next: seq<Agent>, w2: World, met: bool)
    requires RunState(agents, w, tanh, targetKw, history, current, w1, false)
    ensures RunState(agents, w, tanh, targetKw, history', next, w2, met)
    ensures |history'| == |history| + 1 && history'[..|history|] == history
    ensures var r := history'[|history|];
      && r.t == |history| && r.snapshot == w1.field && |r.offers| == |current|
      && r.total == Sum(r.offers)
      && (met <==> r.total >= targetKw)
      && w2 == if met then w1 else StepWorld(w1)
  {
    var offers;
    offers, next := CollectOffers(current, w1.field, tanh);
    var total := Sum(offers);
    history' := history + [Round(|history|, total, offers, w1.field)];
    met := total >= targetKw;
    if met {
      w2 := w1;
    } else {
      w2 := Step(w1);
    }
    RunStateRound(agents, w, tanh, targetKw, history, current, w1, offers, next, w2);
  }

  /** What a finished run guarantees, read off its final state. */
  lemma RunSimResult(agents: seq<Agent>, w: World, tanh: real -> real, steps: int, targetKw: real,
                     history: seq<Round>, agents': seq<Agent>, w': World, met: bool)
    requires RunState(agents, w, tanh, targetKw, history, agents', w', met)
    requires |history| <= RangeLength(steps)
    requires |history| < steps ==> met
    ensures steps <= 0 ==> history == []
    ensures forall i :: 0 <= i < |history| ==> Recorded(agents, w, tanh, i, history[i])
    ensures forall i :: 0 <= i < |history| ==> |history[i].offers| == |agents|
    ensures forall i :: 0 <= i < |history| - 1 ==> history[i].total < targetKw
    ensures |history| < steps ==> |history| > 0 && history[|history| - 1].total >= targetKw
    ensures Capacity(agents) < targetKw ==> |history| == RangeLength(steps)
    ensures w' == Evolve(w, StepsTaken(history, targetKw))
    ensures |agents'| == |agents|
    ensures forall j :: 0 <= j < |agents| ==>
      agents'[j] == agents[j].(offeredKw := if history == [] then agents[j].offeredKw else history[|history| - 1].offers[j])
  {
    if Capacity(agents) < targetKw {
      TargetOutOfReach(agents, w, tanh, steps, targetKw, history, met);
    }
  }

  /** A target above the capacity of the agents is never met, so the run
      takes every round `steps` allows. */
  lemma TargetOutOfReach(agents: seq<Agent>, w: World, tanh: real -> real, steps: int, targetKw: real,
                         history: seq<Round>, met: bool)
    requires RecordedRun(agents, w, tanh, history)
    requires met <==> |history| > 0 && history[|history| - 1].total >= targetKw
    requires |history| <= RangeLength(steps)
    requires |history| < steps ==> met
    requires Capacity(agents) < targetKw
    ensures |history| == RangeLength(steps)
  {
    if |history| > 0 {
      RecordedWithinCapacity(agents, w, tanh, |history| - 1, history[|history| - 1]);
    }
  }

  /** The simulation: at most `steps` rounds (none when `steps` <= 0), each
      recorded; it stops right after the first round whose total reaches
      `targetKw`, and the world steps after every other round. */
  method RunSim(agents: seq<Agent>, w: World, steps: int, targetKw: real, tanh: real -> real)
    returns (history: seq<Round>, agents': seq<Agent>, w': World)
    ensures |history| <= RangeLength(steps)
    ensures steps <= 0 ==> history == []
    ensures forall i :: 0 <= i < |history| ==> Recorded(agents, w, tanh, i, history[i])
    ensures forall i :: 0 <= i < |history| ==> |history[i].offers| == |agents|
    ensures forall i :: 0 <= i < |history| - 1 ==> history[i].total < targetKw
    ensures |history| < steps ==> |history| > 0 && history[|history| - 1].total >= targetKw
    ensures Capacity(agents) < targetKw ==> |history| == RangeLength(steps)
    ensures w' == Evolve(w, StepsTaken(history, targetKw))
    ensures |agents'| == |agents|
    ensures forall j :: 0 <= j < |agents| ==>
      agents'[j] == agents[j].(offeredKw := if history == [] then agents[j].offeredKw else history[|history| - 1].offers[j])
  {
    history := [];
    agents' := agents;
    w' := w;
    var met := false;
    RunStateStart(agents, w, tanh, targetKw);
    while |history| < steps && !met
      invariant |history| <= RangeLength(steps)
      invariant RunState(agents, w, tanh, targetKw, history, agents', w', met)
      decreases steps - |history|
    {
      history, agents', w', met := PlayRound(agents, w, tanh, targetKw, history, agents', w');
    }
    RunSimResult(agents, w, tanh, steps, targetKw, history, agents', w', met);
  }

  /** With a non-negative diffusion fraction and a non-negative start, no
      recorded snapshot ever holds a negative intensity. */
  lemma {:induction false} EvolveNonNegative(w: World, n: nat)
    requires w.diff >= 0.0
    requires forall t :: t in w.field ==> w.field[t] >= 0.0
    ensures forall t :: t in Evolve(w, n).field ==> Evolve(w, n).field[t] >= 0.0
  {
    if n > 0 {
      EvolveNonNegative(w, n - 1);
      var v := Evolve(w, n - 1);
      StepNonNegative(v.field, v.adj, v.evap, v.diff);
    }
  }
}
