/** Worked examples of one step, with the default parameters evap = 0.82
    and diff = 0.35 and a single "DR" seed of 1.0 at node 0. */
module Scenarios {
  import opened Sums
  import opened Graph
  import opened SignalField
  import opened Worlds

  const Evap: real := 0.82
  const Diff: real := 0.35

  /** The seed the simulation starts from: intensity 1.0 at the centre. */
  function Seed(): Field
  {
    map[Key(0, DR) := 1.0]
  }

  lemma EvaporatedSeed()
    ensures Evaporated(Seed(), Evap) == map[Key(0, DR) := 0.82]
  {
  }

  /** A seed on a node without neighbours only evaporates. */
  lemma IsolatedSeed()
    ensures Stepped(Seed(), map[], Evap, Diff) == map[Key(0, DR) := 0.82]
  {
  }

  /** An entry whose evaporated value lands exactly on the threshold is
      kept; one just below it is deleted. */
  lemma PruneBoundary(t: Key)
    ensures Evaporated(map[t := 0.0001], 1.0) == map[t := 0.0001]
    ensures Evaporated(map[t := 0.0001], 0.5) == map[]
  {
  }

  /** The ring nodes a centre source reaches under kind `k`. */
  lemma CentreTargets(k: Kind)
    ensures Targets(Honeycomb7(), {Key(0, k)}) == set i | 1 <= i < 7 :: Key(i, k)
  {
  }

  /** What the evaporated seed sends to ring node `i`. */
  lemma RingInflow(i: Node)
    requires 1 <= i < 7
    ensures var e := map[Key(0, DR) := 0.82];
      Inflow(e, Honeycomb7(), Diff, e.Keys, Key(i, DR)) == 0.35 * 0.82 / 6.0
  {
    var e := map[Key(0, DR) := 0.82];
    var s := Key(0, DR);
    var nb := Neighbours(Honeycomb7(), 0);
    assert nb == [1, 2, 3, 4, 5, 6];
    assert e.Keys == {s};
    SumOverSingleton(s, InflowTerm(e, Honeycomb7(), Diff, Key(i, DR)));
    assert multiset(nb)[i] == 1;
  }

  /** The first step on the honeycomb: the centre keeps 0.82 (it sends
      without being debited, and nothing flows back to it in the same
      step), and each of the six ring nodes receives 0.35 * 0.82 / 6. */
  lemma HoneycombFirstStep()
    ensures var g := Stepped(Seed(), Honeycomb7(), Evap, Diff);
      && g.Keys == (set i | 0 <= i < 7 :: Key(i, DR))
      && g[Key(0, DR)] == 0.82
      && forall i :: 1 <= i < 7 ==> g[Key(i, DR)] == 0.35 * 0.82 / 6.0
  {
    var g := Stepped(Seed(), Honeycomb7(), Evap, Diff);
    forall t
      ensures t in g <==> t.kind == DR && 0 <= t.node < 7
      ensures t in g ==> g[t] == if t.node == 0 then 0.82 else 0.35 * 0.82 / 6.0
    {
      FirstStepAt(t);
    }
    assert g.Keys == set i | 0 <= i < 7 :: Key(i, DR);
  }

  /** HoneycombFirstStep at one key. */
  lemma FirstStepAt(t: Key)
    ensures var g := Stepped(Seed(), Honeycomb7(), Evap, Diff);
      && (t in g <==> t.kind == DR && 0 <= t.node < 7)
      && (t in g ==> g[t] == if t.node == 0 then 0.82 else 0.35 * 0.82 / 6.0)
  {
    var e := Evaporated(Seed(), Evap);
    EvaporatedSeed();
    assert e.Keys == {Key(0, DR)};
    CentreTargets(DR);
    SteppedAt(Seed(), Honeycomb7(), Evap, Diff, t);
    if t.kind == DR && 1 <= t.node < 7 {
      RingInflow(t.node);
    }
  }

  /** The total intensity of the evaporated seed, and the part of it that
      diffuses (the centre has neighbours). */
  lemma EvaporatedSeedMass()
    ensures var e := Evaporated(Seed(), Evap);
      Mass(e) == 0.82 && ActiveMass(e, Honeycomb7()) == 0.82
  {
    var e := Evaporated(Seed(), Evap);
    var s := Key(0, DR);
    EvaporatedSeed();
    assert e.Keys == {s};
    SumOverSingleton(s, ValueOf(e));
    assert |Neighbours(Honeycomb7(), 0)| == 6;
    SumOverSingleton(s, ActiveWeight(e, Honeycomb7()));
  }

  /** One step of the world the simulation starts from: the total
      intensity rises from 1.0 to 0.82 + 0.35 * 0.82, because the centre is
      not debited for what it sends to the ring. */
  method HoneycombMassGrows() returns (w': World)
    ensures w'.field == Stepped(Seed(), Honeycomb7(), Evap, Diff)
    ensures Mass(w'.field) == 0.82 + 0.35 * 0.82
    ensures Mass(w'.field) > Mass(Seed())
  {
    w' := Step(World(Honeycomb7(), Evap, Diff, Seed()));
    EvaporatedSeedMass();
    SumOverSingleton(Key(0, DR), ValueOf(Seed()));
  }
}
