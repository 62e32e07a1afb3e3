/** The sparse pheromone field: a map from (node, kind) to intensity, and a
    declarative definition of one step of it (evaporate, prune, diffuse)
    together with the properties that step has. */
module SignalField {
  import opened Sums
  import opened Graph

  /** A signal channel; the simulation only writes and reads "DR". */
  type Kind = string

  /** The demand-response kind the agents sense. */
  const DR: Kind := "DR"

  /** Evaporated entries strictly below this value are deleted. */
  const PruneThreshold: real := 0.0001

  datatype Key = Key(node: Node, kind: Kind)

  type Field = map<Key, real>

  /** The stored intensity, 0.0 for an absent key (dict.get with default). */
  function Get(f: Field, t: Key): real
  {
    if t in f then f[t] else 0.0
  }

  /** The entries of one kind only. */
  function OfKind(f: Field, k: Kind): Field
  {
    map t | t in f && t.kind == k :: f[t]
  }

  /** `t` is kept by the evaporation phase: its evaporated value is not
      below the threshold. */
  predicate Survives(f: Field, evap: real, t: Key)
  {
    t in f && f[t] * evap >= PruneThreshold
  }

  /** The field after the evaporation phase. */
  function Evaporated(f: Field, evap: real): Field
  {
    map t | t in f && Survives(f, evap, t) :: f[t] * evap
  }

  /** The keys the diffusion phase writes to: every neighbour of every
      source in `S`, with the source's kind. */
  function Targets(adj: Adjacency, S: set<Key>): set<Key>
  {
    set s, j | s in S && j in Neighbours(adj, s.node) :: Key(j, s.kind)
  }

  /** A map with the keys and values of the evaporation phase is the
      evaporated field. */
  lemma EvaporatedUnique(f: Field, evap: real, e: Field)
    requires forall t :: t in e <==> Survives(f, evap, t)
    requires forall t :: t in e ==> t in f && e[t] == f[t] * evap
    ensures e == Evaporated(f, evap)
  {
    var g := Evaporated(f, evap);
    assert forall t :: t in g <==> Survives(f, evap, t);
    assert e.Keys == g.Keys;
    assert forall t :: t in e ==> e[t] == g[t];
  }

  /** The keys one source's neighbour list `nb` reaches under kind `k`. */
  function Spread(nb: seq<Node>, k: Kind): set<Key>
  {
    set j | j in nb :: Key(j, k)
  }

  lemma TargetsAdd(adj: Adjacency, S: set<Key>, s: Key)
    ensures Targets(adj, S + {s}) == Targets(adj, S) + Spread(Neighbours(adj, s.node), s.kind)
  {
  }

  /** `x` added to itself `n` times, as the inner diffusion loop adds one
      share per occurrence of a neighbour. */
  function Repeat(n: nat, x: real): real
  {
    if n == 0 then 0.0 else Repeat(n - 1, x) + x
  }

  lemma {:induction false} RepeatIsProduct(n: nat, x: real)
    ensures Repeat(n, x) == (n as real) * x
  {
    if n > 0 {
      RepeatIsProduct(n - 1, x);
    }
  }

  /** What a source of intensity `intensity` with `n` neighbour entries
      sends to each of them. */
  function Share(diff: real, intensity: real, n: nat): real
    requires n > 0
  {
    (diff * intensity) / n as real
  }

  /** Sending a share to all `n` occurrences of a neighbour list sends
      diff * I in total. */
  lemma RepeatShare(n: nat, diff: real, intensity: real)
    requires n > 0
    ensures Repeat(n, Share(diff, intensity, n)) == diff * intensity
  {
    RepeatIsProduct(n, Share(diff, intensity, n));
  }

  /** What source `s` of field `e` sends to key `t` in one diffusion
      phase: a share diff * e[s] / |neighbours| for every occurrence of
      t.node in the source's neighbour list, nothing across kinds. */
  function Contribution(e: Field, adj: Adjacency, diff: real, s: Key, t: Key): real
  {
    var nb := Neighbours(adj, s.node);
    if s in e && s.kind == t.kind && |nb| > 0
    then Repeat(multiset(nb)[t.node], Share(diff, e[s], |nb|))
    else 0.0
  }

  ghost function InflowTerm(e: Field, adj: Adjacency, diff: real, t: Key): Key -> real
  {
    s => Contribution(e, adj, diff, s, t)
  }

  /** Everything the sources in `S` send to `t`. */
  ghost function Inflow(e: Field, adj: Adjacency, diff: real, S: set<Key>, t: Key): real
  {
    SumOver(S, InflowTerm(e, adj, diff, t))
  }

  /** One step of the field: evaporation and pruning, then diffusion whose
      increments are all computed from the evaporated field and added to it
      afterwards.  Keys reached by diffusion are not pruned in this step. */
  ghost function Stepped(f: Field, adj: Adjacency, evap: real, diff: real): Field
  {
    var e := Evaporated(f, evap);
    var reached := Targets(adj, e.Keys);
    map t | t in e.Keys + reached ::
      if t in reached then Get(e, t) + Inflow(e, adj, diff, e.Keys, t) else e[t]
  }

  ghost function ActiveWeight(e: Field, adj: Adjacency): Key -> real
  {
    s => if s in e && |Neighbours(adj, s.node)| > 0 then e[s] else 0.0
  }

  /** The intensity held by entries whose node has at least one neighbour:
      exactly the entries that diffuse. */
  ghost function ActiveMass(e: Field, adj: Adjacency): real
  {
    SumOver(e.Keys, ActiveWeight(e, adj))
  }

  /** What a source sends out in total during one diffusion phase. */
  ghost function Outflow(e: Field, adj: Adjacency, diff: real): Key -> real
  {
    s => if s in e && |Neighbours(adj, s.node)| > 0 then diff * e[s] else 0.0
  }

  /** Everything sent in one diffusion phase is diff times the intensity of
      the entries that have neighbours. */
  lemma OutflowTotal(e: Field, adj: Adjacency, diff: real)
    ensures SumOver(e.Keys, Outflow(e, adj, diff)) == diff * ActiveMass(e, adj)
  {
    SumOverScale(e.Keys, ActiveWeight(e, adj), diff, Outflow(e, adj, diff));
  }

  lemma InflowAdd(e: Field, adj: Adjacency, diff: real, S: set<Key>, s: Key, t: Key)
    requires s !in S
    ensures Inflow(e, adj, diff, S + {s}, t) == Inflow(e, adj, diff, S, t) + Contribution(e, adj, diff, s, t)
  {
    SumOverAdd(S, InflowTerm(e, adj, diff, t), s);
  }

  /** A source sends something to `t` only if `t` is one of its targets. */
  lemma ContributionReachesTarget(e: Field, adj: Adjacency, diff: real, S: set<Key>, s: Key, t: Key)
    requires s in S
    ensures Contribution(e, adj, diff, s, t) != 0.0 ==> t in Targets(adj, S)
  {
  }

  /** A key no source in `S` points at receives nothing from `S`. */
  lemma InflowOutsideTargets(e: Field, adj: Adjacency, diff: real, S: set<Key>, t: Key)
    requires t !in Targets(adj, S)
    ensures Inflow(e, adj, diff, S, t) == 0.0
  {
    forall s | s in S
      ensures Contribution(e, adj, diff, s, t) == 0.0
    {
      ContributionReachesTarget(e, adj, diff, S, s, t);
    }
    SumOverZeroOutside(S, {}, InflowTerm(e, adj, diff, t));
  }

  /** With a non-negative diffusion fraction nothing sends a negative
      amount. */
  lemma InflowNonNegative(e: Field, adj: Adjacency, diff: real, S: set<Key>, t: Key)
    requires diff >= 0.0
    requires forall s :: s in e ==> e[s] >= 0.0
    ensures Inflow(e, adj, diff, S, t) >= 0.0
  {
    forall s | s in S
      ensures Contribution(e, adj, diff, s, t) >= 0.0
    {
      var nb := Neighbours(adj, s.node);
      if s in e && s.kind == t.kind && |nb| > 0 {
        var share := Share(diff, e[s], |nb|);
        assert share >= 0.0;
        RepeatIsProduct(multiset(nb)[t.node], share);
      }
    }
    SumOverNonNegative(S, InflowTerm(e, adj, diff, t));
  }

  /** The evaporation phase keeps exactly the entries whose evaporated value
      is at least the threshold (an entry landing exactly on it is kept),
      scales each by `evap`, and adds no key. */
  lemma EvaporatedEntries(f: Field, evap: real)
    ensures var e := Evaporated(f, evap);
      && e.Keys <= f.Keys
      && (forall t :: t in e <==> t in f && f[t] * evap >= PruneThreshold)
      && (forall t :: t in e ==> e[t] == f[t] * evap && e[t] >= PruneThreshold)
  {
  }

  /** The keys after a step are the survivors of evaporation plus every
      neighbour of a survivor, under the survivor's kind. */
  lemma StepKeys(f: Field, adj: Adjacency, evap: real, diff: real)
    ensures var g := Stepped(f, adj, evap, diff);
      forall t :: t in g <==>
        Survives(f, evap, t) ||
        exists s :: Survives(f, evap, s) && s.kind == t.kind && t.node in Neighbours(adj, s.node)
  {
  }

  /** With diff >= 0, a step leaves no negative value, whatever the input
      field holds: survivors keep at least their evaporated value (the
      source is never debited), which is at least the threshold, and
      diffusion only adds non-negative amounts. */
  lemma StepNonNegative(f: Field, adj: Adjacency, evap: real, diff: real)
    requires diff >= 0.0
    ensures var g := Stepped(f, adj, evap, diff);
      && (forall t :: t in g ==> g[t] >= 0.0)
      && (forall t :: Survives(f, evap, t) ==> t in g && g[t] >= f[t] * evap >= PruneThreshold)
  {
    var e := Evaporated(f, evap);
    var g := Stepped(f, adj, evap, diff);
    forall t | t in g
      ensures g[t] >= Get(e, t) >= 0.0
    {
      if t in Targets(adj, e.Keys) {
        InflowNonNegative(e, adj, diff, e.Keys, t);
      }
    }
  }

  /** With diff = 0 the step is pure evaporation on the surviving keys, but
      every neighbour of a survivor that does not itself survive still gets
      an entry, holding 0.0. */
  lemma StepWithoutDiffusion(f: Field, adj: Adjacency, evap: real)
    ensures var g := Stepped(f, adj, evap, 0.0);
      && (forall t :: Survives(f, evap, t) ==> t in g && g[t] == f[t] * evap)
      && (forall t :: t in g && !Survives(f, evap, t) ==> g[t] == 0.0)
  {
    var e := Evaporated(f, evap);
    var g := Stepped(f, adj, evap, 0.0);
    forall t | t in g
      ensures g[t] == Get(e, t)
    {
      if t in Targets(adj, e.Keys) {
        forall s | s in e.Keys
          ensures InflowTerm(e, adj, 0.0, t)(s) == 0.0
        {
          RepeatIsProduct(multiset(Neighbours(adj, s.node))[t.node], 0.0);
        }
        SumOverZeroOutside(e.Keys, {}, InflowTerm(e, adj, 0.0, t));
      }
    }
  }

  /** Evaporation acts on each entry alone, so it commutes with keeping
      one kind. */
  lemma EvaporatedOfKind(f: Field, evap: real, k: Kind)
    ensures Evaporated(OfKind(f, k), evap) == OfKind(Evaporated(f, evap), k)
  {
    var lhs := Evaporated(OfKind(f, k), evap);
    var rhs := OfKind(Evaporated(f, evap), k);
    forall t | t in lhs
      ensures t in rhs && lhs[t] == rhs[t]
    {
      assert Survives(f, evap, t);
    }
    forall t | t in rhs
      ensures t in lhs
    {
      assert Survives(OfKind(f, k), evap, t);
    }
  }

  /** A key of kind `k` is a target of some source exactly when it is a
      target of some source of kind `k`. */
  lemma TargetsOfKind(adj: Adjacency, e: Field, t: Key)
    ensures t in Targets(adj, e.Keys) <==> t in Targets(adj, OfKind(e, t.kind).Keys)
  {
  }

  /** What a source sends to `t` depends only on the entries of t.kind. */
  lemma ContributionOfKind(e: Field, adj: Adjacency, diff: real, s: Key, t: Key)
    ensures Contribution(e, adj, diff, s, t) == Contribution(OfKind(e, t.kind), adj, diff, s, t)
  {
  }

  /** The sources of kind t.kind are the only ones that send to `t`, and
      what they send depends only on entries of that kind. */
  lemma InflowOfKind(e: Field, adj: Adjacency, diff: real, t: Key)
    ensures var ek := OfKind(e, t.kind);
      Inflow(e, adj, diff, e.Keys, t) == Inflow(ek, adj, diff, ek.Keys, t)
  {
    var ek := OfKind(e, t.kind);
    var term := InflowTerm(e, adj, diff, t);
    var termk := InflowTerm(ek, adj, diff, t);
    forall s | s in e.Keys
      ensures term(s) == termk(s)
    {
      ContributionOfKind(e, adj, diff, s, t);
    }
    SumOverCongruent(e.Keys, term, termk);
    assert ek.Keys <= e.Keys;
    SumOverZeroOutside(e.Keys, ek.Keys, termk);
  }

  /** One entry of a step, read off the evaporated field. */
  lemma SteppedAt(f: Field, adj: Adjacency, evap: real, diff: real, t: Key)
    ensures var e := Evaporated(f, evap);
      var g := Stepped(f, adj, evap, diff);
      && (t in g <==> t in e || t in Targets(adj, e.Keys))
      && (t in g ==> g[t] == Get(e, t) + (if t in Targets(adj, e.Keys) then Inflow(e, adj, diff, e.Keys, t) else 0.0))
  {
  }

  /** A field holding the evaporated entries plus their inflow on every
      target is the step. */
  lemma SteppedFromDiffusion(f: Field, adj: Adjacency, evap: real, diff: real, g: Field)
    requires var e := Evaporated(f, evap);
      && g.Keys == e.Keys + Targets(adj, e.Keys)
      && (forall t :: t in g ==>
            g[t] == Get(e, t) + (if t in Targets(adj, e.Keys) then Inflow(e, adj, diff, e.Keys, t) else 0.0))
    ensures g == Stepped(f, adj, evap, diff)
  {
  }

  /** Kinds do not interact: stepping a field and then keeping kind `k` is
      the same as stepping only the kind-`k` entries. */
  lemma StepPerKind(f: Field, adj: Adjacency, evap: real, diff: real, k: Kind)
    ensures OfKind(Stepped(f, adj, evap, diff), k) == Stepped(OfKind(f, k), adj, evap, diff)
  {
    var lhs := OfKind(Stepped(f, adj, evap, diff), k);
    var rhs := Stepped(OfKind(f, k), adj, evap, diff);
    forall t
      ensures t in lhs <==> t in rhs
      ensures t in lhs ==> lhs[t] == rhs[t]
    {
      StepPerKindAt(f, adj, evap, diff, k, t);
    }
    assert lhs.Keys == rhs.Keys;
  }

  /** StepPerKind at one key. */
  lemma StepPerKindAt(f: Field, adj: Adjacency, evap: real, diff: real, k: Kind, t: Key)
    ensures var lhs := OfKind(Stepped(f, adj, evap, diff), k);
      var rhs := Stepped(OfKind(f, k), adj, evap, diff);
      (t in lhs <==> t in rhs) && (t in lhs ==> lhs[t] == rhs[t])
  {
    var e := Evaporated(f, evap);
    var fk := OfKind(f, k);
    assert Evaporated(fk, evap) == OfKind(e, k) by {
      EvaporatedOfKind(f, evap, k);
    }
    if t.kind == k {
      SameKindAt(f, adj, evap, diff, t);
    } else {
      SteppedAt(fk, adj, evap, diff, t);
      TargetsOfKind(adj, OfKind(e, k), t);
    }
  }

  /** The entry of a key of kind `k` after a step depends only on the
      kind-`k` entries. */
  lemma SameKindAt(f: Field, adj: Adjacency, evap: real, diff: real, t: Key)
    requires Evaporated(OfKind(f, t.kind), evap) == OfKind(Evaporated(f, evap), t.kind)
    ensures var g := Stepped(f, adj, evap, diff);
      var gk := Stepped(OfKind(f, t.kind), adj, evap, diff);
      (t in g <==> t in gk) && (t in g ==> g[t] == gk[t])
  {
    var e := Evaporated(f, evap);
    var ek := OfKind(e, t.kind);
    SteppedAt(f, adj, evap, diff, t);
    SteppedAt(OfKind(f, t.kind), adj, evap, diff, t);
    TargetsOfKind(adj, e, t);
    InflowOfKind(e, adj, diff, t);
    assert Get(e, t) == Get(ek, t);
  }

  /** Two fields that agree on kind `k` still agree on kind `k` after a
      step, whatever their other kinds hold. */
  lemma KindIsolation(f1: Field, f2: Field, adj: Adjacency, evap: real, diff: real, k: Kind)
    requires OfKind(f1, k) == OfKind(f2, k)
    ensures OfKind(Stepped(f1, adj, evap, diff), k) == OfKind(Stepped(f2, adj, evap, diff), k)
  {
    StepPerKind(f1, adj, evap, diff, k);
    StepPerKind(f2, adj, evap, diff, k);
  }

  /** The state of the increment map once the sources in `done` have been
      processed: it holds the targets of `done` and what `done` sends them,
      which in total is diff times the intensity of the sources in `done`
      that have neighbours. */
  ghost predicate IncrementsSoFar(e: Field, adj: Adjacency, diff: real, done: set<Key>, inc: Field)
  {
    && inc.Keys == Targets(adj, done)
    && (forall t :: t in inc ==> inc[t] == Inflow(e, adj, diff, done, t))
    && Mass(inc) == SumOver(done, Outflow(e, adj, diff))
  }

  /** The increment map after one source's share has been added to each
      occurrence in its neighbour list `nb` under kind `k`, starting from
      `inc`; `Sent(inc, nb[..i], ...)` describes the inner loop after `i`
      neighbours. */
  ghost predicate Sent(inc: Field, nb: seq<Node>, k: Kind, share: real, inc': Field)
  {
    && inc'.Keys == inc.Keys + Spread(nb, k)
    && (forall t :: t in inc' ==>
          inc'[t] == Get(inc, t) + (if t.kind == k then Repeat(multiset(nb)[t.node], share) else 0.0))
    && Mass(inc') == Mass(inc) + Repeat(|nb|, share)
  }

  lemma SentNothing(inc: Field, k: Kind, share: real)
    ensures Sent(inc, [], k, share, inc)
  {
  }

  /** Adding the share for one more neighbour occurrence `j`. */
  lemma SentOneMore(inc: Field, nb: seq<Node>, j: Node, k: Kind, share: real, cur: Field)
    requires Sent(inc, nb, k, share, cur)
    ensures var u := Key(j, k);
      Sent(inc, nb + [j], k, share, cur[u := Get(cur, u) + share])
  {
    SpreadOneMore(nb, j, k);
    SentValuesOneMore(inc, nb, j, k, share, cur);
    SentMassOneMore(inc, nb, j, k, share, cur);
  }

  lemma SpreadOneMore(nb: seq<Node>, j: Node, k: Kind)
    ensures Spread(nb + [j], k) == Spread(nb, k) + {Key(j, k)}
  {
  }

  lemma SentMassOneMore(inc: Field, nb: seq<Node>, j: Node, k: Kind, share: real, cur: Field)
    requires Mass(cur) == Mass(inc) + Repeat(|nb|, share)
    ensures Mass(cur[Key(j, k) := Get(cur, Key(j, k)) + share]) == Mass(inc) + Repeat(|nb + [j]|, share)
  {
    MassAddTo(cur, Key(j, k), share);
    assert Repeat(|nb + [j]|, share) == Repeat(|nb|, share) + share by {
      assert |nb + [j]| == |nb| + 1;
    }
  }

  lemma SentValuesOneMore(inc: Field, nb: seq<Node>, j: Node, k: Kind, share: real, cur: Field)
    requires cur.Keys == inc.Keys + Spread(nb, k)
    requires forall t :: t in cur ==>
      cur[t] == Get(inc, t) + (if t.kind == k then Repeat(multiset(nb)[t.node], share) else 0.0)
    ensures var next := cur[Key(j, k) := Get(cur, Key(j, k)) + share];
      forall t :: t in next ==>
        next[t] == Get(inc, t) + (if t.kind == k then Repeat(multiset(nb + [j])[t.node], share) else 0.0)
  {
  }

  /** What processing source `s` does to the increment map: nothing when
      it has no neighbours, otherwise its share is sent to every neighbour
      occurrence. */
  ghost predicate Processed(e: Field, adj: Adjacency, diff: real, s: Key, inc: Field, inc': Field)
    requires s in e
  {
    var nb := Neighbours(adj, s.node);
    if |nb| == 0 then inc' == inc else Sent(inc, nb, s.kind, Share(diff, e[s], |nb|), inc')
  }

  /** Processing one more source `s` extends the increments of `done` to
      those of `done + {s}`. */
  lemma IncrementsAdvance(e: Field, adj: Adjacency, diff: real, done: set<Key>, s: Key, inc: Field, inc': Field)
    requires s in e && s !in done
    requires IncrementsSoFar(e, adj, diff, done, inc)
    requires Processed(e, adj, diff, s, inc, inc')
    ensures IncrementsSoFar(e, adj, diff, done + {s}, inc')
  {
    TargetsAdd(adj, done, s);
    IncrementsValuesAdvance(e, adj, diff, done, s, inc, inc');
    IncrementsMassAdvance(e, adj, diff, done, s, inc, inc');
  }

  lemma IncrementsValuesAdvance(e: Field, adj: Adjacency, diff: real, done: set<Key>, s: Key, inc: Field, inc': Field)
    requires s in e && s !in done
    requires inc.Keys == Targets(adj, done)
    requires forall t :: t in inc ==> inc[t] == Inflow(e, adj, diff, done, t)
    requires Processed(e, adj, diff, s, inc, inc')
    ensures forall t :: t in inc' ==> inc'[t] == Inflow(e, adj, diff, done + {s}, t)
  {
    forall t | t in inc'
      ensures inc'[t] == Inflow(e, adj, diff, done + {s}, t)
    {
      InflowAdd(e, adj, diff, done, s, t);
      assert Get(inc, t) == Inflow(e, adj, diff, done, t) by {
        if t !in inc {
          InflowOutsideTargets(e, adj, diff, done, t);
        }
      }
      SentEntry(e, adj, diff, s, inc, inc', t);
    }
  }

  lemma IncrementsMassAdvance(e: Field, adj: Adjacency, diff: real, done: set<Key>, s: Key, inc: Field, inc': Field)
    requires s in e && s !in done
    requires Mass(inc) == SumOver(done, Outflow(e, adj, diff))
    requires Processed(e, adj, diff, s, inc, inc')
    ensures Mass(inc') == SumOver(done + {s}, Outflow(e, adj, diff))
  {
    SumOverAdd(done, Outflow(e, adj, diff), s);
    ProcessedMass(e, adj, diff, s, inc, inc');
  }

  /** Processing source `s` adds exactly its outflow to the increments. */
  lemma ProcessedMass(e: Field, adj: Adjacency, diff: real, s: Key, inc: Field, inc': Field)
    requires s in e
    requires Processed(e, adj, diff, s, inc, inc')
    ensures Mass(inc') == Mass(inc) + Outflow(e, adj, diff)(s)
  {
    var nb := Neighbours(adj, s.node);
    if |nb| > 0 {
      SentShareMass(inc, nb, s.kind, diff, e[s], inc');
    }
  }

  /** Sending the shares of intensity `x` to every occurrence of `nb` adds
      diff * x to the increments in total. */
  lemma SentShareMass(inc: Field, nb: seq<Node>, k: Kind, diff: real, x: real, inc': Field)
    requires |nb| > 0
    requires Sent(inc, nb, k, Share(diff, x, |nb|), inc')
    ensures Mass(inc') == Mass(inc) + diff * x
  {
    RepeatShare(|nb|, diff, x);
  }

  /** One entry of the increment map after source `s` was processed. */
  lemma SentEntry(e: Field, adj: Adjacency, diff: real, s: Key, inc: Field, inc': Field, t: Key)
    requires s in e && t in inc'
    requires Processed(e, adj, diff, s, inc, inc')
    ensures inc'[t] == Get(inc, t) + Contribution(e, adj, diff, s, t)
  {
  }

  /** The field once the increments of the keys in `done` have been added
      to the evaporated field `e`. */
  ghost predicate AppliedSoFar(e: Field, inc: Field, done: set<Key>, g: Field)
    requires done <= inc.Keys
  {
    && g.Keys == e.Keys + done
    && (forall t :: t in g ==> g[t] == Get(e, t) + (if t in done then inc[t] else 0.0))
    && Mass(g) == Mass(e) + SumOver(done, ValueOf(inc))
  }

  /** Adding the increment of one more key `t`. */
  lemma AppliedOneMore(e: Field, inc: Field, done: set<Key>, t: Key, g: Field)
    requires done <= inc.Keys && t in inc && t !in done
    requires AppliedSoFar(e, inc, done, g)
    ensures AppliedSoFar(e, inc, done + {t}, g[t := Get(g, t) + inc[t]])
  {
    AppliedValuesOneMore(e, inc, done, t, g);
    AppliedMassOneMore(e, inc, done, t, g);
  }

  lemma AppliedValuesOneMore(e: Field, inc: Field, done: set<Key>, t: Key, g: Field)
    requires done <= inc.Keys && t in inc && t !in done
    requires g.Keys == e.Keys + done
    requires forall x :: x in g ==> g[x] == Get(e, x) + (if x in done then inc[x] else 0.0)
    ensures var g' := g[t := Get(g, t) + inc[t]];
      forall x :: x in g' ==> g'[x] == Get(e, x) + (if x in done + {t} then inc[x] else 0.0)
  {
  }

  lemma AppliedMassOneMore(e: Field, inc: Field, done: set<Key>, t: Key, g: Field)
    requires t in inc && t !in done
    requires Mass(g) == Mass(e) + SumOver(done, ValueOf(inc))
    ensures Mass(g[t := Get(g, t) + inc[t]]) == Mass(e) + SumOver(done + {t}, ValueOf(inc))
  {
    calc {
      Mass(g[t := Get(g, t) + inc[t]]);
      { MassAddTo(g, t, inc[t]); }
      Mass(g) + inc[t];
      Mass(e) + SumOver(done, ValueOf(inc)) + inc[t];
      { SumOverAddValue(done, inc, t); }
      Mass(e) + SumOver(done + {t}, ValueOf(inc));
    }
  }

  /** Adding `x` to one entry adds `x` to the mass. */
  lemma MassAddTo(g: Field, t: Key, x: real)
    ensures Mass(g[t := Get(g, t) + x]) == Mass(g) + x
  {
    MassUpdate(g, t, Get(g, t) + x);
    assert ValueOf(g)(t) == Get(g, t);
  }

  lemma SumOverAddValue(done: set<Key>, inc: Field, t: Key)
    requires t in inc && t !in done
    ensures SumOver(done + {t}, ValueOf(inc)) == SumOver(done, ValueOf(inc)) + inc[t]
  {
    SumOverAdd(done, ValueOf(inc), t);
    assert ValueOf(inc)(t) == inc[t];
  }
}
