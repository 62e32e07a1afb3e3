/** The world: a topology, the evaporation and diffusion parameters, and the
    field they act on.  `Step` follows the two phases of `World.step`
    (evaporate-and-prune in place, then collect increments and add them) and
    is proved equal to the declarative `SignalField.Stepped`.  The order in
    which a loop visits keys is left open (`:|`), so every contract below
    holds for every iteration order of the dictionary. */
module Worlds {
  import opened Sums
  import opened Graph
  import opened SignalField

  /** No parameter is validated: `evap` and `diff` may be any real. */
  datatype World = World(adj: Adjacency, evap: real, diff: real, field: Field)

  /** The evaporation phase: each entry is scaled by `evap` and deleted when
      the result is strictly below the threshold; no key is added. */
  method Evaporate(f: Field, evap: real) returns (e: Field)
    ensures forall t :: t in e <==> t in f && f[t] * evap >= PruneThreshold
    ensures forall t :: t in e ==> e[t] == f[t] * evap
    ensures e == Evaporated(f, evap)
  {
    e := f;
    var todo := f.Keys;
    while todo != {}
      invariant todo <= f.Keys
      invariant forall t :: t in e <==> t in todo || Survives(f, evap, t)
      invariant forall t :: t in e ==> e[t] == if t in todo then f[t] else f[t] * evap
      decreases todo
    {
      var t :| t in todo;
      e := e[t := e[t] * evap];
      if e[t] < PruneThreshold {
        e := e - {t};
      }
      todo := todo - {t};
    }
    EvaporatedUnique(f, evap, e);
  }

  /** The inner diffusion loop for one source: `share` is added to the
      entry of every occurrence in `nb`, under kind `k`.  A neighbour that
      occurs twice receives the share twice. */
  method Send(inc: Field, nb: seq<Node>, k: Kind, share: real) returns (inc': Field)
    ensures Sent(inc, nb, k, share, inc')
  {
    inc' := inc;
    SentNothing(inc, k, share);
    var i := 0;
    while i < |nb|
      invariant 0 <= i <= |nb|
      invariant Sent(inc, nb[..i], k, share, inc')
    {
      SentOneMore(inc, nb[..i], nb[i], k, share, inc');
      inc' := inc'[Key(nb[i], k) := Get(inc', Key(nb[i], k)) + share];
      assert nb[..i + 1] == nb[..i] + [nb[i]];
      i := i + 1;
    }
    assert nb[..i] == nb;
  }

  /** The increments of the diffusion phase, all computed from the
      evaporated field `e`: every source with a non-empty neighbour list
      adds diff * e[s] / |neighbours| to each neighbour occurrence, under
      its own kind.  Their total is diff times the intensity of the sources
      that have neighbours. */
  method Increments(e: Field, adj: Adjacency, diff: real) returns (inc: Field)
    ensures inc.Keys == Targets(adj, e.Keys)
    ensures forall t :: t in inc ==> inc[t] == Inflow(e, adj, diff, e.Keys, t)
    ensures Mass(inc) == diff * ActiveMass(e, adj)
  {
    inc := map[];
    var todo := e.Keys;
    ghost var done: set<Key> := {};
    while todo != {}
      invariant todo + done == e.Keys && todo !! done
      invariant IncrementsSoFar(e, adj, diff, done, inc)
      decreases todo
    {
      var s :| s in todo;
      var nb := Neighbours(adj, s.node);
      ghost var inc0 := inc;
      if |nb| > 0 {
        var share := Share(diff, e[s], |nb|);
        inc := Send(inc, nb, s.kind, share);
      }
      IncrementsAdvance(e, adj, diff, done, s, inc0, inc);
      todo := todo - {s};
      done := done + {s};
    }
    OutflowTotal(e, adj, diff);
  }

  /** Adding the increments to the evaporated field: every key of either
      map is present afterwards, holding the sum of the two values, and the
      total intensity is the sum of both totals. */
  method ApplyIncrements(e: Field, inc: Field) returns (g: Field)
    ensures g.Keys == e.Keys + inc.Keys
    ensures forall t :: t in g ==> g[t] == Get(e, t) + Get(inc, t)
    ensures Mass(g) == Mass(e) + Mass(inc)
  {
    g := e;
    var todo := inc.Keys;
    ghost var done: set<Key> := {};
    while todo != {}
      invariant todo + done == inc.Keys && todo !! done
      invariant AppliedSoFar(e, inc, done, g)
      decreases todo
    {
      var t :| t in todo;
      AppliedOneMore(e, inc, done, t, g);
      g := g[t := Get(g, t) + inc[t]];
      todo := todo - {t};
      done := done + {t};
    }
  }

  /** The diffusion phase on the evaporated field `e`: the increments are
      all computed from `e` and then added to it. */
  method Diffuse(e: Field, adj: Adjacency, diff: real) returns (g: Field)
    ensures g.Keys == e.Keys + Targets(adj, e.Keys)
    ensures forall t :: t in g ==>
      g[t] == Get(e, t) + (if t in Targets(adj, e.Keys) then Inflow(e, adj, diff, e.Keys, t) else 0.0)
    ensures Mass(g) == Mass(e) + diff * ActiveMass(e, adj)
  {
    var inc := Increments(e, adj, diff);
    g := ApplyIncrements(e, inc);
  }

  /** One step of the world.  Only the field changes; it becomes the
      declarative step of the old field, and its total intensity is the
      evaporated total plus `diff` times the evaporated intensity of the
      entries that have neighbours: a source is not debited for what it
      sends, so the total is not conserved. */
  method Step(w: World) returns (w': World)
    ensures w' == w.(field := Stepped(w.field, w.adj, w.evap, w.diff))
    ensures var e := Evaporated(w.field, w.evap);
      Mass(w'.field) == Mass(e) + w.diff * ActiveMass(e, w.adj)
  {
    var e := Evaporate(w.field, w.evap);
    var g := Diffuse(e, w.adj, w.diff);
    SteppedFromDiffusion(w.field, w.adj, w.evap, w.diff, g);
    w' := w.(field := g);
  }
}
