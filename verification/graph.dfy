/** The topology the field diffuses over: an adjacency map from node to an
    ordered list of neighbours.  A node missing from the map has none. */
module Graph {

  type Node = int

  type Adjacency = map<Node, seq<Node>>

  /** The neighbour list of `i`, empty when `i` is not a key of `adj`. */
  function Neighbours(adj: Adjacency, i: Node): seq<Node>
  {
    if i in adj then adj[i] else []
  }

  /** The next node clockwise on the six-node ring 1..6. */
  function RingNext(i: Node): Node
  {
    i % 6 + 1
  }

  /** The seven-node honeycomb cell: a centre 0 joined to every node of the
      ring 1..6, each ring node also joined to its two ring neighbours.  The
      lists are in the order the construction appends to them. */
  function Honeycomb7(): (adj: Adjacency)
    ensures forall i :: i in adj <==> 0 <= i < 7
  {
    map[0 := [1, 2, 3, 4, 5, 6],
        1 := [0, 2, 6],
        2 := [0, 1, 3],
        3 := [0, 2, 4],
        4 := [0, 3, 5],
        5 := [0, 4, 6],
        6 := [0, 5, 1]]
  }

  /** The honeycomb is an undirected graph without self-loops. */
  lemma Honeycomb7Symmetric()
    ensures var adj := Honeycomb7();
      forall i, j :: i in adj && j in adj[i] ==> j in adj && i in adj[j] && i != j
  {
  }

  /** The centre touches all six ring nodes; each ring node touches the
      centre and its two ring neighbours, and nothing else. */
  lemma Honeycomb7Degrees()
    ensures var adj := Honeycomb7();
      && |adj[0]| == 6 && (forall i :: 1 <= i < 7 ==> i in adj[0])
      && (forall i :: 1 <= i < 7 ==>
            |adj[i]| == 3 && 0 in adj[i] && RingNext(i) in adj[i] && i in adj[RingNext(i)])
  {
  }
}
