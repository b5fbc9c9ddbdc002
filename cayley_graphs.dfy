/**
 * The Cayley graph of a finite group and a list of generators: the group
 * elements are vertices and every element g is joined to s * g for every
 * generator s. Edges are undirected, so an edge is the set of its end points
 * and a self-loop is a singleton.
 */
module CayleyGraphs {
  import opened Groups

  /** The edge {g, s * g}; a singleton when s * g == g. */
  function Edge<T>(op: (T, T) -> T, s: T, g: T): set<T>
  {
    {g, op(s, g)}
  }

  /** The edges added for one vertex g and the generators S, in order. */
  function EdgesFrom<T>(op: (T, T) -> T, g: T, S: seq<T>): set<set<T>>
    decreases |S|
  {
    if |S| == 0 then {} else EdgesFrom(op, g, S[..|S| - 1]) + {Edge(op, S[|S| - 1], g)}
  }

  /** The edges added for the vertices E and the generators S. */
  function Edges<T>(op: (T, T) -> T, E: seq<T>, S: seq<T>): set<set<T>>
    decreases |E|
  {
    if |E| == 0 then {} else Edges(op, E[..|E| - 1], S) + EdgesFrom(op, E[|E| - 1], S)
  }

  /** The end points s * g that `add_edge` adds as vertices. */
  function TargetsFrom<T>(op: (T, T) -> T, g: T, S: seq<T>): set<T>
    decreases |S|
  {
    if |S| == 0 then {} else TargetsFrom(op, g, S[..|S| - 1]) + {op(S[|S| - 1], g)}
  }

  function Targets<T>(op: (T, T) -> T, E: seq<T>, S: seq<T>): set<T>
    decreases |E|
  {
    if |E| == 0 then {} else Targets(op, E[..|E| - 1], S) + TargetsFrom(op, E[|E| - 1], S)
  }

  /** The vertices of the graph: the elements and every end point of an edge. */
  function Vertices<T>(G: Group<T>, S: seq<T>): set<T>
  {
    (set g | g in G.elements) + Targets(G.operation, G.elements, S)
  }

  /** networkx's degree: the edges at v, with a self-loop counted twice. */
  function Degree<T>(edges: set<set<T>>, v: T): (d: nat)
    ensures d == |set e | e in edges && v in e && e != {v}| + (if {v} in edges then 2 else 0)
  {
    DegreeSplit(edges, v);
    |set e | e in edges && v in e| + (if {v} in edges then 1 else 0)
  }

  /** The edges at v are the proper ones plus, if present, the self-loop {v}. */
  lemma DegreeSplit<T>(edges: set<set<T>>, v: T)
    ensures |set e | e in edges && v in e| ==
            |set e | e in edges && v in e && e != {v}| + (if {v} in edges then 1 else 0)
  {
    var all := set e | e in edges && v in e;
    var proper := set e | e in edges && v in e && e != {v};
    if {v} in edges {
      assert all == proper + {{v}};
    } else {
      assert all == proper;
    }
  }

  /** `CayleyGraph`: the graph together with the data it was built from. */
  class CayleyGraph<T(==)> {
    var vertices: set<T>
    var edges: set<set<T>>
    var group: Group<T>
    var generators: seq<T>
    var degree: nat

    /**
     * Adds every element as a vertex, then the edge {g, s * g} for every element g
     * and generator s; the degree is read off at the designated vertex v.
     */
    constructor (group: Group<T>, generators: seq<T>, v: T)
      requires v in group.elements
      ensures this.group == group && this.generators == generators
      ensures vertices == Vertices(group, generators)
      ensures edges == Edges(group.operation, group.elements, generators)
      ensures degree == Degree(edges, v)
    {
      var E := group.elements;
      var vs: set<T> := set g | g in E;
      var es: set<set<T>> := {};
      var i := 0;
      while i < |E|
        invariant 0 <= i <= |E|
        invariant vs == (set g | g in E) + Targets(group.operation, E[..i], generators)
        invariant es == Edges(group.operation, E[..i], generators)
      {
        var g := E[i];
        var j := 0;
        while j < |generators|
          invariant 0 <= j <= |generators|
          invariant vs == (set g | g in E) + Targets(group.operation, E[..i], generators)
                          + TargetsFrom(group.operation, g, generators[..j])
          invariant es == Edges(group.operation, E[..i], generators)
                          + EdgesFrom(group.operation, g, generators[..j])
        {
          var s := generators[j];
          vs := vs + {g, group.operation(s, g)};
          es := es + {{g, group.operation(s, g)}};
          assert generators[..j + 1][..j] == generators[..j];
          j := j + 1;
        }
        assert generators[..j] == generators;
        assert E[..i + 1][..i] == E[..i];
        i := i + 1;
      }
      assert E[..i] == E;
      this.vertices := vs;
      this.edges := es;
      this.group := group;
      this.generators := generators;
      this.degree := Degree(es, v);
    }
  }

  // ---------------------------------------------------------------------
  // Lemmas

  lemma {:induction false} EdgesFromMember<T>(op: (T, T) -> T, g: T, S: seq<T>, e: set<T>)
    ensures e in EdgesFrom(op, g, S) <==> exists s :: s in S && e == Edge(op, s, g)
    decreases |S|
  {
    if |S| > 0 {
      var S' := S[..|S| - 1];
      EdgesFromMember(op, g, S', e);
      if e in EdgesFrom(op, g, S') {
        var s :| s in S' && e == Edge(op, s, g);
        assert s in S;
      }
      if exists s :: s in S && e == Edge(op, s, g) {
        var s :| s in S && e == Edge(op, s, g);
        if s != S[|S| - 1] {
          var k :| 0 <= k < |S| && S[k] == s;
          assert S'[k] == s;
        }
      }
    }
  }

  /** Every edge is {g, s * g} for an element g and a generator s, and every such set is an edge. */
  lemma {:induction false} EdgesMember<T>(op: (T, T) -> T, E: seq<T>, S: seq<T>, e: set<T>)
    ensures e in Edges(op, E, S) <==> exists g, s :: g in E && s in S && e == Edge(op, s, g)
    decreases |E|
  {
    if |E| > 0 {
      var E' := E[..|E| - 1];
      var last := E[|E| - 1];
      EdgesMember(op, E', S, e);
      EdgesFromMember(op, last, S, e);
      if e in Edges(op, E', S) {
        var g, s :| g in E' && s in S && e == Edge(op, s, g);
        assert g in E;
      }
      if exists g, s :: g in E && s in S && e == Edge(op, s, g) {
        var g, s :| g in E && s in S && e == Edge(op, s, g);
        if g != last {
          var k :| 0 <= k < |E| && E[k] == g;
          assert E'[k] == g;
        } else {
          assert e in EdgesFrom(op, last, S);
        }
      }
    }
  }

  lemma {:induction false} TargetsFromMember<T>(op: (T, T) -> T, g: T, S: seq<T>, x: T)
    ensures x in TargetsFrom(op, g, S) <==> exists s :: s in S && x == op(s, g)
    decreases |S|
  {
    if |S| > 0 {
      var S' := S[..|S| - 1];
      TargetsFromMember(op, g, S', x);
      if x in TargetsFrom(op, g, S') {
        var s :| s in S' && x == op(s, g);
        assert s in S;
      }
      if exists s :: s in S && x == op(s, g) {
        var s :| s in S && x == op(s, g);
        if s != S[|S| - 1] {
          var k :| 0 <= k < |S| && S[k] == s;
          assert S'[k] == s;
        }
      }
    }
  }

  lemma {:induction false} TargetsMember<T>(op: (T, T) -> T, E: seq<T>, S: seq<T>, x: T)
    ensures x in Targets(op, E, S) <==> exists g, s :: g in E && s in S && x == op(s, g)
    decreases |E|
  {
    if |E| > 0 {
      var E' := E[..|E| - 1];
      var last := E[|E| - 1];
      TargetsMember(op, E', S, x);
      TargetsFromMember(op, last, S, x);
      if x in Targets(op, E', S) {
        var g, s :| g in E' && s in S && x == op(s, g);
        assert g in E;
      }
      if exists g, s :: g in E && s in S && x == op(s, g) {
        var g, s :| g in E && s in S && x == op(s, g);
        if g != last {
          var k :| 0 <= k < |E| && E[k] == g;
          assert E'[k] == g;
        } else {
          assert x in TargetsFrom(op, last, S);
        }
      }
    }
  }

  /**
   * When the operation is closed on the elements and the generators are elements,
   * the graph has no vertex besides the group elements.
   */
  lemma VerticesOfClosedGroup<T>(G: Group<T>, S: seq<T>)
    requires Closed(G)
    requires forall s :: s in S ==> s in G.elements
    ensures Vertices(G, S) == set g | g in G.elements
  {
    forall x | x in Targets(G.operation, G.elements, S) ensures x in G.elements {
      TargetsMember(G.operation, G.elements, S, x);
      var g, s :| g in G.elements && s in S && x == G.operation(s, g);
    }
  }

  /** Each element g is adjacent to s * g for each generator s. */
  lemma GeneratorEdges<T>(G: Group<T>, S: seq<T>, g: T, s: T)
    requires g in G.elements && s in S
    ensures {g, G.operation(s, g)} in Edges(G.operation, G.elements, S)
    ensures {G.operation(s, g), g} in Edges(G.operation, G.elements, S)
  {
    EdgesMember(G.operation, G.elements, S, Edge(G.operation, s, g));
    assert {G.operation(s, g), g} == {g, G.operation(s, g)};
  }

  /** An element carries a self-loop exactly when some generator fixes it. */
  lemma SelfLoops<T>(G: Group<T>, S: seq<T>, v: T)
    requires v in G.elements
    ensures {v} in Edges(G.operation, G.elements, S) <==> exists s :: s in S && G.operation(s, v) == v
  {
    EdgesMember(G.operation, G.elements, S, {v});
    if exists s :: s in S && G.operation(s, v) == v {
      var s :| s in S && G.operation(s, v) == v;
      assert Edge(G.operation, s, v) == {v};
    }
    if {v} in Edges(G.operation, G.elements, S) {
      var g, s :| g in G.elements && s in S && {v} == Edge(G.operation, s, g);
      assert g in {v} && G.operation(s, g) in {v};
    }
  }

  /** Every edge joins at most two vertices, and its end points are vertices. */
  lemma EdgeEnds<T>(G: Group<T>, S: seq<T>, e: set<T>)
    requires e in Edges(G.operation, G.elements, S)
    ensures 1 <= |e| <= 2
    ensures forall x :: x in e ==> x in Vertices(G, S)
  {
    EdgesMember(G.operation, G.elements, S, e);
    var g, s :| g in G.elements && s in S && e == Edge(G.operation, s, g);
    TargetsMember(G.operation, G.elements, S, G.operation(s, g));
    if G.operation(s, g) == g {
      assert e == {g};
    } else {
      assert |e| == 2;
    }
  }
}
