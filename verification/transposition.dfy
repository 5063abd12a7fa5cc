/** The transpose of an edge relation, in the shape `Traspose` builds it. */
module Transposition {
  import opened KeyedLists
  import opened Digraphs

  /** The vertices of `order` that have an edge to v, in the order of `order`. */
  function Sources(order: seq<int>, E: map<int, seq<int>>, v: int): (r: seq<int>)
    requires forall i :: 0 <= i < |order| ==> order[i] in E
    ensures forall u :: u in r <==> u in order && v in E[u]
    ensures Distinct(order) ==> Distinct(r)
  {
    if order == [] then []
    else
      var last := order[|order| - 1];
      var front := order[..|order| - 1];
      assert forall u :: u in order <==> u in front || u == last;
      assert Distinct(order) ==> Distinct(front) && last !in front;
      Sources(front, E, v) + (if v in E[last] then [last] else [])
  }

  /**
   * The transposed edge lists over the vertices `order`: v's list holds every u with
   * an edge u -> v, in the order of `order`.
   */
  function Transposed(order: seq<int>, E: map<int, seq<int>>): (T: map<int, seq<int>>)
    requires forall i :: 0 <= i < |order| ==> order[i] in E
    ensures forall v :: v in T <==> v in order
    ensures forall u, v :: v in T ==> (u in T[v] <==> u in order && v in E[u])
    ensures Distinct(order) ==> forall v :: v in T ==> Distinct(T[v])
  {
    map v | v in order :: Sources(order, E, v)
  }

  /** Over a closed vertex set, an edge u -> v exists exactly when v -> u is transposed. */
  lemma TransposedEdge(order: seq<int>, E: map<int, seq<int>>, u: int, v: int)
    requires forall i :: 0 <= i < |order| ==> order[i] in E
    requires forall x :: x in E <==> x in order
    requires EdgesInGraph(E)
    ensures Edge(E, u, v) <==> Edge(Transposed(order, E), v, u)
  {
  }

  /** Transposing twice gives back the original edge relation. */
  lemma TransposeInvolution(order: seq<int>, E: map<int, seq<int>>)
    requires forall i :: 0 <= i < |order| ==> order[i] in E
    requires forall x :: x in E <==> x in order
    requires EdgesInGraph(E)
    ensures var TT := Transposed(order, Transposed(order, E));
      TT.Keys == E.Keys && forall u, v :: Edge(TT, u, v) <==> Edge(E, u, v)
  {
    var T := Transposed(order, E);
    assert forall i :: 0 <= i < |order| ==> order[i] in T;
    var TT := Transposed(order, T);
    assert forall x :: x in TT.Keys <==> x in E.Keys;
    forall u, v ensures Edge(TT, u, v) <==> Edge(E, u, v) {
      TransposedEdge(order, E, v, u);
      if u in order && v in order {
        assert Edge(TT, u, v) <==> Edge(T, v, u);
      }
    }
  }

  /**
   * The transposed lists once the sources `order[..i]` have had all their edges
   * reversed: v's list holds the sources among them with an edge to v.
   */
  ghost function Done(order: seq<int>, E: map<int, seq<int>>, i: nat): (T: map<int, seq<int>>)
    requires i <= |order| && forall k :: 0 <= k < |order| ==> order[k] in E
    ensures forall v :: v in T <==> v in order
  {
    map v | v in order :: Sources(order[..i], E, v)
  }

  /**
   * The transposed lists while the source `order[i]` is being processed, after its
   * first `j` targets.
   */
  ghost function Doing(order: seq<int>, E: map<int, seq<int>>, i: nat, j: nat): (T: map<int, seq<int>>)
    requires i < |order| && forall k :: 0 <= k < |order| ==> order[k] in E
    requires j <= |E[order[i]]|
    ensures forall v :: v in T <==> v in order
  {
    map v | v in order :: Sources(order[..i], E, v) + (if v in E[order[i]][..j] then [order[i]] else [])
  }

  /** Before any source is processed, every list is empty. */
  lemma DoneNone(order: seq<int>, E: map<int, seq<int>>)
    requires forall k :: 0 <= k < |order| ==> order[k] in E
    ensures Done(order, E, 0) == map v | v in order :: []
  {
  }

  /** Once every source is processed, the lists are the transpose. */
  lemma DoneAll(order: seq<int>, E: map<int, seq<int>>)
    requires forall k :: 0 <= k < |order| ==> order[k] in E
    ensures Done(order, E, |order|) == Transposed(order, E)
  {
    assert order[..|order|] == order;
  }

  /** Starting on source `order[i]` changes nothing yet. */
  lemma DoingStart(order: seq<int>, E: map<int, seq<int>>, i: nat)
    requires i < |order| && forall k :: 0 <= k < |order| ==> order[k] in E
    ensures Doing(order, E, i, 0) == Done(order, E, i)
  {
    assert E[order[i]][..0] == [];
    forall v | v in order ensures Doing(order, E, i, 0)[v] == Done(order, E, i)[v] {
      assert Sources(order[..i], E, v) + [] == Sources(order[..i], E, v);
    }
  }

  /** Finishing source `order[i]` completes the lists for `order[..i + 1]`. */
  lemma DoingEnd(order: seq<int>, E: map<int, seq<int>>, i: nat)
    requires i < |order| && forall k :: 0 <= k < |order| ==> order[k] in E
    ensures Doing(order, E, i, |E[order[i]]|) == Done(order, E, i + 1)
  {
    var u := order[i];
    assert E[u][..|E[u]|] == E[u];
    assert order[..i + 1][..i] == order[..i];
    assert order[..i + 1][i] == u;
  }

  /**
   * Reversing the edge from `order[i]` to its `j`-th target v appends `order[i]` to v's
   * list, where it is not yet: the step `Traspose` takes with `AddEdge`.
   */
  lemma DoingStep(order: seq<int>, E: map<int, seq<int>>, i: nat, j: nat, T: map<int, seq<int>>, u: int, v: int)
    requires i < |order| && forall k :: 0 <= k < |order| ==> order[k] in E
    requires Distinct(order) && Distinct(E[order[i]])
    requires j < |E[order[i]]| && E[order[i]][j] in order
    requires u == order[i] && v == E[u][j] && T == Doing(order, E, i, j)
    ensures v in T && u !in T[v] && Doing(order, E, i, j + 1) == T[v := T[v] + [u]]
  {
    var T' := Doing(order, E, i, j + 1);
    assert E[u][..j + 1] == E[u][..j] + [v];
    assert v !in E[u][..j];
    assert u !in order[..i];
    forall w | w in order ensures T'[w] == T[v := T[v] + [u]][w] {
      if w != v {
        assert w in E[u][..j + 1] <==> w in E[u][..j];
      }
    }
  }
}
