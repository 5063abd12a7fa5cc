/**
 * `NodeList`, the keyed collection of vertices. A vertex is identified by its
 * `UniqueIdentifier`; the collection owns, for each member, the member's own
 * outgoing-edge list (itself a keyed list, of target identifiers) and its decoration.
 */
module NodeLists {
  import opened Options
  import opened KeyedLists
  import opened Decorations

  /** A vertex as the collection hands it out: identifier, edge targets, decoration. */
  datatype Vertex = Vertex(id: int, edges: seq<int>, decoration: Decoration)

  /**
   * The first key of `s`, in enumeration order, whose vertex satisfies `p`; the
   * foreach-with-break of the predicate removals.
   */
  function FirstMatch(s: seq<int>, edges: map<int, seq<int>>, deco: map<int, Decoration>, p: Vertex -> bool): (r: Option<int>)
    requires forall i :: 0 <= i < |s| ==> s[i] in edges && s[i] in deco
    ensures r.None? <==> forall i :: 0 <= i < |s| ==> !p(Vertex(s[i], edges[s[i]], deco[s[i]]))
    ensures r.Some? ==> exists i :: 0 <= i < |s| && s[i] == r.value && p(Vertex(s[i], edges[s[i]], deco[s[i]]))
                                    && forall j :: 0 <= j < i ==> !p(Vertex(s[j], edges[s[j]], deco[s[j]]))
  {
    if s == [] then None
    else if p(Vertex(s[0], edges[s[0]], deco[s[0]])) then Some(s[0])
    else
      var r := FirstMatch(s[1..], edges, deco, p);
      assert r.Some? ==> exists i :: 0 <= i < |s| && s[i] == r.value && p(Vertex(s[i], edges[s[i]], deco[s[i]]))
                                     && forall j :: 0 <= j < i ==> !p(Vertex(s[j], edges[s[j]], deco[s[j]])) by {
        if r.Some? {
          var i :| 0 <= i < |s| - 1 && s[1..][i] == r.value && p(Vertex(s[1..][i], edges[s[1..][i]], deco[s[1..][i]]))
                   && forall j :: 0 <= j < i ==> !p(Vertex(s[1..][j], edges[s[1..][j]], deco[s[1..][j]]));
          assert forall j :: 0 <= j < i + 1 ==> !p(Vertex(s[j], edges[s[j]], deco[s[j]])) by {
            forall j | 0 <= j < i + 1 ensures !p(Vertex(s[j], edges[s[j]], deco[s[j]])) {
              if j > 0 { assert s[j] == s[1..][j - 1]; }
            }
          }
        }
      }
      assert r.None? ==> forall i :: 0 <= i < |s| ==> !p(Vertex(s[i], edges[s[i]], deco[s[i]])) by {
        if r.None? {
          forall i | 0 <= i < |s| ensures !p(Vertex(s[i], edges[s[i]], deco[s[i]])) {
            if i > 0 { assert s[i] == s[1..][i - 1]; }
          }
        }
      }
      r
  }

  /**
   * The search of `GetVertex(predicate)` as written: the loop breaks after its first
   * item whether or not the predicate held, so only the first key is ever examined.
   */
  function FirstOnly(s: seq<int>, edges: map<int, seq<int>>, deco: map<int, Decoration>, p: Vertex -> bool): (r: Option<int>)
    requires forall i :: 0 <= i < |s| ==> s[i] in edges && s[i] in deco
    ensures r.Some? ==> r == FirstMatch(s, edges, deco, p) && r.value == s[0]
    ensures r.None? ==> s == [] || !p(Vertex(s[0], edges[s[0]], deco[s[0]]))
  {
    if s != [] && p(Vertex(s[0], edges[s[0]], deco[s[0]])) then Some(s[0]) else None
  }

  /** A vertex that matches but is not enumerated first is missed by `FirstOnly`. */
  lemma FirstOnlyMissesLaterMatch()
    ensures var edges, deco := map[1 := [], 2 := []], map[1 := Fresh, 2 := Fresh];
      var p := (v: Vertex) => v.id == 2;
      FirstOnly([1, 2], edges, deco, p) == None && FirstMatch([1, 2], edges, deco, p) == Some(2)
  {
    var edges, deco := map[1 := [], 2 := []], map[1 := Fresh, 2 := Fresh];
    var p := (v: Vertex) => v.id == 2;
    assert [1, 2][1..] == [2];
    assert FirstMatch([2], edges, deco, p) == Some(2);
  }

  /**
   * The edge relation after `RemoveNode` on u's edge list: the removed item is the
   * target vertex itself, so besides dropping the edge u -> t it clears t's own
   * outgoing edges (when t is a vertex of this collection).
   */
  function AfterEdgeRemoval(edges: map<int, seq<int>>, u: int, t: int): (r: map<int, seq<int>>)
    requires u in edges
    ensures r.Keys == edges.Keys
    ensures t !in edges[u] ==> r == edges
    ensures t in edges[u] ==> t !in r[u] && (t in edges ==> r[t] == [])
    ensures t in edges[u] && t != u ==> r[u] == Delete(edges[u], t)
    ensures t in edges[u] && t == u ==> r[u] == []
    ensures forall w :: w in edges && w != u && w != t ==> r[w] == edges[w]
    ensures forall w, x :: w in r && x in r[w] ==> x in edges[w]
  {
    if t !in edges[u] then edges
    else
      var cleared := if t in edges then edges[t := []] else edges;
      cleared[u := Delete(cleared[u], t)]
  }

  class NodeList {
    /** The dictionary's keys in enumeration order. */
    var keys: seq<int>
    /** Each member's outgoing-edge list: target identifiers in enumeration order. */
    var edges: map<int, seq<int>>
    /** Each member's path decoration. */
    var deco: map<int, Decoration>

    ghost predicate Valid()
      reads this
    {
      && Distinct(keys)
      && (forall k :: k in keys <==> k in edges)
      // implied by the line above; stated by index so that proofs indexing `keys` find it
      && (forall i :: 0 <= i < |keys| ==> keys[i] in edges)
      && edges.Keys == deco.Keys
      && (forall u :: u in edges ==> Distinct(edges[u]))
    }

    constructor ()
      ensures Valid() && keys == [] && edges == map[] && deco == map[]
    {
      keys, edges, deco := [], map[], map[];
    }

    /** The member `id` as a value. */
    function Item(id: int): Vertex
      reads this
      requires id in edges && id in deco
    {
      Vertex(id, edges[id], deco[id])
    }

    /** `Count`: the number of members. */
    function Count(): (n: nat)
      reads this
      requires Valid()
      ensures n == |edges.Keys| && n == |keys|
    {
      DistinctCardinality(keys, edges.Keys);
      |keys|
    }

    /** `Contains`: whether a member has the identifier. */
    function Contains(id: int): (b: bool)
      reads this
      requires Valid()
      ensures b <==> id in keys
    {
      id in edges
    }

    /** `GetNode`: the member with the identifier, or None (null) when there is none. */
    function GetNode(id: int): (r: Option<Vertex>)
      reads this
      requires Valid()
      ensures r.None? <==> id !in keys
      ensures r.Some? ==> r.value.id == id && r.value.edges == edges[id] && r.value.decoration == deco[id]
    {
      if id in edges then Some(Item(id)) else None
    }

    /** Writes back the decorations a traversal leaves, one for each member. */
    method SetDecorations(d: map<int, Decoration>)
      requires Valid() && d.Keys == edges.Keys
      modifies this
      ensures Valid() && keys == old(keys) && edges == old(edges) && deco == d
    {
      deco := d;
    }

    /** `Add`: fails (the duplicate-key exception, no change) when the identifier is taken. */
    method Add(v: Vertex) returns (ok: bool)
      requires Valid() && Distinct(v.edges)
      modifies this
      ensures Valid()
      ensures ok <==> v.id !in old(keys)
      ensures ok ==> keys == old(keys) + [v.id] && edges == old(edges)[v.id := v.edges]
                     && deco == old(deco)[v.id := v.decoration]
      ensures ok ==> Contains(v.id) && GetNode(v.id) == Some(v) && Count() == old(Count()) + 1
      ensures !ok ==> keys == old(keys) && edges == old(edges) && deco == old(deco)
    {
      var added := Insert(keys, v.id);
      if added.None? {
        return false;
      }
      keys := added.value;
      edges := edges[v.id := v.edges];
      deco := deco[v.id := v.decoration];
      ok := true;
      assert forall i :: 0 <= i < |keys| ==> keys[i] in edges by {
        forall i | 0 <= i < |keys| ensures keys[i] in edges {
          if i < |keys| - 1 { assert keys[i] == old(keys)[i]; }
        }
      }
      assert edges.Keys == old(edges).Keys + {v.id};
    }

    /** `Remove`: drops the member with the identifier, if any; true when one was dropped. */
    method Remove(id: int) returns (removed: bool)
      requires Valid()
      modifies this
      ensures Valid()
      ensures removed <==> id in old(keys)
      ensures keys == Delete(old(keys), id) && edges == old(edges) - {id} && deco == old(deco) - {id}
      ensures !Contains(id) && GetNode(id).None?
      ensures removed ==> Count() == old(Count()) - 1
      ensures !removed ==> keys == old(keys) && edges == old(edges) && deco == old(deco)
    {
      removed := false;
      if Contains(id) {
        keys := Delete(keys, id);
        edges := edges - {id};
        deco := deco - {id};
        removed := true;
        assert edges.Keys == old(edges).Keys - {id};
      }
    }

    /**
     * `RemoveNode(item)`: drops the member with the identifier and returns it with its
     * own edge list cleared; None (null) and no change when there is none.
     */
    method RemoveNode(id: int) returns (r: Option<Vertex>)
      requires Valid()
      modifies this
      ensures Valid()
      ensures r.Some? <==> id in old(keys)
      ensures r.Some? ==> r.value == Vertex(id, [], old(deco)[id])
      ensures keys == Delete(old(keys), id) && edges == old(edges) - {id} && deco == old(deco) - {id}
      ensures r.None? ==> keys == old(keys) && edges == old(edges) && deco == old(deco)
    {
      r := None;
      if Contains(id) {
        r := Some(Vertex(id, [], deco[id]));
        keys := Delete(keys, id);
        edges := edges - {id};
        deco := deco - {id};
      }
    }

    /**
     * `RemoveNode(predicate)`: scans the members in enumeration order and removes the
     * first one that satisfies `p`, as `RemoveNode(item)` does.
     */
    method RemoveNodeWhere(p: Vertex -> bool) returns (r: Option<Vertex>)
      requires Valid()
      modifies this
      ensures Valid()
      ensures var m := FirstMatch(old(keys), old(edges), old(deco), p);
        && (r.Some? <==> m.Some?)
        && (m.Some? ==> r.value == Vertex(m.value, [], old(deco)[m.value]))
        && (m.Some? ==> keys == Delete(old(keys), m.value) && edges == old(edges) - {m.value}
                        && deco == old(deco) - {m.value})
        && (m.None? ==> keys == old(keys) && edges == old(edges) && deco == old(deco))
    {
      r := None;
      var i := 0;
      while i < |keys|
        invariant 0 <= i <= |keys|
        invariant FirstMatch(keys, edges, deco, p) == FirstMatch(keys[i..], edges, deco, p)
      {
        var item := keys[i];
        if p(Item(item)) {
          r := RemoveNode(item);
          return;
        }
        i := i + 1;
      }
    }

    /**
     * `Node.AddEdge` on member u: adds target t to u's edge list; fails (the duplicate-key
     * exception, no change) when u already has an edge to t.
     */
    method AddEdge(u: int, t: int) returns (ok: bool)
      requires Valid() && u in edges
      modifies this
      ensures Valid()
      ensures ok <==> t !in old(edges)[u]
      ensures ok ==> edges == old(edges)[u := old(edges)[u] + [t]]
      ensures !ok ==> edges == old(edges)
      ensures keys == old(keys) && deco == old(deco)
    {
      var added := Insert(edges[u], t);
      if added.None? {
        return false;
      }
      edges := edges[u := added.value];
      ok := true;
    }

    /**
     * `Node.RemoveEdge(item)` on member u: `RemoveNode` on u's edge list, which returns
     * the target and also clears the target vertex's own edge list.
     */
    method RemoveEdge(u: int, t: int) returns (r: Option<int>)
      requires Valid() && u in edges
      modifies this
      ensures Valid()
      ensures r.Some? <==> t in old(edges)[u]
      ensures r.Some? ==> r.value == t
      ensures edges == AfterEdgeRemoval(old(edges), u, t)
      ensures keys == old(keys) && deco == old(deco)
    {
      r := None;
      if t in edges[u] {
        r := Some(t);
        if t in edges {
          edges := edges[t := []];
        }
        edges := edges[u := Delete(edges[u], t)];
      }
    }

    /**
     * `Node.RemoveEdge(predicate)` on member u: removes the first target, in the edge
     * list's enumeration order, whose vertex satisfies `p`, as `RemoveEdge(item)` does.
     * The targets' vertices must be members for `p` to see them.
     */
    method RemoveEdgeWhere(u: int, p: Vertex -> bool) returns (r: Option<int>)
      requires Valid() && u in edges
      requires forall i :: 0 <= i < |edges[u]| ==> edges[u][i] in edges
      modifies this
      ensures Valid()
      ensures r == FirstMatch(old(edges)[u], old(edges), old(deco), p)
      ensures r.Some? ==> edges == AfterEdgeRemoval(old(edges), u, r.value)
      ensures r.None? ==> edges == old(edges)
      ensures keys == old(keys) && deco == old(deco)
    {
      r := None;
      var targets := edges[u];
      var i := 0;
      while i < |targets|
        invariant 0 <= i <= |targets|
        invariant edges == old(edges) && keys == old(keys) && deco == old(deco)
        invariant FirstMatch(targets, edges, deco, p) == FirstMatch(targets[i..], edges, deco, p)
      {
        var t := targets[i];
        if p(Item(t)) {
          r := RemoveEdge(u, t);
          return;
        }
        i := i + 1;
      }
    }
  }
}
