/**
 * The state graph of the analyser (RulesEngine/src/state_graph/graph.rs and
 * models.rs): canonical nodes numbered by a one-to-one map, visit metadata
 * per id, a set of edges and the set of ids still to expand.
 */
module StateGraphs {
  import opened CoreModels
  import opened UniqueNodes

  datatype NodeState = Unvisited | Visited

  /** An edge between two node ids, as the populate step builds it. */
  datatype Edge = Edge(from: nat, to: nat)

  /** `bimap::BiMap`: the two directions of a one-to-one map agree. */
  ghost predicate Inverse<K, V>(fwd: map<K, V>, back: map<V, K>) {
    (forall k :: k in fwd ==> fwd[k] in back && back[fwd[k]] == k) &&
    (forall v :: v in back ==> back[v] in fwd && fwd[back[v]] == v)
  }

  /** An id is waiting to be expanded exactly when its metadata says unvisited. */
  ghost predicate VisitInvariant(metadata: map<nat, NodeState>, unvisited: set<nat>) {
    forall id :: id in unvisited <==> id in metadata && metadata[id] == Unvisited
  }

  /** Ids 0..n-1 and no others. */
  ghost predicate Dense<K>(ids: map<nat, K>, n: nat) {
    forall id: nat :: id in ids <==> id < n
  }

  /** Inserting a new left key, after dropping the pair that used the right key, keeps the two maps inverse. */
  lemma InsertKeepsInverse<K, V>(fwd: map<K, V>, back: map<V, K>, k: K, v: V)
    requires Inverse(fwd, back) && k !in fwd
    ensures var kept := if v in back then fwd - {back[v]} else fwd;
            Inverse(kept[k := v], back[v := k])
  {
    var kept := if v in back then fwd - {back[v]} else fwd;
    forall x | x in kept
      ensures kept[x] != v && back[kept[x]] == x
    {
    }
  }

  /** With dense ids the next id is unused, and inserting under it keeps the ids dense. */
  lemma InsertKeepsDense<K>(fwd: map<K, nat>, back: map<nat, K>, k: K)
    requires Inverse(fwd, back) && Dense(back, |fwd|) && k !in fwd
    ensures |fwd| !in back
    ensures Dense(back[|fwd| := k], |fwd[k := |fwd|]|)
  {
    assert |fwd[k := |fwd|]| == |fwd| + 1;
  }

  class StateGraph {
    /** The left-to-right direction of the bimap: state to id. */
    var nodes: map<UniqueNode, nat>
    /** The right-to-left direction of the bimap: id to state. */
    var ids: map<nat, UniqueNode>
    var metadata: map<nat, NodeState>
    var edges: set<Edge>
    var unvisited: set<nat>

    /** What every method keeps: a one-to-one node map and the visit invariant. */
    ghost predicate Valid()
      reads this
    {
      Inverse(nodes, ids) && VisitInvariant(metadata, unvisited)
    }

    /**
     * A graph grown by `upsert_state` alone: the ids are exactly 0..n-1 and
     * each has metadata. Trimming removes nodes and gives this up.
     */
    ghost predicate Built()
      reads this
    {
      Dense(ids, |nodes|) && metadata.Keys == ids.Keys
    }

    /** The ids whose metadata says visited. */
    function VisitedIds(): set<nat>
      reads this
    {
      set id | id in metadata && metadata[id] == Visited
    }

    /** `new`. */
    constructor ()
      ensures Valid() && Built()
      ensures nodes == map[] && ids == map[] && metadata == map[] && edges == {} && unvisited == {}
    {
      nodes, ids, metadata, edges, unvisited := map[], map[], map[], {}, {};
      new;
      assert |nodes| == 0;
    }

    /** `get_state`: the node with the given id, if any. */
    function GetState(id: nat): (r: Option<UniqueNode>)
      reads this
      ensures r.Some? <==> id in ids
      ensures Valid() && r.Some? ==> r.value in nodes && nodes[r.value] == id
    {
      if id in ids then Some(ids[id]) else None
    }

    /**
     * `upsert_state`: a known state keeps its id and nothing changes; a new
     * state gets the next id, unvisited metadata and a place in the
     * unvisited set. Inserting into the bimap drops any pair that already
     * used the id, which only happens once nodes have been removed.
     */
    method UpsertState(state: UniqueNode) returns (id: nat)
      requires Valid()
      modifies this
      ensures Valid() && edges == old(edges)
      ensures state in nodes && nodes[state] == id && GetState(id) == Some(state)
      ensures state in old(nodes) ==>
                id == old(nodes[state]) && nodes == old(nodes) && ids == old(ids) &&
                metadata == old(metadata) && unvisited == old(unvisited)
      ensures state !in old(nodes) ==>
                id == old(|nodes|) && ids == old(ids)[id := state] &&
                nodes == (if id in old(ids) then old(nodes) - {old(ids)[id]} else old(nodes))[state := id] &&
                metadata == old(metadata)[id := Unvisited] && unvisited == old(unvisited) + {id}
      ensures old(Built()) ==> Built() && (state !in old(nodes) ==> id !in old(ids) && nodes == old(nodes)[state := id])
    {
      if state in nodes {
        id := nodes[state];
        return;
      }
      id := |nodes|;
      InsertKeepsInverse(nodes, ids, state, id);
      if Built() {
        InsertKeepsDense(nodes, ids, state);
      }
      if id in ids {
        nodes := nodes - {ids[id]};
      }
      nodes := nodes[state := id];
      ids := ids[id := state];
      metadata := metadata[id := Unvisited];
      unvisited := unvisited + {id};
    }

    /** `add_edge`: set insertion, so adding an edge that is already there changes nothing. */
    method AddEdge(edge: Edge)
      modifies this
      ensures edges == old(edges) + {edge}
      ensures edge in old(edges) ==> edges == old(edges)
      ensures nodes == old(nodes) && ids == old(ids) && metadata == old(metadata) && unvisited == old(unvisited)
    {
      edges := edges + {edge};
    }

    /** `mark_visited`: the id's metadata (when it has any) says visited and the id leaves the unvisited set. */
    method MarkVisited(nodeId: nat)
      requires Valid()
      modifies this
      ensures Valid()
      ensures metadata == if nodeId in old(metadata) then old(metadata)[nodeId := Visited] else old(metadata)
      ensures unvisited == old(unvisited) - {nodeId}
      ensures nodes == old(nodes) && ids == old(ids) && edges == old(edges)
      ensures old(Built()) ==> Built()
    {
      if nodeId in metadata {
        metadata := metadata[nodeId := Visited];
      }
      unvisited := unvisited - {nodeId};
    }

    /** `get_unvisited_node`: some member of the unvisited set, in the set's own order. */
    method GetUnvisitedNode() returns (r: Option<nat>)
      ensures r.None? <==> unvisited == {}
      ensures r.Some? ==> r.value in unvisited
    {
      if unvisited == {} {
        return None;
      }
      var id :| id in unvisited;
      return Some(id);
    }

    /**
     * `assert_all_visited` passes (neither assertion fails) exactly when
     * the unvisited set is empty: by the visit invariant no metadata entry
     * is left unvisited then.
     */
    function AllVisitedPasses(): (passes: bool)
      reads this
      ensures Valid() ==> (passes <==> unvisited == {})
    {
      var left := set id | id in metadata && metadata[id] == Unvisited;
      assert Valid() ==> left == unvisited;
      unvisited == {} && |left| == 0
    }
  }
}
