/**
 * The state graph of the cell-grid revision (src/state_graph/graph.rs and
 * models.rs): whole games numbered by a one-to-one map, visit metadata per
 * id and a set of edges that remember the move and what it moved.
 */
module LegacyGraphs {
  import opened CoreModels
  import opened CellModels
  import StateGraphs

  /** An edge of the cell-grid graph: the endpoints, the move taken and what it moved. */
  datatype MoveEdge = MoveEdge(from: nat, to: nat, action: UserAction, gameChangeType: GameChangeType)

  class StateGraph {
    /** The left-to-right direction of the bimap: game to id. */
    var nodes: map<CellGame, nat>
    /** The right-to-left direction of the bimap: id to game. */
    var ids: map<nat, CellGame>
    var metadata: map<nat, StateGraphs.NodeState>
    var edges: set<MoveEdge>

    /** The two directions of the bimap agree. */
    ghost predicate Valid()
      reads this
    {
      StateGraphs.Inverse(nodes, ids)
    }

    /** Ids are exactly 0..n-1, each with metadata (this revision never removes a node). */
    ghost predicate Built()
      reads this
    {
      StateGraphs.Dense(ids, |nodes|) && metadata.Keys == ids.Keys
    }

    /** The ids whose metadata says visited. */
    function VisitedIds(): set<nat>
      reads this
    {
      set id | id in metadata && metadata[id] == StateGraphs.Visited
    }

    /** `new`. */
    constructor ()
      ensures Valid() && Built()
      ensures nodes == map[] && ids == map[] && metadata == map[] && edges == {}
    {
      nodes, ids, metadata, edges := map[], map[], map[], {};
      new;
      assert |nodes| == 0;
    }

    /** `get_state`: the game with the given id, if any; it undoes `upsert_state`. */
    function GetState(id: nat): (r: Option<CellGame>)
      reads this
      ensures r.Some? <==> id in ids
      ensures Valid() && r.Some? ==> r.value in nodes && nodes[r.value] == id
    {
      if id in ids then Some(ids[id]) else None
    }

    /**
     * `upsert_state`: a known game keeps its id and nothing changes; a new
     * game gets the next id and default (unvisited) metadata.
     */
    method UpsertState(state: CellGame) returns (id: nat)
      requires Valid()
      modifies this
      ensures Valid() && edges == old(edges)
      ensures state in nodes && nodes[state] == id && GetState(id) == Some(state)
      ensures state in old(nodes) ==>
                id == old(nodes[state]) && nodes == old(nodes) && ids == old(ids) && metadata == old(metadata)
      ensures state !in old(nodes) ==>
                id == old(|nodes|) && ids == old(ids)[id := state] &&
                nodes == (if id in old(ids) then old(nodes) - {old(ids)[id]} else old(nodes))[state := id] &&
                metadata == old(metadata)[id := StateGraphs.Unvisited]
      ensures old(Built()) ==> Built() && (state !in old(nodes) ==> id !in old(ids) && nodes == old(nodes)[state := id])
    {
      if state in nodes {
        id := nodes[state];
        return;
      }
      id := |nodes|;
      StateGraphs.InsertKeepsInverse(nodes, ids, state, id);
      if Built() {
        StateGraphs.InsertKeepsDense(nodes, ids, state);
      }
      if id in ids {
        nodes := nodes - {ids[id]};
      }
      nodes := nodes[state := id];
      ids := ids[id := state];
      metadata := metadata[id := StateGraphs.Unvisited];
    }

    /** `add_edge`: set insertion, so adding an edge that is already there changes nothing. */
    method AddEdge(edge: MoveEdge)
      modifies this
      ensures edges == old(edges) + {edge}
      ensures edge in old(edges) ==> edges == old(edges)
      ensures nodes == old(nodes) && ids == old(ids) && metadata == old(metadata)
    {
      edges := edges + {edge};
    }

    /**
     * `get_node_meta_mut`: afterwards the id has metadata; an existing entry
     * is kept and a missing one is created with the default.
     */
    method GetNodeMetaMut(nodeId: nat)
      modifies this
      ensures nodeId in metadata
      ensures nodeId in old(metadata) ==> metadata == old(metadata)
      ensures nodeId !in old(metadata) ==> metadata == old(metadata)[nodeId := StateGraphs.Unvisited]
      ensures nodes == old(nodes) && ids == old(ids) && edges == old(edges)
      ensures old(Built()) && nodeId in ids ==> Built()
    {
      if nodeId !in metadata {
        metadata := metadata[nodeId := StateGraphs.Unvisited];
      }
    }
  }
}
