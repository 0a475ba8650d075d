/**
 * The JSON export of a state graph (RulesEngine/src/state_graph/json_export.rs):
 * one record per node with its id and the number of boxes on goals, one
 * record per edge with its ends, its direction and what it moved. The
 * pretty-printing itself is not modelled; the document is the record lists.
 */
module JsonExport {
  import CoreModels
  import opened LegacyGraphs
  import opened Enumerations

  datatype JsonDirection = Up | Down | Left | Right

  datatype JsonEdgeType = PlayerMove | PlayerAndBoxMove

  datatype JsonNode = JsonNode(id: nat, onTargets: nat)

  datatype JsonEdge = JsonEdge(source: nat, target: nat, dir: JsonDirection, changeType: JsonEdgeType)

  datatype JsonData = JsonData(nodes: seq<JsonNode>, edges: seq<JsonEdge>)

  /** `From<Direction> for JsonDirection`: each direction to its namesake. */
  function FromDirection(d: CoreModels.Direction): (r: JsonDirection)
    ensures ToDirection(r) == d
  {
    match d
    case Up => Up
    case Down => Down
    case Left => Left
    case Right => Right
  }

  /** The inverse reading of a JSON direction. */
  function ToDirection(d: JsonDirection): (r: CoreModels.Direction) {
    match d
    case Up => CoreModels.Direction.Up
    case Down => CoreModels.Direction.Down
    case Left => CoreModels.Direction.Left
    case Right => CoreModels.Direction.Right
  }

  /** The direction conversion is a bijection: reading back gives the direction, and every JSON direction is reached. */
  lemma DirectionRoundTrip(d: CoreModels.Direction, j: JsonDirection)
    ensures ToDirection(FromDirection(d)) == d
    ensures FromDirection(ToDirection(j)) == j
  {
  }

  /** Distinct directions export to distinct JSON directions. */
  lemma DirectionInjective(d: CoreModels.Direction, e: CoreModels.Direction)
    ensures FromDirection(d) == FromDirection(e) <==> d == e
  {
    DirectionRoundTrip(d, Up);
    DirectionRoundTrip(e, Up);
  }

  /** `From<GameChangeType> for JsonEdgeType`: each change type to its namesake. */
  function FromChangeType(c: CoreModels.GameChangeType): (r: JsonEdgeType)
    ensures ToChangeType(r) == c
  {
    match c
    case PlayerMove => PlayerMove
    case PlayerAndBoxMove => PlayerAndBoxMove
  }

  /** The inverse reading of a JSON edge type. */
  function ToChangeType(t: JsonEdgeType): (r: CoreModels.GameChangeType) {
    match t
    case PlayerMove => CoreModels.GameChangeType.PlayerMove
    case PlayerAndBoxMove => CoreModels.GameChangeType.PlayerAndBoxMove
  }

  /** The change-type conversion is a bijection. */
  lemma ChangeTypeRoundTrip(c: CoreModels.GameChangeType, t: JsonEdgeType)
    ensures ToChangeType(FromChangeType(c)) == c
    ensures FromChangeType(ToChangeType(t)) == t
  {
  }

  /** The record of one edge: its ends, the direction of its move and its change type. */
  function EdgeRecord(e: MoveEdge): (r: JsonEdge) {
    JsonEdge(e.from, e.to, FromDirection(e.action.dir), FromChangeType(e.gameChangeType))
  }

  /** The edge a record describes. */
  function RecordEdge(r: JsonEdge): (e: MoveEdge) {
    MoveEdge(r.source, r.target, CoreModels.Move(ToDirection(r.dir)), ToChangeType(r.changeType))
  }

  /** An edge record keeps everything about the edge: the edge can be read back from it. */
  lemma EdgeRecordRoundTrip(e: MoveEdge)
    ensures RecordEdge(EdgeRecord(e)) == e
    ensures EdgeRecord(e).source == e.from && EdgeRecord(e).target == e.to
  {
    DirectionRoundTrip(e.action.dir, Up);
    ChangeTypeRoundTrip(e.gameChangeType, PlayerMove);
  }

  /** The node records, in the given iteration order of the node map. */
  function NodeRecords<S>(nodes: map<S, nat>, order: seq<S>, onTargets: S -> nat): (r: seq<JsonNode>)
    requires forall x :: x in order ==> x in nodes
    ensures |r| == |order|
    ensures forall k :: 0 <= k < |r| ==> r[k].id == nodes[order[k]] && r[k].onTargets == onTargets(order[k])
  {
    if order == [] then []
    else [JsonNode(nodes[order[0]], onTargets(order[0]))] + NodeRecords(nodes, order[1..], onTargets)
  }

  /** The edge records, in the given iteration order of the edge set. */
  function EdgeRecords(order: seq<MoveEdge>): (r: seq<JsonEdge>)
    ensures |r| == |order|
    ensures forall k :: 0 <= k < |r| ==> RecordEdge(r[k]) == order[k]
  {
    if order == [] then []
    else
      EdgeRecordRoundTrip(order[0]);
      [EdgeRecord(order[0])] + EdgeRecords(order[1..])
  }

  /**
   * `get_json_data`: the document of a graph, visiting the node map and
   * the edge set in the given iteration orders; `onTargets` stands for
   * `count_boxes_on_goals`. There are as many node records as nodes and as
   * many edge records as edges.
   */
  function GetJsonData<S(!new)>(nodes: map<S, nat>, edges: set<MoveEdge>, nodeOrder: seq<S>, edgeOrder: seq<MoveEdge>,
                          onTargets: S -> nat): (r: JsonData)
    requires Enumerates(nodeOrder, nodes.Keys) && Enumerates(edgeOrder, edges)
    ensures |r.nodes| == |nodes| && |r.edges| == |edges|
  {
    EnumerationSize(nodeOrder, nodes.Keys);
    EnumerationSize(edgeOrder, edges);
    JsonData(NodeRecords(nodes, nodeOrder, onTargets), EdgeRecords(edgeOrder))
  }

  /**
   * Every node of the graph has its record, with its own id and count, and
   * every record belongs to a node of the graph.
   */
  lemma NodeRecordsExact<S(!new)>(nodes: map<S, nat>, edges: set<MoveEdge>, nodeOrder: seq<S>, edgeOrder: seq<MoveEdge>,
                            onTargets: S -> nat)
    requires Enumerates(nodeOrder, nodes.Keys) && Enumerates(edgeOrder, edges)
    ensures forall s :: s in nodes ==>
              JsonNode(nodes[s], onTargets(s)) in GetJsonData(nodes, edges, nodeOrder, edgeOrder, onTargets).nodes
    ensures forall n :: n in GetJsonData(nodes, edges, nodeOrder, edgeOrder, onTargets).nodes ==>
              exists s :: s in nodes && n == JsonNode(nodes[s], onTargets(s))
  {
    var r := GetJsonData(nodes, edges, nodeOrder, edgeOrder, onTargets).nodes;
    forall s | s in nodes
      ensures JsonNode(nodes[s], onTargets(s)) in r
    {
      var k :| 0 <= k < |nodeOrder| && nodeOrder[k] == s;
      assert r[k] == JsonNode(nodes[s], onTargets(s));
    }
    forall n | n in r
      ensures exists s :: s in nodes && n == JsonNode(nodes[s], onTargets(s))
    {
      var k :| 0 <= k < |r| && r[k] == n;
      assert nodeOrder[k] in nodes;
    }
  }

  /** Every edge of the graph has its record, and every record describes an edge of the graph. */
  lemma EdgeRecordsExact<S(!new)>(nodes: map<S, nat>, edges: set<MoveEdge>, nodeOrder: seq<S>, edgeOrder: seq<MoveEdge>,
                            onTargets: S -> nat)
    requires Enumerates(nodeOrder, nodes.Keys) && Enumerates(edgeOrder, edges)
    ensures forall e :: e in edges ==> EdgeRecord(e) in GetJsonData(nodes, edges, nodeOrder, edgeOrder, onTargets).edges
    ensures forall j :: j in GetJsonData(nodes, edges, nodeOrder, edgeOrder, onTargets).edges ==>
              RecordEdge(j) in edges && j == EdgeRecord(RecordEdge(j))
  {
    var r := GetJsonData(nodes, edges, nodeOrder, edgeOrder, onTargets).edges;
    forall e | e in edges
      ensures EdgeRecord(e) in r
    {
      var k :| 0 <= k < |edgeOrder| && edgeOrder[k] == e;
      assert RecordEdge(r[k]) == e;
      RecordRoundTrip(r[k]);
    }
    forall j | j in r
      ensures RecordEdge(j) in edges && j == EdgeRecord(RecordEdge(j))
    {
      var k :| 0 <= k < |r| && r[k] == j;
      assert RecordEdge(j) == edgeOrder[k];
      RecordRoundTrip(j);
    }
  }

  /** A record can be rebuilt from the edge it describes. */
  lemma RecordRoundTrip(j: JsonEdge)
    ensures EdgeRecord(RecordEdge(j)) == j
  {
    DirectionRoundTrip(CoreModels.Direction.Up, j.dir);
    ChangeTypeRoundTrip(CoreModels.GameChangeType.PlayerMove, j.changeType);
  }
}
