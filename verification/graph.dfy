/** The records exchanged between the generation route and the interface,
    and the per-type lookup tables used to draw a node. */
module Graph {
  import opened Wrappers

  /** The closed set of note kinds: the map-of-content index note and the
      three kinds of supporting note. */
  datatype NodeType = Moc | Concept | Pattern | Gotcha

  /** Every node type, largest-drawn first. */
  const AllNodeTypes: seq<NodeType> := [Moc, Concept, Pattern, Gotcha]

  /** The spelling of a node type in JSON. */
  function TypeName(t: NodeType): string {
    match t
    case Moc => "moc"
    case Concept => "concept"
    case Pattern => "pattern"
    case Gotcha => "gotcha"
  }

  /** Reads a JSON type string; exactly the four spellings denote a type. */
  function ParseNodeType(name: string): (t: Option<NodeType>)
    ensures t.Some? ==> TypeName(t.value) == name
    ensures t.None? ==> forall u :: TypeName(u) != name
  {
    if name == "moc" then Some(Moc)
    else if name == "concept" then Some(Concept)
    else if name == "pattern" then Some(Pattern)
    else if name == "gotcha" then Some(Gotcha)
    else None
  }

  /** There are exactly four node types, each listed once, and each
      spelling reads back as its own type. */
  lemma NodeTypeIsClosed()
    ensures |AllNodeTypes| == 4
    ensures forall t: NodeType :: t in AllNodeTypes
    ensures forall i, j :: 0 <= i < j < |AllNodeTypes| ==> AllNodeTypes[i] != AllNodeTypes[j]
    ensures forall t: NodeType :: ParseNodeType(TypeName(t)) == Some(t)
  {
    forall t: NodeType
      ensures t in AllNodeTypes
    {
      match t
      case Moc => assert AllNodeTypes[0] == t;
      case Concept => assert AllNodeTypes[1] == t;
      case Pattern => assert AllNodeTypes[2] == t;
      case Gotcha => assert AllNodeTypes[3] == t;
    }
  }

  /** A note. `labelText` is the source's `label` field (`label` is a Dafny
      keyword). */
  datatype GraphNode = GraphNode(
    id: string,
    labelText: string,
    nodeType: NodeType,
    description: string,
    content: string,
    links: seq<string>)

  datatype SkillGraph = SkillGraph(topic: string, nodes: seq<GraphNode>)

  datatype GeneratedFile = GeneratedFile(path: string, content: string)

  /** What the generation route returns on success. */
  datatype GenerateResponse = GenerateResponse(graph: SkillGraph, files: seq<GeneratedFile>)

  predicate IsHexDigit(c: char) {
    '0' <= c <= '9' || 'a' <= c <= 'f'
  }

  /** NODE_COLORS: a `#rrggbb` colour for every node type. */
  function NodeColor(t: NodeType): (color: string)
    ensures |color| == 7 && color[0] == '#'
    ensures forall i :: 1 <= i < |color| ==> IsHexDigit(color[i])
  {
    match t
    case Moc => "#000000"
    case Concept => "#404040"
    case Pattern => "#737373"
    case Gotcha => "#a3a3a3"
  }

  /** No two node types share a colour. */
  lemma NodeColorsDistinct(a: NodeType, b: NodeType)
    requires a != b
    ensures NodeColor(a) != NodeColor(b)
  {
  }

  /** NODE_SIZES: a positive drawing size for every node type. */
  function NodeSize(t: NodeType): (size: real)
    ensures size > 0.0
  {
    match t
    case Moc => 3.0
    case Concept => 2.0
    case Pattern => 1.5
    case Gotcha => 1.0
  }

  /** Sizes strictly decrease from moc through concept and pattern to gotcha,
      so the index note is drawn largest. */
  lemma NodeSizesDecrease()
    ensures forall i, j :: 0 <= i < j < |AllNodeTypes|
              ==> NodeSize(AllNodeTypes[i]) > NodeSize(AllNodeTypes[j])
    ensures forall t :: t != Moc ==> NodeSize(t) < NodeSize(Moc)
  {
  }

  /** `nodes.find((n) => n.id === id)`: the first node with that id. */
  function FindNode(nodes: seq<GraphNode>, id: string): (found: Option<GraphNode>)
    ensures found.Some? ==> found.value.id == id && found.value in nodes
    ensures found.None? <==> forall i :: 0 <= i < |nodes| ==> nodes[i].id != id
  {
    if nodes == [] then None
    else if nodes[0].id == id then Some(nodes[0])
    else FindNode(nodes[1..], id)
  }

  /** `find` returns the node at the first index carrying the id. */
  lemma {:induction false} FindNodeFirst(nodes: seq<GraphNode>, id: string, k: nat)
    requires k < |nodes| && nodes[k].id == id
    requires forall j :: 0 <= j < k ==> nodes[j].id != id
    ensures FindNode(nodes, id) == Some(nodes[k])
    decreases k
  {
    if k > 0 {
      FindNodeFirst(nodes[1..], id, k - 1);
    }
  }

  /** Ids are unique within the graph. The generator is expected to ensure
      this; nothing in the route or the interface checks it. */
  predicate UniqueIds(g: SkillGraph) {
    forall i, j :: 0 <= i < j < |g.nodes| ==> g.nodes[i].id != g.nodes[j].id
  }

  /** With unique ids, looking a node up by its own id finds that node. */
  lemma FindOwnNode(g: SkillGraph, k: nat)
    requires UniqueIds(g) && k < |g.nodes|
    ensures FindNode(g.nodes, g.nodes[k].id) == Some(g.nodes[k])
  {
    FindNodeFirst(g.nodes, g.nodes[k].id, k);
  }
}
