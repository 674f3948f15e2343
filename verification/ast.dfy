/** The syntax tree the template parser builds and the renderer walks. */
module Ast {
  import opened Styles

  /** `NodeType`, in iota order from Root (0) to Quote (10). */
  datatype NodeType =
    | NodeRoot | NodeText | NodeStyle | NodeHole | NodeBlock | NodeHeader
    | NodeList | NodeListItem | NodeCodeBlock | NodeHR | NodeQuote

  /**
   * A tree node. `content` holds text or code, `lang` a code block's
   * language, `style` the style a Style or Header node applies, and
   * `holeId` the argument index of a Hole (-1 until numbered).
   */
  datatype Node = Node(
    typ: NodeType, content: string, lang: string, style: Style,
    children: seq<Node>, holeId: int)

  /** The iota value each node type is declared with. */
  function NodeTypeCode(t: NodeType): (k: nat)
    ensures k <= 10
    ensures t == NodeRoot <==> k == 0
  {
    match t
    case NodeRoot => 0
    case NodeText => 1
    case NodeStyle => 2
    case NodeHole => 3
    case NodeBlock => 4
    case NodeHeader => 5
    case NodeList => 6
    case NodeListItem => 7
    case NodeCodeBlock => 8
    case NodeHR => 9
    case NodeQuote => 10
  }

  /** Distinct node types have distinct codes. */
  lemma NodeTypeCodeInjective(a: NodeType, b: NodeType)
    ensures NodeTypeCode(a) == NodeTypeCode(b) <==> a == b
  {
  }

  /** `NewNode`: a node of the given type with every other field at its zero value. */
  function NewNode(t: NodeType): (n: Node)
    ensures n.typ == t && n.children == []
    ensures n.content == "" && n.lang == "" && n.style == Plain && n.holeId == 0
  {
    Node(t, "", "", Plain, [], 0)
  }

  /** A text leaf (a node literal with only type and content set). */
  function TextNode(s: string): (n: Node)
    ensures n == NewNode(NodeText).(content := s)
  {
    Node(NodeText, s, "", Plain, [], 0)
  }

  /** The hole leaf the inline parser emits, not yet numbered. */
  function HoleNode(): (n: Node)
    ensures n == NewNode(NodeHole).(holeId := -1)
  {
    Node(NodeHole, "", "", Plain, [], -1)
  }

  /** `AddChild`: the child goes last, the earlier children and every other field are kept. */
  function AddChild(n: Node, c: Node): (r: Node)
    ensures |r.children| == |n.children| + 1
    ensures r.children[..|n.children|] == n.children && r.children[|n.children|] == c
    ensures r.(children := n.children) == n
  {
    n.(children := n.children + [c])
  }

  /** Adding children one at a time is appending them in order. */
  lemma AddChildTwice(n: Node, a: Node, b: Node)
    ensures AddChild(AddChild(n, a), b) == n.(children := n.children + [a, b])
  {
  }
}
