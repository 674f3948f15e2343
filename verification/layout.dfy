/**
 * The layout tree: size constraints, directions, nodes and the constructors
 * `Row`, `Col` and `Box` that build trees from arbitrary child values.
 */
module Layout {
  import opened Wrappers

  /** `Direction`: Row is iota 0, Column is iota 1. */
  datatype Direction = DirRow | DirColumn

  /** `SizeType`: Auto is iota 0, Fixed 1, Flex 2. */
  datatype SizeType = SizeAuto | SizeFixed | SizeFlex

  /** Fixed sizes carry a cell count, Flex sizes a weight; Auto ignores `value`. */
  datatype Size = Size(typ: SizeType, value: int)

  /** The iota value each enumerator is declared with. */
  function DirectionCode(d: Direction): (k: nat)
    ensures k < 2
  {
    match d
    case DirRow => 0
    case DirColumn => 1
  }

  function SizeTypeCode(t: SizeType): (k: nat)
    ensures k < 3
  {
    match t
    case SizeAuto => 0
    case SizeFixed => 1
    case SizeFlex => 2
  }

  /** The enumerator with a given iota value; every other int reads as the zero value. */
  function DirectionOf(k: int): Direction {
    if k == 1 then DirColumn else DirRow
  }

  function SizeTypeOf(k: int): SizeType {
    if k == 1 then SizeFixed else if k == 2 then SizeFlex else SizeAuto
  }

  /** The Go zero value of a `Size` struct: type 0, value 0. */
  const ZeroSize := Size(SizeTypeOf(0), 0)

  /** The codes are a faithful encoding, and the zero value of each enum is Row and Auto. */
  lemma EnumCodes()
    ensures forall d :: DirectionOf(DirectionCode(d)) == d
    ensures forall t :: SizeTypeOf(SizeTypeCode(t)) == t
    ensures DirectionOf(0) == DirRow && SizeTypeOf(0) == SizeAuto
    ensures ZeroSize == Auto()
  {
  }

  function Fixed(n: int): (s: Size)
    ensures s.typ == SizeFixed && s.value == n
  {
    Size(SizeFixed, n)
  }

  function Flex(n: int): (s: Size)
    ensures s.typ == SizeFlex && s.value == n
  {
    Size(SizeFlex, n)
  }

  function Auto(): (s: Size)
    ensures s.typ == SizeAuto && s.value == 0
  {
    Size(SizeAuto, 0)
  }

  /** The three constructors never produce the same `Size`, and each is injective. */
  lemma SizeConstructorsDistinct(n: int, m: int)
    ensures Fixed(n) != Flex(m) && Fixed(n) != Auto() && Flex(n) != Auto()
    ensures Fixed(n) == Fixed(m) <==> n == m
    ensures Flex(n) == Flex(m) <==> n == m
  {
  }

  /** A geometry recorded by the measure pass. */
  datatype Geom = Geom(w: int, h: int)

  /**
   * A layout node. Children form one ordered sequence; a leaf made by
   * `WrapChild` holds its content text in `content`. The `computed*`
   * fields and `childGeoms` are filled by the measure and draw passes.
   */
  datatype LayoutNode = LayoutNode(
    dir: Direction, width: Size, height: Size, padding: int, border: bool,
    children: seq<LayoutNode>, content: Option<string>,
    computedX: int, computedY: int, computedW: int, computedH: int,
    childGeoms: seq<Geom>)

  /** A node with every field at its Go zero value. */
  const ZeroNode := LayoutNode(DirectionOf(0), ZeroSize, ZeroSize, 0, false, [], None, 0, 0, 0, 0, [])

  /** The values the constructors accept: a layout node, or content shown as text. */
  datatype Value = NodeValue(node: LayoutNode) | TextValue(text: string)

  /** `WithSize` sets both constraints; nothing else changes. */
  function WithSize(n: LayoutNode, w: Size, h: Size): (r: LayoutNode)
    ensures r.width == w && r.height == h
    ensures r.(width := n.width, height := n.height) == n
  {
    n.(width := w, height := h)
  }

  function WithWidth(n: LayoutNode, w: Size): (r: LayoutNode)
    ensures r.width == w && r.(width := n.width) == n
  {
    n.(width := w)
  }

  function WithHeight(n: LayoutNode, h: Size): (r: LayoutNode)
    ensures r.height == h && r.(height := n.height) == n
  {
    n.(height := h)
  }

  /** `WithSize` is `WithWidth` followed by `WithHeight`, in either order. */
  lemma WithSizeComposes(n: LayoutNode, w: Size, h: Size)
    ensures WithSize(n, w, h) == WithHeight(WithWidth(n, w), h) == WithWidth(WithHeight(n, h), w)
  {
  }

  function FirstChild(n: LayoutNode): Option<LayoutNode> {
    if |n.children| == 0 then None else Some(n.children[0])
  }

  function LastChild(n: LayoutNode): Option<LayoutNode> {
    if |n.children| == 0 then None else Some(n.children[|n.children| - 1])
  }

  /**
   * `addChild`: the child is linked in last. Its predecessor is the old last
   * child, the first child changes only when the list was empty, and the
   * children already present keep their order.
   */
  function AddChild(n: LayoutNode, c: LayoutNode): (r: LayoutNode)
    ensures LastChild(r) == Some(c)
    ensures FirstChild(r) == if FirstChild(n).None? then Some(c) else FirstChild(n)
    ensures |r.children| == |n.children| + 1 && r.children[..|n.children|] == n.children
    ensures |n.children| > 0 ==> r.children[|r.children| - 2] == LastChild(n).value
    ensures r.(children := n.children) == n
  {
    n.(children := n.children + [c])
  }

  /** `wrapChild`: a node stays itself; any other value becomes an Auto-sized leaf holding it. */
  function WrapChild(v: Value): (r: LayoutNode)
    ensures v.NodeValue? ==> r == v.node
    ensures v.TextValue? ==> r.content == Some(v.text) && r.children == []
                             && r.width == Auto() && r.height == Auto()
  {
    match v
    case NodeValue(node) => node
    case TextValue(text) => ZeroNode.(width := Auto(), height := Auto(), content := Some(text))
  }

  /** The `for _, child := range children { n.addChild(wrapChild(child)) }` loop. */
  function AddAll(n: LayoutNode, vs: seq<Value>): (r: LayoutNode)
    decreases |vs|
  {
    if |vs| == 0 then n else AddChild(AddAll(n, vs[..|vs| - 1]), WrapChild(vs[|vs| - 1]))
  }

  /** Adding values appends their wrapped forms in argument order and touches nothing else. */
  lemma {:induction false} AddAllAppends(n: LayoutNode, vs: seq<Value>)
    ensures |AddAll(n, vs).children| == |n.children| + |vs|
    ensures AddAll(n, vs).children[..|n.children|] == n.children
    ensures forall i :: 0 <= i < |vs| ==> AddAll(n, vs).children[|n.children| + i] == WrapChild(vs[i])
    ensures AddAll(n, vs).(children := n.children) == n
    decreases |vs|
  {
    if |vs| > 0 {
      AddAllAppends(n, vs[..|vs| - 1]);
    }
  }

  function Container(dir: Direction, vs: seq<Value>): LayoutNode {
    AddAll(ZeroNode.(dir := dir, width := Auto(), height := Auto()), vs)
  }

  /** `Row`: a Row-direction node with Auto sizes whose children are the wrapped arguments, in order. */
  function Row(vs: seq<Value>): (r: LayoutNode)
    ensures r.dir == DirRow && r.width == Auto() && r.height == Auto()
    ensures r.padding == 0 && !r.border && r.content == None
    ensures |r.children| == |vs| && forall i :: 0 <= i < |vs| ==> r.children[i] == WrapChild(vs[i])
  {
    AddAllAppends(ZeroNode.(dir := DirRow, width := Auto(), height := Auto()), vs);
    Container(DirRow, vs)
  }

  /** `Col`: the same with Column direction. */
  function Col(vs: seq<Value>): (r: LayoutNode)
    ensures r.dir == DirColumn && r.width == Auto() && r.height == Auto()
    ensures r.padding == 0 && !r.border && r.content == None
    ensures |r.children| == |vs| && forall i :: 0 <= i < |vs| ==> r.children[i] == WrapChild(vs[i])
  {
    AddAllAppends(ZeroNode.(dir := DirColumn, width := Auto(), height := Auto()), vs);
    Container(DirColumn, vs)
  }

  /** `Box`: a Column with the given border and padding and exactly one wrapped child. */
  function Box(v: Value, border: bool, padding: int): (r: LayoutNode)
    ensures r.dir == DirColumn && r.width == Auto() && r.height == Auto()
    ensures r.padding == padding && r.border == border && r.content == None
    ensures r.children == [WrapChild(v)]
  {
    AddChild(ZeroNode.(dir := DirColumn, width := Auto(), height := Auto(), padding := padding, border := border),
             WrapChild(v))
  }

  /** `Row` and `Col` differ only in direction. */
  lemma RowColDual(vs: seq<Value>)
    ensures Col(vs) == Row(vs).(dir := DirColumn)
  {
    AddAllAppends(ZeroNode.(dir := DirRow, width := Auto(), height := Auto()), vs);
    AddAllAppends(ZeroNode.(dir := DirColumn, width := Auto(), height := Auto()), vs);
  }
}
