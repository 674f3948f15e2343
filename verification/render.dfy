/**
 * Templates and the tree renderer: hole numbering, style inheritance, the
 * markup test for dynamic values, and the cursor rules by which each node
 * kind draws into the back buffer and advances the (x, y) position.
 */
module Renderer {
  import opened Wrappers
  import opened Text
  import opened Styles
  import opened Ast
  import opened Parser
  import opened Screen
  import Layout
  import LayoutEngine

  // ---------------------------------------------------------------------
  // Hole numbering
  // ---------------------------------------------------------------------

  /** `assignHoles` on one node: a hole takes the next number, then its children are numbered in order. */
  function Number(n: Node, c: nat): (r: (Node, nat))
    decreases n, 1
  {
    var c1 := if n.typ == NodeHole then c + 1 else c;
    var kids := NumberSeq(n.children, c1);
    (n.(holeId := if n.typ == NodeHole then c else n.holeId, children := kids.0), kids.1)
  }

  /** The range loop over a child list, threading the counter. */
  function NumberSeq(cs: seq<Node>, c: nat): (r: (seq<Node>, nat))
    decreases cs, 0
  {
    if |cs| == 0 then ([], c)
    else
      var h := Number(cs[0], c);
      var t := NumberSeq(cs[1..], h.1);
      ([h.0] + t.0, t.1)
  }

  /** The hole numbers of a tree, in pre-order. */
  function HoleIds(n: Node): seq<int>
    decreases n, 1
  {
    (if n.typ == NodeHole then [n.holeId] else []) + HoleIdsSeq(n.children)
  }

  function HoleIdsSeq(cs: seq<Node>): seq<int>
    decreases cs, 0
  {
    if |cs| == 0 then [] else HoleIds(cs[0]) + HoleIdsSeq(cs[1..])
  }

  /** A tree with the numbers of its holes erased: everything numbering must leave alone. */
  function Shape(n: Node): Node
    decreases n, 1
  {
    n.(holeId := if n.typ == NodeHole then 0 else n.holeId, children := ShapeSeq(n.children))
  }

  function ShapeSeq(cs: seq<Node>): seq<Node>
    decreases cs, 0
  {
    if |cs| == 0 then [] else [Shape(cs[0])] + ShapeSeq(cs[1..])
  }

  /** The numbers c, c + 1, ..., c + k - 1. */
  function Range(c: int, k: nat): (r: seq<int>)
    ensures |r| == k && forall i :: 0 <= i < k ==> r[i] == c + i
  {
    seq(k, i requires 0 <= i < k => c + i)
  }

  lemma RangeAppend(c: int, a: nat, b: nat)
    ensures Range(c, a) + Range(c + a, b) == Range(c, a + b)
  {
  }

  /**
   * Numbering from `c` gives the holes the numbers c, c + 1, ... in
   * pre-order, returns the counter advanced by the number of holes, and
   * changes nothing but the holes' numbers.
   */
  lemma {:induction false} NumberCorrect(n: Node, c: nat)
    ensures Number(n, c).1 == c + |HoleIds(n)|
    ensures HoleIds(Number(n, c).0) == Range(c, |HoleIds(n)|)
    ensures Shape(Number(n, c).0) == Shape(n)
    decreases n, 1
  {
    var c1 := if n.typ == NodeHole then c + 1 else c;
    NumberSeqCorrect(n.children, c1);
    var own := if n.typ == NodeHole then 1 else 0;
    RangeAppend(c, own, |HoleIdsSeq(n.children)|);
  }

  lemma {:induction false} NumberSeqCorrect(cs: seq<Node>, c: nat)
    ensures |NumberSeq(cs, c).0| == |cs|
    ensures NumberSeq(cs, c).1 == c + |HoleIdsSeq(cs)|
    ensures HoleIdsSeq(NumberSeq(cs, c).0) == Range(c, |HoleIdsSeq(cs)|)
    ensures ShapeSeq(NumberSeq(cs, c).0) == ShapeSeq(cs)
    decreases cs, 0
  {
    if |cs| > 0 {
      var h := Number(cs[0], c);
      NumberCorrect(cs[0], c);
      NumberSeqCorrect(cs[1..], h.1);
      var r := NumberSeq(cs, c).0;
      assert r[0] == h.0 && r[1..] == NumberSeq(cs[1..], h.1).0;
      RangeAppend(c, |HoleIds(cs[0])|, |HoleIdsSeq(cs[1..])|);
    }
  }

  // ---------------------------------------------------------------------
  // Templates
  // ---------------------------------------------------------------------

  /** A template value's arguments: text, or a layout tree. */
  datatype Arg = StrArg(s: string) | LayoutArg(node: Layout.LayoutNode)

  datatype Renderable = Renderable(root: Node, args: seq<Arg>)

  /** `Template`: parses the template, numbers its holes from 0 and binds the arguments. */
  function Template(template: string, args: seq<Arg>): (r: Renderable)
    ensures HoleIds(r.root) == Range(0, |HoleIds(ParseAST(template))|)
    ensures Shape(r.root) == Shape(ParseAST(template)) && r.args == args
  {
    NumberCorrect(ParseAST(template), 0);
    Renderable(Number(ParseAST(template), 0).0, args)
  }

  // ---------------------------------------------------------------------
  // Style inheritance and the markup test
  // ---------------------------------------------------------------------

  /** `mergeStyles`: attributes accumulate; a child's own colour wins over the parent's. */
  function MergeStyles(p: Style, c: Style): (m: Style)
    ensures m.bold == (p.bold || c.bold) && m.dim == (p.dim || c.dim)
    ensures m.italic == (p.italic || c.italic) && m.underline == (p.underline || c.underline)
    ensures m.strike == (p.strike || c.strike) && m.reverse == (p.reverse || c.reverse)
    ensures m.blink == (p.blink || c.blink)
    ensures m.color == (if c.color != "" then c.color else p.color)
    ensures m.bgColor == (if c.bgColor != "" then c.bgColor else p.bgColor)
  {
    Style(p.bold || c.bold, p.dim || c.dim, p.italic || c.italic, p.underline || c.underline,
          p.strike || c.strike, p.reverse || c.reverse, p.blink || c.blink,
          if c.color == "" then p.color else c.color,
          if c.bgColor == "" then p.bgColor else c.bgColor)
  }

  /** The empty style is neutral on both sides, merging is associative, and a style absorbs itself. */
  lemma MergeLaws(a: Style, b: Style, c: Style)
    ensures MergeStyles(Plain, a) == a && MergeStyles(a, Plain) == a
    ensures MergeStyles(MergeStyles(a, b), c) == MergeStyles(a, MergeStyles(b, c))
    ensures MergeStyles(a, a) == a
  {
    MergeIdentity(a);
    MergeAssoc(a, b, c);
    MergeIdempotent(a);
  }

  lemma MergeIdentity(a: Style)
    ensures MergeStyles(Plain, a) == a && MergeStyles(a, Plain) == a
  {
  }

  lemma MergeAssoc(a: Style, b: Style, c: Style)
    ensures MergeStyles(MergeStyles(a, b), c) == MergeStyles(a, MergeStyles(b, c))
  {
  }

  lemma MergeIdempotent(a: Style)
    ensures MergeStyles(a, a) == a
  {
  }

  /** The markers whose presence sends a value through the parser. */
  const Markers: seq<string> := ["**", "__", "#", "!"]

  /** The loop over the markers: does any of them occur? */
  function AnyContained(s: string, ms: seq<string>): (b: bool)
    ensures b <==> exists i :: 0 <= i < |ms| && Contains(s, ms[i])
  {
    if |ms| == 0 then false
    else if Contains(s, ms[0]) then true
    else
      var b := AnyContained(s, ms[1..]);
      assert forall i :: 1 <= i < |ms| ==> ms[i] == ms[1..][i - 1];
      b
  }

  /** `containsMarkup`: the value has a bold or underline opener, or a '#' or '!' anywhere. */
  function ContainsMarkup(s: string): (b: bool)
    ensures b <==> Contains(s, "**") || Contains(s, "__") || '#' in s || '!' in s
  {
    ContainsRune(s, '#');
    ContainsRune(s, '!');
    var b := AnyContained(s, Markers);
    assert Markers[0] == "**" && Markers[1] == "__" && Markers[2] == "#" && Markers[3] == "!";
    b
  }

  // ---------------------------------------------------------------------
  // Hole lookup
  // ---------------------------------------------------------------------

  /** What indexing the arguments with a hole number does, guarded by `id < len(args)` only. */
  datatype Lookup = Found(arg: Arg) | Skip | IndexPanic

  /** The guard as written: a negative number passes it and the index expression panics. */
  function HoleLookupAsWritten(id: int, args: seq<Arg>): (r: Lookup)
    ensures r.IndexPanic? <==> id < 0 && id < |args|
    ensures r.Found? <==> 0 <= id < |args|
    ensures r.Found? ==> r.arg == args[id]
  {
    if id < |args| then
      if id < 0 then IndexPanic else Found(args[id])
    else Skip
  }

  /** The guard as intended: a number outside the arguments draws nothing. */
  function HoleLookup(id: int, args: seq<Arg>): (r: Option<Arg>)
    ensures r.Some? <==> 0 <= id < |args|
    ensures r.Some? ==> r.value == args[id]
  {
    if 0 <= id < |args| then Some(args[id]) else None
  }

  /**
   * The two guards agree on every number the template numbering produces
   * (those are never negative); they differ exactly on negative numbers,
   * where the written guard panics.
   */
  lemma LookupAgrees(id: int, args: seq<Arg>)
    ensures HoleLookupAsWritten(id, args).IndexPanic? <==> id < 0
    ensures id >= 0 ==> (HoleLookupAsWritten(id, args) == if 0 <= id < |args| then Found(args[id]) else Skip)
    ensures HoleLookupAsWritten(id, args).Found? <==> HoleLookup(id, args).Some?
  {
  }

  /** Every hole of a template carries a number the arguments are indexed with safely. */
  lemma TemplateHolesNonNegative(template: string, args: seq<Arg>)
    ensures forall i :: 0 <= i < |HoleIds(Template(template, args).root)| ==>
              HoleIds(Template(template, args).root)[i] == i
              && !HoleLookupAsWritten(i, args).IndexPanic?
  {
  }

  // ---------------------------------------------------------------------
  // renderNode
  // ---------------------------------------------------------------------

  /** The cursor a render call returns, with the buffer it leaves. */
  datatype Cursor = Cursor(buf: Buffer, x: int, y: int)

  const DimStyle := Plain.(dim := true)
  const RuleRune: char := '\U{2500}'
  const QuoteBar: char := '\U{2502}'
  const Bullet: char := '\U{2022}'

  /** Dynamic markup is rendered with no arguments, so it cannot nest further. */
  function Rank(args: seq<Arg>): nat {
    if |args| == 0 then 0 else 1
  }

  /** `Set` guarded by `0 <= y < height`. */
  function SetInRow(b: Buffer, x: int, y: int, ch: char, style: Style): (r: Buffer)
    requires Valid(b)
    ensures Valid(r) && r.width == b.width && r.height == b.height
  {
    if 0 <= y < b.height then Set(b, x, y, ch, style) else b
  }

  /** The rule loop: columns `k` .. width - 1 of row `y`. */
  function RuleFrom(b: Buffer, y: int, k: nat): (r: Buffer)
    requires Valid(b)
    ensures Valid(r) && r.width == b.width && r.height == b.height
    ensures forall px, py :: Get(r, px, py) ==
              if py == y && k <= px && InRange(b, px, py) then Cell(RuleRune, DimStyle) else Get(b, px, py)
    decreases b.width - k
  {
    if k >= b.width then b
    else
      GetSetAll(b, k, y, RuleRune, DimStyle);
      RuleFrom(Set(b, k, y, RuleRune, DimStyle), y, k + 1)
  }

  /**
   * The code-block loop with the single Dim span of the built-in
   * highlighter: line `i` of the code starts at column `x` of row `y + i`,
   * and empty lines draw nothing.
   */
  function CodeRows(b: Buffer, parts: seq<string>, x: int, y: int): (r: Buffer)
    requires Valid(b)
    ensures Valid(r) && r.width == b.width && r.height == b.height
    decreases |parts|
  {
    if |parts| == 0 then b
    else
      var b1 := if parts[0] != "" && 0 <= y < b.height then DrawText(b, x, y, parts[0], DimStyle) else b;
      CodeRows(b1, parts[1..], x, y + 1)
  }

  /**
   * `renderNode` for node `n` drawn with style `st` (the node's own style,
   * or the one merged from its parent). Every node leaves the cursor at or
   * right of where it started.
   */
  function RenderNode(b: Buffer, n: Node, st: Style, args: seq<Arg>, x: int, y: int): (r: Cursor)
    requires Valid(b)
    ensures Valid(r.buf) && r.buf.width == b.width && r.buf.height == b.height
    ensures r.x >= x
    ensures y >= b.height ==> r == Cursor(b, x, y)
    decreases Rank(args), n, 1
  {
    if y >= b.height then Cursor(b, x, y)
    else match n.typ
      case NodeRoot => RenderRows(b, n.children, args, x, y)
      case NodeList => RenderRows(b, n.children, args, x, y)
      case NodeBlock => Cursor(RenderInline(b, n.children, Some(st), args, x, y).buf, x, y + 1)
      case NodeHeader => Cursor(RenderInline(b, n.children, Some(st), args, x, y).buf, x, y + 1)
      case NodeHR => Cursor(if 0 <= y then RuleFrom(b, y, 0) else b, x, y + 1)
      case NodeQuote =>
        var b1 := SetInRow(b, x, y, QuoteBar, DimStyle);
        Cursor(RenderInline(b1, n.children, None, args, x + 2, y).buf, x, y + 1)
      case NodeListItem =>
        var b1 := SetInRow(b, x, y, Bullet, Plain);
        Cursor(RenderInline(b1, n.children, None, args, x + 2, y).buf, x, y + 1)
      case NodeCodeBlock =>
        var parts := Split(n.content, '\n');
        Cursor(CodeRows(b, parts, x, y), x, y + |parts|)
      case NodeText =>
        if n.content == "" then Cursor(b, x, y + 1)
        else Cursor(if 0 <= y then DrawText(b, x, y, n.content, st) else b, x + |n.content|, y)
      case NodeStyle => RenderInline(b, n.children, Some(st), args, x, y)
      case NodeHole =>
        match HoleLookup(n.holeId, args)
        case None => Cursor(b, x, y)
        case Some(LayoutArg(node)) =>
          var m := LayoutEngine.Measure(node, b.width - x, b.height - y);
          Cursor(LayoutEngine.Draw(m, b, x, y).buf, x, y + m.computedH)
        case Some(StrArg(s)) =>
          if ContainsMarkup(s) then RenderDynamic(b, ParseAST(s).children, st, x, y)
          else Cursor(if 0 <= y then DrawText(b, x, y, s, st) else b, x + |s|, y)
  }

  /** The loop of Root and List: children stacked downwards from column `x`, each with its own style. */
  function RenderRows(b: Buffer, cs: seq<Node>, args: seq<Arg>, x: int, y: int): (r: Cursor)
    requires Valid(b)
    ensures Valid(r.buf) && r.buf.width == b.width && r.buf.height == b.height
    ensures r.x == x
    decreases Rank(args), cs, 0
  {
    if |cs| == 0 then Cursor(b, x, y)
    else
      var k := RenderNode(b, cs[0], cs[0].style, args, x, y);
      RenderRows(k.buf, cs[1..], args, x, k.y)
  }

  /**
   * The loop of the inline containers: children side by side on row `y`;
   * with `merge` set, each child's style is merged under it.
   */
  function RenderInline(b: Buffer, cs: seq<Node>, merge: Option<Style>, args: seq<Arg>, x: int, y: int): (r: Cursor)
    requires Valid(b)
    ensures Valid(r.buf) && r.buf.width == b.width && r.buf.height == b.height
    ensures r.x >= x && r.y == y
    decreases Rank(args), cs, 0
  {
    if |cs| == 0 then Cursor(b, x, y)
    else
      var st := if merge.Some? then MergeStyles(merge.value, cs[0].style) else cs[0].style;
      var k := RenderNode(b, cs[0], st, args, x, y);
      RenderInline(k.buf, cs[1..], merge, args, k.x, y)
  }

  /**
   * A value with markup: the inline children of each Block the parser
   * makes of it, on row `y`, merged under the hole's style and rendered
   * with no arguments. Other blocks are skipped.
   */
  function RenderDynamic(b: Buffer, blocks: seq<Node>, st: Style, x: int, y: int): (r: Cursor)
    requires Valid(b)
    ensures Valid(r.buf) && r.buf.width == b.width && r.buf.height == b.height
    ensures r.x >= x && r.y == y
    decreases 0, blocks, 0
  {
    if |blocks| == 0 then Cursor(b, x, y)
    else
      var k := if blocks[0].typ == NodeBlock then RenderInline(b, blocks[0].children, Some(st), [], x, y)
               else Cursor(b, x, y);
      RenderDynamic(k.buf, blocks[1..], st, k.x, y)
  }

  /** `Render`'s effect body: the root at the left edge, shifted up by the scroll offset. */
  function RenderFrame(b: Buffer, r: Renderable, scrollY: int): (c: Cursor)
    requires Valid(b)
    ensures Valid(c.buf) && c.buf.width == b.width && c.buf.height == b.height
    ensures c.x >= 0
  {
    RenderNode(b, r.root, r.root.style, r.args, 0, -scrollY)
  }

  // ---------------------------------------------------------------------
  // Cursor rules
  // ---------------------------------------------------------------------

  /** The node kinds that fill one row: Block, Header, HR, Quote, ListItem, and an empty Text. */
  predicate IsLineNode(n: Node) {
    n.typ in {NodeBlock, NodeHeader, NodeHR, NodeQuote, NodeListItem}
    || (n.typ == NodeText && n.content == "")
  }

  /** A one-row node returns to its column one row down, or stays put below the viewport. */
  lemma LineAdvance(b: Buffer, n: Node, st: Style, args: seq<Arg>, x: int, y: int)
    requires Valid(b) && IsLineNode(n)
    ensures RenderNode(b, n, st, args, x, y).x == x
    ensures RenderNode(b, n, st, args, x, y).y == if y >= b.height then y else y + 1
  {
  }

  /**
   * Stacking one-row nodes moves the cursor down one row per node until it
   * reaches the bottom of the buffer, where it stops.
   */
  lemma {:induction false} RowsOfLines(b: Buffer, cs: seq<Node>, args: seq<Arg>, x: int, y: int)
    requires Valid(b) && forall i :: 0 <= i < |cs| ==> IsLineNode(cs[i])
    ensures RenderRows(b, cs, args, x, y).y == if y >= b.height then y else Min(y + |cs|, b.height)
    decreases |cs|
  {
    if |cs| > 0 {
      var k := RenderNode(b, cs[0], cs[0].style, args, x, y);
      LineAdvance(b, cs[0], cs[0].style, args, x, y);
      RowsOfLines(k.buf, cs[1..], args, x, k.y);
    }
  }

  /** A Root or List of one-row children ends `|children|` rows down, clamped at the bottom. */
  lemma StackOfLines(b: Buffer, n: Node, st: Style, args: seq<Arg>, x: int, y: int)
    requires Valid(b) && (n.typ == NodeRoot || n.typ == NodeList)
    requires forall i :: 0 <= i < |n.children| ==> IsLineNode(n.children[i])
    ensures RenderNode(b, n, st, args, x, y).x == x
    ensures RenderNode(b, n, st, args, x, y).y == if y >= b.height then y else Min(y + |n.children|, b.height)
  {
    RowsOfLines(b, n.children, args, x, y);
  }

  /**
   * A Text node of one line moves right by its rune count (an empty one
   * moves down a row instead) and writes its runes, in its style, into
   * consecutive cells of its row; no other cell changes.
   */
  lemma TextCells(b: Buffer, n: Node, st: Style, args: seq<Arg>, x: int, y: int, cx: int, cy: int)
    requires Valid(b) && n.typ == NodeText && y < b.height && '\n' !in n.content
    ensures (RenderNode(b, n, st, args, x, y).x, RenderNode(b, n, st, args, x, y).y)
         == if n.content == "" then (x, y + 1) else (x + |n.content|, y)
    ensures Get(RenderNode(b, n, st, args, x, y).buf, cx, cy)
         == if InRange(b, cx, cy) && cy == y && x <= cx < x + |n.content| then Cell(n.content[cx - x], st)
            else Get(b, cx, cy)
  {
    if 0 <= y && n.content != "" {
      DrawLine(b, x, x, y, n.content, st, cx, cy);
    }
  }

  /** A hole whose number is outside the arguments draws nothing and leaves the cursor where it was. */
  lemma HoleSkipped(b: Buffer, n: Node, st: Style, args: seq<Arg>, x: int, y: int)
    requires Valid(b) && n.typ == NodeHole && !(0 <= n.holeId < |args|)
    ensures RenderNode(b, n, st, args, x, y) == Cursor(b, x, y)
  {
  }

  /** A non-empty text argument without markup renders exactly as a Text node holding it. */
  lemma HoleAsText(b: Buffer, n: Node, st: Style, args: seq<Arg>, x: int, y: int)
    requires Valid(b) && n.typ == NodeHole && 0 <= n.holeId < |args| && args[n.holeId].StrArg?
    requires args[n.holeId].s != "" && !ContainsMarkup(args[n.holeId].s)
    ensures RenderNode(b, n, st, args, x, y) == RenderNode(b, TextNode(args[n.holeId].s), st, args, x, y)
  {
  }

  /** The cells `CodeRows` writes: line `i` at row `y + i` from column `x`, dimmed. */
  lemma {:induction false} CodeRowsCells(b: Buffer, parts: seq<string>, x: int, y: int, cx: int, cy: int)
    requires Valid(b) && forall i :: 0 <= i < |parts| ==> '\n' !in parts[i]
    ensures Get(CodeRows(b, parts, x, y), cx, cy)
         == if InRange(b, cx, cy) && y <= cy < y + |parts| && x <= cx < x + |parts[cy - y]|
            then Cell(parts[cy - y][cx - x], DimStyle) else Get(b, cx, cy)
    decreases |parts|
  {
    if |parts| > 0 {
      var b1 := if parts[0] != "" && 0 <= y < b.height then DrawText(b, x, y, parts[0], DimStyle) else b;
      CodeRowsCells(b1, parts[1..], x, y + 1, cx, cy);
      if parts[0] != "" && 0 <= y < b.height {
        DrawLine(b, x, x, y, parts[0], DimStyle, cx, cy);
      }
      if y + 1 <= cy < y + |parts| {
        assert parts[1..][cy - (y + 1)] == parts[cy - y];
      }
    }
  }

  /**
   * A code block in the viewport draws line `i` of its content dimmed at
   * row `y + i` from column `x`, changes no other cell, and leaves the
   * cursor at column `x` on the row after its last line.
   */
  lemma CodeBlockCells(b: Buffer, n: Node, st: Style, args: seq<Arg>, x: int, y: int, cx: int, cy: int)
    requires Valid(b) && n.typ == NodeCodeBlock && y < b.height
    ensures var lines := Split(n.content, '\n');
      var r := RenderNode(b, n, st, args, x, y);
      r.x == x && r.y == y + |lines|
      && Get(r.buf, cx, cy)
         == if InRange(b, cx, cy) && y <= cy < y + |lines| && x <= cx < x + |lines[cy - y]|
            then Cell(lines[cy - y][cx - x], DimStyle) else Get(b, cx, cy)
  {
    CodeRowsCells(b, Split(n.content, '\n'), x, y, cx, cy);
  }

  /** The total rune count of a run of Text nodes. */
  function TextWidth(cs: seq<Node>): nat {
    if |cs| == 0 then 0 else |cs[0].content| + TextWidth(cs[1..])
  }

  /** Non-empty Text children side by side advance the cursor by their total width. */
  lemma {:induction false} InlineTexts(b: Buffer, cs: seq<Node>, merge: Option<Style>, args: seq<Arg>, x: int, y: int)
    requires Valid(b) && y < b.height
    requires forall i :: 0 <= i < |cs| ==> cs[i].typ == NodeText && cs[i].content != ""
    ensures RenderInline(b, cs, merge, args, x, y).x == x + TextWidth(cs)
    decreases |cs|
  {
    if |cs| > 0 {
      var st := if merge.Some? then MergeStyles(merge.value, cs[0].style) else cs[0].style;
      var k := RenderNode(b, cs[0], st, args, x, y);
      InlineTexts(k.buf, cs[1..], merge, args, k.x, y);
    }
  }

  /** A Style node over non-empty Text nodes ends its row position after all their runes. */
  lemma StyleSpan(b: Buffer, n: Node, st: Style, args: seq<Arg>, x: int, y: int)
    requires Valid(b) && n.typ == NodeStyle && y < b.height
    requires forall i :: 0 <= i < |n.children| ==> n.children[i].typ == NodeText && n.children[i].content != ""
    ensures RenderNode(b, n, st, args, x, y) == Cursor(RenderNode(b, n, st, args, x, y).buf, x + TextWidth(n.children), y)
  {
    InlineTexts(b, n.children, Some(st), args, x, y);
  }

  // ---------------------------------------------------------------------
  // A negative hole number in dynamic markup
  // ---------------------------------------------------------------------

  /**
   * The value "!%v" has markup, so a hole bound to it is parsed; the hole
   * inside it keeps the number -1 and is rendered with no arguments. The
   * written guard lets -1 through to the index expression, which panics;
   * the intended guard skips it.
   */
  lemma DynamicHolePanics()
    ensures ContainsMarkup("!%v")
    ensures ParseAST("!%v").children == [NewNode(NodeBlock).(children := [TextNode("!"), HoleNode()])]
    ensures HoleNode().holeId == -1
    ensures HoleLookupAsWritten(-1, []) == IndexPanic
    ensures HoleLookup(-1, []) == None
  {
    assert "!%v"[0] == '!';
    BangHoleDocument();
  }

  /**
   * With the intended guard the same hole renders the "!" and skips the
   * inner hole: one rune drawn, in the hole's style, cursor one column on.
   */
  lemma DynamicHoleRendered(b: Buffer, st: Style, x: int, y: int)
    requires Valid(b) && 0 <= y < b.height
    ensures RenderNode(b, HoleNode().(holeId := 0), st, [StrArg("!%v")], x, y)
         == Cursor(DrawText(b, x, y, "!", st), x + 1, y)
  {
    DynamicHolePanics();
    var blocks := ParseAST("!%v").children;
    assert HoleLookup(0, [StrArg("!%v")]) == Some(StrArg("!%v"));
    BangDynamic(b, st, x, y);
    assert RenderNode(b, HoleNode().(holeId := 0), st, [StrArg("!%v")], x, y) == RenderDynamic(b, blocks, st, x, y);
  }

  /** The single Block the parser makes of "!%v", rendered with no arguments. */
  lemma BangDynamic(b: Buffer, st: Style, x: int, y: int)
    requires Valid(b) && 0 <= y < b.height
    ensures RenderDynamic(b, [NewNode(NodeBlock).(children := [TextNode("!"), HoleNode()])], st, x, y)
         == Cursor(DrawText(b, x, y, "!", st), x + 1, y)
  {
    var blocks := [NewNode(NodeBlock).(children := [TextNode("!"), HoleNode()])];
    BangInline(b, st, x, y);
    var b1 := DrawText(b, x, y, "!", st);
    assert RenderDynamic(b1, blocks[1..], st, x + 1, y) == Cursor(b1, x + 1, y) by {
      assert blocks[1..] == [];
    }
  }

  /** The "!" then the unnumbered hole, merged under `st`: one rune drawn, the hole skipped. */
  lemma BangInline(b: Buffer, st: Style, x: int, y: int)
    requires Valid(b) && 0 <= y < b.height
    ensures RenderInline(b, [TextNode("!"), HoleNode()], Some(st), [], x, y)
         == Cursor(DrawText(b, x, y, "!", st), x + 1, y)
  {
    MergeIdentity(st);
    var kids := [TextNode("!"), HoleNode()];
    var b1 := DrawText(b, x, y, "!", st);
    assert RenderNode(b, TextNode("!"), MergeStyles(st, Plain), [], x, y) == Cursor(b1, x + 1, y);
    assert RenderNode(b1, HoleNode(), MergeStyles(st, Plain), [], x + 1, y) == Cursor(b1, x + 1, y);
    assert kids[1..] == [HoleNode()] && kids[1..][1..] == [];
  }
}
