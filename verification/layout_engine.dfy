/**
 * The two passes over a layout tree: `Measure` computes every node's size
 * from the constraint it is given (border-box model, Fixed/Auto/Flex
 * children), and `Draw` places the children and paints borders and content
 * into the back buffer.
 */
module LayoutEngine {
  import opened Wrappers
  import opened Text
  import opened Styles
  import opened Screen
  import opened Layout

  function Max0(v: int): nat {
    if v < 0 then 0 else v
  }

  /** Go's integer division truncates toward zero, where Dafny's `/` is Euclidean. */
  function GoDiv(a: int, b: int): int
    requires b != 0
  {
    if a >= 0 then a / b else -((-a) / b)
  }

  function Abs(a: int): int {
    if a < 0 then -a else a
  }

  /** The remainder of a truncating division has the dividend's sign and is smaller than the divisor. */
  lemma GoDivTruncates(a: int, b: int)
    requires b > 0
    ensures var r := a - GoDiv(a, b) * b; (a >= 0 ==> 0 <= r < b) && (a < 0 ==> -b < r <= 0)
  {
    if a >= 0 {
      assert a == (a / b) * b + a % b;
    } else {
      var q := (-a) / b;
      assert -a == q * b + (-a) % b;
      assert GoDiv(a, b) * b == -(q * b);
    }
  }

  /** Truncating division is odd in the dividend. */
  lemma GoDivOdd(a: int, b: int)
    requires b != 0
    ensures GoDiv(-a, b) == -GoDiv(a, b)
  {
  }

  /** Space taken by padding on both sides and, when present, the border. */
  function Deduction(n: LayoutNode): int {
    n.padding * 2 + (if n.border then 2 else 0)
  }

  /** The size left for content: the constraint minus the deduction, never negative. */
  function ContentSize(constraint: int, n: LayoutNode): nat {
    Max0(constraint - Deduction(n))
  }

  // ----- measureContent -----

  function Lines(s: string): seq<string> {
    Split(s, '\n')
  }

  function LongestLine(lines: seq<string>): (m: nat)
    ensures forall i :: 0 <= i < |lines| ==> |lines[i]| <= m
    ensures m == 0 || exists i :: 0 <= i < |lines| && |lines[i]| == m
    decreases |lines|
  {
    if |lines| == 0 then 0
    else
      var rest := LongestLine(lines[..|lines| - 1]);
      var last := |lines[|lines| - 1]|;
      if last > rest then last else rest
  }

  /**
   * `measureContent`: the widest line (in runes) and the number of lines,
   * each clamped to the maximum. Every line, truncated to the maximum width,
   * fits in the result, and an unclamped width is the length of some line.
   */
  function MeasureContent(s: string, maxW: int, maxH: int): (g: Geom)
    ensures g.w <= maxW && g.h <= maxH && g.h <= |Lines(s)|
    ensures forall i :: 0 <= i < |Lines(s)| ==> Min(|Lines(s)[i]|, maxW) <= g.w
    ensures g.w == maxW || exists i :: 0 <= i < |Lines(s)| && |Lines(s)[i]| == g.w
    ensures g.h == maxH || g.h == |Lines(s)|
    ensures maxW >= 0 ==> g.w >= 0
  {
    var lines := Lines(s);
    Geom(Min(LongestLine(lines), maxW), Min(|lines|, maxH))
  }

  // ----- Measure -----

  /** How the parent sees a child: content, or a node sized Fixed/Auto/Flex along the main axis. */
  datatype Kind = KContent | KFixed | KAuto | KFlex

  function MainSize(dir: Direction, c: LayoutNode): Size {
    if dir == DirRow then c.width else c.height
  }

  function KindOf(dir: Direction, c: LayoutNode): Kind {
    if c.content.Some? then KContent
    else match MainSize(dir, c).typ
      case SizeFixed => KFixed
      case SizeAuto => KAuto
      case SizeFlex => KFlex
  }

  /** The extent of a geometry along the main axis of `dir`, and across it. */
  function Main(dir: Direction, g: Geom): int {
    if dir == DirRow then g.w else g.h
  }

  function Cross(dir: Direction, g: Geom): int {
    if dir == DirRow then g.h else g.w
  }

  /** Sum of main extents of the children of one kind. */
  function TotalMain(dir: Direction, cs: seq<LayoutNode>, gs: seq<Geom>, k: Kind): int
    requires |cs| == |gs|
    decreases |cs|
  {
    if |cs| == 0 then 0
    else
      TotalMain(dir, cs[..|cs| - 1], gs[..|gs| - 1], k)
      + (if KindOf(dir, cs[|cs| - 1]) == k then Main(dir, gs[|gs| - 1]) else 0)
  }

  /** Sum of the flex weights of the children. */
  function FlexWeight(dir: Direction, cs: seq<LayoutNode>): int
    decreases |cs|
  {
    if |cs| == 0 then 0
    else FlexWeight(dir, cs[..|cs| - 1]) + (if KindOf(dir, cs[|cs| - 1]) == KFlex then MainSize(dir, cs[|cs| - 1]).value else 0)
  }

  /** Sum of the main extents of all geometries. */
  function SumMain(dir: Direction, gs: seq<Geom>): int
    decreases |gs|
  {
    if |gs| == 0 then 0 else SumMain(dir, gs[..|gs| - 1]) + Main(dir, gs[|gs| - 1])
  }

  /** The largest cross extent, or 0. */
  function MaxCross(dir: Direction, gs: seq<Geom>): (m: nat)
    ensures forall i :: 0 <= i < |gs| ==> Cross(dir, gs[i]) <= m
    ensures m == 0 || exists i :: 0 <= i < |gs| && Cross(dir, gs[i]) == m
    decreases |gs|
  {
    if |gs| == 0 then 0
    else
      var rest := MaxCross(dir, gs[..|gs| - 1]);
      var last := Cross(dir, gs[|gs| - 1]);
      if last > rest then last else rest
  }

  function GeomOf(m: LayoutNode): Geom {
    Geom(m.computedW, m.computedH)
  }

  /**
   * A node is ready to be drawn when it has one geometry per child, its
   * content children have a non-negative width and its node children are
   * ready too.
   */
  ghost predicate Measured(n: LayoutNode)
    decreases n
  {
    && |n.childGeoms| == |n.children|
    && (forall i :: 0 <= i < |n.children| && n.children[i].content.Some? ==> n.childGeoms[i].w >= 0)
    && (forall i :: 0 <= i < |n.children| && n.children[i].content.None? ==> Measured(n.children[i]))
  }

  /** First pass for one child: content and Fixed/Auto nodes are measured, Flex nodes wait. */
  function Pass1(dir: Direction, c: LayoutNode, cW: nat, cH: nat): (r: (LayoutNode, Geom))
    ensures c.content.Some? ==> r == (c, MeasureContent(c.content.value, cW, cH))
    ensures KindOf(dir, c) == KFlex ==> r == (c, Geom(0, 0))
    ensures KindOf(dir, c) in {KFixed, KAuto} ==> r.0.content == None && Measured(r.0) && r.1 == GeomOf(r.0)
    decreases c, 5
  {
    match c.content
    case Some(text) => (c, MeasureContent(text, cW, cH))
    case None =>
      var s := MainSize(dir, c);
      if s.typ == SizeFlex then (c, Geom(0, 0))
      else
        var m :=
          if s.typ == SizeAuto then Measure(c, cW, cH)
          else if dir == DirRow then Measure(c, s.value, cH)
          else Measure(c, cW, s.value);
        (m, GeomOf(m))
  }

  /** The space a flex child receives: its share of `available` by weight, truncated. */
  function Share(available: nat, weight: int, total: int): int {
    if total > 0 then GoDiv(available * weight, total) else 0
  }

  /** Second pass for a flex child: measured with its share along the main axis. */
  function FlexPass(dir: Direction, c: LayoutNode, cW: nat, cH: nat, available: nat, total: int): (r: (LayoutNode, Geom))
    requires c.content.None?
    ensures r.0.content == None && Measured(r.0) && r.1 == GeomOf(r.0)
    decreases c, 5
  {
    var share := Share(available, MainSize(dir, c).value, total);
    var m := if dir == DirRow then Measure(c, share, cH) else Measure(c, cW, share);
    (m, GeomOf(m))
  }

  /** The first-pass results of every child, in order. */
  function FirstPass(n: LayoutNode, cW: nat, cH: nat): (r: seq<(LayoutNode, Geom)>)
    ensures |r| == |n.children|
    ensures forall i :: 0 <= i < |r| ==> r[i] == Pass1(n.dir, n.children[i], cW, cH)
    decreases n, 1
  {
    seq(|n.children|, i requires 0 <= i < |n.children| => Pass1(n.dir, n.children[i], cW, cH))
  }

  function Geoms(ps: seq<(LayoutNode, Geom)>): (gs: seq<Geom>)
    ensures |gs| == |ps| && forall i :: 0 <= i < |ps| ==> gs[i] == ps[i].1
  {
    seq(|ps|, i requires 0 <= i < |ps| => ps[i].1)
  }

  function Nodes(ps: seq<(LayoutNode, Geom)>): (ns: seq<LayoutNode>)
    ensures |ns| == |ps| && forall i :: 0 <= i < |ps| ==> ns[i] == ps[i].0
  {
    seq(|ps|, i requires 0 <= i < |ps| => ps[i].0)
  }

  /** The main-axis space left for flex children after the first pass, never negative. */
  function Available(n: LayoutNode, cW: nat, cH: nat): nat
    decreases n, 2
  {
    var first := FirstPass(n, cW, cH);
    Leftover(n.dir, n.children, Geoms(first), if n.dir == DirRow then cW else cH)
  }

  /** The main-axis space `mainContent` leaves after the Fixed, Auto and content children, never negative. */
  function Leftover(dir: Direction, cs: seq<LayoutNode>, gs: seq<Geom>, mainContent: int): nat
    requires |cs| == |gs|
  {
    Max0(mainContent - TotalMain(dir, cs, gs, KFixed)
                     - (TotalMain(dir, cs, gs, KAuto) + TotalMain(dir, cs, gs, KContent)))
  }

  /** A child after both passes: content is measured as text, a node is measured itself. */
  ghost predicate ChildDone(c: LayoutNode, p: (LayoutNode, Geom), cW: nat, cH: nat) {
    && (c.content.Some? ==> p == (c, MeasureContent(c.content.value, cW, cH)))
    && (c.content.None? ==> p.0.content == None && Measured(p.0) && p.1 == GeomOf(p.0))
  }

  lemma AssembleMeasured(n: LayoutNode, second: seq<(LayoutNode, Geom)>, cW: nat, cH: nat, r: LayoutNode)
    requires |second| == |n.children|
    requires forall i :: 0 <= i < |second| ==> ChildDone(n.children[i], second[i], cW, cH)
    requires r.children == Nodes(second) && r.childGeoms == Geoms(second)
    ensures forall i :: 0 <= i < |n.children| && n.children[i].content.Some? ==>
              r.children[i] == n.children[i] && r.childGeoms[i] == MeasureContent(n.children[i].content.value, cW, cH)
    ensures forall i :: 0 <= i < |n.children| && n.children[i].content.None? ==>
              r.childGeoms[i] == GeomOf(r.children[i])
    ensures Measured(r)
  {
    forall i | 0 <= i < |n.children|
      ensures ChildDone(n.children[i], (r.children[i], r.childGeoms[i]), cW, cH)
    {
      assert (r.children[i], r.childGeoms[i]) == second[i];
      if n.children[i].content.Some? {
        assert r.childGeoms[i].w >= 0;
      }
    }
  }

  /** The results of both passes for every child, in order. */
  function SecondPass(n: LayoutNode, cW: nat, cH: nat): (r: seq<(LayoutNode, Geom)>)
    ensures |r| == |n.children|
    ensures forall i :: 0 <= i < |r| ==>
              r[i] == if KindOf(n.dir, n.children[i]) == KFlex
                      then FlexPass(n.dir, n.children[i], cW, cH, Available(n, cW, cH), FlexWeight(n.dir, n.children))
                      else FirstPass(n, cW, cH)[i]
    ensures forall i :: 0 <= i < |r| ==> ChildDone(n.children[i], r[i], cW, cH)
    decreases n, 3
  {
    var first := FirstPass(n, cW, cH);
    var available := Available(n, cW, cH);
    var total := FlexWeight(n.dir, n.children);
    seq(|n.children|, i requires 0 <= i < |n.children| =>
      if KindOf(n.dir, n.children[i]) == KFlex
      then FlexPass(n.dir, n.children[i], cW, cH, available, total)
      else first[i])
  }

  /**
   * `Measure`: sizes the node for the constraint (cw, ch). Only the measured
   * fields and the children change. A dimension that is not Auto takes the
   * constraint as it is; an Auto dimension is the sum of the children along
   * the main axis, or their maximum across it, plus the deduction. There is
   * one geometry per child: content is measured against the content size,
   * a node child's geometry is its own computed size.
   */
  function Measure(n: LayoutNode, cw: int, ch: int): (r: LayoutNode)
    ensures r.(children := n.children, computedW := n.computedW, computedH := n.computedH,
               childGeoms := n.childGeoms) == n
    ensures |r.children| == |n.children| == |r.childGeoms|
    ensures n.width.typ != SizeAuto ==> r.computedW == cw
    ensures n.height.typ != SizeAuto ==> r.computedH == ch
    ensures n.width.typ == SizeAuto ==>
              r.computedW == Deduction(n) + if n.dir == DirRow then SumMain(DirRow, r.childGeoms)
                                            else MaxCross(DirColumn, r.childGeoms)
    ensures n.height.typ == SizeAuto ==>
              r.computedH == Deduction(n) + if n.dir == DirRow then MaxCross(DirRow, r.childGeoms)
                                            else SumMain(DirColumn, r.childGeoms)
    ensures forall i :: 0 <= i < |n.children| && n.children[i].content.Some? ==>
              r.children[i] == n.children[i]
              && r.childGeoms[i] == MeasureContent(n.children[i].content.value, ContentSize(cw, n), ContentSize(ch, n))
    ensures forall i :: 0 <= i < |n.children| && n.children[i].content.None? ==>
              r.childGeoms[i] == GeomOf(r.children[i])
    ensures Measured(r)
    decreases n, 4
  {
    var cW, cH := ContentSize(cw, n), ContentSize(ch, n);
    var second := SecondPass(n, cW, cH);
    var gs := Geoms(second);
    var finalW :=
      if n.width.typ != SizeAuto then cw
      else Deduction(n) + if n.dir == DirRow then SumMain(DirRow, gs) else MaxCross(DirColumn, gs);
    var finalH :=
      if n.height.typ != SizeAuto then ch
      else Deduction(n) + if n.dir == DirRow then MaxCross(DirRow, gs) else SumMain(DirColumn, gs);
    var r := n.(children := Nodes(second), computedW := finalW, computedH := finalH, childGeoms := gs);
    AssembleMeasured(n, second, cW, cH, r);
    r
  }

  // ----- Properties of the measure pass -----

  /** A Fixed node child gets exactly its fixed extent along the main axis. */
  lemma FixedChildGetsValue(n: LayoutNode, cw: int, ch: int, i: nat)
    requires i < |n.children| && KindOf(n.dir, n.children[i]) == KFixed
    ensures Main(n.dir, Measure(n, cw, ch).childGeoms[i]) == MainSize(n.dir, n.children[i]).value
  {
    var cW, cH := ContentSize(cw, n), ContentSize(ch, n);
    var second := SecondPass(n, cW, cH);
    assert Measure(n, cw, ch).childGeoms[i] == second[i].1;
    assert second[i] == Pass1(n.dir, n.children[i], cW, cH);
  }

  /** A Flex node child gets exactly its share of the available space along the main axis. */
  lemma FlexChildGetsShare(n: LayoutNode, cw: int, ch: int, i: nat)
    requires i < |n.children| && KindOf(n.dir, n.children[i]) == KFlex
    ensures Main(n.dir, Measure(n, cw, ch).childGeoms[i]) ==
            Share(Available(n, ContentSize(cw, n), ContentSize(ch, n)),
                  MainSize(n.dir, n.children[i]).value, FlexWeight(n.dir, n.children))
  {
    var cW, cH := ContentSize(cw, n), ContentSize(ch, n);
    var second := SecondPass(n, cW, cH);
    assert Measure(n, cw, ch).childGeoms[i] == second[i].1;
  }

  /** Children that are not Flex keep the geometry of the first pass. */
  lemma NonFlexKept(n: LayoutNode, cw: int, ch: int)
    ensures var gs := Measure(n, cw, ch).childGeoms;
            var first := Geoms(FirstPass(n, ContentSize(cw, n), ContentSize(ch, n)));
            forall i :: 0 <= i < |n.children| && KindOf(n.dir, n.children[i]) != KFlex ==> gs[i] == first[i]
  {
    var cW, cH := ContentSize(cw, n), ContentSize(ch, n);
    var second := SecondPass(n, cW, cH);
    assert Measure(n, cw, ch).childGeoms == Geoms(second);
  }

  /** Totals of one kind depend only on the geometries of that kind. */
  lemma {:induction false} TotalMainCongruent(dir: Direction, cs: seq<LayoutNode>, gs1: seq<Geom>, gs2: seq<Geom>, k: Kind)
    requires |cs| == |gs1| == |gs2|
    requires forall i :: 0 <= i < |cs| && KindOf(dir, cs[i]) == k ==> Main(dir, gs1[i]) == Main(dir, gs2[i])
    ensures TotalMain(dir, cs, gs1, k) == TotalMain(dir, cs, gs2, k)
    decreases |cs|
  {
    if |cs| > 0 {
      TotalMainCongruent(dir, cs[..|cs| - 1], gs1[..|cs| - 1], gs2[..|cs| - 1], k);
    }
  }

  /** The sum of the shares of all flex children. */
  function ShareTotal(dir: Direction, cs: seq<LayoutNode>, available: nat, total: int): int
    decreases |cs|
  {
    if |cs| == 0 then 0
    else ShareTotal(dir, cs[..|cs| - 1], available, total)
         + (if KindOf(dir, cs[|cs| - 1]) == KFlex then Share(available, MainSize(dir, cs[|cs| - 1]).value, total) else 0)
  }

  lemma {:induction false} FlexTotalIsShareTotal(dir: Direction, cs: seq<LayoutNode>, gs: seq<Geom>, available: nat, total: int)
    requires |cs| == |gs|
    requires forall i :: 0 <= i < |cs| && KindOf(dir, cs[i]) == KFlex ==>
               Main(dir, gs[i]) == Share(available, MainSize(dir, cs[i]).value, total)
    ensures TotalMain(dir, cs, gs, KFlex) == ShareTotal(dir, cs, available, total)
    decreases |cs|
  {
    if |cs| > 0 {
      FlexTotalIsShareTotal(dir, cs[..|cs| - 1], gs[..|cs| - 1], available, total);
    }
  }

  ghost predicate WeightsNonNegative(dir: Direction, cs: seq<LayoutNode>) {
    forall i :: 0 <= i < |cs| && KindOf(dir, cs[i]) == KFlex ==> MainSize(dir, cs[i]).value >= 0
  }

  lemma {:induction false} FlexWeightNonNegative(dir: Direction, cs: seq<LayoutNode>)
    requires WeightsNonNegative(dir, cs)
    ensures FlexWeight(dir, cs) >= 0
    decreases |cs|
  {
    if |cs| > 0 {
      FlexWeightNonNegative(dir, cs[..|cs| - 1]);
    }
  }

  /** With non-negative weights each truncated share is at most its exact part: shares times total stay below available times weights. */
  lemma {:induction false} ShareTotalScaled(dir: Direction, cs: seq<LayoutNode>, available: nat, total: int)
    requires total > 0 && WeightsNonNegative(dir, cs)
    ensures ShareTotal(dir, cs, available, total) * total <= available * FlexWeight(dir, cs)
    decreases |cs|
  {
    if |cs| > 0 {
      var init := cs[..|cs| - 1];
      assert WeightsNonNegative(dir, init) by {
        forall i | 0 <= i < |init| && KindOf(dir, init[i]) == KFlex ensures MainSize(dir, init[i]).value >= 0 {
          assert init[i] == cs[i];
        }
      }
      ShareTotalScaled(dir, init, available, total);
      var s0, w0 := ShareTotal(dir, init, available, total), FlexWeight(dir, init);
      if KindOf(dir, cs[|cs| - 1]) == KFlex {
        var w := MainSize(dir, cs[|cs| - 1]).value;
        ShareBelowPart(available, w, total);
        ScaledSum(s0, Share(available, w, total), w0, w, available, total);
      }
    }
  }

  lemma ShareBelowPart(available: nat, w: int, total: int)
    requires total > 0 && w >= 0
    ensures Share(available, w, total) * total <= available * w
  {
    var a := available * w;
    assert 0 <= a;
    GoDivTruncates(a, total);
  }

  lemma ScaledSum(s0: int, s: int, w0: int, w: int, a: int, t: int)
    requires s0 * t <= a * w0 && s * t <= a * w
    ensures (s0 + s) * t <= a * (w0 + w)
  {
    assert (s0 + s) * t == s0 * t + s * t;
    assert a * (w0 + w) == a * w0 + a * w;
  }

  lemma CancelPositive(t: int, a: int, k: int)
    requires k > 0 && t * k <= a * k
    ensures t <= a
  {
    assert (t - a) * k == t * k - a * k;
  }

  /** With non-negative weights the flex shares never exceed the available space. */
  lemma SharesFit(dir: Direction, cs: seq<LayoutNode>, available: nat)
    requires WeightsNonNegative(dir, cs)
    ensures ShareTotal(dir, cs, available, FlexWeight(dir, cs)) <= available
  {
    var total := FlexWeight(dir, cs);
    FlexWeightNonNegative(dir, cs);
    if total > 0 {
      ShareTotalScaled(dir, cs, available, total);
      CancelPositive(ShareTotal(dir, cs, available, total), available, total);
    } else {
      ShareTotalZero(dir, cs, available, total);
    }
  }

  lemma {:induction false} ShareTotalZero(dir: Direction, cs: seq<LayoutNode>, available: nat, total: int)
    requires total <= 0
    ensures ShareTotal(dir, cs, available, total) == 0
    decreases |cs|
  {
    if |cs| > 0 {
      ShareTotalZero(dir, cs[..|cs| - 1], available, total);
    }
  }

  /**
   * With non-negative flex weights, the flex children of a measured node
   * together take no more than the main-axis content size left over by the
   * Fixed, Auto and content children.
   */
  lemma FlexChildrenFit(n: LayoutNode, cw: int, ch: int)
    requires WeightsNonNegative(n.dir, n.children)
    ensures var r := Measure(n, cw, ch);
            var gs := r.childGeoms;
            var mainContent := if n.dir == DirRow then ContentSize(cw, n) else ContentSize(ch, n);
            TotalMain(n.dir, n.children, gs, KFlex)
            <= Max0(mainContent - TotalMain(n.dir, n.children, gs, KFixed)
                    - (TotalMain(n.dir, n.children, gs, KAuto) + TotalMain(n.dir, n.children, gs, KContent)))
  {
    FlexWithinAvailable(n, cw, ch);
    AvailableFromMeasured(n, cw, ch);
  }

  /** The space left for Flex children, read off the final geometries. */
  lemma AvailableFromMeasured(n: LayoutNode, cw: int, ch: int)
    ensures Available(n, ContentSize(cw, n), ContentSize(ch, n))
            == Leftover(n.dir, n.children, Measure(n, cw, ch).childGeoms,
                        if n.dir == DirRow then ContentSize(cw, n) else ContentSize(ch, n))
  {
    var cW, cH := ContentSize(cw, n), ContentSize(ch, n);
    var gs := Measure(n, cw, ch).childGeoms;
    var first := Geoms(FirstPass(n, cW, cH));
    NonFlexKept(n, cw, ch);
    LeftoverAgrees(n.dir, n.children, gs, first, if n.dir == DirRow then cW else cH);
  }

  /** The leftover depends only on the geometries of the children that are not Flex. */
  lemma LeftoverAgrees(dir: Direction, cs: seq<LayoutNode>, gs1: seq<Geom>, gs2: seq<Geom>, m: int)
    requires |cs| == |gs1| == |gs2|
    requires forall i :: 0 <= i < |cs| && KindOf(dir, cs[i]) != KFlex ==> gs1[i] == gs2[i]
    ensures Leftover(dir, cs, gs1, m) == Leftover(dir, cs, gs2, m)
  {
    TotalMainCongruent(dir, cs, gs1, gs2, KFixed);
    TotalMainCongruent(dir, cs, gs1, gs2, KAuto);
    TotalMainCongruent(dir, cs, gs1, gs2, KContent);
  }

  /** The Flex children's measured extents add up to no more than the space left for them. */
  lemma FlexWithinAvailable(n: LayoutNode, cw: int, ch: int)
    requires WeightsNonNegative(n.dir, n.children)
    ensures TotalMain(n.dir, n.children, Measure(n, cw, ch).childGeoms, KFlex)
            <= Available(n, ContentSize(cw, n), ContentSize(ch, n))
  {
    var cW, cH := ContentSize(cw, n), ContentSize(ch, n);
    var gs := Measure(n, cw, ch).childGeoms;
    var available := Available(n, cW, cH);
    var total := FlexWeight(n.dir, n.children);
    forall i | 0 <= i < |n.children| && KindOf(n.dir, n.children[i]) == KFlex
      ensures Main(n.dir, gs[i]) == Share(available, MainSize(n.dir, n.children[i]).value, total)
    {
      FlexChildGetsShare(n, cw, ch, i);
    }
    FlexTotalIsShareTotal(n.dir, n.children, gs, available, total);
    SharesFit(n.dir, n.children, available);
  }

  // ----- Painting: a sequence of `Set` calls -----

  /** One `Set` call of a drawing routine. */
  datatype Write = Write(x: int, y: int, ch: char)

  /** Performs the writes in order, all with the same style. */
  function Paint(b: Buffer, ws: seq<Write>, style: Style): (r: Buffer)
    requires Valid(b)
    ensures Valid(r) && r.width == b.width && r.height == b.height
    decreases |ws|
  {
    if |ws| == 0 then b
    else
      var w := ws[|ws| - 1];
      Set(Paint(b, ws[..|ws| - 1], style), w.x, w.y, w.ch, style)
  }

  /** The rune of the last write at (x, y), if any. */
  function LastAt(ws: seq<Write>, x: int, y: int): Option<char>
    decreases |ws|
  {
    if |ws| == 0 then None
    else if ws[|ws| - 1].x == x && ws[|ws| - 1].y == y then Some(ws[|ws| - 1].ch)
    else LastAt(ws[..|ws| - 1], x, y)
  }

  /** After painting, a cell holds the last rune written to it, or what it held before. */
  lemma {:induction false} GetPaint(b: Buffer, ws: seq<Write>, style: Style, x: int, y: int)
    requires Valid(b)
    ensures Get(Paint(b, ws, style), x, y) ==
            if InRange(b, x, y) && LastAt(ws, x, y).Some? then Cell(LastAt(ws, x, y).value, style) else Get(b, x, y)
    decreases |ws|
  {
    if |ws| > 0 {
      var w := ws[|ws| - 1];
      GetPaint(b, ws[..|ws| - 1], style, x, y);
      GetSet(Paint(b, ws[..|ws| - 1], style), w.x, w.y, w.ch, style, x, y);
    }
  }

  lemma {:induction false} LastAtAppend(a: seq<Write>, c: seq<Write>, x: int, y: int)
    ensures LastAt(a + c, x, y) == if LastAt(c, x, y).Some? then LastAt(c, x, y) else LastAt(a, x, y)
    decreases |c|
  {
    if |c| == 0 {
      assert a + c == a;
    } else {
      assert (a + c)[..|a + c| - 1] == a + c[..|c| - 1];
      LastAtAppend(a, c[..|c| - 1], x, y);
    }
  }

  lemma LastAtSnoc(ws: seq<Write>, w: Write, x: int, y: int)
    ensures LastAt(ws + [w], x, y) == if w.x == x && w.y == y then Some(w.ch) else LastAt(ws, x, y)
  {
    assert (ws + [w])[..|ws|] == ws;
  }

  // ----- drawBorder -----

  const TopLeft: char := '\U{250C}'
  const TopRight: char := '\U{2510}'
  const BottomLeft: char := '\U{2514}'
  const BottomRight: char := '\U{2518}'
  const HLine: char := '\U{2500}'
  const VLine: char := '\U{2502}'

  /** The top and bottom edge writes for i = 1..k. */
  function HEdges(x: int, y: int, h: int, k: nat): seq<Write> {
    if k == 0 then [] else HEdges(x, y, h, k - 1) + [Write(x + k, y, HLine), Write(x + k, y + h - 1, HLine)]
  }

  /** The left and right edge writes for i = 1..k. */
  function VEdges(x: int, y: int, w: int, k: nat): seq<Write> {
    if k == 0 then [] else VEdges(x, y, w, k - 1) + [Write(x, y + k, VLine), Write(x + w - 1, y + k, VLine)]
  }

  /** `drawBorder`'s writes in call order: the four corners, then top/bottom, then left/right. */
  function BorderWrites(x: int, y: int, w: int, h: int): seq<Write> {
    [Write(x, y, TopLeft), Write(x + w - 1, y, TopRight), Write(x, y + h - 1, BottomLeft), Write(x + w - 1, y + h - 1, BottomRight)]
    + HEdges(x, y, h, Max0(w - 2)) + VEdges(x, y, w, Max0(h - 2))
  }

  function DrawBorder(b: Buffer, x: int, y: int, w: int, h: int): (r: Buffer)
    requires Valid(b)
    ensures Valid(r) && r.width == b.width && r.height == b.height
    ensures forall px, py :: !OnFrame(x, y, w, h, px, py) ==> Get(r, px, py) == Get(b, px, py)
  {
    BorderFrame(b, x, y, w, h);
    Paint(b, BorderWrites(x, y, w, h), Plain)
  }

  lemma BorderFrame(b: Buffer, x: int, y: int, w: int, h: int)
    requires Valid(b)
    ensures forall px, py :: !OnFrame(x, y, w, h, px, py) ==>
              Get(Paint(b, BorderWrites(x, y, w, h), Plain), px, py) == Get(b, px, py)
  {
    forall px, py | !OnFrame(x, y, w, h, px, py)
      ensures Get(Paint(b, BorderWrites(x, y, w, h), Plain), px, py) == Get(b, px, py)
    {
      GetPaint(b, BorderWrites(x, y, w, h), Plain, px, py);
      LastAtBorder(x, y, w, h, px, py);
    }
  }

  lemma {:induction false} LastAtHEdges(x: int, y: int, h: int, k: nat, px: int, py: int)
    ensures LastAt(HEdges(x, y, h, k), px, py) ==
            if (py == y || py == y + h - 1) && x + 1 <= px <= x + k then Some(HLine) else None
    decreases k
  {
    if k > 0 {
      var pre := HEdges(x, y, h, k - 1);
      var last := [Write(x + k, y, HLine), Write(x + k, y + h - 1, HLine)];
      assert pre + last == pre + [last[0]] + [last[1]];
      LastAtSnoc(pre + [last[0]], last[1], px, py);
      LastAtSnoc(pre, last[0], px, py);
      LastAtHEdges(x, y, h, k - 1, px, py);
    }
  }

  lemma {:induction false} LastAtVEdges(x: int, y: int, w: int, k: nat, px: int, py: int)
    ensures LastAt(VEdges(x, y, w, k), px, py) ==
            if (px == x || px == x + w - 1) && y + 1 <= py <= y + k then Some(VLine) else None
    decreases k
  {
    if k > 0 {
      var pre := VEdges(x, y, w, k - 1);
      var last := [Write(x, y + k, VLine), Write(x + w - 1, y + k, VLine)];
      assert pre + last == pre + [last[0]] + [last[1]];
      LastAtSnoc(pre + [last[0]], last[1], px, py);
      LastAtSnoc(pre, last[0], px, py);
      LastAtVEdges(x, y, w, k - 1, px, py);
    }
  }

  /** The cells of the frame of the rectangle at (x, y) of size w by h. */
  predicate OnFrame(x: int, y: int, w: int, h: int, px: int, py: int) {
    || ((px == x || px == x + w - 1) && (py == y || py == y + h - 1))
    || ((py == y || py == y + h - 1) && x < px < x + w - 1)
    || ((px == x || px == x + w - 1) && y < py < y + h - 1)
  }

  /** The rune a frame of at least 2 by 2 shows at each position. */
  function FrameChar(x: int, y: int, w: int, h: int, px: int, py: int): Option<char> {
    if px == x + w - 1 && py == y + h - 1 then Some(BottomRight)
    else if px == x && py == y + h - 1 then Some(BottomLeft)
    else if px == x + w - 1 && py == y then Some(TopRight)
    else if px == x && py == y then Some(TopLeft)
    else if (py == y || py == y + h - 1) && x < px < x + w - 1 then Some(HLine)
    else if (px == x || px == x + w - 1) && y < py < y + h - 1 then Some(VLine)
    else None
  }

  lemma LastAtCorners(x: int, y: int, w: int, h: int, px: int, py: int)
    ensures var cs := [Write(x, y, TopLeft), Write(x + w - 1, y, TopRight), Write(x, y + h - 1, BottomLeft), Write(x + w - 1, y + h - 1, BottomRight)];
            LastAt(cs, px, py) ==
              if px == x + w - 1 && py == y + h - 1 then Some(BottomRight)
              else if px == x && py == y + h - 1 then Some(BottomLeft)
              else if px == x + w - 1 && py == y then Some(TopRight)
              else if px == x && py == y then Some(TopLeft)
              else None
  {
    var cs := [Write(x, y, TopLeft), Write(x + w - 1, y, TopRight), Write(x, y + h - 1, BottomLeft), Write(x + w - 1, y + h - 1, BottomRight)];
    assert cs == [] + [cs[0]] + [cs[1]] + [cs[2]] + [cs[3]];
    LastAtSnoc([] + [cs[0]] + [cs[1]] + [cs[2]], cs[3], px, py);
    LastAtSnoc([] + [cs[0]] + [cs[1]], cs[2], px, py);
    LastAtSnoc([] + [cs[0]], cs[1], px, py);
    LastAtSnoc([], cs[0], px, py);
  }

  lemma LastAtBorder(x: int, y: int, w: int, h: int, px: int, py: int)
    ensures !OnFrame(x, y, w, h, px, py) ==> LastAt(BorderWrites(x, y, w, h), px, py) == None
    ensures w >= 2 && h >= 2 ==> LastAt(BorderWrites(x, y, w, h), px, py) == FrameChar(x, y, w, h, px, py)
  {
    var cs := [Write(x, y, TopLeft), Write(x + w - 1, y, TopRight), Write(x, y + h - 1, BottomLeft), Write(x + w - 1, y + h - 1, BottomRight)];
    var he := HEdges(x, y, h, Max0(w - 2));
    var ve := VEdges(x, y, w, Max0(h - 2));
    LastAtAppend(cs + he, ve, px, py);
    LastAtAppend(cs, he, px, py);
    LastAtCorners(x, y, w, h, px, py);
    LastAtHEdges(x, y, h, Max0(w - 2), px, py);
    LastAtVEdges(x, y, w, Max0(h - 2), px, py);
  }

  /**
   * `drawBorder`: only cells on the frame change; a frame of at least 2 by 2
   * gets its four corners and its edges in the box-drawing runes.
   */
  lemma DrawBorderCells(b: Buffer, x: int, y: int, w: int, h: int, px: int, py: int)
    requires Valid(b)
    ensures !OnFrame(x, y, w, h, px, py) ==> Get(DrawBorder(b, x, y, w, h), px, py) == Get(b, px, py)
    ensures w >= 2 && h >= 2 ==>
              Get(DrawBorder(b, x, y, w, h), px, py) ==
              if InRange(b, px, py) && FrameChar(x, y, w, h, px, py).Some?
              then Cell(FrameChar(x, y, w, h, px, py).value, Plain) else Get(b, px, py)
  {
    GetPaint(b, BorderWrites(x, y, w, h), Plain, px, py);
    LastAtBorder(x, y, w, h, px, py);
  }

  // ----- drawContent -----

  /** A line cut to at most `w` runes. */
  function Truncate(line: string, w: nat): (r: string)
    ensures |r| == Min(|line|, w) && r == line[..|r|]
  {
    if |line| > w then line[..w] else line
  }

  /** The rune the first `k` lines put at (px, py), if any. */
  function ContentAt(lines: seq<string>, x: int, y: int, w: nat, k: nat, px: int, py: int): Option<char>
    requires k <= |lines|
  {
    if y <= py < y + k && x <= px < x + Min(|lines[py - y]|, w) then Some(lines[py - y][px - x]) else None
  }

  /** The loop of `drawContent` over its first `k` lines: line i, truncated to `w` runes, starts at (x, y + i). */
  function DrawLines(b: Buffer, lines: seq<string>, x: int, y: int, w: nat, k: nat): (r: Buffer)
    requires Valid(b) && k <= |lines|
    ensures Valid(r) && r.width == b.width && r.height == b.height
  {
    if k == 0 then b else DrawFrom(DrawLines(b, lines, x, y, w, k - 1), x, x, y + k - 1, Truncate(lines[k - 1], w), Plain)
  }

  lemma {:induction false} GetDrawLines(b: Buffer, lines: seq<string>, x: int, y: int, w: nat, k: nat, px: int, py: int)
    requires Valid(b) && k <= |lines| && forall i :: 0 <= i < |lines| ==> '\n' !in lines[i]
    ensures var c := ContentAt(lines, x, y, w, k, px, py);
            Get(DrawLines(b, lines, x, y, w, k), px, py) ==
            if InRange(b, px, py) && c.Some? then Cell(c.value, Plain) else Get(b, px, py)
    decreases k
  {
    if k > 0 {
      var line := Truncate(lines[k - 1], w);
      assert '\n' !in line by {
        assert forall c :: c in line ==> c in lines[k - 1];
      }
      GetDrawLines(b, lines, x, y, w, k - 1, px, py);
      DrawLine(DrawLines(b, lines, x, y, w, k - 1), x, x, y + k - 1, line, Plain, px, py);
    }
  }

  /** The number of lines `drawContent` draws: at most `h`, and no more than there are. */
  function DrawnLines(s: string, h: int): nat {
    Min(Max0(h), |Lines(s)|)
  }

  /** `drawContent`: the first `h` lines of `s`, each truncated to `w` runes, from (x, y) down. */
  function DrawContent(b: Buffer, s: string, x: int, y: int, w: nat, h: int): (r: Buffer)
    requires Valid(b)
    ensures Valid(r) && r.width == b.width && r.height == b.height
    ensures forall px, py :: !(y <= py < y + Max0(h) && x <= px < x + w) ==> Get(r, px, py) == Get(b, px, py)
  {
    ContentFrame(b, s, x, y, w, h);
    DrawLines(b, Lines(s), x, y, w, DrawnLines(s, h))
  }

  lemma ContentFrame(b: Buffer, s: string, x: int, y: int, w: nat, h: int)
    requires Valid(b)
    ensures forall px, py :: !(y <= py < y + Max0(h) && x <= px < x + w) ==>
              Get(DrawLines(b, Lines(s), x, y, w, DrawnLines(s, h)), px, py) == Get(b, px, py)
  {
    forall px, py | !(y <= py < y + Max0(h) && x <= px < x + w)
      ensures Get(DrawLines(b, Lines(s), x, y, w, DrawnLines(s, h)), px, py) == Get(b, px, py)
    {
      GetDrawLines(b, Lines(s), x, y, w, DrawnLines(s, h), px, py);
    }
  }

  /**
   * What `drawContent` leaves in each cell: inside the w-by-h box, the rune
   * of the line at that row (when the line reaches that column); every other
   * cell keeps its old value.
   */
  lemma DrawContentCells(b: Buffer, s: string, x: int, y: int, w: nat, h: int, px: int, py: int)
    requires Valid(b)
    ensures var c := ContentAt(Lines(s), x, y, w, DrawnLines(s, h), px, py);
            Get(DrawContent(b, s, x, y, w, h), px, py) ==
            if InRange(b, px, py) && c.Some? then Cell(c.value, Plain) else Get(b, px, py)
    ensures !(y <= py < y + Max0(h) && x <= px < x + w) ==> Get(DrawContent(b, s, x, y, w, h), px, py) == Get(b, px, py)
  {
    GetDrawLines(b, Lines(s), x, y, w, DrawnLines(s, h), px, py);
  }

  // ----- Draw -----

  /** A drawn subtree: the node with its position recorded, and the buffer painted. */
  datatype Drawn = Drawn(node: LayoutNode, buf: Buffer)

  /** The state of `Draw`'s child loop: the drawn children so far, the buffer and the cursor. */
  datatype Kids = Kids(nodes: seq<LayoutNode>, buf: Buffer, cx: int, cy: int)

  /** Where the content area starts, relative to the node's corner. */
  function Inset(n: LayoutNode): int {
    n.padding + if n.border then 1 else 0
  }

  /** Position of child `i`: the content corner advanced by the main extents of the children before it. */
  function Origin(n: LayoutNode, x: int, y: int, i: nat): (int, int)
    requires i <= |n.childGeoms|
  {
    if n.dir == DirRow then (x + Inset(n) + SumMain(DirRow, n.childGeoms[..i]), y + Inset(n))
    else (x + Inset(n), y + Inset(n) + SumMain(DirColumn, n.childGeoms[..i]))
  }

  /** Consecutive children abut along the main axis: each starts where the previous one ends. */
  lemma ChildrenAbut(n: LayoutNode, x: int, y: int, i: nat)
    requires i < |n.childGeoms|
    ensures n.dir == DirRow ==> Origin(n, x, y, i + 1) == (Origin(n, x, y, i).0 + n.childGeoms[i].w, Origin(n, x, y, i).1)
    ensures n.dir == DirColumn ==> Origin(n, x, y, i + 1) == (Origin(n, x, y, i).0, Origin(n, x, y, i).1 + n.childGeoms[i].h)
  {
    assert n.childGeoms[..i + 1][..i] == n.childGeoms[..i];
  }

  /** The loop over the first `k` children, starting at the content corner. */
  function DrawKids(n: LayoutNode, b: Buffer, k: nat, x: int, y: int): (r: Kids)
    requires Valid(b) && Measured(n) && k <= |n.children|
    ensures Valid(r.buf) && r.buf.width == b.width && r.buf.height == b.height
    ensures |r.nodes| == k
    ensures (r.cx, r.cy) == Origin(n, x, y, k)
    ensures forall i :: 0 <= i < k && n.children[i].content.Some? ==> r.nodes[i] == n.children[i]
    ensures forall i :: 0 <= i < k && n.children[i].content.None? ==>
              (r.nodes[i].computedX, r.nodes[i].computedY) == Origin(n, x, y, i)
    decreases n, 0, k, 1
  {
    if k == 0 then Kids([], b, x + Inset(n), y + Inset(n))
    else
      var prev := DrawKids(n, b, k - 1, x, y);
      var r := DrawKid(n, prev, k - 1, x, y);
      assert forall i :: 0 <= i < k - 1 ==> r.nodes[i] == prev.nodes[i];
      r
  }

  /** One iteration: child `i` is drawn at the running corner, which then moves past it. */
  function DrawKid(n: LayoutNode, prev: Kids, i: nat, x: int, y: int): (r: Kids)
    requires Valid(prev.buf) && Measured(n) && i < |n.children|
    requires |prev.nodes| == i && (prev.cx, prev.cy) == Origin(n, x, y, i)
    ensures Valid(r.buf) && r.buf.width == prev.buf.width && r.buf.height == prev.buf.height
    ensures |r.nodes| == i + 1 && r.nodes[..i] == prev.nodes
    ensures (r.cx, r.cy) == Origin(n, x, y, i + 1)
    ensures n.children[i].content.Some? ==> r.nodes[i] == n.children[i]
    ensures n.children[i].content.None? ==> (r.nodes[i].computedX, r.nodes[i].computedY) == Origin(n, x, y, i)
    decreases n, 0, i, 0
  {
    var c, g := n.children[i], n.childGeoms[i];
    var (cx, cy) := if n.dir == DirRow then (prev.cx + g.w, prev.cy) else (prev.cx, prev.cy + g.h);
    ChildrenAbut(n, x, y, i);
    match c.content
    case Some(text) => Kids(prev.nodes + [c], DrawContent(prev.buf, text, prev.cx, prev.cy, g.w, g.h), cx, cy)
    case None =>
      var d := Draw(c, prev.buf, prev.cx, prev.cy);
      assert (prev.nodes + [d.node])[..i] == prev.nodes;
      Kids(prev.nodes + [d.node], d.buf, cx, cy)
  }

  /**
   * `Draw`: records the node's position, paints the border when set, and
   * draws each child at the content corner advanced by the extents of the
   * children before it: node children recursively, content as text in its
   * measured box.
   */
  function Draw(n: LayoutNode, b: Buffer, x: int, y: int): (r: Drawn)
    requires Valid(b) && Measured(n)
    ensures Valid(r.buf) && r.buf.width == b.width && r.buf.height == b.height
    ensures r.node.computedX == x && r.node.computedY == y
    ensures r.node.(computedX := n.computedX, computedY := n.computedY, children := n.children) == n
    ensures |r.node.children| == |n.children|
    ensures forall i :: 0 <= i < |n.children| && n.children[i].content.None? ==>
              (r.node.children[i].computedX, r.node.children[i].computedY) == Origin(n, x, y, i)
    decreases n, 1, 0, 0
  {
    var b1 := if n.border then DrawBorder(b, x, y, n.computedW, n.computedH) else b;
    var kids := DrawKids(n, b1, |n.children|, x, y);
    Drawn(n.(computedX := x, computedY := y, children := kids.nodes), kids.buf)
  }
}
