/**
 * The cell buffers of the terminal screen and the front/back diff renderer.
 * Terminal I/O is replaced by the sequence of output items the renderer
 * writes; `Replay` gives those items their terminal meaning.
 */
module Screen {
  import opened Wrappers
  import opened Text
  import opened Styles

  /** One screen position: a rune and its style. The zero rune means "never written". */
  datatype Cell = Cell(ch: char, style: Style)

  const Zero := Cell('\U{0}', Plain)
  const Blank := Cell(' ', Plain)

  /** A width x height grid stored row by row. */
  datatype Buffer = Buffer(width: nat, height: nat, cells: seq<Cell>)

  /**
   * Product of two naturals, by repeated addition. Index arithmetic goes
   * through this function so that proofs rely on the lemmas below rather
   * than on the solver's non-linear reasoning; `MulIsProduct` ties it to `*`.
   */
  function Mul(a: nat, b: nat): nat {
    if a == 0 then 0 else Mul(a - 1, b) + b
  }

  lemma {:induction false} MulIsProduct(a: nat, b: nat)
    ensures Mul(a, b) == a * b
  {
    if a > 0 {
      MulIsProduct(a - 1, b);
    }
  }

  predicate Valid(b: Buffer) {
    |b.cells| == Mul(b.height, b.width)
  }

  /** Row-major position of column x in row y. */
  function Idx(w: nat, x: nat, y: nat): nat {
    Mul(y, w) + x
  }

  predicate InRange(b: Buffer, x: int, y: int) {
    0 <= x < b.width && 0 <= y < b.height
  }

  lemma {:induction false} MulMono(a: nat, c: nat, w: nat)
    requires a <= c
    ensures Mul(a, w) <= Mul(c, w)
    decreases c
  {
    if a < c {
      MulMono(a, c - 1, w);
    }
  }

  /** Positions of row y occupy [y*w, y*w + w). */
  lemma IdxRow(w: nat, x: nat, y: nat)
    requires x < w
    ensures Mul(y, w) <= Idx(w, x, y) < Mul(y, w) + w
    ensures Mul(y, w) + w == Mul(y + 1, w)
  {
  }

  lemma IdxBound(w: nat, h: nat, x: nat, y: nat)
    requires x < w && y < h
    ensures Idx(w, x, y) < Mul(h, w)
  {
    IdxRow(w, x, y);
    MulMono(y + 1, h, w);
  }

  lemma IdxInjective(w: nat, x: nat, y: nat, x': nat, y': nat)
    requires x < w && x' < w && Idx(w, x, y) == Idx(w, x', y')
    ensures x == x' && y == y'
  {
    IdxRow(w, x, y);
    IdxRow(w, x', y');
    if y < y' {
      MulMono(y + 1, y', w);
    } else if y' < y {
      MulMono(y' + 1, y, w);
    }
  }

  /** `NewBuffer`: width*height zero cells. */
  function NewBuffer(width: nat, height: nat): (b: Buffer)
    ensures Valid(b) && b.width == width && b.height == height
    ensures |b.cells| == width * height
    ensures forall x, y :: Get(b, x, y) == Zero
  {
    MulIsProduct(height, width);
    var b := Buffer(width, height, seq(Mul(height, width), _ => Zero));
    assert forall x, y :: InRange(b, x, y) ==> Get(b, x, y) == Zero by {
      forall x, y | InRange(b, x, y) ensures Get(b, x, y) == Zero {
        IdxBound(width, height, x, y);
      }
    }
    b
  }

  /** `Set`: writes one cell; a position outside the grid is ignored. */
  function Set(b: Buffer, x: int, y: int, ch: char, style: Style): (r: Buffer)
    requires Valid(b)
    ensures Valid(r) && r.width == b.width && r.height == b.height
    ensures !InRange(b, x, y) ==> r == b
  {
    if !InRange(b, x, y) then b
    else
      IdxBound(b.width, b.height, x, y);
      b.(cells := b.cells[Idx(b.width, x, y) := Cell(ch, style)])
  }

  /** `Get`: the cell at (x, y), or the zero cell outside the grid. */
  function Get(b: Buffer, x: int, y: int): (c: Cell)
    requires Valid(b)
    ensures !InRange(b, x, y) ==> c == Zero
  {
    if !InRange(b, x, y) then Zero
    else
      IdxBound(b.width, b.height, x, y);
      b.cells[Idx(b.width, x, y)]
  }

  /** Reading after a write: the written cell at its position, the old cell everywhere else. */
  lemma GetSet(b: Buffer, x: int, y: int, ch: char, style: Style, x': int, y': int)
    requires Valid(b)
    ensures Get(Set(b, x, y, ch, style), x', y') ==
            if InRange(b, x, y) && x' == x && y' == y then Cell(ch, style) else Get(b, x', y')
  {
    if InRange(b, x, y) && InRange(b, x', y') {
      IdxBound(b.width, b.height, x, y);
      IdxBound(b.width, b.height, x', y');
      if (x', y') != (x, y) {
        if Idx(b.width, x, y) == Idx(b.width, x', y') {
          IdxInjective(b.width, x, y, x', y');
        }
        assert Idx(b.width, x, y) != Idx(b.width, x', y');
      }
    }
  }

  lemma GetSetAll(b: Buffer, x: int, y: int, ch: char, style: Style)
    requires Valid(b)
    ensures forall x', y' :: Get(Set(b, x, y, ch, style), x', y') ==
              (if InRange(b, x, y) && x' == x && y' == y then Cell(ch, style) else Get(b, x', y'))
  {
    forall x', y' {
      GetSet(b, x, y, ch, style, x', y');
    }
  }

  function Min(a: int, b: int): int {
    if a < b then a else b
  }

  /**
   * `Resize`: a fresh width x height grid that keeps the old content of the
   * columns and rows both sizes share and is zero elsewhere.
   */
  method Resize(b: Buffer, width: nat, height: nat) returns (r: Buffer)
    requires Valid(b)
    ensures Valid(r) && r.width == width && r.height == height
    ensures forall x, y :: Get(r, x, y) == if x < width && y < height then Get(b, x, y) else Zero
  {
    var cells := seq(Mul(height, width), _ => Zero);
    var minH := Min(height, b.height);
    var minW := Min(width, b.width);
    forall x: nat, yy: nat | x < width && yy < height ensures Idx(width, x, yy) < |cells| {
      IdxBound(width, height, x, yy);
    }
    var y := 0;
    while y < minH
      invariant 0 <= y <= minH
      invariant |cells| == Mul(height, width)
      invariant forall x: nat, yy: nat {:trigger Idx(width, x, yy)} :: x < width && yy < height ==>
        Idx(width, x, yy) < |cells| &&
        cells[Idx(width, x, yy)] == if x < minW && yy < y then Get(b, x, yy) else Zero
    {
      MulMono(y + 1, height, width);
      MulMono(y + 1, b.height, b.width);
      var lo := Mul(y, width);
      var src := b.cells[Mul(y, b.width) .. Mul(y, b.width) + minW];
      var next := cells[..lo] + src + cells[lo + minW..];
      RowCopied(b, width, height, minW, y, cells, next);
      cells := next;
      y := y + 1;
    }
    r := Buffer(width, height, cells);
    forall x, yy ensures Get(r, x, yy) == if x < width && yy < height then Get(b, x, yy) else Zero {
      if InRange(r, x, yy) {
        assert cells[Idx(width, x, yy)] == if x < minW && yy < minH then Get(b, x, yy) else Zero;
      }
    }
  }

  /** Copying row `y` of `b` into `cells` extends the copied region by that row. */
  lemma RowCopied(b: Buffer, width: nat, height: nat, minW: nat, y: nat, cells: seq<Cell>, next: seq<Cell>)
    requires Valid(b) && minW == Min(width, b.width) && y < Min(height, b.height)
    requires |cells| == Mul(height, width)
    requires forall x: nat, yy: nat {:trigger Idx(width, x, yy)} :: x < width && yy < height ==>
        Idx(width, x, yy) < |cells| &&
        cells[Idx(width, x, yy)] == if x < minW && yy < y then Get(b, x, yy) else Zero
    requires Mul(y + 1, width) <= |cells| && Mul(y + 1, b.width) <= |b.cells|
    requires next == cells[..Mul(y, width)] + b.cells[Mul(y, b.width) .. Mul(y, b.width) + minW] + cells[Mul(y, width) + minW..]
    ensures |next| == Mul(height, width)
    ensures forall x: nat, yy: nat {:trigger Idx(width, x, yy)} :: x < width && yy < height ==>
        Idx(width, x, yy) < |next| &&
        next[Idx(width, x, yy)] == if x < minW && yy < y + 1 then Get(b, x, yy) else Zero
  {
    forall x: nat, yy: nat | x < width && yy < height
      ensures Idx(width, x, yy) < |next|
      ensures next[Idx(width, x, yy)] == if x < minW && yy < y + 1 then Get(b, x, yy) else Zero
    {
      CellCopied(b, width, height, minW, y, cells, next, x, yy);
    }
  }

  lemma CellCopied(b: Buffer, width: nat, height: nat, minW: nat, y: nat, cells: seq<Cell>, next: seq<Cell>, x: nat, yy: nat)
    requires Valid(b) && minW == Min(width, b.width) && y < Min(height, b.height)
    requires |cells| == Mul(height, width) && x < width && yy < height
    requires Idx(width, x, yy) < |cells|
    requires cells[Idx(width, x, yy)] == if x < minW && yy < y then Get(b, x, yy) else Zero
    requires Mul(y + 1, width) <= |cells| && Mul(y + 1, b.width) <= |b.cells|
    requires next == cells[..Mul(y, width)] + b.cells[Mul(y, b.width) .. Mul(y, b.width) + minW] + cells[Mul(y, width) + minW..]
    ensures Idx(width, x, yy) < |next|
    ensures next[Idx(width, x, yy)] == if x < minW && yy < y + 1 then Get(b, x, yy) else Zero
  {
    var src := b.cells[Mul(y, b.width) .. Mul(y, b.width) + minW];
    IdxBound(width, height, x, yy);
    IdxRow(width, x, yy);
    if yy < y {
      MulMono(yy + 1, y, width);
    } else if yy > y {
      MulMono(y + 1, yy, width);
    } else if x < minW {
      assert next[Idx(width, x, yy)] == src[x];
    }
  }

  /** `clearBackBuf`: every cell becomes a plain space; the size does not change. */
  function Clear(b: Buffer): (r: Buffer)
    requires Valid(b)
    ensures Valid(r) && r.width == b.width && r.height == b.height
    ensures forall x, y :: InRange(b, x, y) ==> Get(r, x, y) == Blank
  {
    var r := b.(cells := seq(Mul(b.height, b.width), _ => Blank));
    assert forall x, y :: InRange(b, x, y) ==> Get(r, x, y) == Blank by {
      forall x, y | InRange(b, x, y) ensures Get(r, x, y) == Blank {
        IdxBound(b.width, b.height, x, y);
      }
    }
    r
  }

  /**
   * `drawTextUnlocked` from column `col` of row `y`: a newline moves to the next
   * row at column `x`, every other rune is written with `Set` and advances the column.
   */
  function DrawFrom(b: Buffer, x: int, col: int, y: int, text: string, style: Style): (r: Buffer)
    requires Valid(b)
    ensures Valid(r) && r.width == b.width && r.height == b.height
    decreases |text|
  {
    if |text| == 0 then b
    else if text[0] == '\n' then DrawFrom(b, x, x, y + 1, text[1..], style)
    else DrawFrom(Set(b, col, y, text[0], style), x, col + 1, y, text[1..], style)
  }

  function DrawText(b: Buffer, x: int, y: int, text: string, style: Style): (r: Buffer)
    requires Valid(b)
    ensures Valid(r) && r.width == b.width && r.height == b.height
  {
    DrawFrom(b, x, x, y, text, style)
  }

  /** A line without newline lands on consecutive columns of its row; nothing else changes. */
  lemma {:induction false} DrawLine(b: Buffer, x: int, col: int, y: int, line: string, style: Style, cx: int, cy: int)
    requires Valid(b) && '\n' !in line
    ensures Get(DrawFrom(b, x, col, y, line, style), cx, cy) ==
            if InRange(b, cx, cy) && cy == y && col <= cx < col + |line|
            then Cell(line[cx - col], style) else Get(b, cx, cy)
    decreases |line|
  {
    if |line| > 0 {
      assert line[0] in line;
      assert forall c :: c in line[1..] ==> c in line;
      var b1 := Set(b, col, y, line[0], style);
      DrawLine(b1, x, col + 1, y, line[1..], style, cx, cy);
      GetSet(b, col, y, line[0], style, cx, cy);
    }
  }

  /** A newline restarts drawing one row down, at the original column. */
  lemma {:induction false} DrawNewline(b: Buffer, x: int, col: int, y: int, l1: string, l2: string, style: Style)
    requires Valid(b) && '\n' !in l1
    ensures DrawFrom(b, x, col, y, l1 + "\n" + l2, style) ==
            DrawText(DrawFrom(b, x, col, y, l1, style), x, y + 1, l2, style)
    decreases |l1|
  {
    if |l1| == 0 {
      assert l1 + "\n" + l2 == "\n" + l2;
      assert ("\n" + l2)[1..] == l2;
    } else {
      assert (l1 + "\n" + l2)[1..] == l1[1..] + "\n" + l2;
      assert l1[0] in l1;
      assert forall c :: c in l1[1..] ==> c in l1;
      DrawNewline(Set(b, col, y, l1[0], style), x, col + 1, y, l1[1..], l2, style);
    }
  }

  /** What the renderer writes: a cursor move, a style reset, the attributes of a style, a rune. */
  datatype Out = MoveTo(row: int, col: int) | ResetStyle | SetStyle(style: Style) | Put(ch: char)

  /** A terminal: its grid, its cursor (column, row; 0-based) and its current pen. */
  datatype Term = Term(width: nat, height: nat, grid: seq<Cell>, cx: int, cy: int, pen: Style)

  /**
   * Attribute sequences add to the pen: each flag turns on, a colour sequence
   * replaces the current colour.
   */
  function Layer(pen: Style, s: Style): Style {
    Style(pen.bold || s.bold, pen.dim || s.dim, pen.italic || s.italic,
          pen.underline || s.underline, pen.strike || s.strike,
          pen.reverse || s.reverse, pen.blink || s.blink,
          if s.color != "" then s.color else pen.color,
          if s.bgColor != "" then s.bgColor else pen.bgColor)
  }

  /** The terminal meaning of one output item; the cursor does not wrap. */
  function Apply(t: Term, o: Out): Term {
    match o
    case MoveTo(r, c) => t.(cx := c - 1, cy := r - 1)
    case ResetStyle => t.(pen := Plain)
    case SetStyle(s) => t.(pen := Layer(t.pen, s))
    case Put(ch) =>
      if 0 <= t.cx < t.width && 0 <= t.cy < t.height && Idx(t.width, t.cx, t.cy) < |t.grid|
      then t.(grid := t.grid[Idx(t.width, t.cx, t.cy) := Cell(ch, t.pen)], cx := t.cx + 1)
      else t.(cx := t.cx + 1)
  }

  function Replay(t: Term, out: seq<Out>): Term
    decreases |out|
  {
    if |out| == 0 then t else Apply(Replay(t, out[..|out| - 1]), out[|out| - 1])
  }

  lemma {:induction false} ReplayAppend(t: Term, a: seq<Out>, b: seq<Out>)
    ensures Replay(t, a + b) == Replay(Replay(t, a), b)
    decreases |b|
  {
    if |b| == 0 {
      assert a + b == a;
    } else {
      assert (a + b)[..|a + b| - 1] == a + b[..|b| - 1];
      ReplayAppend(t, a, b[..|b| - 1]);
    }
  }

  /** How a cell looks on the terminal: the zero rune shows as a space. */
  function Show(c: Cell): Cell {
    if c.ch == '\U{0}' then Cell(' ', c.style) else c
  }

  function ShowAll(cells: seq<Cell>): (r: seq<Cell>)
    ensures |r| == |cells| && forall i :: 0 <= i < |cells| ==> r[i] == Show(cells[i])
  {
    seq(|cells|, i requires 0 <= i < |cells| => Show(cells[i]))
  }

  /** The renderer's knowledge of the terminal: grid, cursor when known, pen. */
  predicate Tracks(t: Term, w: nat, h: nat, fc: seq<Cell>, curX: int, curY: int, active: bool, last: Style) {
    && t.width == w && t.height == h && t.grid == ShowAll(fc)
    && (curX != -1 ==> t.cx == curX && t.cy == curY)
    && t.pen == (if active then last else Plain)
  }

  /** The items `renderUnlocked` writes for one changed cell. */
  function CellOutput(curX: int, curY: int, x: nat, y: nat, active: bool, last: Style, c: Cell): seq<Out> {
    (if curX != x || curY != y then [MoveTo(y + 1, x + 1)] else [])
    + (if !active || c.style != last then (if active then [ResetStyle] else []) + [SetStyle(c.style)] else [])
    + [Put(Show(c).ch)]
  }

  lemma ReplayOne(t: Term, o: Out)
    ensures Replay(t, [o]) == Apply(t, o)
  {
    assert [o][..0] == [];
  }

  /** The optional cursor move leaves the cursor on (x, y) and changes nothing else. */
  lemma MoveStep(t: Term, curX: int, curY: int, x: nat, y: nat)
    requires curX != -1 ==> t.cx == curX && t.cy == curY
    ensures var t1 := Replay(t, if curX != x || curY != y then [MoveTo(y + 1, x + 1)] else []);
            t1.cx == x && t1.cy == y && t1.grid == t.grid && t1.pen == t.pen
            && t1.width == t.width && t1.height == t.height
  {
    if curX != x || curY != y {
      ReplayOne(t, MoveTo(y + 1, x + 1));
    }
  }

  /** The optional style switch leaves the pen equal to the cell's style. */
  lemma StyleStep(t: Term, active: bool, last: Style, c: Cell)
    requires t.pen == (if active then last else Plain)
    ensures var t2 := Replay(t, if !active || c.style != last then (if active then [ResetStyle] else []) + [SetStyle(c.style)] else []);
            t2.cx == t.cx && t2.cy == t.cy && t2.grid == t.grid && t2.pen == c.style
            && t2.width == t.width && t2.height == t.height
  {
    if !active || c.style != last {
      if active {
        ReplayAppend(t, [ResetStyle], [SetStyle(c.style)]);
        ReplayOne(t, ResetStyle);
        ReplayOne(Apply(t, ResetStyle), SetStyle(c.style));
        assert [ResetStyle] + [SetStyle(c.style)] == [ResetStyle, SetStyle(c.style)];
      } else {
        assert [] + [SetStyle(c.style)] == [SetStyle(c.style)];
        ReplayOne(t, SetStyle(c.style));
      }
    }
  }

  lemma ShowAllUpdate(fc: seq<Cell>, i: nat, c: Cell)
    requires i < |fc|
    ensures ShowAll(fc[i := c]) == ShowAll(fc)[i := Show(c)]
  {
  }

  lemma PutStep(t: Term, w: nat, h: nat, fc: seq<Cell>, x: nat, y: nat, c: Cell)
    requires x < w && y < h && |fc| == Mul(h, w)
    requires t.width == w && t.height == h && t.grid == ShowAll(fc)
    requires t.cx == x && t.cy == y && t.pen == c.style
    ensures Idx(w, x, y) < |fc|
    ensures Tracks(Replay(t, [Put(Show(c).ch)]), w, h, fc[Idx(w, x, y) := c], x + 1, y, true, c.style)
  {
    IdxBound(w, h, x, y);
    ReplayOne(t, Put(Show(c).ch));
    ShowAllUpdate(fc, Idx(w, x, y), c);
  }

  lemma CellOutputStep(t: Term, w: nat, h: nat, fc: seq<Cell>, curX: int, curY: int, active: bool, last: Style, x: nat, y: nat, c: Cell)
    requires x < w && y < h && |fc| == Mul(h, w)
    requires Tracks(t, w, h, fc, curX, curY, active, last)
    ensures Idx(w, x, y) < |fc|
    ensures Tracks(Replay(t, CellOutput(curX, curY, x, y, active, last, c)), w, h,
                   fc[Idx(w, x, y) := c], x + 1, y, true, c.style)
  {
    var mv := if curX != x || curY != y then [MoveTo(y + 1, x + 1)] else [];
    var st := if !active || c.style != last then (if active then [ResetStyle] else []) + [SetStyle(c.style)] else [];
    var pt := [Put(Show(c).ch)];
    assert CellOutput(curX, curY, x, y, active, last, c) == mv + st + pt;
    ReplayAppend(t, mv + st, pt);
    ReplayAppend(t, mv, st);
    MoveStep(t, curX, curY, x, y);
    StyleStep(Replay(t, mv), active, last, c);
    PutStep(Replay(Replay(t, mv), st), w, h, fc, x, y, c);
  }

  /** How many runes an output sequence writes. */
  function Puts(out: seq<Out>): nat
    decreases |out|
  {
    if |out| == 0 then 0 else Puts(out[..|out| - 1]) + (if out[|out| - 1].Put? then 1 else 0)
  }

  lemma {:induction false} PutsAppend(a: seq<Out>, b: seq<Out>)
    ensures Puts(a + b) == Puts(a) + Puts(b)
    decreases |b|
  {
    if |b| == 0 {
      assert a + b == a;
    } else {
      assert (a + b)[..|a + b| - 1] == a + b[..|b| - 1];
      PutsAppend(a, b[..|b| - 1]);
    }
  }

  /** The items for one changed cell write exactly one rune. */
  lemma CellOutputPuts(curX: int, curY: int, x: nat, y: nat, active: bool, last: Style, c: Cell)
    ensures Puts(CellOutput(curX, curY, x, y, active, last, c)) == 1
  {
    var mv := if curX != x || curY != y then [MoveTo(y + 1, x + 1)] else [];
    var st := if !active || c.style != last then (if active then [ResetStyle] else []) + [SetStyle(c.style)] else [];
    assert Puts(mv) == 0 by {
      if |mv| == 1 { assert mv[..0] == []; }
    }
    assert Puts(st) == 0 by {
      if |st| == 2 { assert st[..1] == [ResetStyle] && [ResetStyle][..0] == []; }
      if |st| == 1 { assert st[..0] == []; }
    }
    assert [Put(Show(c).ch)][..0] == [];
    PutsAppend(mv, st);
    PutsAppend(mv + st, [Put(Show(c).ch)]);
  }

  /** The number of positions below `k` where `a` and `b` differ. */
  function ChangedBefore(a: seq<Cell>, b: seq<Cell>, k: nat): nat
    requires k <= |a| == |b|
  {
    if k == 0 then 0 else ChangedBefore(a, b, k - 1) + (if a[k - 1] != b[k - 1] then 1 else 0)
  }

  /** The renderer's state between cells: front copy, output so far, cursor and pen. */
  datatype Diff = Diff(fc: seq<Cell>, out: seq<Out>, curX: int, curY: int, active: bool, last: Style)

  /** One cell of `renderUnlocked`'s scan: a changed cell is written and copied to the front. */
  function DiffCell(d: Diff, w: nat, x: nat, y: nat, c: Cell): (r: Diff)
    requires Idx(w, x, y) < |d.fc|
    ensures r.fc == d.fc[Idx(w, x, y) := c]
    ensures r.out == d.out <==> c == d.fc[Idx(w, x, y)]
    ensures Puts(r.out) == Puts(d.out) + (if c == d.fc[Idx(w, x, y)] then 0 else 1)
  {
    CellOutputPuts(d.curX, d.curY, x, y, d.active, d.last, c);
    PutsAppend(d.out, CellOutput(d.curX, d.curY, x, y, d.active, d.last, c));
    if c == d.fc[Idx(w, x, y)] then d
    else Diff(d.fc[Idx(w, x, y) := c], d.out + CellOutput(d.curX, d.curY, x, y, d.active, d.last, c),
              x + 1, y, true, c.style)
  }

  /** After `k` cells: the first `k` front cells are the back ones, and the output replays to that. */
  ghost predicate DiffInv(front: Buffer, back: Buffer, k: nat, d: Diff) {
    var w, h := back.width, back.height;
    && k <= |d.fc| == |front.cells| == |back.cells| == Mul(h, w)
    && d.fc == back.cells[..k] + front.cells[k..]
    && (!d.active ==> d.out == [] && front.cells[..k] == back.cells[..k])
    && (front.cells == back.cells ==> !d.active)
    && Puts(d.out) == ChangedBefore(front.cells, back.cells, k)
    && forall t :: Tracks(t, w, h, front.cells, -1, -1, false, Plain) ==>
         Tracks(Replay(t, d.out), w, h, d.fc, d.curX, d.curY, d.active, d.last)
  }

  lemma DiffCellInv(front: Buffer, back: Buffer, x: nat, y: nat, d: Diff)
    requires x < back.width && y < back.height
    requires DiffInv(front, back, Idx(back.width, x, y), d)
    ensures Idx(back.width, x, y) < |d.fc|
    ensures DiffInv(front, back, Idx(back.width, x, y) + 1,
                    DiffCell(d, back.width, x, y, back.cells[Idx(back.width, x, y)]))
  {
    var w, h := back.width, back.height;
    var k := Idx(w, x, y);
    IdxBound(w, h, x, y);
    var c := back.cells[k];
    assert d.fc[k] == front.cells[k];
    assert back.cells[..k + 1] == back.cells[..k] + [back.cells[k]];
    assert front.cells[..k + 1] == front.cells[..k] + [front.cells[k]];
    if c != d.fc[k] {
      var items := CellOutput(d.curX, d.curY, x, y, d.active, d.last, c);
      forall t | Tracks(t, w, h, front.cells, -1, -1, false, Plain)
        ensures Tracks(Replay(t, d.out + items), w, h, d.fc[k := c], x + 1, y, true, c.style)
      {
        ReplayAppend(t, d.out, items);
        CellOutputStep(Replay(t, d.out), w, h, d.fc, d.curX, d.curY, d.active, d.last, x, y, c);
      }
      assert d.fc[k := c] == back.cells[..k + 1] + front.cells[k + 1..];
      PutsAppend(d.out, items);
      CellOutputPuts(d.curX, d.curY, x, y, d.active, d.last, c);
    }
  }

  /**
   * `renderUnlocked`: writes every back cell that differs from the front cell
   * and copies it to the front. Replaying the output on a terminal that shows
   * the front buffer (with a plain pen and any cursor) makes it show the back
   * buffer and leaves the pen plain. It writes exactly one rune per cell
   * that differs, so equal cells cost nothing and equal buffers produce no
   * output at all.
   */
  method Render(front: Buffer, back: Buffer) returns (newFront: Buffer, out: seq<Out>)
    requires Valid(front) && Valid(back)
    requires front.width == back.width && front.height == back.height
    ensures newFront == back
    ensures front.cells == back.cells ==> out == []
    ensures Puts(out) == ChangedBefore(front.cells, back.cells, |back.cells|)
    ensures forall t :: Tracks(t, back.width, back.height, front.cells, -1, -1, false, Plain) ==>
              Replay(t, out).grid == ShowAll(back.cells) && Replay(t, out).pen == Plain
  {
    var w, h := back.width, back.height;
    var d := Diff(front.cells, [], -1, -1, false, Plain);
    assert DiffInv(front, back, 0, d);
    var y := 0;
    while y < h
      invariant 0 <= y <= h
      invariant DiffInv(front, back, Mul(y, w), d)
    {
      d := DiffRow(front, back, y, d);
      y := y + 1;
    }
    out := Finish(d);
    FinishReplays(front, back, d);
    newFront := front.(cells := d.fc);
  }

  /** One row of the scan, cell by cell from the left. */
  method DiffRow(front: Buffer, back: Buffer, y: nat, d0: Diff) returns (d: Diff)
    requires y < back.height && DiffInv(front, back, Mul(y, back.width), d0)
    ensures DiffInv(front, back, Mul(y + 1, back.width), d)
  {
    var w := back.width;
    d := d0;
    var x := 0;
    while x < w
      invariant 0 <= x <= w
      invariant DiffInv(front, back, Idx(w, x, y), d)
    {
      DiffCellInv(front, back, x, y, d);
      d := DiffCell(d, w, x, y, back.cells[Idx(w, x, y)]);
      x := x + 1;
    }
    assert Idx(w, w, y) == Mul(y + 1, w);
  }

  /** The output once the scan is over: a reset closes an open style run. */
  function Finish(d: Diff): seq<Out> {
    if d.active then d.out + [ResetStyle] else d.out
  }

  lemma FinishReplays(front: Buffer, back: Buffer, d: Diff)
    requires DiffInv(front, back, |back.cells|, d)
    ensures d.fc == back.cells
    ensures front.cells == back.cells ==> Finish(d) == []
    ensures Puts(Finish(d)) == ChangedBefore(front.cells, back.cells, |back.cells|)
    ensures forall t :: Tracks(t, back.width, back.height, front.cells, -1, -1, false, Plain) ==>
              Replay(t, Finish(d)).grid == ShowAll(back.cells) && Replay(t, Finish(d)).pen == Plain
  {
    assert d.fc == back.cells;
    if d.active {
      PutsAppend(d.out, [ResetStyle]);
      assert [ResetStyle][..0] == [];
    }
    forall t | Tracks(t, back.width, back.height, front.cells, -1, -1, false, Plain)
      ensures Replay(t, Finish(d)).grid == ShowAll(back.cells) && Replay(t, Finish(d)).pen == Plain
    {
      if d.active {
        ReplayAppend(t, d.out, [ResetStyle]);
        ReplayOne(Replay(t, d.out), ResetStyle);
      }
    }
  }

  /** `writeCursorPos`: ESC `[` row `;` column `H`, both in decimal. */
  function CursorPos(row: nat, col: nat): (s: string)
    ensures |s| >= 6 && s[..2] == CsiPrefix && s[|s| - 1] == 'H'
    ensures ';' in s
  {
    CsiPrefix + Decimal(row) + ";" + Decimal(col) + "H"
  }

  /** Reads back a cursor-position sequence: ESC `[` digits `;` digits `H`. */
  function ParseCursorPos(s: string): Option<(nat, nat)> {
    if |s| < 6 || s[..2] != CsiPrefix || s[|s| - 1] != 'H' then None
    else
      var body := s[2..|s| - 1];
      var i := IndexOf(body, ';');
      if i < 1 || i + 1 >= |body| then None
      else
        var a, b := body[..i], body[i + 1..];
        if (forall k :: 0 <= k < |a| ==> IsDigit(a[k])) && (forall k :: 0 <= k < |b| ==> IsDigit(b[k]))
        then Some((DecimalValue(a), DecimalValue(b)))
        else None
  }

  /** The cursor sequence names exactly the row and column it was written for. */
  lemma CursorPosRoundTrip(row: nat, col: nat)
    ensures ParseCursorPos(CursorPos(row, col)) == Some((row, col))
  {
    var a, b := Decimal(row), Decimal(col);
    assert CursorPos(row, col) == CsiPrefix + (a + ";" + b) + "H";
    ParseDigitPair(a, b);
    DecimalRoundTrip(row);
    DecimalRoundTrip(col);
  }

  /** Reading back ESC `[` a `;` b `H` for two non-empty digit strings gives their values. */
  lemma ParseDigitPair(a: string, b: string)
    requires |a| >= 1 && |b| >= 1
    requires forall k :: 0 <= k < |a| ==> IsDigit(a[k])
    requires forall k :: 0 <= k < |b| ==> IsDigit(b[k])
    ensures ParseCursorPos(CsiPrefix + (a + ";" + b) + "H") == Some((DecimalValue(a), DecimalValue(b)))
  {
    var body := a + ";" + b;
    var s := CsiPrefix + body + "H";
    assert s[..2] == CsiPrefix;
    assert s[2..|s| - 1] == body;
    SemicolonAt(a, b);
    assert body[..|a|] == a;
    assert body[|a| + 1..] == b;
  }

  lemma SemicolonAt(a: string, b: string)
    requires forall k :: 0 <= k < |a| ==> IsDigit(a[k])
    ensures IndexOf(a + ";" + b, ';') == |a|
  {
    var body := a + ";" + b;
    assert body[|a|] == ';';
    assert body[..|a|] == a;
    forall k | 0 <= k < |a|
      ensures a[k] != ';'
    {
      assert IsDigit(a[k]);
    }
  }
}
