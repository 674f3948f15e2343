/**
 * The reactive core: signals hold values, computeds cache a formula over
 * other signals and computeds behind a dirty flag, and effects re-run
 * their body whenever something they read changes, with `Batch` holding
 * effect runs back until the outermost batch ends.
 *
 * The package's global state (the active subscriber, the batch depth and
 * queue) and the objects it links become one immutable `State`; every
 * operation is a function from state to state. Objects are named by their
 * index: `SigDep(i)` and `CompDep(j)` are things one can depend on,
 * `CompSub(j)` and `EffSub(e)` things that subscribe. The Go maps used as
 * sets are sequences without duplicates, kept in insertion order; ranging
 * over them visits that order, one of the orders Go allows.
 *
 * The closures a computed or an effect runs are code this model cannot
 * see. A computed's closure is a weighted sum of the values it reads, in
 * read order; an effect's closure reads a list of values and records them.
 * A computed may only read signals and computeds created before it, which
 * is what a Go program can express without forward references.
 *
 * The state keeps apart what each operation may change: the closures
 * (`Program`), the signal values, the computeds' caches, the effects'
 * run state, and the subscription graph (both directions of every edge).
 */
module Signals {
  import opened Wrappers

  // ---------------------------------------------------------------------
  // Data model
  // ---------------------------------------------------------------------

  /** Something one can depend on: a Signal or a Computed. */
  datatype Dep = SigDep(i: nat) | CompDep(i: nat)

  /** Something that depends on others: a Computed or an Effect. */
  datatype Sub = CompSub(i: nat) | EffSub(i: nat)

  /** One read of a computed's closure: the value of `dep`, scaled by `weight`. */
  datatype Term = Term(dep: Dep, weight: int)

  /** The closures: how many signals exist, each computed's formula, each effect's reads. */
  datatype Program = Program(signals: nat, formulas: seq<seq<Term>>, bodies: seq<seq<Dep>>)

  /** A computed's cached value and dirty flag. */
  datatype Cache = Cache(value: int, dirty: bool)

  /** An effect's run state; `runs` counts how often its closure ran and `seen` holds what the last run read. */
  datatype Effect = Effect(disposed: bool, runs: nat, seen: seq<int>)

  /**
   * The subscription graph: the subscriber set of each signal and computed,
   * and the dependency set of each computed and effect.
   */
  datatype Graph = Graph(
    sigSubs: seq<seq<Sub>>, compSubs: seq<seq<Sub>>,
    compDeps: seq<seq<Dep>>, effDeps: seq<seq<Dep>>)

  /** The objects, the batch depth and the batch queue. */
  datatype State = State(
    prog: Program, values: seq<int>, caches: seq<Cache>, effects: seq<Effect>,
    graph: Graph, depth: nat, queue: seq<Sub>)

  const Empty := State(Program(0, [], []), [], [], [], Graph([], [], [], []), 0, [])

  // ---------------------------------------------------------------------
  // Sets as duplicate-free sequences
  // ---------------------------------------------------------------------

  predicate NoDup<T(==)>(xs: seq<T>) {
    forall a, b :: 0 <= a < b < |xs| ==> xs[a] != xs[b]
  }

  /** Whatever is in the tail of a sequence is in the sequence; so is its head. */
  lemma TailIn<T>(xs: seq<T>)
    requires |xs| > 0
    ensures xs[0] in xs && forall x :: x in xs[1..] ==> x in xs
  {
  }

  /** Map assignment used as set insertion: `x` is added unless already there. */
  function Insert<T(==,!new)>(xs: seq<T>, x: T): (r: seq<T>)
    ensures forall y :: y in r <==> y in xs || y == x
    ensures NoDup(xs) ==> NoDup(r)
    ensures x in xs ==> r == xs
  {
    if x in xs then xs else xs + [x]
  }

  /** `delete`: every occurrence of `x` goes, the rest keep their order. */
  function Remove<T(==,!new)>(xs: seq<T>, x: T): (r: seq<T>)
    ensures forall y :: y in r <==> y in xs && y != x
    ensures |r| <= |xs|
  {
    if |xs| == 0 then []
    else (if xs[0] == x then [] else [xs[0]]) + Remove(xs[1..], x)
  }

  // ---------------------------------------------------------------------
  // Well-formed states
  // ---------------------------------------------------------------------

  /** `d` names one of `ns` signals or `nc` computeds. */
  predicate DepIn(d: Dep, ns: nat, nc: nat) {
    if d.SigDep? then d.i < ns else d.i < nc
  }

  /** `s` names one of `nc` computeds or `ne` effects. */
  predicate SubIn(s: Sub, nc: nat, ne: nat) {
    if s.CompSub? then s.i < nc else s.i < ne
  }

  /** A read allowed in the closure of computed `j`: a signal or an earlier computed. */
  predicate Below(d: Dep, j: int) {
    d.CompDep? ==> d.i < j
  }

  /** A subscriber allowed on computed `j`: an effect or a later computed. */
  predicate Above(s: Sub, j: int) {
    s.CompSub? ==> j < s.i
  }

  /** Computeds read signals and earlier computeds; effects read existing objects. */
  predicate ProgOk(p: Program) {
    && (forall j, t :: 0 <= j < |p.formulas| && t in p.formulas[j] ==> DepIn(t.dep, p.signals, |p.formulas|) && Below(t.dep, j))
    && (forall e, d :: 0 <= e < |p.bodies| && d in p.bodies[e] ==> DepIn(d, p.signals, |p.formulas|))
  }

  /** One set per object, and a computed is subscribed to only by effects and later computeds. */
  predicate GraphOk(p: Program, g: Graph) {
    && |g.sigSubs| == p.signals && |g.compSubs| == |p.formulas|
    && |g.compDeps| == |p.formulas| && |g.effDeps| == |p.bodies|
    && (forall i, s :: 0 <= i < |g.sigSubs| && s in g.sigSubs[i] ==> SubIn(s, |p.formulas|, |p.bodies|))
    && (forall j, s :: 0 <= j < |g.compSubs| && s in g.compSubs[j] ==> SubIn(s, |p.formulas|, |p.bodies|) && Above(s, j))
  }

  /** The queue holds existing effects, each at most once, and is empty outside a batch. */
  predicate QueueOk(st: State) {
    && (forall s :: s in st.queue ==> s.EffSub? && s.i < |st.prog.bodies|)
    && NoDup(st.queue)
    && (st.depth == 0 ==> st.queue == [])
  }

  predicate WF(st: State) {
    && ProgOk(st.prog) && GraphOk(st.prog, st.graph) && QueueOk(st)
    && |st.values| == st.prog.signals && |st.caches| == |st.prog.formulas| && |st.effects| == |st.prog.bodies|
  }

  predicate DepOk(st: State, d: Dep) {
    DepIn(d, st.prog.signals, |st.prog.formulas|)
  }

  predicate SubOk(st: State, s: Sub) {
    SubIn(s, |st.prog.formulas|, |st.prog.bodies|)
  }

  /** The subscriber set of a dependency ([] for an unknown one). */
  function Subs(g: Graph, d: Dep): seq<Sub> {
    match d
    case SigDep(i) => if i < |g.sigSubs| then g.sigSubs[i] else []
    case CompDep(j) => if j < |g.compSubs| then g.compSubs[j] else []
  }

  /** The dependency set of a subscriber ([] for an unknown one). */
  function DepsOf(g: Graph, s: Sub): seq<Dep> {
    match s
    case CompSub(j) => if j < |g.compDeps| then g.compDeps[j] else []
    case EffSub(e) => if e < |g.effDeps| then g.effDeps[e] else []
  }

  /** Subscribers other than a computed below `lim`. */
  predicate Untouched(s: Sub, lim: int) {
    !(s.CompSub? && s.i < lim)
  }

  /** Every edge of an untouched subscriber in `a` is still there in `b`, in both directions. */
  ghost predicate Kept(a: Graph, b: Graph, lim: int) {
    && (forall d, s :: s in Subs(a, d) && Untouched(s, lim) ==> s in Subs(b, d))
    && (forall s, d :: d in DepsOf(a, s) && Untouched(s, lim) ==> d in DepsOf(b, s))
  }

  lemma KeptTrans(a: Graph, b: Graph, c: Graph, lim: int)
    requires Kept(a, b, lim) && Kept(b, c, lim)
    ensures Kept(a, c, lim)
  {
  }

  lemma KeptMono(a: Graph, b: Graph, lim: int, lim2: int)
    requires Kept(a, b, lim) && lim2 >= lim
    ensures Kept(a, b, lim2)
  {
    forall d, s | s in Subs(a, d) && Untouched(s, lim2) ensures s in Subs(b, d) {
      assert Untouched(s, lim);
    }
    forall s, d | d in DepsOf(a, s) && Untouched(s, lim2) ensures d in DepsOf(b, s) {
      assert Untouched(s, lim);
    }
  }

  // ---------------------------------------------------------------------
  // Edges
  // ---------------------------------------------------------------------

  /** The graph with the subscriber set of `d` replaced by `ss`. */
  function WithSubs(p: Program, g: Graph, d: Dep, ss: seq<Sub>): (r: Graph)
    requires GraphOk(p, g) && DepIn(d, p.signals, |p.formulas|)
    requires forall u :: u in ss ==> SubIn(u, |p.formulas|, |p.bodies|) && (d.CompDep? ==> Above(u, d.i))
    ensures GraphOk(p, r)
    ensures Subs(r, d) == ss
    ensures forall x :: x != d ==> Subs(r, x) == Subs(g, x)
    ensures forall u :: DepsOf(r, u) == DepsOf(g, u)
  {
    match d
    case SigDep(i) => g.(sigSubs := g.sigSubs[i := ss])
    case CompDep(j) => g.(compSubs := g.compSubs[j := ss])
  }

  /** The graph with the dependency set of `s` replaced by `ds`. */
  function WithDeps(p: Program, g: Graph, s: Sub, ds: seq<Dep>): (r: Graph)
    requires GraphOk(p, g) && SubIn(s, |p.formulas|, |p.bodies|)
    ensures GraphOk(p, r)
    ensures DepsOf(r, s) == ds
    ensures forall u :: u != s ==> DepsOf(r, u) == DepsOf(g, u)
    ensures forall x :: Subs(r, x) == Subs(g, x)
  {
    match s
    case CompSub(j) => g.(compDeps := g.compDeps[j := ds])
    case EffSub(e) => g.(effDeps := g.effDeps[e := ds])
  }

  /** `subscribe`: `s` joins the subscriber set of `d`. */
  function Subscribe(p: Program, g: Graph, d: Dep, s: Sub): (r: Graph)
    requires GraphOk(p, g) && DepIn(d, p.signals, |p.formulas|) && SubIn(s, |p.formulas|, |p.bodies|)
    requires d.CompDep? ==> Above(s, d.i)
    ensures GraphOk(p, r) && Kept(g, r, 0)
    ensures forall x, u :: u in Subs(r, x) <==> u in Subs(g, x) || (x == d && u == s)
    ensures forall u :: DepsOf(r, u) == DepsOf(g, u)
  {
    var r := WithSubs(p, g, d, Insert(Subs(g, d), s));
    assert forall x :: x != d ==> Subs(r, x) == Subs(g, x);
    r
  }

  /** `unsubscribe`: `s` leaves the subscriber set of `d`. */
  function Unsubscribe(p: Program, g: Graph, d: Dep, s: Sub): (r: Graph)
    requires GraphOk(p, g)
    ensures GraphOk(p, r)
    ensures forall x, u :: u in Subs(r, x) <==> u in Subs(g, x) && !(x == d && u == s)
    ensures forall u :: DepsOf(r, u) == DepsOf(g, u)
  {
    if DepIn(d, p.signals, |p.formulas|) then
      var r := WithSubs(p, g, d, Remove(Subs(g, d), s));
      assert forall x :: x != d ==> Subs(r, x) == Subs(g, x);
      r
    else
      assert Subs(g, d) == [];
      g
  }

  /** `addDependency`: `d` joins the dependency set of `s`. */
  function AddDependency(p: Program, g: Graph, s: Sub, d: Dep): (r: Graph)
    requires GraphOk(p, g) && SubIn(s, |p.formulas|, |p.bodies|)
    ensures GraphOk(p, r) && Kept(g, r, 0)
    ensures forall u :: u != s ==> DepsOf(r, u) == DepsOf(g, u)
    ensures forall x :: x in DepsOf(r, s) <==> x in DepsOf(g, s) || x == d
    ensures forall x :: Subs(r, x) == Subs(g, x)
  {
    WithDeps(p, g, s, Insert(DepsOf(g, s), d))
  }

  /** `s` leaves the subscriber set of every dependency in `ds`, in order. */
  function UnsubscribeAll(p: Program, g: Graph, ds: seq<Dep>, s: Sub): (r: Graph)
    requires GraphOk(p, g)
    ensures GraphOk(p, r)
    ensures forall x, u :: u in Subs(r, x) <==> u in Subs(g, x) && !(x in ds && u == s)
    ensures forall u :: DepsOf(r, u) == DepsOf(g, u)
    decreases |ds|
  {
    if |ds| == 0 then g
    else UnsubscribeAll(p, Unsubscribe(p, g, ds[0], s), ds[1..], s)
  }

  /**
   * Cleaning up before a re-run: `s` leaves every dependency it had and its
   * dependency set becomes empty; every other subscriber keeps its edges.
   */
  function DropDeps(p: Program, g: Graph, s: Sub): (r: Graph)
    requires GraphOk(p, g) && SubIn(s, |p.formulas|, |p.bodies|)
    ensures GraphOk(p, r) && DepsOf(r, s) == []
    ensures forall d :: d in DepsOf(g, s) ==> s !in Subs(r, d)
    ensures forall d, u :: u != s && u in Subs(g, d) ==> u in Subs(r, d)
    ensures forall u, d :: u != s && d in DepsOf(g, u) ==> d in DepsOf(r, u)
  {
    var g1 := UnsubscribeAll(p, g, DepsOf(g, s), s);
    var r := WithDeps(p, g1, s, []);
    assert forall d, u :: u != s && u in Subs(g, d) ==> u in Subs(r, d);
    r
  }

  /** Edges kept below `lim1` and then below `lim` are kept below the larger bound. */
  lemma KeptChain(a: Graph, b: Graph, c: Graph, lim1: int, lim: int)
    requires Kept(a, b, lim1) && lim1 <= lim && Kept(b, c, lim)
    ensures Kept(a, c, lim)
  {
    KeptMono(a, b, lim1, lim);
  }

  /** When only computed `j` lost edges, every subscriber outside the computeds up to `j` kept its edges. */
  lemma KeptOthers(a: Graph, b: Graph, j: nat)
    requires forall d, u :: u != CompSub(j) && u in Subs(a, d) ==> u in Subs(b, d)
    requires forall u, d :: u != CompSub(j) && d in DepsOf(a, u) ==> d in DepsOf(b, u)
    ensures Kept(a, b, j + 1)
  {
  }

  /** Only computed `j` lost edges from `a` to `b`, and `c` kept the edges of `b` below `j`. */
  lemma KeptAround(a: Graph, b: Graph, c: Graph, j: nat)
    requires forall d, u :: u != CompSub(j) && u in Subs(a, d) ==> u in Subs(b, d)
    requires forall u, d :: u != CompSub(j) && d in DepsOf(a, u) ==> d in DepsOf(b, u)
    requires Kept(b, c, j)
    ensures Kept(a, c, j + 1)
  {
    KeptOthers(a, b, j);
    KeptMono(b, c, j, j + 1);
    KeptTrans(a, b, c, j + 1);
  }

  /** The reads in the formula of computed `j` exist and lie below it. */
  lemma FormulaOk(p: Program, j: nat)
    requires ProgOk(p) && j < |p.formulas|
    ensures forall t :: t in p.formulas[j] ==> DepIn(t.dep, p.signals, |p.formulas|) && Below(t.dep, j)
  {
  }

  /** Whether `active` may read `d`: it exists, and a computed reads only earlier computeds. */
  predicate ActiveOk(st: State, d: Dep, active: Option<Sub>) {
    active.Some? ==> SubOk(st, active.value) && (d.CompDep? ==> Above(active.value, d.i))
  }

  /** The tracking step of `Get`: under an active subscriber the edge is recorded both ways. */
  function Track(st: State, d: Dep, active: Option<Sub>): (r: State)
    requires WF(st) && DepOk(st, d) && ActiveOk(st, d, active)
    ensures WF(r) && r == st.(graph := r.graph) && Kept(st.graph, r.graph, 0)
    ensures active.None? ==> r == st
    ensures active.Some? ==> active.value in Subs(r.graph, d) && d in DepsOf(r.graph, active.value)
  {
    match active
    case None => st
    case Some(s) =>
      var g1 := AddDependency(st.prog, st.graph, s, d);
      var g2 := Subscribe(st.prog, g1, d, s);
      KeptTrans(st.graph, g1, g2, 0);
      st.(graph := g2)
  }

  // ---------------------------------------------------------------------
  // Reading
  // ---------------------------------------------------------------------

  /** The recursion level of a dependency: signals first, then computeds in creation order. */
  function Rank(d: Dep): nat {
    if d.SigDep? then 0 else d.i + 1
  }

  /** `Peek`: the signal's value, with no tracking. */
  function Peek(st: State, i: nat): (v: int)
    requires WF(st) && i < st.prog.signals
    ensures v == Denote(st.prog, st.values, SigDep(i))
  {
    st.values[i]
  }

  /**
   * `Get` on a signal or computed, under the active subscriber `active`:
   * the edge is tracked both ways, and a dirty computed drops its old
   * dependencies, re-runs its closure with itself active, caches the
   * value and turns clean. Only caches and edges change, and only the
   * caches and dependency sets of computeds at or below `d` are touched.
   */
  function Get(st: State, d: Dep, active: Option<Sub>): (r: (State, int))
    requires WF(st) && DepOk(st, d) && ActiveOk(st, d, active)
    ensures WF(r.0) && r.0 == st.(caches := r.0.caches, graph := r.0.graph)
    ensures Kept(st.graph, r.0.graph, Rank(d))
    ensures forall k :: Rank(d) <= k < |st.caches| ==> r.0.caches[k] == st.caches[k]
    ensures d.SigDep? ==> r.1 == st.values[d.i]
    ensures d.CompDep? ==> r.0.caches[d.i] == Cache(r.1, false)
    ensures d.CompDep? && !st.caches[d.i].dirty ==> r.1 == st.caches[d.i].value && r.0.caches == st.caches
    ensures active.Some? ==> active.value in Subs(r.0.graph, d) && d in DepsOf(r.0.graph, active.value)
    decreases Rank(d), 3
  {
    var st1 := Track(st, d, active);
    match d
    case SigDep(i) => (st1, st1.values[i])
    case CompDep(j) =>
      var r := Cached(st1, j);
      KeptTrans(st.graph, st1.graph, r.0.graph, j + 1);
      assert active.Some? ==> Untouched(active.value, j + 1);
      r
  }

  /** A computed's value: the cache when clean, a recomputation when dirty. */
  function Cached(st: State, j: nat): (r: (State, int))
    requires WF(st) && j < |st.caches|
    ensures WF(r.0) && r.0 == st.(caches := r.0.caches, graph := r.0.graph)
    ensures Kept(st.graph, r.0.graph, j + 1)
    ensures forall k :: j < k < |st.caches| ==> r.0.caches[k] == st.caches[k]
    ensures r.0.caches[j] == Cache(r.1, false)
    ensures !st.caches[j].dirty ==> r == (st, st.caches[j].value)
    decreases j + 1, 2
  {
    if !st.caches[j].dirty then (st, st.caches[j].value) else Recompute(st, j)
  }

  /** The dirty branch of a computed's `Get`: clear its dependencies, run its closure, cache the value. */
  function Recompute(st: State, j: nat): (r: (State, int))
    requires WF(st) && j < |st.caches|
    ensures WF(r.0) && r.0 == st.(caches := r.0.caches, graph := r.0.graph)
    ensures Kept(st.graph, r.0.graph, j + 1)
    ensures forall k :: j < k < |st.caches| ==> r.0.caches[k] == st.caches[k]
    ensures r.0.caches[j] == Cache(r.1, false)
    decreases j + 1, 1
  {
    var g2 := DropDeps(st.prog, st.graph, CompSub(j));
    FormulaOk(st.prog, j);
    var (st3, v) := Eval(st.(graph := g2), st.prog.formulas[j], j);
    KeptAround(st.graph, g2, st3.graph, j);
    (st3.(caches := st3.caches[j := Cache(v, false)]), v)
  }

  /** The closure of computed `j`: reads `ts` in order with `j` active and sums the weighted values. */
  function Eval(st: State, ts: seq<Term>, j: nat): (r: (State, int))
    requires WF(st) && j < |st.caches|
    requires forall t :: t in ts ==> DepIn(t.dep, st.prog.signals, |st.prog.formulas|) && Below(t.dep, j)
    ensures WF(r.0) && r.0 == st.(caches := r.0.caches, graph := r.0.graph)
    ensures Kept(st.graph, r.0.graph, j)
    ensures forall k :: j <= k < |st.caches| ==> r.0.caches[k] == st.caches[k]
    decreases j + 1, 0, |ts|
  {
    if |ts| == 0 then (st, 0)
    else
      assert ts[0] in ts && Below(ts[0].dep, j);
      assert ActiveOk(st, ts[0].dep, Some(CompSub(j)));
      var (st1, v) := Get(st, ts[0].dep, Some(CompSub(j)));
      TailIn(ts);
      var (st2, rest) := Eval(st1, ts[1..], j);
      KeptChain(st.graph, st1.graph, st2.graph, Rank(ts[0].dep), j);
      (st2, ts[0].weight * v + rest)
  }

  // ---------------------------------------------------------------------
  // Coherence: what a computed's value means
  // ---------------------------------------------------------------------

  /** The value an object denotes under the current signal values: a computed is its weighted sum. */
  function Denote(p: Program, vals: seq<int>, d: Dep): int
    requires ProgOk(p) && |vals| == p.signals && DepIn(d, p.signals, |p.formulas|)
    decreases Rank(d), 1
  {
    match d
    case SigDep(i) => vals[i]
    case CompDep(j) => DenoteSum(p, vals, p.formulas[j], j)
  }

  function DenoteSum(p: Program, vals: seq<int>, ts: seq<Term>, j: nat): int
    requires ProgOk(p) && |vals| == p.signals
    requires forall t :: t in ts ==> DepIn(t.dep, p.signals, |p.formulas|) && Below(t.dep, j)
    decreases j + 1, 0, |ts|
  {
    if |ts| == 0 then 0
    else
      assert ts[0] in ts;
      assert Below(ts[0].dep, j);
      assert Rank(ts[0].dep) <= j;
      TailIn(ts);
      ts[0].weight * Denote(p, vals, ts[0].dep) + DenoteSum(p, vals, ts[1..], j)
  }

  /** Every clean cache holds what its computed denotes. */
  predicate Coherent(st: State) {
    WF(st) && forall j :: 0 <= j < |st.caches| && !st.caches[j].dirty ==>
      st.caches[j].value == Denote(st.prog, st.values, CompDep(j))
  }

  /** A state whose caches are all dirty is coherent. */
  lemma AllDirtyCoherent(st: State)
    requires WF(st) && forall j :: 0 <= j < |st.caches| ==> st.caches[j].dirty
    ensures Coherent(st)
  {
  }

  /** `Get` on a coherent state returns the denotation and leaves the state coherent. */
  lemma {:induction false} GetDenotes(st: State, d: Dep, active: Option<Sub>)
    requires Coherent(st) && DepOk(st, d) && ActiveOk(st, d, active)
    ensures Get(st, d, active).1 == Denote(st.prog, st.values, d)
    ensures Coherent(Get(st, d, active).0)
    decreases Rank(d), 3
  {
    var st1 := Track(st, d, active);
    match d
    case SigDep(i) =>
    case CompDep(j) => CachedDenotes(st1, j);
  }

  lemma {:induction false} CachedDenotes(st: State, j: nat)
    requires Coherent(st) && j < |st.caches|
    ensures Cached(st, j).1 == Denote(st.prog, st.values, CompDep(j))
    ensures Coherent(Cached(st, j).0)
    decreases j + 1, 2
  {
    if st.caches[j].dirty {
      RecomputeDenotes(st, j);
    }
  }

  lemma {:induction false} RecomputeDenotes(st: State, j: nat)
    requires Coherent(st) && j < |st.caches|
    ensures Recompute(st, j).1 == Denote(st.prog, st.values, CompDep(j))
    ensures Coherent(Recompute(st, j).0)
    decreases j + 1, 1
  {
    var g2 := DropDeps(st.prog, st.graph, CompSub(j));
    FormulaOk(st.prog, j);
    EvalDenotes(st.(graph := g2), st.prog.formulas[j], j);
  }

  lemma {:induction false} EvalDenotes(st: State, ts: seq<Term>, j: nat)
    requires Coherent(st) && j < |st.caches|
    requires forall t :: t in ts ==> DepIn(t.dep, st.prog.signals, |st.prog.formulas|) && Below(t.dep, j)
    ensures Eval(st, ts, j).1 == DenoteSum(st.prog, st.values, ts, j)
    ensures Coherent(Eval(st, ts, j).0)
    decreases j + 1, 0, |ts|
  {
    if |ts| > 0 {
      assert ts[0] in ts && Below(ts[0].dep, j);
      assert ActiveOk(st, ts[0].dep, Some(CompSub(j)));
      GetDenotes(st, ts[0].dep, Some(CompSub(j)));
      var st1 := Get(st, ts[0].dep, Some(CompSub(j))).0;
      TailIn(ts);
      EvalDenotes(st1, ts[1..], j);
    }
  }

  // ---------------------------------------------------------------------
  // Effects
  // ---------------------------------------------------------------------

  /** An effect's closure: reads `ds` in order with effect `e` active and returns what it read. */
  function ReadAll(st: State, ds: seq<Dep>, e: nat): (r: (State, seq<int>))
    requires WF(st) && e < |st.effects|
    requires forall d :: d in ds ==> DepIn(d, st.prog.signals, |st.prog.formulas|)
    ensures WF(r.0) && r.0 == st.(caches := r.0.caches, graph := r.0.graph)
    ensures Kept(st.graph, r.0.graph, |st.caches|)
    ensures |r.1| == |ds|
    ensures forall k :: 0 <= k < |ds| && ds[k].SigDep? && ds[k].i < |st.values| ==> r.1[k] == st.values[ds[k].i]
    decreases |ds|
  {
    if |ds| == 0 then (st, [])
    else
      assert ds[0] in ds;
      var (st1, v) := Get(st, ds[0], Some(EffSub(e)));
      TailIn(ds);
      var (st2, vs) := ReadAll(st1, ds[1..], e);
      KeptChain(st.graph, st1.graph, st2.graph, Rank(ds[0]), |st.caches|);
      ConsValues(st.values, ds, v, vs);
      (st2, [v] + vs)
  }

  /** The values read one by one line up with the reads: a signal read gives the signal's value. */
  lemma ConsValues(vals: seq<int>, ds: seq<Dep>, v: int, vs: seq<int>)
    requires |ds| > 0 && |vs| == |ds| - 1
    requires ds[0].SigDep? && ds[0].i < |vals| ==> v == vals[ds[0].i]
    requires forall k :: 0 <= k < |ds[1..]| && ds[1..][k].SigDep? && ds[1..][k].i < |vals| ==> vs[k] == vals[ds[1..][k].i]
    ensures forall k :: 0 <= k < |ds| && ds[k].SigDep? && ds[k].i < |vals| ==> ([v] + vs)[k] == vals[ds[k].i]
  {
    forall k | 0 <= k < |ds| && ds[k].SigDep? && ds[k].i < |vals| ensures ([v] + vs)[k] == vals[ds[k].i] {
      if k > 0 {
        assert ds[1..][k - 1] == ds[k];
      }
    }
  }

  /** After its closure ran, the effect and everything it read are linked both ways. */
  lemma {:induction false} ReadAllSubscribes(st: State, ds: seq<Dep>, e: nat)
    requires WF(st) && e < |st.effects|
    requires forall d :: d in ds ==> DepIn(d, st.prog.signals, |st.prog.formulas|)
    ensures forall d :: d in ds ==> EffSub(e) in Subs(ReadAll(st, ds, e).0.graph, d)
                                    && d in DepsOf(ReadAll(st, ds, e).0.graph, EffSub(e))
    decreases |ds|
  {
    if |ds| > 0 {
      assert ds[0] in ds;
      var (st1, v) := Get(st, ds[0], Some(EffSub(e)));
      TailIn(ds);
      ReadAllSubscribes(st1, ds[1..], e);
      var st2 := ReadAll(st1, ds[1..], e).0;
      assert ReadAll(st, ds, e).0 == st2;
      assert Untouched(EffSub(e), |st1.caches|);
    }
  }

  /**
   * `Effect.Run`: a disposed effect does nothing; otherwise it drops its
   * old dependencies and runs its closure with itself active, which
   * subscribes it again to everything it reads.
   */
  function RunEffect(st: State, e: nat): (r: State)
    requires WF(st) && e < |st.effects|
    ensures WF(r) && r == st.(caches := r.caches, graph := r.graph, effects := r.effects)
    ensures st.effects[e].disposed ==> r == st
    ensures !st.effects[e].disposed ==>
              r.effects == st.effects[e := Effect(false, st.effects[e].runs + 1, r.effects[e].seen)]
    ensures !st.effects[e].disposed ==> |r.effects[e].seen| == |st.prog.bodies[e]|
    ensures !st.effects[e].disposed ==> forall d :: d in st.prog.bodies[e] ==>
              EffSub(e) in Subs(r.graph, d) && d in DepsOf(r.graph, EffSub(e))
  {
    if st.effects[e].disposed then st
    else
      var g := DropDeps(st.prog, st.graph, EffSub(e));
      assert forall d :: d in st.prog.bodies[e] ==> DepIn(d, st.prog.signals, |st.prog.formulas|);
      var (st1, vals) := ReadAll(st.(graph := g), st.prog.bodies[e], e);
      ReadAllSubscribes(st.(graph := g), st.prog.bodies[e], e);
      st1.(effects := st1.effects[e := Effect(false, st.effects[e].runs + 1, vals)])
  }

  // ---------------------------------------------------------------------
  // Notification
  // ---------------------------------------------------------------------

  /**
   * What a notification may do: the closures, the values and the batch
   * depth stay; effects only run more often; the queue only grows, and
   * outside a batch nothing is queued; inside a batch no effect runs.
   */
  predicate Propagated(a: State, b: State) {
    && WF(b) && b.prog == a.prog && b.values == a.values && b.depth == a.depth
    && |b.effects| == |a.effects|
    && (forall e :: 0 <= e < |a.effects| ==>
          a.effects[e].runs <= b.effects[e].runs && a.effects[e].disposed == b.effects[e].disposed)
    && (forall u :: u in a.queue ==> u in b.queue)
    && (a.depth == 0 ==> b.queue == a.queue)
    && (a.depth > 0 ==> b.effects == a.effects)
  }

  lemma PropagatedTrans(a: State, b: State, c: State)
    requires Propagated(a, b) && Propagated(b, c)
    ensures Propagated(a, c)
  {
  }

  /** How far from the last computed a subscriber sits; notification recurses towards the later computeds. */
  function Level(st: State, s: Sub): int {
    if s.CompSub? then |st.prog.formulas| - s.i else 0
  }

  /**
   * `onDependencyUpdated`. A computed that is already dirty stops the
   * propagation; a clean one turns dirty and notifies its subscribers. An
   * effect is queued inside a batch and runs at once outside one.
   */
  function Notify(st: State, s: Sub): (r: State)
    requires WF(st) && SubOk(st, s)
    ensures Propagated(st, r)
    ensures s.CompSub? && st.caches[s.i].dirty ==> r == st
    ensures s.EffSub? && st.depth == 0 && !st.effects[s.i].disposed ==> r.effects[s.i].runs > st.effects[s.i].runs
    ensures s.EffSub? && st.depth > 0 ==> s in r.queue
    decreases Level(st, s), 1, 0
  {
    match s
    case CompSub(j) =>
      if st.caches[j].dirty then st
      else
        var st1 := st.(caches := st.caches[j := Cache(st.caches[j].value, true)]);
        assert forall u :: u in st1.graph.compSubs[j] ==> SubIn(u, |st.prog.formulas|, |st.prog.bodies|) && Above(u, j);
        NotifyAll(st1, st1.graph.compSubs[j], j)
    case EffSub(e) =>
      if st.depth > 0 then st.(queue := Insert(st.queue, s))
      else RunEffect(st, e)
  }

  /** The notification loop: each subscriber in `subs`, in order; computeds among them lie after `lo`. */
  function NotifyAll(st: State, subs: seq<Sub>, lo: int): (r: State)
    requires WF(st) && -1 <= lo < |st.prog.formulas|
    requires forall u :: u in subs ==> SubIn(u, |st.prog.formulas|, |st.prog.bodies|) && (u.CompSub? ==> lo < u.i)
    ensures Propagated(st, r)
    ensures forall u :: u in subs && u.EffSub? && u.i < |st.effects| && st.depth == 0 && !st.effects[u.i].disposed ==>
              r.effects[u.i].runs > st.effects[u.i].runs
    ensures forall u :: u in subs && u.EffSub? && st.depth > 0 ==> u in r.queue
    decreases |st.prog.formulas| - lo, 0, |subs|
  {
    if |subs| == 0 then st
    else
      assert subs[0] in subs;
      var st1 := Notify(st, subs[0]);
      assert st1.prog == st.prog;
      TailIn(subs);
      var st2 := NotifyAll(st1, subs[1..], lo);
      NotifiedAll(st, st1, st2, subs);
      st2
  }

  /** The facts of the first notification and of the rest make up those of the whole loop. */
  lemma NotifiedAll(st: State, st1: State, st2: State, subs: seq<Sub>)
    requires |subs| > 0 && Propagated(st, st1) && Propagated(st1, st2)
    requires subs[0].EffSub? && subs[0].i < |st.effects| && st.depth == 0 && !st.effects[subs[0].i].disposed ==>
               st1.effects[subs[0].i].runs > st.effects[subs[0].i].runs
    requires subs[0].EffSub? && st.depth > 0 ==> subs[0] in st1.queue
    requires forall u :: u in subs[1..] && u.EffSub? && u.i < |st1.effects| && st1.depth == 0 && !st1.effects[u.i].disposed ==>
               st2.effects[u.i].runs > st1.effects[u.i].runs
    requires forall u :: u in subs[1..] && u.EffSub? && st1.depth > 0 ==> u in st2.queue
    ensures Propagated(st, st2)
    ensures forall u :: u in subs && u.EffSub? && u.i < |st.effects| && st.depth == 0 && !st.effects[u.i].disposed ==>
              st2.effects[u.i].runs > st.effects[u.i].runs
    ensures forall u :: u in subs && u.EffSub? && st.depth > 0 ==> u in st2.queue
  {
    PropagatedTrans(st, st1, st2);
    forall u | u in subs && u.EffSub? && u.i < |st.effects| && st.depth == 0 && !st.effects[u.i].disposed
      ensures st2.effects[u.i].runs > st.effects[u.i].runs
    {
      if u != subs[0] {
        assert u in subs[1..];
      }
    }
    forall u | u in subs && u.EffSub? && st.depth > 0 ensures u in st2.queue {
      if u != subs[0] {
        assert u in subs[1..];
      }
    }
  }

  /**
   * `Signal.Set`: an equal value changes nothing; a new value is stored
   * and every subscriber of the signal is notified.
   */
  function Set(st: State, i: nat, v: int): (r: State)
    requires WF(st) && i < st.prog.signals
    ensures WF(r) && r.prog == st.prog && r.depth == st.depth
    ensures st.values[i] == v ==> r == st
    ensures r.values == st.values[i := v]
    ensures Propagated(st.(values := r.values), r)
    ensures st.values[i] != v ==> forall u :: u in st.graph.sigSubs[i] && u.EffSub? && u.i < |st.effects| ==>
              (st.depth == 0 && !st.effects[u.i].disposed ==> r.effects[u.i].runs > st.effects[u.i].runs)
              && (st.depth > 0 ==> u in r.queue)
  {
    if st.values[i] == v then st
    else
      var st1 := st.(values := st.values[i := v]);
      assert forall u :: u in st1.graph.sigSubs[i] ==> SubIn(u, |st.prog.formulas|, |st.prog.bodies|);
      NotifyAll(st1, st1.graph.sigSubs[i], -1)
  }

  /** A one-element sequence has nothing after its head. */
  lemma SingletonTail<T>(x: T)
    ensures [x][1..] == [] && [x][0] == x
  {
  }

  /** Updating the only element of a sequence gives the one-element sequence of the new value. */
  lemma UpdateOnly<T>(xs: seq<T>, x: T)
    requires |xs| == 1
    ensures xs[0 := x] == [x]
  {
  }

  /** A changed value notifies the signal's subscribers, in order, under the new values. */
  lemma SetChanged(st: State, i: nat, v: int)
    requires WF(st) && i < st.prog.signals && st.values[i] != v
    ensures forall u :: u in st.graph.sigSubs[i] ==> SubIn(u, |st.prog.formulas|, |st.prog.bodies|)
    ensures Set(st, i, v) == NotifyAll(st.(values := st.values[i := v]), st.graph.sigSubs[i], -1)
  {
  }

  /** Notifying a single subscriber is one `Notify`. */
  lemma NotifySingle(st: State, x: Sub, lo: int)
    requires WF(st) && -1 <= lo < |st.prog.formulas|
    requires SubIn(x, |st.prog.formulas|, |st.prog.bodies|) && (x.CompSub? ==> lo < x.i)
    ensures NotifyAll(st, [x], lo) == Notify(st, x)
  {
    SingletonTail(x);
    var n := Notify(st, x);
    assert NotifyAll(n, [], lo) == n;
  }

  /** Outside a batch an effect's notification runs it. */
  lemma NotifyRuns(st: State, e: nat)
    requires WF(st) && e < |st.effects| && st.depth == 0
    ensures SubOk(st, EffSub(e)) && Notify(st, EffSub(e)) == RunEffect(st, e)
  {
  }

  /** A clean computed turns dirty and notifies its own subscribers. */
  lemma NotifyInvalidates(st: State, j: nat)
    requires WF(st) && j < |st.caches| && !st.caches[j].dirty
    ensures SubOk(st, CompSub(j))
    ensures forall u :: u in st.graph.compSubs[j] ==> SubIn(u, |st.prog.formulas|, |st.prog.bodies|) && Above(u, j)
    ensures Notify(st, CompSub(j))
         == NotifyAll(st.(caches := st.caches[j := Cache(st.caches[j].value, true)]), st.graph.compSubs[j], j)
  {
  }

  // ---------------------------------------------------------------------
  // Batches
  // ---------------------------------------------------------------------

  /** What the function passed to `Batch` does: writes to signals and nested batches. */
  datatype Action = Write(signal: nat, value: int) | Nested(body: seq<Action>)

  /** Every write names one of `n` signals. */
  predicate ActionsOk(n: nat, acts: seq<Action>)
    decreases acts
  {
    |acts| == 0
    || ((match acts[0]
         case Write(i, _) => i < n
         case Nested(b) => ActionsOk(n, b))
        && ActionsOk(n, acts[1..]))
  }

  /** The values after the writes of `acts`, in order, and nothing else. */
  function Written(vals: seq<int>, acts: seq<Action>): (r: seq<int>)
    requires ActionsOk(|vals|, acts)
    ensures |r| == |vals|
    decreases acts
  {
    if |acts| == 0 then vals
    else
      var v1 := match acts[0]
        case Write(i, v) => vals[i := v]
        case Nested(b) => Written(vals, b);
      Written(v1, acts[1..])
  }

  /**
   * `Batch`: the depth goes up while the body runs; on leaving, the depth
   * goes back down, and when the outermost batch ends with effects
   * queued, the queue is emptied and each queued effect is notified.
   */
  function Batch(st: State, body: seq<Action>): (r: State)
    requires WF(st) && ActionsOk(st.prog.signals, body)
    ensures WF(r) && r.prog == st.prog && r.depth == st.depth
    ensures r.values == Written(st.values, body)
    ensures |r.effects| == |st.effects|
    ensures forall e :: 0 <= e < |st.effects| ==>
              st.effects[e].runs <= r.effects[e].runs && st.effects[e].disposed == r.effects[e].disposed
    ensures st.depth > 0 ==> r.effects == st.effects && forall u :: u in st.queue ==> u in r.queue
    ensures st.depth == 0 ==> r.queue == []
    ensures st.depth == 0 ==> forall u :: u in RunActions(st.(depth := 1), body).queue && !st.effects[u.i].disposed ==>
              r.effects[u.i].runs > st.effects[u.i].runs
    decreases body, 1
  {
    var st1 := RunActions(st.(depth := st.depth + 1), body);
    if st.depth == 0 && |st1.queue| > 0 then
      Flush(st1.(depth := 0, queue := []), st1.queue)
    else st1.(depth := st.depth)
  }

  /** The flush after the outermost batch: every queued effect is notified, outside any batch. */
  function Flush(st: State, q: seq<Sub>): (r: State)
    requires WF(st) && st.depth == 0
    requires forall u :: u in q ==> u.EffSub? && u.i < |st.effects|
    ensures Propagated(st, r)
    ensures forall u :: u in q && u.i < |st.effects| && !st.effects[u.i].disposed ==> r.effects[u.i].runs > st.effects[u.i].runs
  {
    NotifyAll(st, q, -1)
  }

  /** The body of a batch, run with the depth raised: no effect runs, queued effects stay queued. */
  function RunActions(st: State, acts: seq<Action>): (r: State)
    requires WF(st) && st.depth > 0 && ActionsOk(st.prog.signals, acts)
    ensures WF(r) && r.prog == st.prog && r.depth == st.depth && r.effects == st.effects
    ensures r.values == Written(st.values, acts)
    ensures forall u :: u in st.queue ==> u in r.queue
    decreases acts, 0
  {
    if |acts| == 0 then st
    else
      var st1 := match acts[0]
        case Write(i, v) => Set(st, i, v)
        case Nested(b) => Batch(st, b);
      RunActions(st1, acts[1..])
  }

  // ---------------------------------------------------------------------
  // Creation and disposal
  // ---------------------------------------------------------------------

  /** Adding objects keeps the closures of the old ones valid; the new closures must be valid themselves. */
  lemma ProgGrows(p: Program, q: Program)
    requires ProgOk(p) && q.signals >= p.signals
    requires |q.formulas| >= |p.formulas| && q.formulas[..|p.formulas|] == p.formulas
    requires |q.bodies| >= |p.bodies| && q.bodies[..|p.bodies|] == p.bodies
    requires forall j, t :: |p.formulas| <= j < |q.formulas| && t in q.formulas[j] ==>
               DepIn(t.dep, q.signals, |q.formulas|) && Below(t.dep, j)
    requires forall e, d :: |p.bodies| <= e < |q.bodies| && d in q.bodies[e] ==> DepIn(d, q.signals, |q.formulas|)
    ensures ProgOk(q)
  {
    forall j, t | 0 <= j < |q.formulas| && t in q.formulas[j]
      ensures DepIn(t.dep, q.signals, |q.formulas|) && Below(t.dep, j)
    {
      if j < |p.formulas| {
        assert q.formulas[j] == p.formulas[j];
      }
    }
    forall e, d | 0 <= e < |q.bodies| && d in q.bodies[e] ensures DepIn(d, q.signals, |q.formulas|) {
      if e < |p.bodies| {
        assert q.bodies[e] == p.bodies[e];
        assert DepIn(d, p.signals, |p.formulas|);
      }
    }
  }

  /** Adding objects with empty subscriber sets keeps the graph valid. */
  lemma GraphGrows(p: Program, g: Graph, q: Program, h: Graph)
    requires GraphOk(p, g) && q.signals >= p.signals && |q.formulas| >= |p.formulas| && |q.bodies| >= |p.bodies|
    requires |h.sigSubs| == q.signals && |h.compSubs| == |q.formulas|
    requires |h.compDeps| == |q.formulas| && |h.effDeps| == |q.bodies|
    requires forall i :: 0 <= i < |h.sigSubs| ==> h.sigSubs[i] == if i < |g.sigSubs| then g.sigSubs[i] else []
    requires forall j :: 0 <= j < |h.compSubs| ==> h.compSubs[j] == if j < |g.compSubs| then g.compSubs[j] else []
    ensures GraphOk(q, h)
  {
    forall i, s | 0 <= i < |h.sigSubs| && s in h.sigSubs[i] ensures SubIn(s, |q.formulas|, |q.bodies|) {
      assert SubIn(s, |p.formulas|, |p.bodies|);
    }
    forall j, s | 0 <= j < |h.compSubs| && s in h.compSubs[j]
      ensures SubIn(s, |q.formulas|, |q.bodies|) && Above(s, j)
    {
      assert SubIn(s, |p.formulas|, |p.bodies|);
    }
  }

  /** `New`: a signal holding `v`, with no subscribers. */
  function NewSignal(st: State, v: int): (r: (State, nat))
    requires WF(st)
    ensures WF(r.0) && r.1 == |st.values| && r.0.values == st.values + [v]
    ensures Subs(r.0.graph, SigDep(r.1)) == []
    ensures r.0.caches == st.caches && r.0.effects == st.effects
  {
    var p := st.prog.(signals := st.prog.signals + 1);
    var g := st.graph.(sigSubs := st.graph.sigSubs + [[]]);
    assert p.formulas[..|st.prog.formulas|] == st.prog.formulas && p.bodies[..|st.prog.bodies|] == st.prog.bodies;
    ProgGrows(st.prog, p);
    GraphGrows(st.prog, st.graph, p, g);
    (st.(prog := p, values := st.values + [v], graph := g), |st.values|)
  }

  /** `NewComputed`: a computed over earlier objects, starting dirty with nothing cached. */
  function NewComputed(st: State, formula: seq<Term>): (r: (State, nat))
    requires WF(st) && forall t :: t in formula ==> DepOk(st, t.dep)
    ensures WF(r.0) && r.1 == |st.caches|
    ensures r.0.caches == st.caches + [Cache(0, true)]
    ensures r.0.values == st.values && r.0.effects == st.effects
    ensures Subs(r.0.graph, CompDep(r.1)) == [] && DepsOf(r.0.graph, CompSub(r.1)) == []
  {
    var j := |st.caches|;
    var p := st.prog.(formulas := st.prog.formulas + [formula]);
    var g := st.graph.(compSubs := st.graph.compSubs + [[]], compDeps := st.graph.compDeps + [[]]);
    assert p.formulas[..j] == st.prog.formulas && p.bodies[..|st.prog.bodies|] == st.prog.bodies;
    forall t | t in p.formulas[j] ensures DepIn(t.dep, p.signals, |p.formulas|) && Below(t.dep, j) {
      assert DepOk(st, t.dep);
    }
    ProgGrows(st.prog, p);
    GraphGrows(st.prog, st.graph, p, g);
    (st.(prog := p, caches := st.caches + [Cache(0, true)], graph := g), j)
  }

  /** `CreateEffect`: a new effect that runs once straight away, subscribing to what it reads. */
  function CreateEffect(st: State, body: seq<Dep>): (r: (State, nat))
    requires WF(st) && forall d :: d in body ==> DepOk(st, d)
    ensures WF(r.0) && r.1 == |st.effects| && |r.0.effects| == |st.effects| + 1
    ensures r.0.values == st.values && r.0.depth == st.depth
    ensures r.0.effects[..|st.effects|] == st.effects
    ensures r.0.effects[r.1].runs == 1 && !r.0.effects[r.1].disposed && |r.0.effects[r.1].seen| == |body|
    ensures forall d :: d in body ==> EffSub(r.1) in Subs(r.0.graph, d) && d in DepsOf(r.0.graph, EffSub(r.1))
  {
    var e := |st.effects|;
    var p := st.prog.(bodies := st.prog.bodies + [body]);
    var g := st.graph.(effDeps := st.graph.effDeps + [[]]);
    assert p.bodies[..e] == st.prog.bodies && p.formulas[..|st.prog.formulas|] == st.prog.formulas;
    forall d | d in p.bodies[e] ensures DepIn(d, p.signals, |p.formulas|) {
      assert DepOk(st, d);
    }
    ProgGrows(st.prog, p);
    GraphGrows(st.prog, st.graph, p, g);
    var st1 := st.(prog := p, effects := st.effects + [Effect(false, 0, [])], graph := g);
    (RunEffect(st1, e), e)
  }

  /** `Dispose`: the effect is marked disposed and leaves every dependency; a second call does nothing. */
  function Dispose(st: State, e: nat): (r: State)
    requires WF(st) && e < |st.effects|
    ensures WF(r) && r == st.(effects := r.effects, graph := r.graph)
    ensures r.effects == st.effects[e := st.effects[e].(disposed := true)]
    ensures st.effects[e].disposed ==> r == st
    ensures !st.effects[e].disposed ==> DepsOf(r.graph, EffSub(e)) == []
    ensures !st.effects[e].disposed ==> forall d :: d in DepsOf(st.graph, EffSub(e)) ==> EffSub(e) !in Subs(r.graph, d)
  {
    if st.effects[e].disposed then st
    else st.(effects := st.effects[e := st.effects[e].(disposed := true)], graph := DropDeps(st.prog, st.graph, EffSub(e)))
  }

  // ---------------------------------------------------------------------
  // Properties
  // ---------------------------------------------------------------------

  /** `Peek` and an untracked `Get` read the same value, and neither records an edge. */
  lemma PeekIsUntrackedGet(st: State, i: nat)
    requires WF(st) && i < st.prog.signals
    ensures Get(st, SigDep(i), None) == (st, Peek(st, i))
  {
  }

  /** A second `Dispose` does nothing. */
  lemma DisposeIdempotent(st: State, e: nat)
    requires WF(st) && e < |st.effects|
    ensures Dispose(Dispose(st, e), e) == Dispose(st, e)
  {
  }

  /** `Run` after `Dispose` does nothing, so a disposed effect never runs again. */
  lemma RunAfterDispose(st: State, e: nat)
    requires WF(st) && e < |st.effects|
    ensures RunEffect(Dispose(st, e), e) == Dispose(st, e)
  {
  }

  /** Test scenario: a signal reads back what it was set to. */
  lemma SignalScenario()
    ensures var (s1, c) := NewSignal(Empty, 0);
            var s2 := Set(s1, c, 1);
            Get(s1, SigDep(c), None).1 == 0 && Get(s2, SigDep(c), None).1 == 1
  {
  }

  /** Test scenario: an effect runs when created and once more on each change of what it reads. */
  lemma EffectScenario()
    ensures var (s1, c) := NewSignal(Empty, 0);
            var (s2, e) := CreateEffect(s1, [SigDep(c)]);
            var s3 := Set(s2, c, 1);
            var s4 := Set(s3, c, 2);
            s2.effects[e].runs == 1 && s3.effects[e].runs == 2 && s4.effects[e].runs == 3
  {
    var p := Program(1, [], [[SigDep(0)]]);
    var s1 := State(Program(1, [], []), [0], [], [], Graph([[]], [], [], []), 0, []);
    assert Empty.graph.sigSubs + [[]] == [[]] && Empty.values + [0] == [0];
    assert NewSignal(Empty, 0) == (s1, 0);
    var s2 := State(p, [0], [], [Effect(false, 1, [0])], Wired(), 0, []);
    EffectStep(s1, s2);
    var s3 := State(p, [1], [], [Effect(false, 2, [1])], Wired(), 0, []);
    var s4 := State(p, [2], [], [Effect(false, 3, [2])], Wired(), 0, []);
    SetStep(s2, 0, 1, 1, s3);
    SetStep(s3, 1, 2, 2, s4);
  }

  /** Test scenario: a computed doubling a signal reads 2, and 4 after the signal is set to 2. */
  lemma ComputedScenario()
    ensures var (s1, c) := NewSignal(Empty, 1);
            var (s2, k) := NewComputed(s1, [Term(SigDep(c), 2)]);
            var (s3, v1) := Get(s2, CompDep(k), None);
            var s4 := Set(s3, c, 2);
            v1 == 2 && Get(s4, CompDep(k), None).1 == 4
  {
    var p := Program(1, [[Term(SigDep(0), 2)]], []);
    var s1 := State(Program(1, [], []), [1], [], [], Graph([[]], [], [], []), 0, []);
    assert Empty.graph.sigSubs + [[]] == [[]] && Empty.values + [1] == [1];
    assert NewSignal(Empty, 1) == (s1, 0);
    var s2 := State(p, [1], [Cache(0, true)], [], Graph([[]], [[]], [[]], []), 0, []);
    DeclareStep(s1, s2);
    var s3 := State(p, [1], [Cache(2, false)], [], Linked(), 0, []);
    ComputeStep(s2, s3);
    var s4 := State(p, [2], [Cache(2, true)], [], Linked(), 0, []);
    InvalidateStep(s3, s4);
    RereadStep(s4);
  }

  lemma DeclareStep(s1: State, s2: State)
    requires s1 == State(Program(1, [], []), [1], [], [], Graph([[]], [], [], []), 0, [])
    requires s2 == State(Program(1, [[Term(SigDep(0), 2)]], []), [1], [Cache(0, true)], [], Graph([[]], [[]], [[]], []), 0, [])
    ensures WF(s1) && NewComputed(s1, [Term(SigDep(0), 2)]) == (s2, 0)
  {
    assert s1.prog.formulas + [[Term(SigDep(0), 2)]] == s2.prog.formulas;
    assert s1.caches + [Cache(0, true)] == s2.caches;
    assert s1.graph.compSubs + [[]] == [[]];
  }

  /** Read again while dirty, the computed denotes twice the new value. */
  lemma RereadStep(s4: State)
    requires s4 == State(Program(1, [[Term(SigDep(0), 2)]], []), [2], [Cache(2, true)], [], Linked(), 0, [])
    ensures WF(s4) && Get(s4, CompDep(0), None).1 == 4
  {
    AllDirtyCoherent(s4);
    GetDenotes(s4, CompDep(0), None);
    assert Denote(s4.prog, [2], SigDep(0)) == 2;
    SingletonTail(Term(SigDep(0), 2));
    assert DenoteSum(s4.prog, [2], [Term(SigDep(0), 2)], 0) == 4;
  }

  /** The graph once the doubling computed has read its signal. */
  function Linked(): Graph {
    Graph([[CompSub(0)]], [[]], [[SigDep(0)]], [])
  }

  /** The first read of the doubling computed runs its closure and links it to the signal. */
  lemma ComputeStep(s2: State, s3: State)
    requires s2 == State(Program(1, [[Term(SigDep(0), 2)]], []), [1], [Cache(0, true)], [], Graph([[]], [[]], [[]], []), 0, [])
    requires s3 == State(Program(1, [[Term(SigDep(0), 2)]], []), [1], [Cache(2, false)], [], Linked(), 0, [])
    ensures WF(s2) && Get(s2, CompDep(0), None) == (s3, 2)
  {
    assert UnsubscribeAll(s2.prog, s2.graph, [], CompSub(0)) == s2.graph;
    assert DropDeps(s2.prog, s2.graph, CompSub(0)) == s2.graph;
    var s2l := s2.(graph := Linked());
    EvalStep(s2);
    assert s2.(graph := s2.graph) == s2 && s2.prog.formulas[0] == [Term(SigDep(0), 2)];
    UpdateOnly(s2l.caches, Cache(2, false));
    assert s2l.(caches := [Cache(2, false)]) == s3;
    assert Recompute(s2, 0) == (s3, 2);
  }

  /** The doubling closure reads the signal with the computed active. */
  lemma EvalStep(s2: State)
    requires s2 == State(Program(1, [[Term(SigDep(0), 2)]], []), [1], [Cache(0, true)], [], Graph([[]], [[]], [[]], []), 0, [])
    ensures WF(s2) && Eval(s2, [Term(SigDep(0), 2)], 0) == (s2.(graph := Linked()), 2)
  {
    var g1 := Graph([[]], [[]], [[SigDep(0)]], []);
    assert Insert(DepsOf(s2.graph, CompSub(0)), SigDep(0)) == [SigDep(0)];
    assert AddDependency(s2.prog, s2.graph, CompSub(0), SigDep(0)) == g1;
    assert Insert(Subs(g1, SigDep(0)), CompSub(0)) == [CompSub(0)];
    assert Subscribe(s2.prog, g1, SigDep(0), CompSub(0)) == Linked();
    var s2l := s2.(graph := Linked());
    assert Get(s2, SigDep(0), Some(CompSub(0))) == (s2l, 1);
    var ts := [Term(SigDep(0), 2)];
    assert ts[1..] == [];
    assert Eval(s2l, [], 0) == (s2l, 0);
  }

  /** Setting the signal marks the clean computed dirty and goes no further. */
  lemma InvalidateStep(s3: State, s4: State)
    requires s3 == State(Program(1, [[Term(SigDep(0), 2)]], []), [1], [Cache(2, false)], [], Linked(), 0, [])
    requires s4 == State(Program(1, [[Term(SigDep(0), 2)]], []), [2], [Cache(2, true)], [], Linked(), 0, [])
    ensures WF(s3) && Set(s3, 0, 2) == s4
  {
    var st1 := s3.(values := [2]);
    SetChanged(s3, 0, 2);
    UpdateOnly(s3.values, 2);
    assert s3.graph.sigSubs[0] == [CompSub(0)];
    NotifySingle(st1, CompSub(0), -1);
    NotifyInvalidates(st1, 0);
    UpdateOnly(st1.caches, Cache(2, true));
    assert st1.(caches := [Cache(2, true)]) == s4 && st1.graph.compSubs[0] == [];
    assert NotifyAll(s4, [], 0) == s4;
  }

  /** The one-signal, one-effect graph, and the same graph with the effect's edges dropped. */
  function Wired(): Graph {
    Graph([[EffSub(0)]], [], [], [[SigDep(0)]])
  }

  function Unwired(): Graph {
    Graph([[]], [], [], [[]])
  }

  /** Reading one dependency is one tracked `Get`. */
  lemma ReadOne(st: State, d: Dep, e: nat)
    requires WF(st) && e < |st.effects| && DepIn(d, st.prog.signals, |st.prog.formulas|)
    ensures ReadAll(st, [d], e) == (Get(st, d, Some(EffSub(e))).0, [Get(st, d, Some(EffSub(e))).1])
  {
    var g := Get(st, d, Some(EffSub(e)));
    var ds := [d];
    assert ds[0] == d && |ds| == 1;
    assert ds[1..] == [];
    assert ReadAll(g.0, [], e) == (g.0, []);
    assert ReadAll(g.0, ds[1..], e) == (g.0, []);
    assert ReadAll(st, ds, e).1 == [g.1];
    assert ReadAll(st, ds, e).0 == g.0;
  }

  /** Reading signal 0 with effect 0 active wires the single edge. */
  lemma WireStep(st: State)
    requires st.prog == Program(1, [], [[SigDep(0)]]) && |st.values| == 1 && st.caches == []
    requires |st.effects| == 1 && st.graph == Unwired() && st.depth == 0 && st.queue == []
    ensures WF(st)
    ensures ReadAll(st, [SigDep(0)], 0) == (st.(graph := Wired()), [st.values[0]])
  {
    var g1 := Graph([[]], [], [], [[SigDep(0)]]);
    assert Insert(DepsOf(st.graph, EffSub(0)), SigDep(0)) == [SigDep(0)];
    assert AddDependency(st.prog, st.graph, EffSub(0), SigDep(0)) == g1;
    assert Insert(Subs(g1, SigDep(0)), EffSub(0)) == [EffSub(0)];
    assert Subscribe(st.prog, g1, SigDep(0), EffSub(0)) == Wired();
    assert Track(st, SigDep(0), Some(EffSub(0))) == st.(graph := Wired());
    assert Get(st, SigDep(0), Some(EffSub(0))) == (st.(graph := Wired()), st.values[0]);
    ReadOne(st, SigDep(0), 0);
  }

  /** Dropping the effect's edges from the wired graph unwires it. */
  lemma UnwireStep(p: Program)
    requires p == Program(1, [], [[SigDep(0)]])
    ensures GraphOk(p, Wired()) && DropDeps(p, Wired(), EffSub(0)) == Unwired()
  {
    var g1 := Graph([[]], [], [], [[SigDep(0)]]);
    assert Remove([EffSub(0)], EffSub(0)) == [];
    assert Unsubscribe(p, Wired(), SigDep(0), EffSub(0)) == g1;
    assert UnsubscribeAll(p, g1, [], EffSub(0)) == g1;
    assert UnsubscribeAll(p, Wired(), [SigDep(0)], EffSub(0)) == g1;
  }

  lemma EffectStep(s1: State, s2: State)
    requires s1 == State(Program(1, [], []), [0], [], [], Graph([[]], [], [], []), 0, [])
    requires s2 == State(Program(1, [], [[SigDep(0)]]), [0], [], [Effect(false, 1, [0])], Wired(), 0, [])
    ensures CreateEffect(s1, [SigDep(0)]) == (s2, 0)
  {
    var st1 := State(Program(1, [], [[SigDep(0)]]), [0], [], [Effect(false, 0, [])], Unwired(), 0, []);
    assert s1.prog.bodies + [[SigDep(0)]] == [[SigDep(0)]];
    assert s1.graph.effDeps + [[]] == [[]] && s1.effects + [Effect(false, 0, [])] == [Effect(false, 0, [])];
    WireStep(st1);
    RunStep(st1, s2);
  }

  /** The first run of the fresh effect. */
  lemma RunStep(st1: State, s2: State)
    requires st1 == State(Program(1, [], [[SigDep(0)]]), [0], [], [Effect(false, 0, [])], Unwired(), 0, [])
    requires s2 == State(Program(1, [], [[SigDep(0)]]), [0], [], [Effect(false, 1, [0])], Wired(), 0, [])
    ensures WF(st1) && RunEffect(st1, 0) == s2
  {
    WireStep(st1);
    assert UnsubscribeAll(st1.prog, st1.graph, [], EffSub(0)) == st1.graph;
    assert DropDeps(st1.prog, st1.graph, EffSub(0)) == st1.graph;
    assert st1.(graph := st1.graph) == st1;
  }

  lemma SetStep(a: State, v: int, w: int, runs: nat, b: State)
    requires a == State(Program(1, [], [[SigDep(0)]]), [v], [], [Effect(false, runs, [v])], Wired(), 0, [])
    requires v != w
    requires b == State(Program(1, [], [[SigDep(0)]]), [w], [], [Effect(false, runs + 1, [w])], Wired(), 0, [])
    ensures Set(a, 0, w) == b
  {
    var a1 := a.(values := [w]);
    RerunStep(a1, b);
    NotifyOne(a1, 0);
    SetNotifiesEffect(a, v, w, runs);
  }

  /** The signal's one subscriber is the effect, so setting it notifies the effect. */
  lemma SetNotifiesEffect(a: State, v: int, w: int, runs: nat)
    requires a == State(Program(1, [], [[SigDep(0)]]), [v], [], [Effect(false, runs, [v])], Wired(), 0, [])
    requires v != w
    ensures WF(a) && Set(a, 0, w) == NotifyAll(a.(values := [w]), [EffSub(0)], -1)
  {
    SetChanged(a, 0, w);
    UpdateOnly(a.values, w);
    assert a.graph.sigSubs[0] == [EffSub(0)];
  }

  /** The effect re-runs on the new value: its edges are dropped and wired again. */
  lemma RerunStep(st: State, b: State)
    requires st.prog == Program(1, [], [[SigDep(0)]]) && |st.values| == 1 && st.caches == []
    requires |st.effects| == 1 && !st.effects[0].disposed && st.graph == Wired() && st.depth == 0 && st.queue == []
    requires b == st.(effects := [Effect(false, st.effects[0].runs + 1, [st.values[0]])])
    ensures WF(st) && RunEffect(st, 0) == b
  {
    RereadAfterClear(st);
    UpdateOnly(st.effects, Effect(false, st.effects[0].runs + 1, [st.values[0]]));
    RunRereads(st, 0, [st.values[0]], b);
  }

  /** Dropping the effect's edges and running its closure again restores the wired state. */
  lemma RereadAfterClear(st: State)
    requires st.prog == Program(1, [], [[SigDep(0)]]) && |st.values| == 1 && st.caches == []
    requires |st.effects| == 1 && st.graph == Wired() && st.depth == 0 && st.queue == []
    ensures WF(st)
    ensures ReadAll(st.(graph := DropDeps(st.prog, st.graph, EffSub(0))), st.prog.bodies[0], 0) == (st, [st.values[0]])
  {
    ClearedIsUnwired(st);
    RereadWired(st);
  }

  /** Dropping the effect's edges from the wired state leaves the unwired one. */
  lemma ClearedIsUnwired(st: State)
    requires st.prog == Program(1, [], [[SigDep(0)]]) && st.graph == Wired()
    ensures GraphOk(st.prog, st.graph)
    ensures DropDeps(st.prog, st.graph, EffSub(0)) == Unwired()
  {
    UnwireStep(st.prog);
  }

  /** The effect's closure, run from the unwired state, wires it again and reads the signal. */
  lemma RereadWired(st: State)
    requires st.prog == Program(1, [], [[SigDep(0)]]) && |st.values| == 1 && st.caches == []
    requires |st.effects| == 1 && st.graph == Wired() && st.depth == 0 && st.queue == []
    ensures WF(st) && ReadAll(st.(graph := Unwired()), st.prog.bodies[0], 0) == (st, [st.values[0]])
  {
    var a0 := st.(graph := Unwired());
    WireStep(a0);
    assert a0.(graph := Wired()) == st;
  }

  /** A live effect's run is its closure's reads from the state with its edges dropped. */
  lemma RunRereads(st: State, e: nat, vals: seq<int>, r: State)
    requires WF(st) && e < |st.effects| && !st.effects[e].disposed
    requires ReadAll(st.(graph := DropDeps(st.prog, st.graph, EffSub(e))), st.prog.bodies[e], e) == (st, vals)
    requires r == st.(effects := st.effects[e := Effect(false, st.effects[e].runs + 1, vals)])
    ensures RunEffect(st, e) == r
  {
  }

  /** Outside a batch, notifying the one effect runs it. */
  lemma NotifyOne(st: State, e: nat)
    requires WF(st) && st.depth == 0 && e < |st.effects|
    ensures NotifyAll(st, [EffSub(e)], -1) == RunEffect(st, e)
  {
    NotifySingle(st, EffSub(e), -1);
    NotifyRuns(st, e);
  }
}
