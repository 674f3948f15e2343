/**
 * The string pass of the basement formatter: code spans between equal
 * backtick runs are hidden behind a hash while the other passes run and
 * restored afterwards, and colour names become SGR escape sequences.
 */
module Basement {
  import opened Wrappers
  import opened Text
  import opened Styles
  import opened Parser

  // ---------------------------------------------------------------------
  // Backtick runs
  // ---------------------------------------------------------------------

  predicate IsTick(c: char) {
    c == '`'
  }

  /** A run of backticks, as the half-open interval [start, end) of the text. */
  datatype TickRun = TickRun(start: nat, end: nat)

  function Len(r: TickRun): int {
    r.end - r.start
  }

  /** A run that cannot be extended on either side: what "`+" matches. */
  predicate IsRun(t: string, r: TickRun) {
    && r.start < r.end <= |t|
    && (forall k :: r.start <= k < r.end ==> t[k] == '`')
    && (r.start == 0 || t[r.start - 1] != '`')
    && (r.end == |t| || t[r.end] != '`')
  }

  /** Runs in text order, each ending before the next starts. */
  predicate Ordered(rs: seq<TickRun>) {
    forall a, b :: 0 <= a < b < |rs| ==> rs[a].end < rs[b].start
  }

  /** `FindAllStringIndex` with "`+": the maximal runs from `from` on, left to right. */
  function RunsFrom(t: string, from: nat): (rs: seq<TickRun>)
    requires from <= |t|
    requires from == 0 || from == |t| || t[from - 1] != '`' || t[from] != '`'
    ensures forall i :: 0 <= i < |rs| ==> IsRun(t, rs[i]) && from <= rs[i].start
    ensures Ordered(rs)
    decreases |t| - from
  {
    if from == |t| then []
    else if t[from] != '`' then RunsFrom(t, from + 1)
    else
      var e := RunEnd(t, from, IsTick);
      var rest := RunsFrom(t, e);
      RunsCons(t, TickRun(from, e), rest);
      [TickRun(from, e)] + rest
  }

  lemma RunsCons(t: string, r: TickRun, rest: seq<TickRun>)
    requires IsRun(t, r)
    requires forall i :: 0 <= i < |rest| ==> IsRun(t, rest[i]) && r.end <= rest[i].start
    requires Ordered(rest)
    ensures forall i :: 0 <= i < |[r] + rest| ==> IsRun(t, ([r] + rest)[i]) && r.start <= ([r] + rest)[i].start
    ensures Ordered([r] + rest)
  {
    var rs := [r] + rest;
    forall i | 0 <= i < |rest| ensures r.end < rest[i].start {
      assert t[rest[i].start] == '`';
    }
    assert forall i :: 1 <= i < |rs| ==> rs[i] == rest[i - 1];
  }

  /** Every backtick of the text from `from` on lies in one of the runs. */
  lemma {:induction false} RunsCover(t: string, from: nat, k: nat)
    requires from <= k < |t| && t[k] == '`'
    requires from == 0 || from == |t| || t[from - 1] != '`' || t[from] != '`'
    ensures exists i :: 0 <= i < |RunsFrom(t, from)| && RunsFrom(t, from)[i].start <= k < RunsFrom(t, from)[i].end
    decreases |t| - from
  {
    var rs := RunsFrom(t, from);
    if t[from] != '`' {
      RunsCover(t, from + 1, k);
    } else {
      var e := RunEnd(t, from, IsTick);
      if k < e {
        assert rs[0].start <= k < rs[0].end;
      } else {
        var rest := RunsFrom(t, e);
        RunsCover(t, e, k);
        var i :| 0 <= i < |rest| && rest[i].start <= k < rest[i].end;
        assert rs[i + 1] == rest[i];
      }
    }
  }

  /** Text with no backtick has no runs. */
  lemma NoTicksNoRuns(t: string, from: nat)
    requires from <= |t| && '`' !in t
    ensures RunsFrom(t, from) == []
    decreases |t| - from
  {
    if from < |t| {
      NoTicksNoRuns(t, from + 1);
    }
  }

  // ---------------------------------------------------------------------
  // Pairing
  // ---------------------------------------------------------------------

  /** The first run at or after `j` with the length of run `i`. */
  function Partner(rs: seq<TickRun>, i: nat, j: nat): (f: Option<nat>)
    requires i < j <= |rs|
    ensures f.Some? ==> j <= f.value < |rs| && Len(rs[f.value]) == Len(rs[i])
                        && forall k :: j <= k < f.value ==> Len(rs[k]) != Len(rs[i])
    ensures f.None? ==> forall k :: j <= k < |rs| ==> Len(rs[k]) != Len(rs[i])
    decreases |rs| - j
  {
    if j == |rs| then None
    else if Len(rs[j]) == Len(rs[i]) then Some(j)
    else Partner(rs, i, j + 1)
  }

  /**
   * The pairing read off the loop: from run `i`, pair it with the next run
   * of the same length and carry on after that partner (the runs between
   * are skipped), or, when there is none, carry on with run `i + 1`.
   */
  function Pairs(rs: seq<TickRun>, i: nat): (ps: seq<(nat, nat)>)
    requires i <= |rs|
    ensures forall k :: 0 <= k < |ps| ==> i <= ps[k].0 < ps[k].1 < |rs| && Len(rs[ps[k].0]) == Len(rs[ps[k].1])
    ensures forall a, b :: 0 <= a < b < |ps| ==> ps[a].1 < ps[b].0
    decreases |rs| - i
  {
    if i == |rs| then []
    else match Partner(rs, i, i + 1)
      case Some(f) =>
        var rest := Pairs(rs, f + 1);
        var ps := [(i, f)] + rest;
        assert forall k :: 1 <= k < |ps| ==> ps[k] == rest[k - 1];
        ps
      case None => Pairs(rs, i + 1)
  }

  /** Whether run `m` lies inside one of the pairs, delimiters included. */
  predicate Covered(ps: seq<(nat, nat)>, m: nat) {
    exists k :: 0 <= k < |ps| && ps[k].0 <= m <= ps[k].1
  }

  /** A run left outside every pair has no later run of its length: the pairing is maximal. */
  lemma {:induction false} UnpairedHasNoPartner(rs: seq<TickRun>, i: nat, m: nat)
    requires i <= m < |rs|
    ensures !Covered(Pairs(rs, i), m) ==> forall k :: m < k < |rs| ==> Len(rs[k]) != Len(rs[m])
    decreases |rs| - i
  {
    if !Covered(Pairs(rs, i), m) {
      var p := Partner(rs, i, i + 1);
      PairsStep(rs, i);
      if p.Some? {
        var f := p.value;
        CoveredCons((i, f), Pairs(rs, f + 1), m);
        UnpairedHasNoPartner(rs, f + 1, m);
      } else if m > i {
        UnpairedHasNoPartner(rs, i + 1, m);
      }
    }
  }

  /** One step of the pairing. */
  lemma PairsStep(rs: seq<TickRun>, i: nat)
    requires i < |rs|
    ensures Partner(rs, i, i + 1).Some? ==>
              Pairs(rs, i) == [(i, Partner(rs, i, i + 1).value)] + Pairs(rs, Partner(rs, i, i + 1).value + 1)
    ensures Partner(rs, i, i + 1).None? ==> Pairs(rs, i) == Pairs(rs, i + 1)
  {
  }

  lemma CoveredCons(x: (nat, nat), rest: seq<(nat, nat)>, m: nat)
    ensures Covered([x] + rest, m) <==> (x.0 <= m <= x.1 || Covered(rest, m))
  {
    var ps := [x] + rest;
    if x.0 <= m <= x.1 {
      assert ps[0].0 <= m <= ps[0].1;
    }
    if Covered(rest, m) {
      var k :| 0 <= k < |rest| && rest[k].0 <= m <= rest[k].1;
      assert ps[k + 1] == rest[k];
    }
    if Covered(ps, m) {
      var k :| 0 <= k < |ps| && ps[k].0 <= m <= ps[k].1;
      if k > 0 {
        assert rest[k - 1] == ps[k];
      }
    }
  }

  /**
   * The pairing loop with its `used` flags. A run between a pair is
   * flagged so the outer loop skips it; at the run the outer loop stops
   * at, no later run is flagged, so the inner search sees every later run.
   */
  method PairRuns(rs: seq<TickRun>) returns (ps: seq<(nat, nat)>)
    ensures ps == Pairs(rs, 0)
  {
    var n := |rs|;
    var used := seq(n, _ => false);
    ps := [];
    ghost var u := 0;
    var i := 0;
    while i < n
      invariant 0 <= i <= u <= n && |used| == n
      invariant forall k :: i <= k < n ==> (used[k] <==> k < u)
      invariant ps + Pairs(rs, u) == Pairs(rs, 0)
    {
      if used[i] {
        i := i + 1;
        continue;
      }
      assert i == u;
      ps, used, u := PairAt(rs, used, ps, i);
      i := i + 1;
    }
  }

  /** The outer loop's body at an unflagged run `i`: search, record the pair, flag its span. */
  method PairAt(rs: seq<TickRun>, used0: seq<bool>, ps0: seq<(nat, nat)>, i: nat)
    returns (ps: seq<(nat, nat)>, used: seq<bool>, ghost u: nat)
    requires i < |rs| == |used0|
    requires forall k :: i <= k < |rs| ==> !used0[k]
    requires ps0 + Pairs(rs, i) == Pairs(rs, 0)
    ensures i < u <= |rs| && |used| == |rs|
    ensures forall k :: i < k < |rs| ==> (used[k] <==> k < u)
    ensures ps + Pairs(rs, u) == Pairs(rs, 0)
  {
    var found := FindPartner(rs, used0, i);
    PairsAdvance(rs, ps0, i, found);
    if found != -1 {
      ps := ps0 + [(i, found)];
      used := FlagSpan(used0, i, found);
      u := found + 1;
    } else {
      ps, used := ps0, used0;
      u := i + 1;
    }
  }

  /** What the outer loop appends at run `i` keeps the pairs found so far a prefix of the pairing. */
  lemma PairsAdvance(rs: seq<TickRun>, ps: seq<(nat, nat)>, i: nat, found: int)
    requires i < |rs| && ps + Pairs(rs, i) == Pairs(rs, 0)
    requires found == -1 <==> Partner(rs, i, i + 1).None?
    requires found != -1 ==> Partner(rs, i, i + 1) == Some(found)
    ensures found != -1 ==> i < found < |rs| && ps + [(i, found)] + Pairs(rs, found + 1) == Pairs(rs, 0)
    ensures found == -1 ==> ps + Pairs(rs, i + 1) == Pairs(rs, 0)
  {
    PairsStep(rs, i);
    if found != -1 {
      AppendAssoc(ps, [(i, found)], Pairs(rs, found + 1));
    }
  }

  lemma AppendAssoc<T>(a: seq<T>, b: seq<T>, c: seq<T>)
    ensures a + b + c == a + (b + c)
  {
  }

  /** The inner search: the first later run of the same length that is not flagged. */
  method FindPartner(rs: seq<TickRun>, used: seq<bool>, i: nat) returns (found: int)
    requires i < |rs| == |used|
    requires forall k :: i < k < |rs| ==> !used[k]
    ensures found == -1 <==> Partner(rs, i, i + 1).None?
    ensures found != -1 ==> Partner(rs, i, i + 1) == Some(found)
  {
    var n := |rs|;
    var len1 := Len(rs[i]);
    found := -1;
    var j := i + 1;
    while j < n
      invariant i + 1 <= j <= n
      invariant forall k :: i + 1 <= k < j ==> Len(rs[k]) != len1
    {
      if used[j] {
        j := j + 1;
        continue;
      }
      if Len(rs[j]) == len1 {
        found := j;
        break;
      }
      j := j + 1;
    }
  }

  /** Flags run `i`, its partner and every run between them. */
  method FlagSpan(used0: seq<bool>, i: nat, found: nat) returns (used: seq<bool>)
    requires i < found < |used0|
    ensures |used| == |used0|
    ensures forall m :: i < m < |used| ==> (used[m] <==> (used0[m] || m <= found))
  {
    used := used0[i := true][found := true];
    var k := i + 1;
    while k < found
      invariant i + 1 <= k <= found && |used| == |used0|
      invariant forall m :: i < m < |used| ==> (used[m] <==> (used0[m] || m < k || m == found))
    {
      used := used[k := true];
      k := k + 1;
    }
  }

  // ---------------------------------------------------------------------
  // Replacement
  // ---------------------------------------------------------------------

  /** The code between a pair of runs, [start, end), and the text that replaces it. */
  datatype Replacement = Replacement(start: nat, end: nat, text: string)

  /** Replacements inside [last, n), in order and not overlapping. */
  predicate ValidReps(reps: seq<Replacement>, last: nat, n: nat) {
    && last <= n
    && (forall k :: 0 <= k < |reps| ==> last <= reps[k].start <= reps[k].end <= n)
    && (forall a, b :: 0 <= a < b < |reps| ==> reps[a].end <= reps[b].start)
  }

  /** Pair `k` covers the text after its opener and before its closer; the text is the hash of that code. */
  function Replacements(t: string, rs: seq<TickRun>, ps: seq<(nat, nat)>, hash: string -> string): (reps: seq<Replacement>)
    requires forall i :: 0 <= i < |rs| ==> IsRun(t, rs[i])
    requires Ordered(rs)
    requires forall k :: 0 <= k < |ps| ==> ps[k].0 < ps[k].1 < |rs|
    requires forall a, b :: 0 <= a < b < |ps| ==> ps[a].1 < ps[b].0
    ensures |reps| == |ps| && ValidReps(reps, 0, |t|)
    ensures forall k :: 0 <= k < |ps| ==>
              reps[k].start == rs[ps[k].0].end && reps[k].end == rs[ps[k].1].start
              && reps[k].text == hash(t[rs[ps[k].0].end..rs[ps[k].1].start])
  {
    var reps := seq(|ps|, k requires 0 <= k < |ps| => ReplacementAt(t, rs, ps[k], hash));
    forall a, b | 0 <= a < b < |ps| ensures reps[a].end <= reps[b].start {
      var x, y := ps[a].1, ps[b].0;
      assert x < y;
      assert IsRun(t, rs[x]) && IsRun(t, rs[y]);
      assert rs[x].end < rs[y].start;
    }
    reps
  }

  /** The replacement for one pair of runs. */
  function ReplacementAt(t: string, rs: seq<TickRun>, p: (nat, nat), hash: string -> string): (r: Replacement)
    requires forall i :: 0 <= i < |rs| ==> IsRun(t, rs[i])
    requires Ordered(rs) && p.0 < p.1 < |rs|
    ensures r.start == rs[p.0].end <= r.end == rs[p.1].start <= |t|
    ensures r.text == hash(t[rs[p.0].end..rs[p.1].start])
  {
    assert IsRun(t, rs[p.0]) && IsRun(t, rs[p.1]);
    var s, e := rs[p.0].end, rs[p.1].start;
    Replacement(s, e, hash(t[s..e]))
  }

  /** The text from `last` on with each replacement's interval replaced by its text. */
  function Splice(t: string, reps: seq<Replacement>, last: nat): string
    requires ValidReps(reps, last, |t|)
    decreases |reps|
  {
    if |reps| == 0 then t[last..]
    else t[last..reps[0].start] + reps[0].text + Splice(t, reps[1..], reps[0].end)
  }

  /** The builder loop: the text before each replacement, then its text, then the tail. */
  method BuildSpliced(t: string, reps: seq<Replacement>) returns (s: string)
    requires ValidReps(reps, 0, |t|)
    ensures s == Splice(t, reps, 0)
  {
    s := "";
    var last: nat := 0;
    var rest := reps;
    while |rest| > 0
      invariant ValidReps(rest, last, |t|)
      invariant s + Splice(t, rest, last) == Splice(t, reps, 0)
      decreases |rest|
    {
      var r := rest[0];
      var next := s + t[last..r.start] + r.text;
      SpliceStep(t, rest, last, s, next);
      s, last, rest := next, r.end, rest[1..];
    }
    s := s + t[last..];
  }

  /** One step of the builder: the first replacement's prefix and text, then the rest. */
  lemma SpliceStep(t: string, reps: seq<Replacement>, last: nat, s: string, next: string)
    requires ValidReps(reps, last, |t|) && |reps| > 0
    requires last <= reps[0].start <= |t| && next == s + t[last..reps[0].start] + reps[0].text
    ensures ValidReps(reps[1..], reps[0].end, |t|)
    ensures next + Splice(t, reps[1..], reps[0].end) == s + Splice(t, reps, last)
  {
    ValidTail(reps, last, |t|);
    var tail := Splice(t, reps[1..], reps[0].end);
    assert Splice(t, reps, last) == t[last..reps[0].start] + reps[0].text + tail;
    assert next + tail == s + (t[last..reps[0].start] + reps[0].text + tail);
  }

  /** The replacements after the first lie after its end. */
  lemma ValidTail(reps: seq<Replacement>, last: nat, n: nat)
    requires ValidReps(reps, last, n) && |reps| > 0
    ensures ValidReps(reps[1..], reps[0].end, n)
  {
    var tl := reps[1..];
    forall k | 0 <= k < |tl| ensures reps[0].end <= tl[k].start <= tl[k].end <= n {
      assert tl[k] == reps[k + 1];
    }
    forall a, b | 0 <= a < b < |tl| ensures tl[a].end <= tl[b].start {
      assert tl[a] == reps[a + 1] && tl[b] == reps[b + 1];
    }
  }

  /** Replacing each interval by its own text changes nothing. */
  lemma {:induction false} SpliceIdentity(t: string, reps: seq<Replacement>, last: nat)
    requires ValidReps(reps, last, |t|)
    requires forall k :: 0 <= k < |reps| ==> reps[k].text == t[reps[k].start..reps[k].end]
    ensures Splice(t, reps, last) == t[last..]
    decreases |reps|
  {
    if |reps| > 0 {
      SpliceIdentity(t, reps[1..], reps[0].end);
      assert t[last..reps[0].start] + t[reps[0].start..reps[0].end] + t[reps[0].end..] == t[last..];
    }
  }

  /** The replacements the pass makes in `t`. */
  function Reps(t: string, hash: string -> string): (reps: seq<Replacement>)
    ensures ValidReps(reps, 0, |t|)
  {
    var rs := RunsFrom(t, 0);
    Replacements(t, rs, Pairs(rs, 0), hash)
  }

  /** The code map: each replacement's hash to the code it hides, later entries overwriting earlier ones. */
  function CodeMapOf(t: string, reps: seq<Replacement>): map<string, string>
    requires ValidReps(reps, 0, |t|)
    decreases |reps|
  {
    if |reps| == 0 then map[]
    else
      var r := reps[|reps| - 1];
      CodeMapOf(t, reps[..|reps| - 1])[r.text := t[r.start..r.end]]
  }

  /** `processCodeBlocks`: the text with each paired span's code replaced by its hash, and the code map. */
  function CodeBlocks(t: string, hash: string -> string): (r: (string, map<string, string>))
    ensures '`' !in t ==> r.0 == t && r.1 == map[]
  {
    var reps := Reps(t, hash);
    if '`' !in t then NoTicksNoRuns(t, 0); (t, map[])
    else (Splice(t, reps, 0), CodeMapOf(t, reps))
  }

  /** Without any pair the text comes back as it was. */
  lemma NoPairsUnchanged(t: string, hash: string -> string)
    requires Reps(t, hash) == []
    ensures CodeBlocks(t, hash).0 == t
  {
  }

  /** Each code the pass hides can be looked up by its hash, provided distinct codes hash apart. */
  lemma {:induction false} CodeMapFinds(t: string, reps: seq<Replacement>, hash: string -> string)
    requires ValidReps(reps, 0, |t|)
    requires forall k :: 0 <= k < |reps| ==> reps[k].text == hash(t[reps[k].start..reps[k].end])
    requires forall a, b :: hash(a) == hash(b) ==> a == b
    ensures forall k :: 0 <= k < |reps| ==>
              reps[k].text in CodeMapOf(t, reps) && CodeMapOf(t, reps)[reps[k].text] == t[reps[k].start..reps[k].end]
    decreases |reps|
  {
    if |reps| > 0 {
      var init := reps[..|reps| - 1];
      assert ValidReps(init, 0, |t|);
      CodeMapFinds(t, init, hash);
      var r := reps[|reps| - 1];
      var m0 := CodeMapOf(t, init);
      assert CodeMapOf(t, reps) == m0[r.text := t[r.start..r.end]];
      forall k | 0 <= k < |reps|
        ensures reps[k].text in CodeMapOf(t, reps) && CodeMapOf(t, reps)[reps[k].text] == t[reps[k].start..reps[k].end]
      {
        if k < |reps| - 1 {
          assert reps[k] == init[k];
          if reps[k].text == r.text {
            assert t[reps[k].start..reps[k].end] == t[r.start..r.end];
          }
        }
      }
    }
  }

  /** The replacements with each hash swapped back for the code the map holds for it. */
  function Restored(reps: seq<Replacement>, m: map<string, string>): (r: seq<Replacement>)
    ensures |r| == |reps|
    ensures forall k :: 0 <= k < |reps| ==> r[k].start == reps[k].start && r[k].end == reps[k].end
  {
    seq(|reps|, k requires 0 <= k < |reps| =>
      reps[k].(text := if reps[k].text in m then m[reps[k].text] else reps[k].text))
  }

  /**
   * The hide/restore round trip, on the structure of the hidden text:
   * putting back, at each hash, the code the map holds for that hash gives
   * the original text, provided distinct codes hash apart.
   */
  lemma RestoreRoundTrip(t: string, hash: string -> string)
    requires forall a, b :: hash(a) == hash(b) ==> a == b
    ensures var reps := Reps(t, hash);
      Splice(t, Restored(reps, CodeMapOf(t, reps)), 0) == t
  {
    var reps := Reps(t, hash);
    CodeMapFinds(t, reps, hash);
    SpliceIdentity(t, Restored(reps, CodeMapOf(t, reps)), 0);
  }

  // ---------------------------------------------------------------------
  // Restoring by string replacement
  // ---------------------------------------------------------------------

  /** `strings.ReplaceAll` with a non-empty pattern: leftmost occurrences, left to right, not overlapping. */
  function ReplaceAll(s: string, pat: string, sub: string): string
    requires |pat| > 0
    decreases |s|
  {
    if HasPrefix(s, pat) then sub + ReplaceAll(s[|pat|..], pat, sub)
    else if |s| == 0 then ""
    else [s[0]] + ReplaceAll(s[1..], pat, sub)
  }

  /** The restore loop, over the map's keys in the order the iteration visits them. */
  function RestoreAll(s: string, m: map<string, string>, order: seq<string>): string
    requires forall i :: 0 <= i < |order| ==> order[i] in m && |order[i]| > 0
    decreases |order|
  {
    if |order| == 0 then s else RestoreAll(ReplaceAll(s, order[0], m[order[0]]), m, order[1..])
  }

  /** No occurrence starts before `p`, so the first `p` runes are copied as they are. */
  lemma {:induction false} ReplaceSkip(s: string, pat: string, sub: string, p: nat)
    requires |pat| > 0 && p <= |s|
    requires forall i :: 0 <= i < p ==> !HasPrefix(s[i..], pat)
    ensures ReplaceAll(s, pat, sub) == s[..p] + ReplaceAll(s[p..], pat, sub)
    decreases p
  {
    if p > 0 {
      var r := s[1..];
      assert !HasPrefix(s[0..], pat);
      assert s[0..] == s;
      ReplaceStep(s, pat, sub);
      NoPrefixShift(s, pat, p);
      ReplaceSkip(r, pat, sub, p - 1);
      var tail := ReplaceAll(s[p..], pat, sub);
      assert r[p - 1..] == s[p..];
      assert ReplaceAll(s, pat, sub) == [s[0]] + (r[..p - 1] + tail);
      SkipPrefix(s, p, r, tail);
    }
  }

  /** With no occurrence before `p` in `s`, none starts before `p - 1` in `s[1..]`. */
  lemma NoPrefixShift(s: string, pat: string, p: nat)
    requires 0 < p <= |s|
    requires forall i :: 0 <= i < p ==> !HasPrefix(s[i..], pat)
    ensures forall i :: 0 <= i < p - 1 ==> !HasPrefix(s[1..][i..], pat)
  {
    forall i | 0 <= i < p - 1 ensures !HasPrefix(s[1..][i..], pat) {
      assert s[1..][i..] == s[i + 1..];
    }
  }

  /** The copied first rune and the copied rest make up the first `p` runes. */
  lemma SkipPrefix(s: string, p: nat, r: string, tail: string)
    requires 0 < p <= |s| && r == s[1..]
    ensures [s[0]] + (r[..p - 1] + tail) == s[..p] + tail
  {
    assert [s[0]] + r[..p - 1] == s[..p];
  }

  /** Where the pattern does not start, one rune is copied. */
  lemma ReplaceStep(s: string, pat: string, sub: string)
    requires |pat| > 0 && |s| > 0 && !HasPrefix(s, pat)
    ensures ReplaceAll(s, pat, sub) == [s[0]] + ReplaceAll(s[1..], pat, sub)
  {
  }

  /** Text in which the pattern never starts is left alone. */
  lemma ReplaceNone(s: string, pat: string, sub: string)
    requires |pat| > 0 && forall i :: 0 <= i < |s| ==> !HasPrefix(s[i..], pat)
    ensures ReplaceAll(s, pat, sub) == s
  {
    ReplaceSkip(s, pat, sub, |s|);
    assert s[|s|..] == "" && s[..|s|] == s;
  }

  /** A pattern that starts at exactly one position is replaced there and nowhere else. */
  lemma ReplaceOnce(s: string, pat: string, sub: string, p: nat)
    requires |pat| > 0 && p + |pat| <= |s| && s[p..p + |pat|] == pat
    requires forall i :: 0 <= i <= |s| && HasPrefix(s[i..], pat) ==> i == p
    ensures ReplaceAll(s, pat, sub) == s[..p] + sub + s[p + |pat|..]
  {
    ReplaceSkip(s, pat, sub, p);
    var mid := s[p..];
    assert mid[..|pat|] == pat;
    var rest := s[p + |pat|..];
    assert mid[|pat|..] == rest;
    forall i | 0 <= i < |rest| ensures !HasPrefix(rest[i..], pat) {
      assert rest[i..] == s[p + |pat| + i..];
    }
    ReplaceNone(rest, pat, sub);
  }

  /** One replacement undone by the restore loop gives the text back when its hash occurs only where it was put. */
  lemma OneSpanRestored(t: string, r: Replacement)
    requires ValidReps([r], 0, |t|) && |r.text| > 0
    requires forall i :: 0 <= i <= |Splice(t, [r], 0)| && HasPrefix(Splice(t, [r], 0)[i..], r.text) ==> i == r.start
    ensures RestoreAll(Splice(t, [r], 0), map[r.text := t[r.start..r.end]], [r.text]) == t
  {
    var out := Splice(t, [r], 0);
    assert [r][0] == r;
    var code := t[r.start..r.end];
    SpliceOne(t, r);
    assert out[r.start..r.start + |r.text|] == r.text;
    ReplaceOnce(out, r.text, code, r.start);
    PutBack(t, r, out, code);
    assert [r.text][1..] == [];
  }

  /** A single replacement: the text before it, its text, the text after it. */
  lemma SpliceOne(t: string, r: Replacement)
    requires r.start <= r.end <= |t| && ValidReps([r], 0, |t|)
    ensures Splice(t, [r], 0) == t[..r.start] + r.text + t[r.end..]
  {
    assert [r][1..] == [];
    assert Splice(t, [], r.end) == t[r.end..];
    assert t[0..r.start] == t[..r.start];
  }

  /** Putting the code back where the hash stands gives the original text. */
  lemma PutBack(t: string, r: Replacement, out: string, code: string)
    requires r.start <= r.end <= |t| && code == t[r.start..r.end]
    requires out == t[..r.start] + r.text + t[r.end..]
    ensures |out| == r.start + |r.text| + (|t| - r.end)
    ensures out[..r.start] + code + out[r.start + |r.text|..] == t
  {
    assert out[..r.start] == t[..r.start] && out[r.start + |r.text|..] == t[r.end..];
    assert t[..r.start] + code + t[r.end..] == t;
  }

  /**
   * With a single code span, the restore loop puts the code back and
   * returns the original text, provided the hash occurs in the hidden text
   * only where it was put.
   */
  lemma SingleSpanRoundTrip(t: string, hash: string -> string)
    requires |Reps(t, hash)| == 1 && '`' in t
    requires |Reps(t, hash)[0].text| > 0
    requires forall i :: 0 <= i <= |CodeBlocks(t, hash).0| && HasPrefix(CodeBlocks(t, hash).0[i..], Reps(t, hash)[0].text)
               ==> i == Reps(t, hash)[0].start
    ensures var (out, m) := CodeBlocks(t, hash);
      RestoreAll(out, m, [Reps(t, hash)[0].text]) == t
  {
    var reps := Reps(t, hash);
    var r := reps[0];
    assert reps == [r];
    assert CodeBlocks(t, hash).0 == Splice(t, [r], 0);
    assert CodeBlocks(t, hash).1 == map[r.text := t[r.start..r.end]] by {
      assert [r][..0] == [];
      assert CodeMapOf(t, []) == map[];
      assert CodeMapOf(t, [r]) == CodeMapOf(t, [])[r.text := t[r.start..r.end]];
    }
    OneSpanRestored(t, r);
  }

  // ---------------------------------------------------------------------
  // Colours
  // ---------------------------------------------------------------------

  const ReverseOn := CsiPrefix + "7m"
  const ReverseOff := CsiPrefix + "27m"
  const DefaultFg := CsiPrefix + "39m"

  /** `getColor`: a known colour wraps the text in its code and the default-colour reset; `bg` adds reverse video. */
  function GetColor(bg: string, rgb: string, txt: string): (r: string)
    ensures rgb !in Palette && bg == "" ==> r == txt
    ensures rgb in Palette && bg == "" ==> r == Sgr(Palette[rgb]) + txt + DefaultFg
    ensures rgb !in Palette && bg != "" ==> r == ReverseOn + txt + ReverseOff
    ensures rgb in Palette && bg != "" ==> r == ReverseOn + Sgr(Palette[rgb]) + txt + DefaultFg + ReverseOff
  {
    GetColorCodeMatchesPalette(rgb);
    var code := GetColorCode(rgb);
    var out := if code == "" then txt else code + txt + DefaultFg;
    if bg == "" then out else ReverseOn + out + ReverseOff
  }
}
