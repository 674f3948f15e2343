/**
 * The template parser: `ParseAST` groups the lines of a template into block
 * nodes and `ParseInline` splits a line into text, style and hole nodes.
 *
 * The parser's regular expressions are replaced by hand-written matchers
 * with the same semantics under the leftmost-first rules of RE2: `.` is
 * any rune but a newline, greedy repetitions back off one rune at a time,
 * and the lazy `.+?` takes the shortest non-empty stretch that lets the
 * rest of the pattern match.
 */
module Parser {
  import opened Wrappers
  import opened Text
  import opened Styles
  import opened Ast

  /** The parentheses around a colour token's text. */
  const OpenParen: char := '\U{28}'
  const CloseParen: char := '\U{29}'

  // ---------------------------------------------------------------------
  // Building blocks of the patterns
  // ---------------------------------------------------------------------

  /** `[ \t]` */
  predicate IsBlank(c: char) {
    c == ' ' || c == '\t'
  }

  /** `[a-zA-Z0-9]` */
  predicate IsAlnum(c: char) {
    ('a' <= c <= 'z') || ('A' <= c <= 'Z') || IsDigit(c)
  }

  predicate IsHash(c: char) {
    c == '#'
  }

  /** `.`: any rune but a newline. */
  predicate IsDot(c: char) {
    c != '\n'
  }

  /** The end of the longest run of runes satisfying `p` that starts at `i`. */
  function RunEnd(s: string, i: nat, p: char -> bool): (e: nat)
    requires i <= |s|
    ensures i <= e <= |s|
    ensures forall k :: i <= k < e ==> p(s[k])
    ensures e == |s| || !p(s[e])
    decreases |s| - i
  {
    if i < |s| && p(s[i]) then RunEnd(s, i + 1, p) else i
  }

  /** Where a greedy `.*` or `.+` starting at `i` stops: the next newline or the end. */
  function LineEnd(s: string, i: nat): (e: nat)
    requires i <= |s|
    ensures i <= e <= |s| && forall k :: i <= k < e ==> s[k] != '\n'
    ensures e == |s| || s[e] == '\n'
  {
    RunEnd(s, i, IsDot)
  }

  /**
   * `[ \t]{min,}(.+)` can start its capture at `j`: at least `min` blanks
   * run from `i` to `j`, and `.+` has a rune to take at `j`.
   */
  predicate CaptureAt(s: string, i: nat, min: nat, j: int) {
    i + min <= j < |s| && (forall k :: i <= k < j ==> IsBlank(s[k])) && IsDot(s[j])
  }

  /**
   * Where the capture of `[ \t]{min,}(.+)` begins when the pattern is tried
   * at `i` (`min` is 0 for `[ \t]*`, 1 for `[ \t]+`). The greedy blank run
   * backs off until `.+` can take a rune, so the capture begins at the
   * greatest admissible position; the capture itself is `s[j..LineEnd(s, j)]`.
   */
  function CaptureStart(s: string, i: nat, min: nat): (r: Option<nat>)
    requires i <= |s|
    ensures r.Some? ==> CaptureAt(s, i, min, r.value)
    ensures r.Some? ==> forall j :: CaptureAt(s, i, min, j) ==> j <= r.value
    ensures r.None? <==> forall j :: !CaptureAt(s, i, min, j)
  {
    var b := RunEnd(s, i, IsBlank);
    BlanksStopAt(s, i, min, b);
    if b < |s| && IsDot(s[b]) && i + min <= b then
      assert CaptureAt(s, i, min, b);
      Some(b)
    else if i + min < b then
      assert CaptureAt(s, i, min, b - 1);
      Some(b - 1)
    else
      None
  }

  /** No capture can begin beyond the first rune that is not a blank. */
  lemma BlanksStopAt(s: string, i: nat, min: nat, b: nat)
    requires i <= b <= |s| && (b == |s| || !IsBlank(s[b]))
    ensures forall j :: CaptureAt(s, i, min, j) ==> j <= b
  {
    if b < |s| {
      forall j | b < j < |s| ensures !CaptureAt(s, i, min, j) {
        assert i <= b < j && !IsBlank(s[b]);
      }
    }
  }

  /** The `(.+)` capture that begins at `j`. */
  function Capture(s: string, j: nat): (c: string)
    requires j < |s| && IsDot(s[j])
    ensures 1 <= |c| && '\n' !in c && j + |c| <= |s| && c == s[j..j + |c|]
    ensures j + |c| == |s| || s[j + |c|] == '\n'
  {
    s[j..LineEnd(s, j)]
  }

  // ---------------------------------------------------------------------
  // Block patterns
  // ---------------------------------------------------------------------

  /**
   * `^(\#{1,6})[ \t]+(.+)`: the level and the text of a header line. Fewer
   * `#` than the full run would leave a `#` where a blank is needed, so the
   * level is the whole leading run of `#`, which must be 1 to 6 long.
   */
  function HeaderOf(line: string): (r: Option<(nat, string)>)
    ensures r.Some? ==> var (level, text) := r.value;
      1 <= level <= 6 && level < |line| && (forall k :: 0 <= k < level ==> line[k] == '#')
      && IsBlank(line[level]) && 1 <= |text| && '\n' !in text
    ensures |line| > 0 && line[0] != '#' ==> r.None?
  {
    var h := RunEnd(line, 0, IsHash);
    if 1 <= h <= 6 then
      match CaptureStart(line, h, 1)
      case Some(j) => Some((h, Capture(line, j)))
      case None => None
    else None
  }

  /** `^(\*{3,}|-{3,}|_{3,})$`: three or more of one rule rune and nothing else. */
  predicate IsRule(t: string) {
    |t| >= 3 && (t[0] == '*' || t[0] == '-' || t[0] == '_')
    && forall k :: 0 <= k < |t| ==> t[k] == t[0]
  }

  /**
   * `^([ \t]*)([*+-]|\d+\.)[ \t]+(.+)`: the item text of a list line. The
   * leading blank run is taken whole (a blank cannot start a marker), and a
   * numbered marker is the whole run of digits followed by a dot.
   */
  function ListItemOf(line: string): (r: Option<string>)
    ensures r.Some? ==> 1 <= |r.value| && '\n' !in r.value
    ensures r.Some? ==> var i := RunEnd(line, 0, IsBlank);
      i < |line| && (line[i] == '*' || line[i] == '+' || line[i] == '-' || IsDigit(line[i]))
  {
    var i := RunEnd(line, 0, IsBlank);
    if i == |line| then None
    else
      var m :=
        if line[i] == '*' || line[i] == '+' || line[i] == '-' then i + 1
        else
          var d := RunEnd(line, i, IsDigit);
          if i < d < |line| && line[d] == '.' then d + 1 else 0;
      if m == 0 then None
      else match CaptureStart(line, m, 1)
        case Some(j) => Some(Capture(line, j))
        case None => None
  }

  /** `^>[ \t]*(.+)`: the text of a quote line. */
  function QuoteOf(line: string): (r: Option<string>)
    ensures r.Some? ==> |line| > 0 && line[0] == '>' && 1 <= |r.value| && '\n' !in r.value
  {
    if |line| > 0 && line[0] == '>' then
      match CaptureStart(line, 1, 0)
      case Some(j) => Some(Capture(line, j))
      case None => None
    else None
  }

  /** `j` is where RE2 begins the capture of `[ \t]{min,}(.+)` tried at `i`: the greatest admissible start. */
  ghost predicate GreatestCapture(s: string, i: nat, min: nat, j: int) {
    CaptureAt(s, i, min, j) && forall j' :: CaptureAt(s, i, min, j') ==> j' <= j
  }

  lemma CaptureStartIs(s: string, i: nat, min: nat, j: int)
    requires i <= |s| && GreatestCapture(s, i, min, j)
    ensures CaptureStart(s, i, min) == Some(j)
  {
    var r := CaptureStart(s, i, min);
    assert r.Some?;
    assert r.value <= j && j <= r.value;
  }

  /** A run of `p` from `i` that stops at `e` is the run `RunEnd` finds. */
  lemma {:induction false} RunEndIs(s: string, i: nat, p: char -> bool, e: nat)
    requires i <= e <= |s| && (forall k :: i <= k < e ==> p(s[k])) && (e == |s| || !p(s[e]))
    ensures RunEnd(s, i, p) == e
    decreases e - i
  {
    if i < e {
      RunEndIs(s, i + 1, p, e);
    }
  }

  /** The header pattern matches with `h` leading `#` and its capture beginning at `j`. */
  ghost predicate HeaderAt(line: string, h: nat, j: int) {
    1 <= h <= 6 && h <= |line| && (forall k :: 0 <= k < h ==> line[k] == '#')
    && GreatestCapture(line, h, 1, j)
  }

  /**
   * `HeaderOf` is the header pattern exactly: whenever the pattern matches,
   * the result is its level and its capture, and a result means it matched.
   */
  lemma HeaderOfMatches(line: string)
    ensures forall h: nat, j :: HeaderAt(line, h, j) ==> HeaderOf(line) == Some((h, Capture(line, j)))
    ensures HeaderOf(line).Some? ==> exists h: nat, j :: HeaderAt(line, h, j)
  {
    forall h: nat, j | HeaderAt(line, h, j) ensures HeaderOf(line) == Some((h, Capture(line, j))) {
      RunEndIs(line, 0, IsHash, h);
      CaptureStartIs(line, h, 1, j);
    }
    if HeaderOf(line).Some? {
      var h := RunEnd(line, 0, IsHash);
      assert HeaderAt(line, h, CaptureStart(line, h, 1).value);
    }
  }

  /** `[*+-]|\d+\.` from `i` to `m`: one marker rune, or digits and a dot. */
  predicate MarkerAt(line: string, i: nat, m: nat) {
    i < m <= |line|
    && ((m == i + 1 && (line[i] == '*' || line[i] == '+' || line[i] == '-'))
        || (i + 2 <= m && line[m - 1] == '.' && forall k :: i <= k < m - 1 ==> IsDigit(line[k])))
  }

  /** The list pattern matches with the marker from `i` to `m` and its capture beginning at `j`. */
  ghost predicate ListAt(line: string, i: nat, m: nat, j: int) {
    MarkerAt(line, i, m) && (forall k :: 0 <= k < i ==> IsBlank(line[k])) && GreatestCapture(line, m, 1, j)
  }

  /** `ListItemOf` is the list pattern exactly. */
  lemma ListItemOfMatches(line: string)
    ensures forall i: nat, m: nat, j :: ListAt(line, i, m, j) ==> ListItemOf(line) == Some(Capture(line, j))
    ensures ListItemOf(line).Some? ==> exists i: nat, m: nat, j :: ListAt(line, i, m, j)
  {
    forall i: nat, m: nat, j | ListAt(line, i, m, j) ensures ListItemOf(line) == Some(Capture(line, j)) {
      ListAtGives(line, i, m, j);
    }
    if ListItemOf(line).Some? {
      ListItemWitness(line);
    }
  }

  lemma ListAtGives(line: string, i: nat, m: nat, j: int)
    requires ListAt(line, i, m, j)
    ensures ListItemOf(line) == Some(Capture(line, j))
  {
    RunEndIs(line, 0, IsBlank, i);
    if !(line[i] == '*' || line[i] == '+' || line[i] == '-') {
      RunEndIs(line, i, IsDigit, m - 1);
    }
    CaptureStartIs(line, m, 1, j);
  }

  lemma ListItemWitness(line: string)
    requires ListItemOf(line).Some?
    ensures exists i: nat, m: nat, j :: ListAt(line, i, m, j)
  {
    var i := RunEnd(line, 0, IsBlank);
    var m := if line[i] == '*' || line[i] == '+' || line[i] == '-' then i + 1 else RunEnd(line, i, IsDigit) + 1;
    assert MarkerAt(line, i, m);
    assert ListAt(line, i, m, CaptureStart(line, m, 1).value);
  }

  /** The quote pattern matches with its capture beginning at `j`. */
  ghost predicate QuoteAt(line: string, j: int) {
    |line| > 0 && line[0] == '>' && GreatestCapture(line, 1, 0, j)
  }

  /** `QuoteOf` is the quote pattern exactly. */
  lemma QuoteOfMatches(line: string)
    ensures forall j :: QuoteAt(line, j) ==> QuoteOf(line) == Some(Capture(line, j))
    ensures QuoteOf(line).Some? ==> exists j :: QuoteAt(line, j)
  {
    forall j | QuoteAt(line, j) ensures QuoteOf(line) == Some(Capture(line, j)) {
      CaptureStartIs(line, 1, 0, j);
    }
    if QuoteOf(line).Some? {
      assert QuoteAt(line, CaptureStart(line, 1, 0).value);
    }
  }

  /** The fence pattern is applied to the trimmed line. */
  predicate IsFence(trimmed: string) {
    HasPrefix(trimmed, "```")
  }

  /** The language named after an opening fence, with white space trimmed. */
  function FenceLang(trimmed: string): string
    requires IsFence(trimmed)
  {
    TrimSpace(trimmed[3..LineEnd(trimmed, 3)])
  }

  /** A list line never reads as a fence: its trimmed form starts with the marker. */
  lemma ListLineNotFence(line: string)
    ensures ListItemOf(line).Some? ==> !IsFence(TrimSpace(line))
  {
    if ListItemOf(line).Some? {
      var m := RunEnd(line, 0, IsBlank);
      TrimStartsAt(line, m);
      NotFenceByHead(TrimSpace(line));
    }
  }

  /** Text whose first rune is not a backtick is not a fence. */
  lemma NotFenceByHead(t: string)
    requires |t| > 0 && t[0] != '`'
    ensures !IsFence(t)
  {
    assert |t| >= 3 ==> t[..3][0] == t[0];
  }

  /** After a run of white space, the trimmed text starts with the first other rune. */
  lemma TrimStartsAt(s: string, m: nat)
    requires m < |s| && !IsSpace(s[m])
    requires forall k :: 0 <= k < m ==> IsSpace(s[k])
    ensures |TrimSpace(s)| > 0 && TrimSpace(s)[0] == s[m]
  {
    TrimLeftSkips(s, m);
    TrimRightKeepsHead(s[m..]);
  }

  lemma {:induction false} TrimLeftSkips(s: string, m: nat)
    requires m <= |s| && (m == |s| || !IsSpace(s[m]))
    requires forall k :: 0 <= k < m ==> IsSpace(s[k])
    ensures TrimLeft(s) == s[m..]
    decreases m
  {
    if m > 0 {
      assert IsSpace(s[0]);
      TrimLeftSkips(s[1..], m - 1);
      assert s[1..][m - 1..] == s[m..];
    }
  }

  lemma {:induction false} TrimRightKeepsHead(s: string)
    requires |s| > 0 && !IsSpace(s[0])
    ensures |TrimRight(s)| > 0 && TrimRight(s)[0] == s[0]
    decreases |s|
  {
    if IsSpace(s[|s| - 1]) {
      TrimRightKeepsHead(s[..|s| - 1]);
    }
  }


  // ---------------------------------------------------------------------
  // Inline tokens
  // ---------------------------------------------------------------------

  /** The six alternatives of the inline pattern, in priority order. */
  datatype Alt = AHole | ABold | AItalic | AUnderline | AStrike | AColor

  /** A lazy `.+?` from `start` can stop at `k` with `close` following. */
  predicate Closes(t: string, start: nat, k: int, close: string) {
    start < k <= |t| && '\n' !in t[start..k] && HasPrefix(t[k..], close)
  }

  function FindCloseFrom(t: string, start: nat, k: nat, close: string): (r: Option<nat>)
    requires start < k <= |t| && '\n' !in t[start..k]
    requires forall m :: start < m < k ==> !Closes(t, start, m, close)
    ensures r.Some? ==> Closes(t, start, r.value, close)
    ensures r.Some? ==> forall m :: start < m < r.value ==> !Closes(t, start, m, close)
    ensures r.None? ==> forall m :: !Closes(t, start, m, close)
    decreases |t| - k
  {
    if HasPrefix(t[k..], close) then Some(k)
    else if k < |t| && t[k] != '\n' then
      assert t[start..k + 1] == t[start..k] + [t[k]];
      FindCloseFrom(t, start, k + 1, close)
    else
      forall m | k < m <= |t| ensures '\n' in t[start..m] {
        assert t[start..m][k - start] == t[k];
      }
      None
  }

  /**
   * `.+?` followed by `close`, tried at `start`: the least end of a
   * non-empty, newline-free stretch after which `close` follows.
   */
  function FindClose(t: string, start: nat, close: string): (r: Option<nat>)
    requires start <= |t|
    ensures r.Some? ==> Closes(t, start, r.value, close)
    ensures r.Some? ==> forall m :: start < m < r.value ==> !Closes(t, start, m, close)
    ensures r.None? <==> forall m :: !Closes(t, start, m, close)
  {
    if start < |t| && t[start] != '\n' then
      FindCloseFrom(t, start, start + 1, close)
    else
      forall m | start < m <= |t| ensures '\n' in t[start..m] {
        assert t[start..m][0] == t[start];
      }
      None
  }

  /** Where the colour name of a colour token starts: after `#`, or after `!#`. */
  function NameStart(s: string): nat {
    if |s| > 0 && s[0] == '!' then 2 else 1
  }

  /** `s` opens and closes with `delim`, with at least one rune between. */
  predicate Framed(s: string, delim: string) {
    |s| >= 2 * |delim| + 1 && s[..|delim|] == delim && s[|s| - |delim|..] == delim
  }

  /** The shape each alternative guarantees of the token it matches. */
  predicate WellFormed(alt: Alt, s: string) {
    match alt
    case AHole => s == "%v"
    case ABold => Framed(s, "**")
    case AItalic => Framed(s, "*")
    case AUnderline => Framed(s, "__")
    case AStrike => Framed(s, "~~")
    case AColor =>
      var o := IndexOf(s, OpenParen);
      |s| >= 2 && s[NameStart(s) - 1] == '#' && s[|s| - 1] == CloseParen
      && NameStart(s) + 3 <= o <= NameStart(s) + 8 && o <= |s| - 3
      && forall k :: NameStart(s) <= k < o ==> IsAlnum(s[k])
  }

  /** The first position holding `x` is `k` when `s[k] == x` and no earlier rune is `x`. */
  lemma IndexOfIs(s: string, x: char, k: nat)
    requires k < |s| && s[k] == x
    requires forall m :: 0 <= m < k ==> s[m] != x
    ensures IndexOf(s, x) == k
    decreases k
  {
    if k > 0 {
      assert s[0] != x;
      IndexOfIs(s[1..], x, k - 1);
    }
  }

  /** A delimited alternative `open .+? close` tried at `p`: the end of its match. */
  function Delimited(t: string, p: nat, delim: string): (e: Option<nat>)
    requires p <= |t| && |delim| >= 1
    ensures e.Some? ==> p + 2 * |delim| < e.value <= |t|
    ensures e.Some? ==> var q := e.value; Framed(t[p..q], delim)
  {
    if HasPrefix(t[p..], delim) then
      match FindClose(t, p + |delim|, delim)
      case Some(k) =>
        assert t[k..][..|delim|] == t[k..k + |delim|];
        assert t[p..k + |delim|][..|delim|] == t[p..][..|delim|];
        assert t[p..k + |delim|][k - p..] == t[k..k + |delim|];
        Some(k + |delim|)
      case None => None
    else None
  }

  /** `!?#[a-zA-Z0-9]{3,8}\(.+?\)` tried at `p`: the end of its match. */
  function ColorAt(t: string, p: nat): (e: Option<nat>)
    requires p <= |t|
    ensures e.Some? ==> var q := e.value; p < q <= |t| && WellFormed(AColor, t[p..q])
  {
    var q := if p < |t| && t[p] == '!' then p + 1 else p;
    if q < |t| && t[q] == '#' then
      var a := RunEnd(t, q + 1, IsAlnum);
      if 3 <= a - (q + 1) <= 8 && a < |t| && t[a] == OpenParen then
        match FindClose(t, a + 1, [CloseParen])
        case Some(k) =>
          ColorShape(t, p, q, a, k);
          Some(k + 1)
        case None => None
      else None
    else None
  }

  /** The stretch a colour match covers has the shape of a colour token. */
  lemma ColorShape(t: string, p: nat, q: nat, a: nat, k: nat)
    requires q == (if p < |t| && t[p] == '!' then p + 1 else p)
    requires q < |t| && t[q] == '#' && q + 4 <= a <= q + 9 && a < |t| && t[a] == OpenParen
    requires forall m :: q + 1 <= m < a ==> IsAlnum(t[m])
    requires Closes(t, a + 1, k, [CloseParen])
    ensures p < k + 1 <= |t| && WellFormed(AColor, t[p..k + 1])
  {
    var s := t[p..k + 1];
    assert t[k..][0] == CloseParen;
    forall m | 0 <= m < a - p ensures s[m] != OpenParen && (q + 1 - p <= m ==> IsAlnum(s[m])) {
      assert s[m] == t[p + m];
    }
    ColorTokenShape(s, q + 1 - p, a - p);
  }

  lemma ColorTokenShape(s: string, n: nat, o: nat)
    requires 1 <= n <= 2 && n + 3 <= o <= n + 8 && o <= |s| - 3
    requires s[n - 1] == '#' && (n == 2 <==> s[0] == '!') && s[|s| - 1] == CloseParen && s[o] == OpenParen
    requires forall m :: 0 <= m < o ==> s[m] != OpenParen && (n <= m ==> IsAlnum(s[m]))
    ensures WellFormed(AColor, s)
  {
    IndexOfIs(s, OpenParen, o);
    assert NameStart(s) == n;
  }

  /**
   * The inline pattern tried at `p`: the first alternative, in priority
   * order, that matches there, and the end of its match.
   */
  function MatchAt(t: string, p: nat): (r: Option<(Alt, nat)>)
    requires p <= |t|
    ensures r.Some? ==> var (alt, q) := r.value; p < q <= |t| && WellFormed(alt, t[p..q])
  {
    if HasPrefix(t[p..], "%v") then
      assert t[p..p + 2] == t[p..][..2];
      Some((AHole, p + 2))
    else if Delimited(t, p, "**").Some? then Some((ABold, Delimited(t, p, "**").value))
    else if Delimited(t, p, "*").Some? then Some((AItalic, Delimited(t, p, "*").value))
    else if Delimited(t, p, "__").Some? then Some((AUnderline, Delimited(t, p, "__").value))
    else if Delimited(t, p, "~~").Some? then Some((AStrike, Delimited(t, p, "~~").value))
    else match ColorAt(t, p)
      case Some(e) => Some((AColor, e))
      case None => None
  }

  /** The leftmost position at or after `from` where the inline pattern matches. */
  function NextMatch(t: string, from: nat): (r: Option<(nat, Alt, nat)>)
    requires from <= |t|
    ensures r.Some? ==> var (p, alt, e) := r.value;
      from <= p < e <= |t| && MatchAt(t, p) == Some((alt, e))
      && forall k :: from <= k < p ==> MatchAt(t, k).None?
    ensures r.None? ==> forall k :: from <= k < |t| ==> MatchAt(t, k).None?
    decreases |t| - from
  {
    if from == |t| then None
    else
      var m := MatchAt(t, from);
      if m.Some? then Some((from, m.value.0, m.value.1)) else NextMatch(t, from + 1)
  }

  /** A piece of a line: text between matches, or a matched token. */
  datatype Segment = PlainSeg(text: string) | TokenSeg(alt: Alt, text: string)

  function Concat(segs: seq<Segment>): string {
    if |segs| == 0 then "" else segs[0].text + Concat(segs[1..])
  }

  lemma ConcatAppend(a: seq<Segment>, b: seq<Segment>)
    ensures Concat(a + b) == Concat(a) + Concat(b)
  {
    if |a| > 0 {
      assert (a + b)[0] == a[0] && (a + b)[1..] == a[1..] + b;
      ConcatAppend(a[1..], b);
    } else {
      assert a + b == b;
    }
  }

  /**
   * `FindAllStringIndex` and the text between its matches: successive
   * non-overlapping leftmost matches, each search resuming where the last
   * match ended. The pieces spell the line back, every token has the shape
   * of its alternative, and no two text pieces are adjacent.
   */
  function Segments(t: string, from: nat): (segs: seq<Segment>)
    requires from <= |t|
    ensures Concat(segs) == t[from..]
    ensures forall i :: 0 <= i < |segs| ==> 1 <= |segs[i].text| <= |t| - from
    ensures forall i :: 0 <= i < |segs| && segs[i].TokenSeg? ==> WellFormed(segs[i].alt, segs[i].text)
    ensures forall i :: 0 <= i < |segs| - 1 ==> segs[i].TokenSeg? || segs[i + 1].TokenSeg?
    decreases |t| - from
  {
    var m := NextMatch(t, from);
    if m.None? then
      if from < |t| then [PlainSeg(t[from..])] else []
    else
      var (p, alt, e) := m.value;
      var lead := if p > from then [PlainSeg(t[from..p])] else [];
      var rest := Segments(t, e);
      SegmentsJoin(t, from, p, e, lead, TokenSeg(alt, t[p..e]), rest);
      lead + [TokenSeg(alt, t[p..e])] + rest
  }

  /** The pieces before a match, the match and the pieces after it keep the shape `Segments` promises. */
  lemma SegmentsJoin(t: string, from: nat, p: nat, e: nat, lead: seq<Segment>, tok: Segment, rest: seq<Segment>)
    requires from <= p < e <= |t|
    requires lead == if p > from then [PlainSeg(t[from..p])] else []
    requires tok.TokenSeg? && tok.text == t[p..e] && WellFormed(tok.alt, tok.text)
    requires Concat(rest) == t[e..]
    requires forall i :: 0 <= i < |rest| ==> 1 <= |rest[i].text| <= |t| - e
    requires forall i :: 0 <= i < |rest| && rest[i].TokenSeg? ==> WellFormed(rest[i].alt, rest[i].text)
    requires forall i :: 0 <= i < |rest| - 1 ==> rest[i].TokenSeg? || rest[i + 1].TokenSeg?
    ensures var segs := lead + [tok] + rest;
      Concat(segs) == t[from..]
      && (forall i :: 0 <= i < |segs| ==> 1 <= |segs[i].text| <= |t| - from)
      && (forall i :: 0 <= i < |segs| && segs[i].TokenSeg? ==> WellFormed(segs[i].alt, segs[i].text))
      && (forall i :: 0 <= i < |segs| - 1 ==> segs[i].TokenSeg? || segs[i + 1].TokenSeg?)
  {
    SegmentsJoinConcat(t, from, p, e, lead, tok, rest);
    var segs := lead + [tok] + rest;
    forall i | 0 <= i < |segs|
      ensures 1 <= |segs[i].text| <= |t| - from
      ensures segs[i].TokenSeg? ==> WellFormed(segs[i].alt, segs[i].text)
    {
      SegmentAt(lead, tok, rest, i);
    }
    forall i | 0 <= i < |segs| - 1 ensures segs[i].TokenSeg? || segs[i + 1].TokenSeg? {
      SegmentAt(lead, tok, rest, i);
      SegmentAt(lead, tok, rest, i + 1);
    }
  }

  lemma SegmentAt(lead: seq<Segment>, tok: Segment, rest: seq<Segment>, i: nat)
    requires |lead| <= 1 && i < |lead| + 1 + |rest|
    ensures (lead + [tok] + rest)[i] == if i < |lead| then lead[i] else if i == |lead| then tok else rest[i - |lead| - 1]
  {
  }

  lemma SegmentsJoinConcat(t: string, from: nat, p: nat, e: nat, lead: seq<Segment>, tok: Segment, rest: seq<Segment>)
    requires from <= p < e <= |t|
    requires lead == if p > from then [PlainSeg(t[from..p])] else []
    requires tok.text == t[p..e] && Concat(rest) == t[e..]
    ensures Concat(lead + [tok] + rest) == t[from..]
  {
    ConcatAppend(lead + [tok], rest);
    ConcatAppend(lead, [tok]);
    assert Concat([tok]) == tok.text;
    assert Concat(lead) == t[from..p];
    assert t[from..] == t[from..p] + t[p..e] + t[e..];
  }


  // ---------------------------------------------------------------------
  // Tokens to nodes
  // ---------------------------------------------------------------------

  const BoldStyle := Plain.(bold := true)
  const ItalicStyle := Plain.(italic := true)
  const UnderlineStyle := Plain.(underline := true)
  const StrikeStyle := Plain.(strike := true)

  /** What one matched token contributes to the node list. */
  datatype Dispatch =
    | DHole                                 // a hole leaf
    | DStyled(style: Style, inner: string)  // a style node over the parsed inner text
    | DText(text: string)                   // a text leaf holding the token itself
    | DDrop                                 // nothing
    | DPanic                                // a slice with bounds out of range

  /**
   * The colour branch: a leading `!` selects the background; the name runs
   * from after `#` to the first `(` and the content from there to the last `)`.
   */
  function ColorDispatch(tok: string): (d: Dispatch)
    ensures d.DStyled? ==> |d.inner| < |tok|
    ensures d.DPanic? ==> 2 <= |tok| && (tok[0] == OpenParen || tok[..2] == ['!', OpenParen])
  {
    var bg := HasPrefix(tok, "!");
    var open := IndexOf(tok, OpenParen);
    var close := LastIndexOf(tok, CloseParen);
    if open > -1 && close > open then
      var nameStart := if bg then 2 else 1;
      if open < nameStart then DPanic
      else
        var code := GetColorCode(tok[nameStart..open]);
        DStyled(if bg then Plain.(bgColor := code) else Plain.(color := code), tok[open + 1..close])
    else DText(tok)
  }

  /**
   * The token dispatch as the parser writes it: by the token's prefix, not
   * by the alternative that matched it. A token of the italic alternative
   * that starts with `**` takes the bold branch.
   */
  function DispatchAsWritten(tok: string): (d: Dispatch)
    ensures d.DHole? <==> tok == "%v"
    ensures d.DStyled? ==> |d.inner| < |tok|
    ensures d.DPanic? ==> |tok| < 4 || tok[0] == OpenParen || tok[..2] == ['!', OpenParen]
  {
    if tok == "%v" then DHole
    else if HasPrefix(tok, "**") then
      if |tok| < 4 then DPanic else DStyled(BoldStyle, tok[2..|tok| - 2])
    else if HasPrefix(tok, "*") then
      if |tok| < 2 then DPanic else DStyled(ItalicStyle, tok[1..|tok| - 1])
    else if HasPrefix(tok, "__") then
      if |tok| < 4 then DPanic else DStyled(UnderlineStyle, tok[2..|tok| - 2])
    else if HasPrefix(tok, "~~") then
      if |tok| < 4 then DPanic else DStyled(StrikeStyle, tok[2..|tok| - 2])
    else if Contains(tok, "#") then ColorDispatch(tok)
    else DDrop
  }

  /** A well-formed colour token yields its colour over the text between the brackets. */
  lemma ColorTokenStyled(tok: string)
    requires WellFormed(AColor, tok)
    ensures ColorDispatch(tok).DStyled?
    ensures ColorDispatch(tok).inner == tok[IndexOf(tok, OpenParen) + 1..|tok| - 1]
    ensures 1 <= |ColorDispatch(tok).inner|
  {
    assert HasPrefix(tok, "!") <==> tok[0] == '!';
  }

  /**
   * The dispatch by matched alternative: each alternative's delimiters are
   * stripped from its own token. Well-formed tokens are long enough for
   * every slice, so nothing panics, and the inner text is strictly shorter.
   */
  function DispatchByAlt(alt: Alt, tok: string): (d: Dispatch)
    requires WellFormed(alt, tok)
    ensures d.DHole? <==> alt == AHole
    ensures alt != AHole ==> d.DStyled? && 1 <= |d.inner| < |tok|
  {
    match alt
    case AHole => DHole
    case ABold => DStyled(BoldStyle, tok[2..|tok| - 2])
    case AItalic => DStyled(ItalicStyle, tok[1..|tok| - 1])
    case AUnderline => DStyled(UnderlineStyle, tok[2..|tok| - 2])
    case AStrike => DStyled(StrikeStyle, tok[2..|tok| - 2])
    case AColor => ColorTokenStyled(tok); ColorDispatch(tok)
  }

  /**
   * The two dispatches agree on every token the pattern can produce except
   * an italic token that starts with `**`, where the prefix test picks bold.
   */
  lemma DispatchAgrees(alt: Alt, tok: string)
    requires WellFormed(alt, tok)
    ensures DispatchAsWritten(tok) == DispatchByAlt(alt, tok) <==> !(alt == AItalic && HasPrefix(tok, "**"))
  {
    assert |tok| >= 2 ==> tok[..2][0] == tok[0] && tok[..2][1] == tok[1];
    match alt
    case AHole =>
    case ABold =>
    case AItalic =>
      assert tok[..1] == "*";
      assert BoldStyle != ItalicStyle;
    case AUnderline =>
    case AStrike =>
    case AColor => ColorAgrees(tok);
  }

  lemma ColorAgrees(tok: string)
    requires WellFormed(AColor, tok)
    ensures DispatchAsWritten(tok) == ColorDispatch(tok)
  {
    assert tok != "%v";
    assert tok[0] == '#' || tok[0] == '!';
    assert !HasPrefix(tok, "*") && !HasPrefix(tok, "**") && !HasPrefix(tok, "__") && !HasPrefix(tok, "~~") by {
      assert |tok| >= 2 ==> tok[..2][0] == tok[0];
      assert tok[..1][0] == tok[0];
    }
    assert tok[NameStart(tok) - 1] in tok;
    ContainsRune(tok, '#');
  }

  /**
   * The line "a *** b": the italic alternative matches "***", the prefix
   * dispatch takes it for bold and slices it from 2 to 1, which panics;
   * dispatched by its alternative it is italic text "*".
   */
  lemma TripleStarPanics()
    ensures Segments("a *** b", 0) == [PlainSeg("a "), TokenSeg(AItalic, "***"), PlainSeg(" b")]
    ensures DispatchAsWritten("***") == DPanic
    ensures DispatchByAlt(AItalic, "***") == DStyled(ItalicStyle, "*")
  {
    TripleStarSegments();
    assert "***"[..2] == "**";
  }

  lemma TripleStarSegments()
    ensures Segments("a *** b", 0) == [PlainSeg("a "), TokenSeg(AItalic, "***"), PlainSeg(" b")]
  {
    var t := "a *** b";
    TripleStarNext();
    assert Segments(t, 5) == [PlainSeg(" b")];
    assert t[0..2] == "a " && t[2..5] == "***";
  }

  lemma TripleStarNext()
    ensures NextMatch("a *** b", 0) == Some((2, AItalic, 5))
    ensures NextMatch("a *** b", 5).None?
  {
    var t := "a *** b";
    assert t[0] == 'a' && t[1] == ' ' && t[5] == ' ' && t[6] == 'b';
    NoMatchAtPlain(t, 0);
    NoMatchAtPlain(t, 1);
    TripleStarMatch();
    NoMatchAtPlain(t, 5);
    NoMatchAtPlain(t, 6);
  }

  lemma TripleStarMatch()
    ensures MatchAt("a *** b", 2) == Some((AItalic, 5))
  {
    var t := "a *** b";
    assert t[2] == '*' && t[3] == '*' && t[4] == '*' && t[5] == ' ' && t[6] == 'b';
    PrefixHead(t[2..], "%v");
    PrefixHead(t[5..], "**");
    PrefixHead(t[6..], "**");
    assert t[4..][..2] == [t[4], t[5]];
    assert forall m :: !Closes(t, 4, m, "**");
    assert FindClose(t, 4, "**").None?;
    assert t[3..4] == [t[3]] && t[4..][..1] == [t[4]];
    assert Closes(t, 3, 4, "*");
    assert FindClose(t, 3, "*") == Some(4);
  }

  /** The pattern cannot match at a rune that starts none of its alternatives. */
  lemma NoMatchAtPlain(t: string, p: nat)
    requires p < |t| && !(t[p] in "%*_~!#")
    ensures MatchAt(t, p).None?
  {
    PrefixHead(t[p..], "%v");
    PrefixHead(t[p..], "**");
    PrefixHead(t[p..], "*");
    PrefixHead(t[p..], "__");
    PrefixHead(t[p..], "~~");
    assert Delimited(t, p, "**").None? && Delimited(t, p, "*").None?;
    assert Delimited(t, p, "__").None? && Delimited(t, p, "~~").None?;
    assert ColorAt(t, p).None?;
  }

  lemma PrefixHead(s: string, x: string)
    requires |x| > 0
    ensures HasPrefix(s, x) ==> |s| > 0 && s[0] == x[0]
  {
    if HasPrefix(s, x) {
      assert s[..|x|][0] == s[0];
    }
  }

  /** `parseInline`: one node per piece of the line, tokens dispatched by alternative. */
  function ParseInline(t: string): (nodes: seq<Node>)
    ensures |nodes| == |Segments(t, 0)|
    decreases |t|, 1
  {
    var segs := Segments(t, 0);
    seq(|segs|, i requires 0 <= i < |segs| => SegmentNode(segs[i]))
  }

  function SegmentNode(sg: Segment): (n: Node)
    requires sg.TokenSeg? ==> WellFormed(sg.alt, sg.text)
    ensures sg.PlainSeg? ==> n == TextNode(sg.text)
    ensures sg.TokenSeg? ==> (n.typ == NodeHole <==> sg.alt == AHole) && (n.typ == NodeStyle <==> sg.alt != AHole)
    decreases |sg.text|, 0
  {
    match sg
    case PlainSeg(x) => TextNode(x)
    case TokenSeg(alt, x) =>
      var d := DispatchByAlt(alt, x);
      if d.DHole? then HoleNode()
      else NewNode(NodeStyle).(style := d.style, children := ParseInline(d.inner))
  }

  /**
   * `parseInline` as written: each token is dispatched by its prefix. `None`
   * stands for the panic of an out-of-range slice, which ends the whole parse.
   */
  function ParseInlineAsWritten(t: string): (r: Option<seq<Node>>)
    ensures r.Some? ==> |r.value| <= |Segments(t, 0)|
    decreases |t|, 2, 0
  {
    NodesAsWritten(t, Segments(t, 0))
  }

  /** The pieces in order: their nodes concatenated, or the first panic. */
  function NodesAsWritten(t: string, segs: seq<Segment>): (r: Option<seq<Node>>)
    requires forall i :: 0 <= i < |segs| ==> |segs[i].text| <= |t|
    ensures r.Some? ==> |r.value| <= |segs|
    decreases |t|, 1, |segs|
  {
    if segs == [] then Some([])
    else
      var head := SegmentAsWritten(segs[0]);
      var tail := NodesAsWritten(t, segs[1..]);
      assert forall i :: 1 <= i < |segs| ==> segs[i] == segs[1..][i - 1];
      if head.Some? && tail.Some? then Some(head.value + tail.value) else None
  }

  /** What one piece appends: a text, a hole, a style node, nothing, or a panic. */
  function SegmentAsWritten(sg: Segment): (r: Option<seq<Node>>)
    ensures r.Some? ==> |r.value| <= 1
    ensures sg.PlainSeg? ==> r == Some([TextNode(sg.text)])
    decreases |sg.text|, 0, 0
  {
    match sg
    case PlainSeg(x) => Some([TextNode(x)])
    case TokenSeg(_, x) =>
      match DispatchAsWritten(x)
      case DHole => Some([HoleNode()])
      case DStyled(style, inner) =>
        (match ParseInlineAsWritten(inner)
         case Some(kids) => Some([NewNode(NodeStyle).(style := style, children := kids)])
         case None => None)
      case DText(y) => Some([TextNode(y)])
      case DDrop => Some([])
      case DPanic => None
  }

  /**
   * No token of the line, at any depth, is an italic token that starts with
   * `**`: the only tokens the two dispatches treat differently.
   */
  predicate PrefixSafe(t: string)
    decreases |t|, 1
  {
    var segs := Segments(t, 0);
    forall i :: 0 <= i < |segs| ==> SegmentSafe(segs[i])
  }

  predicate SegmentSafe(sg: Segment)
    requires sg.TokenSeg? ==> WellFormed(sg.alt, sg.text)
    decreases |sg.text|, 0
  {
    sg.TokenSeg? ==>
      !(sg.alt == AItalic && HasPrefix(sg.text, "**"))
      && (sg.alt != AHole ==> PrefixSafe(DispatchByAlt(sg.alt, sg.text).inner))
  }

  /** The node of each piece, by alternative. */
  function SegmentNodes(segs: seq<Segment>): (ns: seq<Node>)
    requires forall i :: 0 <= i < |segs| && segs[i].TokenSeg? ==> WellFormed(segs[i].alt, segs[i].text)
    ensures |ns| == |segs|
  {
    seq(|segs|, i requires 0 <= i < |segs| => SegmentNode(segs[i]))
  }

  /**
   * The parse as written succeeds with exactly the nodes of the dispatch by
   * alternative if and only if no italic token starting with `**` occurs.
   */
  lemma {:induction false} InlineAgrees(t: string)
    ensures ParseInlineAsWritten(t) == Some(ParseInline(t)) <==> PrefixSafe(t)
    decreases |t|, 2, 0
  {
    var segs := Segments(t, 0);
    NodesAgree(t, segs);
    assert ParseInline(t) == SegmentNodes(segs);
  }

  lemma {:induction false} NodesAgree(t: string, segs: seq<Segment>)
    requires forall i :: 0 <= i < |segs| ==> |segs[i].text| <= |t|
    requires forall i :: 0 <= i < |segs| && segs[i].TokenSeg? ==> WellFormed(segs[i].alt, segs[i].text)
    ensures NodesAsWritten(t, segs) == Some(SegmentNodes(segs)) <==> forall i :: 0 <= i < |segs| ==> SegmentSafe(segs[i])
    decreases |t|, 1, |segs|
  {
    if segs != [] {
      var rest := segs[1..];
      assert forall i :: 1 <= i < |segs| ==> segs[i] == rest[i - 1];
      SegmentAgrees(segs[0]);
      NodesAgree(t, rest);
      SegmentNodesCons(segs);
      ConsMatch(SegmentAsWritten(segs[0]), NodesAsWritten(t, rest), SegmentNodes(segs));
      SafeCons(segs);
    }
  }

  lemma SegmentNodesCons(segs: seq<Segment>)
    requires |segs| > 0
    requires forall i :: 0 <= i < |segs| && segs[i].TokenSeg? ==> WellFormed(segs[i].alt, segs[i].text)
    ensures SegmentNodes(segs)[0] == SegmentNode(segs[0])
    ensures SegmentNodes(segs)[1..] == SegmentNodes(segs[1..])
  {
    assert forall i :: 1 <= i < |segs| ==> segs[i] == segs[1..][i - 1];
  }

  lemma SafeCons(segs: seq<Segment>)
    requires |segs| > 0
    requires forall i :: 0 <= i < |segs| && segs[i].TokenSeg? ==> WellFormed(segs[i].alt, segs[i].text)
    ensures (forall i :: 0 <= i < |segs| ==> SegmentSafe(segs[i]))
            <==> SegmentSafe(segs[0]) && forall i :: 0 <= i < |segs| - 1 ==> SegmentSafe(segs[1..][i])
  {
    assert forall i :: 1 <= i < |segs| ==> segs[i] == segs[1..][i - 1];
  }

  /** A head of at most one node and a shorter tail spell `want` only piecewise. */
  lemma ConsMatch(head: Option<seq<Node>>, tail: Option<seq<Node>>, want: seq<Node>)
    requires |want| > 0
    requires head.Some? ==> |head.value| <= 1
    requires tail.Some? ==> |tail.value| <= |want| - 1
    ensures (if head.Some? && tail.Some? then Some(head.value + tail.value) else None) == Some(want)
      <==> head == Some([want[0]]) && tail == Some(want[1..])
  {
    if head.Some? && tail.Some? && head.value + tail.value == want {
      assert |head.value| == 1;
      assert head.value == [want[0]];
      assert tail.value == want[1..];
    }
  }

  lemma {:induction false} SegmentAgrees(sg: Segment)
    requires sg.TokenSeg? ==> WellFormed(sg.alt, sg.text)
    ensures SegmentAsWritten(sg) == Some([SegmentNode(sg)]) <==> SegmentSafe(sg)
    decreases |sg.text|, 0, 0
  {
    if sg.TokenSeg? {
      var x := sg.text;
      DispatchAgrees(sg.alt, x);
      if sg.alt == AItalic && HasPrefix(x, "**") {
        assert BoldStyle != ItalicStyle;
      } else if sg.alt != AHole {
        var d := DispatchByAlt(sg.alt, x);
        InlineAgrees(d.inner);
      }
    }
  }

  /**
   * "**ab*": the italic alternative matches the whole line. The prefix
   * dispatch reads it as bold over "a"; by its alternative it is italic over
   * "*ab", which holds no token.
   */
  lemma DoubleStarItalic()
    ensures Segments("**ab*", 0) == [TokenSeg(AItalic, "**ab*")]
    ensures ParseInlineAsWritten("**ab*") == Some([NewNode(NodeStyle).(style := BoldStyle, children := [TextNode("a")])])
    ensures ParseInline("**ab*") == [NewNode(NodeStyle).(style := ItalicStyle, children := [TextNode("*ab")])]
  {
    var t := "**ab*";
    DoubleStarSegments();
    DoubleStarAsWritten();
    assert DispatchByAlt(AItalic, t) == DStyled(ItalicStyle, "*ab") by {
      assert t[1..|t| - 1] == "*ab";
    }
    StarAbPlain();
  }

  lemma DoubleStarAsWritten()
    requires Segments("**ab*", 0) == [TokenSeg(AItalic, "**ab*")]
    ensures ParseInlineAsWritten("**ab*") == Some([NewNode(NodeStyle).(style := BoldStyle, children := [TextNode("a")])])
  {
    var t := "**ab*";
    assert DispatchAsWritten(t) == DStyled(BoldStyle, "a") by {
      assert t[..2] == "**" && t[2..|t| - 2] == "a";
    }
    OneRuneAsWritten();
    var n := NewNode(NodeStyle).(style := BoldStyle, children := [TextNode("a")]);
    assert SegmentAsWritten(TokenSeg(AItalic, t)) == Some([n]);
    NodesSingle(t, TokenSeg(AItalic, t));
  }

  /** A line of one piece parses to what that piece appends. */
  lemma NodesSingle(t: string, sg: Segment)
    requires |sg.text| <= |t| && SegmentAsWritten(sg).Some?
    ensures NodesAsWritten(t, [sg]) == SegmentAsWritten(sg)
  {
    assert [sg][1..] == [];
    assert NodesAsWritten(t, []) == Some([]);
    assert SegmentAsWritten(sg).value + [] == SegmentAsWritten(sg).value;
  }

  lemma OneRuneAsWritten()
    ensures ParseInlineAsWritten("a") == Some([TextNode("a")])
  {
    NoMatchAtPlain("a", 0);
    assert NextMatch("a", 1).None?;
    assert "a"[0..] == "a";
    assert Segments("a", 0) == [PlainSeg("a")];
    NodesSingle("a", PlainSeg("a"));
  }

  lemma DoubleStarSegments()
    ensures Segments("**ab*", 0) == [TokenSeg(AItalic, "**ab*")]
  {
    var t := "**ab*";
    DoubleStarMatch();
    assert NextMatch(t, 0) == Some((0, AItalic, 5));
    assert Segments(t, 5) == [];
    assert t[0..5] == t;
  }

  lemma DoubleStarMatch()
    ensures MatchAt("**ab*", 0) == Some((AItalic, 5))
  {
    var t := "**ab*";
    assert t[0] == '*' && t[1] == '*' && t[2] == 'a' && t[3] == 'b' && t[4] == '*';
    PrefixHead(t[0..], "%v");
    forall m ensures !Closes(t, 2, m, "**") {
      if 2 < m <= |t| {
        PrefixHead(t[m..], "**");
        if m == 4 {
          assert t[4..] == "*";
        }
      }
    }
    assert FindClose(t, 2, "**").None?;
    assert t[0..][..2] == "**" && t[0..][..1] == "*";
    assert Delimited(t, 0, "**").None?;
    assert Closes(t, 1, 4, "*") by {
      assert t[1..4] == "*ab" && t[4..][..1] == "*";
    }
    forall m | 1 < m < 4 ensures !Closes(t, 1, m, "*") {
      PrefixHead(t[m..], "*");
    }
    assert FindClose(t, 1, "*") == Some(4);
  }

  /** "*ab" holds no token: its star is never closed. */
  lemma StarAbPlain()
    ensures ParseInline("*ab") == [TextNode("*ab")]
  {
    var t := "*ab";
    assert t[0] == '*' && t[1] == 'a' && t[2] == 'b';
    PrefixHead(t[0..], "%v");
    PrefixHead(t[0..], "**");
    PrefixHead(t[0..], "__");
    PrefixHead(t[0..], "~~");
    forall m ensures !Closes(t, 1, m, "*") {
      if 1 < m <= |t| {
        PrefixHead(t[m..], "*");
      }
    }
    assert Delimited(t, 0, "*").None?;
    assert ColorAt(t, 0).None?;
    assert MatchAt(t, 0).None?;
    NoMatchAtPlain(t, 1);
    NoMatchAtPlain(t, 2);
    assert NextMatch(t, 0).None?;
    assert t[0..] == t;
  }

  /** "a *** b" as written: the italic token "***" makes the parse panic. */
  lemma TripleStarInline()
    ensures ParseInlineAsWritten("a *** b").None?
  {
    TripleStarSegments();
    assert DispatchAsWritten("***") == DPanic by {
      assert "***"[..2] == "**";
    }
    assert SegmentAsWritten(TokenSeg(AItalic, "***")).None?;
    assert Segments("a *** b", 0)[1] == TokenSeg(AItalic, "***");
  }

  // ---------------------------------------------------------------------
  // Lines to blocks
  // ---------------------------------------------------------------------

  /** The types a child of the root can have. */
  predicate IsBlockType(t: NodeType) {
    t in {NodeText, NodeBlock, NodeHeader, NodeList, NodeCodeBlock, NodeHR, NodeQuote}
  }

  /**
   * The loop state of `ParseAST`: the root's children so far, the open list
   * (the index of a List child, standing for the `currentList` pointer), and
   * the code block being collected.
   */
  datatype ParseState = ParseState(
    children: seq<Node>, list: Option<nat>, inCode: bool, lang: string, code: string)

  predicate Consistent(st: ParseState) {
    (st.list.Some? ==> st.list.value < |st.children| && st.children[st.list.value].typ == NodeList)
    && (!st.inCode ==> st.lang == "" && st.code == "")
    && forall i :: 0 <= i < |st.children| ==> IsBlockType(st.children[i].typ)
  }

  const Start := ParseState([], None, false, "", "")

  /** Headers are bold; level 1 is also reversed and level 2 underlined. */
  function HeaderStyle(level: nat): (st: Style)
    ensures st.bold && (st.reverse <==> level == 1) && (st.underline <==> level == 2)
    ensures st.(reverse := false, underline := false) == BoldStyle
  {
    if level == 1 then BoldStyle.(reverse := true)
    else if level == 2 then BoldStyle.(underline := true)
    else BoldStyle
  }

  /** Steps 3 to 6 of the loop: a line that is neither code nor a list item. */
  function LineNode(line: string, trimmed: string): (n: Node)
    ensures IsBlockType(n.typ) && n.typ != NodeList && n.typ != NodeCodeBlock
  {
    match HeaderOf(line)
    case Some((level, text)) =>
      NewNode(NodeHeader).(style := HeaderStyle(level), children := ParseInline(text))
    case None =>
      if IsRule(trimmed) then NewNode(NodeHR)
      else match QuoteOf(line)
        case Some(text) => NewNode(NodeQuote).(children := ParseInline(text))
        case None =>
          if trimmed == "" then NewNode(NodeText)
          else NewNode(NodeBlock).(children := ParseInline(line))
  }

  function ListItemNode(text: string): Node {
    NewNode(NodeListItem).(children := ParseInline(text))
  }

  /**
   * What the loop reads off one line before looking at its state: whether
   * the trimmed line is a fence (and the language it names), the list item
   * it makes, the block it makes otherwise, and whether it is blank.
   */
  datatype LineInfo = LineInfo(
    text: string, fence: bool, lang: string, item: Option<Node>, block: Node, blank: bool)

  function Classify(line: string): (info: LineInfo)
    ensures info.text == line
    ensures info.fence <==> IsFence(TrimSpace(line))
    ensures info.fence ==> info.lang == FenceLang(TrimSpace(line))
    ensures info.blank <==> TrimSpace(line) == ""
    ensures info.item.Some? <==> ListItemOf(line).Some?
    ensures info.item.Some? ==> info.item.value == ListItemNode(ListItemOf(line).value)
    ensures info.item.Some? ==> !info.fence && !info.blank
    ensures IsBlockType(info.block.typ) && info.block.typ != NodeList
  {
    var trimmed := TrimSpace(line);
    var item := match ListItemOf(line)
      case Some(text) => Some(ListItemNode(text))
      case None => None;
    MarkedLineNotBlank(line);
    ListLineNotFence(line);
    LineInfo(line, IsFence(trimmed), if IsFence(trimmed) then FenceLang(trimmed) else "",
             item, LineNode(line, trimmed), trimmed == "")
  }

  /**
   * One iteration of the loop. It appends at most one child; the only
   * earlier child it may change is the open list, which gains an item.
   */
  function Step(st: ParseState, info: LineInfo): (r: ParseState)
    requires Consistent(st) && IsBlockType(info.block.typ)
    ensures Consistent(r)
    ensures |st.children| <= |r.children| <= |st.children| + 1
    ensures forall i :: 0 <= i < |st.children| && st.list != Some(i) ==> r.children[i] == st.children[i]
  {
    if info.fence then
      if st.inCode then
        var block := NewNode(NodeCodeBlock).(content := st.code, lang := st.lang);
        Append(st.(inCode := false, lang := "", code := ""), block, st.list)
      else st.(inCode := true, lang := info.lang)
    else if st.inCode then st.(code := st.code + info.text + "\n")
    else if info.item.Some? then AddItem(st, info.item.value)
    else Append(st, info.block, if info.blank then st.list else None)
  }

  /** `root.AddChild(n)`, and the open list becomes `list`. */
  function Append(st: ParseState, n: Node, list: Option<nat>): (r: ParseState)
    requires Consistent(st) && IsBlockType(n.typ)
    requires list == None || list == st.list
    ensures Consistent(r)
    ensures r.children == st.children + [n] && r.list == list
  {
    st.(children := st.children + [n], list := list)
  }

  /** `currentList.AddChild(item)`, opening a new list first when none is open. */
  function AddItem(st: ParseState, item: Node): (r: ParseState)
    requires Consistent(st)
    ensures Consistent(r) && r.list.Some?
    ensures |st.children| <= |r.children| <= |st.children| + 1
    ensures forall i :: 0 <= i < |st.children| && st.list != Some(i) ==> r.children[i] == st.children[i]
  {
    if st.list.Some? then
      var k := st.list.value;
      st.(children := st.children[k := AddChild(st.children[k], item)])
    else
      Append(st, NewNode(NodeList).(children := [item]), None).(list := Some(|st.children|))
  }

  /** The loop over the remaining lines. */
  function Run(st: ParseState, infos: seq<LineInfo>): (r: ParseState)
    requires Consistent(st) && AllBlocks(infos)
    ensures Consistent(r)
    ensures |st.children| <= |r.children| <= |st.children| + |infos|
    decreases |infos|
  {
    if |infos| == 0 then st else Run(Step(st, infos[0]), infos[1..])
  }

  predicate AllBlocks(infos: seq<LineInfo>) {
    forall i :: 0 <= i < |infos| ==> IsBlockType(infos[i].block.typ)
  }

  /** The code lines of the loop, one record per line. */
  function Texts(infos: seq<LineInfo>): (lines: seq<string>)
    ensures |lines| == |infos| && forall i :: 0 <= i < |infos| ==> lines[i] == infos[i].text
  {
    seq(|infos|, i requires 0 <= i < |infos| => infos[i].text)
  }

  /** Applies `f` to each element. */
  function Map<A, B>(f: A -> B, xs: seq<A>): (ys: seq<B>)
    ensures |ys| == |xs| && forall i :: 0 <= i < |xs| ==> ys[i] == f(xs[i])
  {
    seq(|xs|, i requires 0 <= i < |xs| => f(xs[i]))
  }

  lemma MapAppend<A, B>(f: A -> B, a: seq<A>, b: seq<A>)
    ensures Map(f, a + b) == Map(f, a) + Map(f, b)
  {
    var l := Map(f, a + b);
    var r := Map(f, a) + Map(f, b);
    forall i | 0 <= i < |a + b| ensures l[i] == r[i] {
      if i < |a| { assert (a + b)[i] == a[i]; } else { assert (a + b)[i] == b[i - |a|]; }
    }
  }

  function ClassifyAll(lines: seq<string>): (infos: seq<LineInfo>)
    ensures |infos| == |lines| && forall i :: 0 <= i < |lines| ==> infos[i] == Classify(lines[i])
    ensures AllBlocks(infos) && Texts(infos) == lines
  {
    Map(Classify, lines)
  }

  lemma ClassifyAllAppend(a: seq<string>, b: seq<string>)
    ensures ClassifyAll(a + b) == ClassifyAll(a) + ClassifyAll(b)
  {
    MapAppend(Classify, a, b);
  }

  lemma NoNewlines(open: string, body: seq<string>, close: string)
    requires '\n' !in open && '\n' !in close
    requires forall i :: 0 <= i < |body| ==> '\n' !in body[i]
    ensures forall i :: 0 <= i < |[open] + body + [close]| ==> '\n' !in ([open] + body + [close])[i]
  {
    var lines := [open] + body + [close];
    forall i | 0 <= i < |lines| ensures '\n' !in lines[i] {
      if 0 < i <= |body| { assert lines[i] == body[i - 1]; }
    }
  }

  /**
   * `ParseAST`: a root whose children are the blocks of the lines. A code
   * block still open at the end is dropped.
   */
  function ParseAST(input: string): (root: Node)
    ensures root == NewNode(NodeRoot).(children := root.children)
    ensures |root.children| <= |Split(input, '\n')|
    ensures forall i :: 0 <= i < |root.children| ==> IsBlockType(root.children[i].typ)
  {
    NewNode(NodeRoot).(children := Run(Start, ClassifyAll(Split(input, '\n'))).children)
  }

  // ---------------------------------------------------------------------
  // Properties of the block loop
  // ---------------------------------------------------------------------

  /** Running two batches of lines is running their concatenation. */
  lemma {:induction false} RunAppend(st: ParseState, a: seq<LineInfo>, b: seq<LineInfo>)
    requires Consistent(st) && AllBlocks(a) && AllBlocks(b)
    ensures Run(st, a + b) == Run(Run(st, a), b)
    decreases |a|
  {
    if |a| > 0 {
      assert (a + b)[0] == a[0] && (a + b)[1..] == a[1..] + b;
      RunAppend(Step(st, a[0]), a[1..], b);
    } else {
      assert a + b == b;
    }
  }

  /** The text a code block collects: each line followed by a newline. */
  function CodeText(body: seq<string>): string {
    if |body| == 0 then "" else body[0] + "\n" + CodeText(body[1..])
  }

  /** Inside a code block, lines that are not fences only accumulate. */
  lemma {:induction false} CodeLines(st: ParseState, infos: seq<LineInfo>)
    requires Consistent(st) && st.inCode && AllBlocks(infos)
    requires forall i :: 0 <= i < |infos| ==> !infos[i].fence
    ensures Run(st, infos) == st.(code := st.code + CodeText(Texts(infos)))
    decreases |infos|
  {
    if |infos| > 0 {
      var s1 := st.(code := st.code + infos[0].text + "\n");
      assert Step(st, infos[0]) == s1;
      CodeLines(s1, infos[1..]);
      assert Texts(infos)[1..] == Texts(infos[1..]);
      assert s1.code + CodeText(Texts(infos[1..])) == st.code + CodeText(Texts(infos));
    }
  }

  /**
   * A fenced block: an opening fence, lines that are not fences, and a
   * closing fence give one CodeBlock child holding the lines verbatim, each
   * followed by a newline, and the language named on the opening fence.
   * The open list, if any, stays open.
   */
  lemma FencedBlock(st: ParseState, open: LineInfo, body: seq<LineInfo>, close: LineInfo)
    requires Consistent(st) && !st.inCode
    requires open.fence && close.fence && IsBlockType(open.block.typ) && IsBlockType(close.block.typ)
    requires AllBlocks(body) && forall i :: 0 <= i < |body| ==> !body[i].fence
    ensures AllBlocks([open] + body + [close])
    ensures Run(st, [open] + body + [close])
         == st.(children := st.children + [NewNode(NodeCodeBlock).(content := CodeText(Texts(body)), lang := open.lang)])
  {
    var s1 := st.(inCode := true, lang := open.lang);
    AllBlocksAppend([open], body);
    AllBlocksAppend([open] + body, [close]);
    RunAppend(st, [open] + body, [close]);
    RunAppend(st, [open], body);
    RunOne(st, open);
    assert Step(st, open) == s1;
    CodeLines(s1, body);
    var s2 := s1.(code := s1.code + CodeText(Texts(body)));
    assert Run(st, [open] + body) == s2;
    RunOne(s2, close);
    assert s2.code == CodeText(Texts(body)) && s2.lang == open.lang;
    StepClose(s2, close);
  }

  /** A fence inside a code block closes it: the collected code becomes a CodeBlock child. */
  lemma StepClose(st: ParseState, info: LineInfo)
    requires Consistent(st) && st.inCode && info.fence && IsBlockType(info.block.typ)
    ensures Step(st, info) == st.(children := st.children + [NewNode(NodeCodeBlock).(content := st.code, lang := st.lang)],
                                  inCode := false, lang := "", code := "")
  {
  }

  lemma AllBlocksAppend(a: seq<LineInfo>, b: seq<LineInfo>)
    requires AllBlocks(a) && AllBlocks(b)
    ensures AllBlocks(a + b)
  {
    assert forall i :: 0 <= i < |a + b| ==> (a + b)[i] == if i < |a| then a[i] else b[i - |a|];
  }

  lemma RunOne(st: ParseState, info: LineInfo)
    requires Consistent(st) && IsBlockType(info.block.typ)
    ensures AllBlocks([info]) && Run(st, [info]) == Step(st, info)
  {
    assert [info][1..] == [];
  }

  /** A fence that is never closed swallows the rest of the input: no child is added. */
  lemma UnterminatedFence(st: ParseState, open: LineInfo, body: seq<LineInfo>)
    requires Consistent(st) && !st.inCode
    requires open.fence && IsBlockType(open.block.typ)
    requires AllBlocks(body) && forall i :: 0 <= i < |body| ==> !body[i].fence
    ensures AllBlocks([open] + body)
    ensures Run(st, [open] + body).children == st.children
    ensures Run(st, [open] + body).inCode
  {
    var s1 := st.(inCode := true, lang := open.lang);
    AllBlocksAppend([open], body);
    RunAppend(st, [open], body);
    RunOne(st, open);
    CodeLines(s1, body);
  }

  /**
   * The parse of a document that is one fenced block: a root with a single
   * CodeBlock child whose content is the inner lines, each followed by a
   * newline, and whose language is the one named on the opening fence.
   */
  lemma FencedDocument(open: string, body: seq<string>, close: string)
    requires IsFence(TrimSpace(open)) && IsFence(TrimSpace(close)) && '\n' !in open && '\n' !in close
    requires forall i :: 0 <= i < |body| ==> !IsFence(TrimSpace(body[i])) && '\n' !in body[i]
    ensures ParseAST(Join([open] + body + [close], '\n')).children
         == [NewNode(NodeCodeBlock).(content := CodeText(body), lang := FenceLang(TrimSpace(open)))]
  {
    var lines := [open] + body + [close];
    var input := Join(lines, '\n');
    NoNewlines(open, body, close);
    SplitJoin(lines, '\n');
    ParseLines(input, lines);
    FencedRun(open, body, close);
    assert ParseAST(input).children == Run(Start, ClassifyAll(lines)).children;
  }

  /** `ParseAST` runs the loop over the lines of its input. */
  lemma ParseLines(input: string, lines: seq<string>)
    requires Split(input, '\n') == lines
    ensures ParseAST(input).children == Run(Start, ClassifyAll(lines)).children
  {
  }

  lemma FencedRun(open: string, body: seq<string>, close: string)
    requires IsFence(TrimSpace(open)) && IsFence(TrimSpace(close))
    requires forall i :: 0 <= i < |body| ==> !IsFence(TrimSpace(body[i]))
    ensures Run(Start, ClassifyAll([open] + body + [close])).children
         == [NewNode(NodeCodeBlock).(content := CodeText(body), lang := FenceLang(TrimSpace(open)))]
  {
    var o, b, c := Classify(open), ClassifyAll(body), Classify(close);
    ClassifyAll3(open, body, close);
    FenceInfo(open);
    FenceInfo(close);
    BodyInfos(body);
    FencedBlock(Start, o, b, c);
    assert Texts(b) == body && o.lang == FenceLang(TrimSpace(open));
  }

  lemma ClassifyAll3(open: string, body: seq<string>, close: string)
    ensures ClassifyAll([open] + body + [close]) == [Classify(open)] + ClassifyAll(body) + [Classify(close)]
  {
    Map3(Classify, open, body, close);
  }

  lemma Map3<A, B>(f: A -> B, a: A, xs: seq<A>, b: A)
    ensures Map(f, [a] + xs + [b]) == [f(a)] + Map(f, xs) + [f(b)]
  {
    MapAppend(f, [a] + xs, [b]);
    MapAppend(f, [a], xs);
    assert Map(f, [a]) == [f(a)] && Map(f, [b]) == [f(b)];
  }

  lemma FenceInfo(line: string)
    requires IsFence(TrimSpace(line))
    ensures Classify(line).fence && Classify(line).lang == FenceLang(TrimSpace(line))
    ensures IsBlockType(Classify(line).block.typ)
  {
  }

  lemma BodyInfos(body: seq<string>)
    requires forall i :: 0 <= i < |body| ==> !IsFence(TrimSpace(body[i]))
    ensures AllBlocks(ClassifyAll(body)) && Texts(ClassifyAll(body)) == body
    ensures forall i :: 0 <= i < |body| ==> !ClassifyAll(body)[i].fence
  {
  }

  /** The collected code splits back into the body lines, plus the empty text after the last newline. */
  lemma {:induction false} CodeTextSplit(body: seq<string>)
    requires forall i :: 0 <= i < |body| ==> '\n' !in body[i]
    ensures Split(CodeText(body), '\n') == body + [""]
    decreases |body|
  {
    if |body| > 0 {
      CodeTextSplit(body[1..]);
      SplitPrefix(body[0], CodeText(body[1..]), '\n');
      assert body[0] + "\n" + CodeText(body[1..]) == body[0] + ['\n'] + CodeText(body[1..]);
      assert body == [body[0]] + body[1..];
    }
  }

  /** The list items the given lines make, in order. */
  function Items(lines: seq<string>): (items: seq<Node>)
    requires forall i :: 0 <= i < |lines| ==> ListItemOf(lines[i]).Some?
    ensures |items| == |lines|
  {
    seq(|lines|, i requires 0 <= i < |lines| => ListItemNode(ListItemOf(lines[i]).value))
  }

  /** The items of list lines, in order. */
  function ItemsOf(infos: seq<LineInfo>): (items: seq<Node>)
    requires forall i :: 0 <= i < |infos| ==> infos[i].item.Some?
    ensures |items| == |infos|
  {
    seq(|infos|, i requires 0 <= i < |infos| => infos[i].item.value)
  }

  /** List lines while a list is open all join that list, wherever it sits among the children. */
  lemma {:induction false} ListExtends(st: ParseState, infos: seq<LineInfo>)
    requires Consistent(st) && !st.inCode && st.list.Some? && AllBlocks(infos)
    requires forall i :: 0 <= i < |infos| ==> infos[i].item.Some? && !infos[i].fence
    ensures var k := st.list.value;
      Run(st, infos)
      == st.(children := st.children[k := st.children[k].(children := st.children[k].children + ItemsOf(infos))])
    decreases |infos|
  {
    var k := st.list.value;
    if |infos| == 0 {
      assert st.children[k].(children := st.children[k].children + ItemsOf(infos)) == st.children[k];
    } else {
      var item := infos[0].item.value;
      var s1 := Step(st, infos[0]);
      assert s1 == st.(children := st.children[k := AddChild(st.children[k], item)]);
      assert Run(st, infos) == Run(s1, infos[1..]);
      ListExtends(s1, infos[1..]);
      assert ItemsOf(infos) == [item] + ItemsOf(infos[1..]);
      assert s1.children[k].children + ItemsOf(infos[1..])
          == st.children[k].children + ItemsOf(infos);
      assert s1.children[k := s1.children[k].(children := s1.children[k].children + ItemsOf(infos[1..]))]
          == st.children[k := st.children[k].(children := st.children[k].children + ItemsOf(infos))];
    }
  }

  /**
   * Consecutive list lines with no list open make exactly one new List
   * child holding one item per line, which stays open.
   */
  lemma ListGroups(st: ParseState, infos: seq<LineInfo>)
    requires Consistent(st) && !st.inCode && st.list.None? && AllBlocks(infos)
    requires |infos| > 0 && forall i :: 0 <= i < |infos| ==> infos[i].item.Some? && !infos[i].fence
    ensures Run(st, infos).children == st.children + [NewNode(NodeList).(children := ItemsOf(infos))]
    ensures Run(st, infos).list == Some(|st.children|)
  {
    var s1 := Step(st, infos[0]);
    assert s1.children == st.children + [NewNode(NodeList).(children := [infos[0].item.value])];
    ListExtends(s1, infos[1..]);
    assert ItemsOf(infos) == [infos[0].item.value] + ItemsOf(infos[1..]);
  }

  lemma ListInfos(lines: seq<string>)
    requires forall i :: 0 <= i < |lines| ==> ListItemOf(lines[i]).Some?
    ensures AllBlocks(ClassifyAll(lines))
    ensures forall i :: 0 <= i < |lines| ==> ClassifyAll(lines)[i].item.Some? && !ClassifyAll(lines)[i].fence
    ensures ItemsOf(ClassifyAll(lines)) == Items(lines)
  {
  }

  /** A document of list lines parses to one List whose items are the lines' item texts, in order. */
  lemma ListDocument(lines: seq<string>)
    requires |lines| > 0
    requires forall i :: 0 <= i < |lines| ==> ListItemOf(lines[i]).Some? && '\n' !in lines[i]
    ensures ParseAST(Join(lines, '\n')).children == [NewNode(NodeList).(children := Items(lines))]
  {
    SplitJoin(lines, '\n');
    ParseLines(Join(lines, '\n'), lines);
    ListInfos(lines);
    ListGroups(Start, ClassifyAll(lines));
  }

  /** Lines that read as headers, quotes or list items are never blank once trimmed. */
  lemma MarkedLineNotBlank(line: string)
    ensures HeaderOf(line).Some? || QuoteOf(line).Some? || ListItemOf(line).Some?
            ==> |TrimSpace(line)| > 0
  {
    if HeaderOf(line).Some? || QuoteOf(line).Some? {
      TrimStartsAt(line, 0);
    }
    if ListItemOf(line).Some? {
      TrimStartsAt(line, RunEnd(line, 0, IsBlank));
    }
  }

  /** A blank line outside code adds an empty Text child and leaves the open list open. */
  lemma BlankLine(st: ParseState, line: string)
    requires Consistent(st) && !st.inCode && AllSpace(line)
    ensures Step(st, Classify(line)) == st.(children := st.children + [NewNode(NodeText)])
  {
    TrimSpaceAllSpace(line);
    MarkedLineNotBlank(line);
  }

  /**
   * A header line outside code and lists adds a Header child styled for
   * its level over the inline nodes of its text, and closes the open list.
   */
  lemma HeaderLine(st: ParseState, line: string, level: nat, text: string)
    requires Consistent(st) && !st.inCode && ListItemOf(line).None?
    requires HeaderOf(line) == Some((level, text))
    ensures Step(st, Classify(line)).children
         == st.children + [NewNode(NodeHeader).(style := HeaderStyle(level), children := ParseInline(text))]
    ensures Step(st, Classify(line)).list.None?
  {
    HeaderInfo(line, level, text);
  }

  /** How a header line is classified: a header block, neither fence, blank nor list item. */
  lemma HeaderInfo(line: string, level: nat, text: string)
    requires ListItemOf(line).None? && HeaderOf(line) == Some((level, text))
    ensures !Classify(line).fence && !Classify(line).blank && Classify(line).item.None?
    ensures Classify(line).block == NewNode(NodeHeader).(style := HeaderStyle(level), children := ParseInline(text))
  {
    TrimStartsAt(line, 0);
    NotFenceByHead(TrimSpace(line));
  }

  /** Text with no rune that can open a token is one Text node (none when empty). */
  lemma PlainInline(t: string)
    requires forall k :: 0 <= k < |t| ==> !(t[k] in "%*_~!#")
    ensures ParseInline(t) == if t == "" then [] else [TextNode(t)]
  {
    forall k | 0 <= k < |t| ensures MatchAt(t, k).None? {
      NoMatchAtPlain(t, k);
    }
    assert NextMatch(t, 0).None?;
  }

  /**
   * The value "!%v": plain "!" and then a hole. The inline parser leaves
   * the hole unnumbered (-1); only `Template` numbers holes.
   */
  lemma BangHoleInline()
    ensures ParseInline("!%v") == [TextNode("!"), HoleNode()]
  {
    var t := "!%v";
    BangHoleNext();
    assert Segments(t, 3) == [];
    assert t[0..1] == "!" && t[1..3] == "%v";
    assert Segments(t, 0) == [PlainSeg("!"), TokenSeg(AHole, "%v")];
  }

  lemma BangHoleNext()
    ensures NextMatch("!%v", 0) == Some((1, AHole, 3))
  {
    var t := "!%v";
    assert t[0] == '!' && t[1] == '%' && t[2] == 'v';
    PrefixHead(t[0..], "%v");
    PrefixHead(t[0..], "**");
    PrefixHead(t[0..], "*");
    PrefixHead(t[0..], "__");
    PrefixHead(t[0..], "~~");
    assert ColorAt(t, 0).None?;
    assert MatchAt(t, 0).None?;
    assert t[1..][..2] == "%v";
    assert MatchAt(t, 1) == Some((AHole, 3));
  }

  /** The line "!%v" is an ordinary paragraph line. */
  lemma BangHoleClassify()
    ensures Classify("!%v") == LineInfo("!%v", false, "", None, NewNode(NodeBlock).(children := ParseInline("!%v")), false)
  {
    var line := "!%v";
    assert line[0] == '!';
    assert RunEnd(line, 0, IsBlank) == 0;
    assert ListItemOf(line).None?;
    assert HeaderOf(line).None? && QuoteOf(line).None?;
    TrimStartsAt(line, 0);
    PrefixHead(TrimSpace(line), "```");
    assert !IsRule(TrimSpace(line)) && TrimSpace(line) != "";
  }

  /** The document "!%v" is one Block holding "!" and an unnumbered hole. */
  lemma BangHoleDocument()
    ensures ParseAST("!%v").children == [NewNode(NodeBlock).(children := [TextNode("!"), HoleNode()])]
  {
    var line := "!%v";
    SplitNoSep(line, '\n');
    ParseLines(line, [line]);
    BangHoleClassify();
    BangHoleInline();
    SingleLine(line);
  }

  /** A one-line document that is neither a fence nor a list item is the block of that line. */
  lemma SingleLine(line: string)
    requires !Classify(line).fence && Classify(line).item.None?
    ensures Run(Start, ClassifyAll([line])).children == [Classify(line).block]
  {
    var info := Classify(line);
    assert ClassifyAll([line]) == [info];
    RunOne(Start, info);
    assert Step(Start, info).children == [info.block];
  }
}
