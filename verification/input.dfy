/**
 * The raw-input decoder of the terminal layer. The byte channel and its
 * timeouts are replaced by a finite byte sequence: "no further byte within the
 * timeout" reads as "the input ends here".
 */
module Input {
  import opened Wrappers
  import opened Keys
  import opened Text

  type byte = x: int | 0 <= x < 256

  const ESC: byte := 0x1B
  const DEL: byte := 0x7F
  /** `[`, the byte after ESC that opens a CSI sequence. */
  const LBRACKET: byte := 0x5B

  function B(c: char): byte
    requires c as int < 256
  {
    c as int
  }

  /** `processChar`: one byte other than ESC as a key event, without UTF-8 decoding. */
  function ProcessChar(b: byte): (ev: KeyEvent)
    ensures b == 0x0D ==> ev == Special(KeyEnter)
    ensures b == 0x09 ==> ev == Special(KeyTab)
    ensures b == 0x08 || b == DEL ==> ev == Special(KeyBackspace)
    ensures b == 0x03 ==> ev == KeyEvent(KeyChar, 'c' as int, ModCtrl)
    ensures b <= 0x1F && b !in {0x0D, 0x09, 0x08} ==> ev == KeyEvent(KeyChar, b + 0x60, ModCtrl)
    ensures 0x20 <= b && b != DEL ==> ev == KeyEvent(KeyChar, b, ModNone)
  {
    if b <= 0x1F then
      if b == 0x0D then Special(KeyEnter)
      else if b == 0x09 then Special(KeyTab)
      else if b == 0x08 then Special(KeyBackspace)
      else if b == 0x03 then KeyEvent(KeyChar, 'c' as int, ModCtrl)
      else KeyEvent(KeyChar, b + 0x60, ModCtrl)
    else if b == DEL then Special(KeyBackspace)
    else KeyEvent(KeyChar, b, ModNone)
  }

  /** A CSI final byte, in 0x40..0x7E. */
  predicate IsFinal(b: byte) {
    0x40 <= b <= 0x7E
  }

  /** The selector the encoder sends before `~` for a key, if it sends one. */
  function TildeSelector(k: Key): Option<seq<byte>> {
    match k
    case KeyInsert => Some([B('2')])
    case KeyDelete => Some([B('3')])
    case KeyPgUp => Some([B('5')])
    case KeyPgDown => Some([B('6')])
    case KeyF5 => Some([B('1'), B('5')])
    case KeyF6 => Some([B('1'), B('7')])
    case KeyF7 => Some([B('1'), B('8')])
    case KeyF8 => Some([B('1'), B('9')])
    case KeyF9 => Some([B('2'), B('0')])
    case KeyF10 => Some([B('2'), B('1')])
    case KeyF11 => Some([B('2'), B('3')])
    case KeyF12 => Some([B('2'), B('4')])
    case _ => None
  }

  /** The number of `~`-key selector: the decimal text before the first `;`. */
  function TildeKey(sel: seq<byte>): (r: Option<Key>)
    ensures r.Some? ==> 1 <= |sel| <= 2 && forall k :: 0 <= k < |sel| ==> B('0') <= sel[k] <= B('9')
    ensures r.Some? ==> r.value in {KeyHome, KeyInsert, KeyDelete, KeyEnd, KeyPgUp, KeyPgDown,
                                    KeyF5, KeyF6, KeyF7, KeyF8, KeyF9, KeyF10, KeyF11, KeyF12}
    ensures r == Some(KeyHome) <==> sel == [B('1')]
    ensures r == Some(KeyEnd) <==> sel == [B('4')]
    ensures r.Some? && r.value !in {KeyHome, KeyEnd} ==> TildeSelector(r.value) == Some(sel)
  {
    if |sel| == 1 then
      assert sel == [sel[0]];
      OneDigitKey(sel[0])
    else if |sel| == 2 && sel[0] == B('1') then
      assert sel == [sel[0], sel[1]];
      TeenKey(sel[1])
    else if |sel| == 2 && sel[0] == B('2') then
      assert sel == [sel[0], sel[1]];
      TwentiesKey(sel[1])
    else None
  }

  /** The one-digit selectors "1" to "6". */
  function OneDigitKey(d: byte): Option<Key> {
    if d == B('1') then Some(KeyHome)
    else if d == B('2') then Some(KeyInsert)
    else if d == B('3') then Some(KeyDelete)
    else if d == B('4') then Some(KeyEnd)
    else if d == B('5') then Some(KeyPgUp)
    else if d == B('6') then Some(KeyPgDown)
    else None
  }

  /** The selectors "15" and "17" to "19". */
  function TeenKey(d: byte): Option<Key> {
    if d == B('5') then Some(KeyF5)
    else if d == B('7') then Some(KeyF6)
    else if d == B('8') then Some(KeyF7)
    else if d == B('9') then Some(KeyF8)
    else None
  }

  /** The selectors "20", "21", "23" and "24". */
  function TwentiesKey(d: byte): Option<Key> {
    if d == B('0') then Some(KeyF9)
    else if d == B('1') then Some(KeyF10)
    else if d == B('3') then Some(KeyF11)
    else if d == B('4') then Some(KeyF12)
    else None
  }

  /** The selector of a `~` sequence: the parameters up to the first `;`. */
  function Selector(params: seq<byte>): (sel: seq<byte>)
    ensures B(';') !in sel
    ensures |sel| <= |params| && params[..|sel|] == sel
    ensures |sel| < |params| ==> params[|sel|] == B(';')
  {
    var i := IndexOf(params, B(';'));
    if i >= 0 then params[..i] else params
  }

  /** `dispatchCSI`: the event a complete CSI sequence stands for, if any. */
  function DispatchCSI(params: seq<byte>, final: byte): (r: Option<KeyEvent>)
    ensures r.Some? ==> r.value.rune == 0 && r.value.mod == ModNone
    ensures final != B('~') ==> (r.Some? <==> final in {B('A'), B('B'), B('C'), B('D'), B('H'), B('F')})
    ensures final == B('~') ==> (r.Some? <==> TildeKey(Selector(params)).Some?)
    ensures final == B('~') && r.Some? ==> r.value.key == TildeKey(Selector(params)).value
    ensures final != B('~') && r.Some? ==> Encode(r.value) == Some([ESC, LBRACKET, final])
  {
    assert [ESC, LBRACKET] + [] + [final] == [ESC, LBRACKET, final];
    if final == B('A') then Some(Special(KeyArrowUp))
    else if final == B('B') then Some(Special(KeyArrowDown))
    else if final == B('C') then Some(Special(KeyArrowRight))
    else if final == B('D') then Some(Special(KeyArrowLeft))
    else if final == B('H') then Some(Special(KeyHome))
    else if final == B('F') then Some(Special(KeyEnd))
    else if final == B('~') then
      match TildeKey(Selector(params))
      case Some(k) => Some(Special(k))
      case None => None
    else None
  }

  /** Distinct selectors name distinct keys. */
  lemma TildeKeyInjective(a: seq<byte>, b: seq<byte>)
    requires TildeKey(a).Some? && TildeKey(a) == TildeKey(b)
    ensures a == b
  {
  }

  /** `parseSS3`: the event of ESC `O` followed by `b`, if any. */
  function SS3(b: byte): (r: Option<KeyEvent>)
    ensures r.Some? <==> b in {B('A'), B('B'), B('C'), B('D'), B('P'), B('Q'), B('R'), B('S'), B('H'), B('F')}
    ensures r.Some? ==> r.value.rune == 0 && r.value.mod == ModNone
    ensures b !in {B('P'), B('Q'), B('R'), B('S')} ==> r == DispatchCSI([], b)
    ensures b in {B('P'), B('Q'), B('R'), B('S')} ==> r.Some? && Encode(r.value) == Some([ESC, B('O'), b])
  {
    if b == B('A') then Some(Special(KeyArrowUp))
    else if b == B('B') then Some(Special(KeyArrowDown))
    else if b == B('C') then Some(Special(KeyArrowRight))
    else if b == B('D') then Some(Special(KeyArrowLeft))
    else if b == B('P') then Some(Special(KeyF1))
    else if b == B('Q') then Some(Special(KeyF2))
    else if b == B('R') then Some(Special(KeyF3))
    else if b == B('S') then Some(Special(KeyF4))
    else if b == B('H') then Some(Special(KeyHome))
    else if b == B('F') then Some(Special(KeyEnd))
    else None
  }

  /** Distinct SS3 bytes name distinct keys. */
  lemma SS3Injective(a: byte, b: byte)
    requires SS3(a).Some? && SS3(a) == SS3(b)
    ensures a == b
  {
  }

  function Emit(e: Option<KeyEvent>): seq<KeyEvent> {
    match e
    case Some(ev) => [ev]
    case None => []
  }

  /** Position of the first CSI final byte, if any. */
  function FinalIndex(s: seq<byte>): (r: Option<nat>)
    ensures r.None? ==> forall i :: 0 <= i < |s| ==> !IsFinal(s[i])
    ensures r.Some? ==> r.value < |s| && IsFinal(s[r.value])
                        && forall i :: 0 <= i < r.value ==> !IsFinal(s[i])
  {
    if |s| == 0 then None
    else if IsFinal(s[0]) then Some(0)
    else
      match FinalIndex(s[1..])
      case Some(i) => Some(i + 1)
      case None => None
  }

  /**
   * The input loop: ESC starts an escape sequence, every other byte goes
   * through `ProcessChar`. A sequence cut short by the end of input emits
   * nothing, except a lone ESC, which is the Escape key.
   */
  function Decode(s: seq<byte>): (r: seq<KeyEvent>)
    ensures |r| <= |s|
    ensures ESC !in s ==> |r| == |s| && forall i :: 0 <= i < |s| ==> r[i] == ProcessChar(s[i])
    decreases |s|
  {
    if |s| == 0 then []
    else if s[0] != ESC then [ProcessChar(s[0])] + Decode(s[1..])
    else if |s| == 1 then [Special(KeyEsc)]
    else if s[1] == LBRACKET then
      var body := s[2..];
      match FinalIndex(body)
      case None => []
      case Some(i) => Emit(DispatchCSI(body[..i], body[i])) + Decode(body[i + 1..])
    else if s[1] == B('O') then
      if |s| == 2 then [] else Emit(SS3(s[2])) + Decode(s[3..])
    else [KeyEvent(KeyChar, s[1], ModAlt)] + Decode(s[2..])
  }

  /** Ctrl+C needs no case of its own: byte 0x03 follows the general Ctrl rule. */
  lemma CtrlCIsGeneralCtrlRule()
    ensures ProcessChar(0x03) == KeyEvent(KeyChar, 0x03 + 0x60, ModCtrl)
  {
  }

  /** Two bytes decode to the same event only when they are BS and DEL. */
  lemma ProcessCharInjective(a: byte, b: byte)
    requires a != b && ProcessChar(a) == ProcessChar(b)
    ensures {a, b} == {0x08, DEL}
  {
  }

  lemma FinalIndexAfter(p: seq<byte>, f: byte, rest: seq<byte>)
    requires forall i :: 0 <= i < |p| ==> !IsFinal(p[i])
    requires IsFinal(f)
    ensures FinalIndex(p + [f] + rest) == Some(|p|)
  {
    var t := p + [f] + rest;
    assert t[|p|] == f;
    assert forall i :: 0 <= i < |p| ==> t[i] == p[i];
  }

  /** ESC `[` params final: the parameters are every byte before the first final byte. */
  lemma DecodeCSI(p: seq<byte>, f: byte, rest: seq<byte>)
    requires forall i :: 0 <= i < |p| ==> !IsFinal(p[i])
    requires IsFinal(f)
    ensures Decode([ESC, LBRACKET] + p + [f] + rest) == Emit(DispatchCSI(p, f)) + Decode(rest)
  {
    var s := [ESC, LBRACKET] + p + [f] + rest;
    var body := s[2..];
    assert body == p + [f] + rest;
    FinalIndexAfter(p, f, rest);
    assert body[..|p|] == p;
    assert body[|p| + 1..] == rest;
  }

  /** A CSI sequence cut short by the end of input emits nothing. */
  lemma DecodeCSIUnterminated(t: seq<byte>)
    requires forall i :: 0 <= i < |t| ==> !IsFinal(t[i])
    ensures Decode([ESC, LBRACKET] + t) == []
  {
    assert ([ESC, LBRACKET] + t)[2..] == t;
  }

  /** ESC then a byte that opens no sequence: Alt plus that byte. */
  lemma DecodeAlt(b: byte, rest: seq<byte>)
    requires b != LBRACKET && b != B('O')
    ensures Decode([ESC, b] + rest) == [KeyEvent(KeyChar, b, ModAlt)] + Decode(rest)
  {
    assert ([ESC, b] + rest)[2..] == rest;
  }

  /** For `~` sequences only the selector before the first `;` counts; modifiers are dropped. */
  lemma TildeIgnoresModifiers(sel: seq<byte>, mods: seq<byte>)
    requires B(';') !in sel
    ensures DispatchCSI(sel + [B(';')] + mods, B('~')) == DispatchCSI(sel, B('~'))
  {
    var p := sel + [B(';')] + mods;
    assert p[|sel|] == B(';');
    assert p[..|sel|] == sel;
    assert IndexOf(p, B(';')) == |sel|;
    assert IndexOf(sel, B(';')) == -1;
  }

  /** A selector names a key exactly when the encoder sends that selector for it (Home and End aside). */
  lemma TildeKeyEncodes(sel: seq<byte>, k: Key)
    requires k !in {KeyHome, KeyEnd}
    ensures TildeKey(sel) == Some(k) <==> Encode(Special(k)) == Some([ESC, LBRACKET] + sel + [B('~')])
  {
    var e := [ESC, LBRACKET] + sel + [B('~')];
    if Encode(Special(k)) == Some(e) {
      var p := Encode(Special(k)).value;
      assert p[2..|p| - 1] == sel;
    }
  }

  /** A cursor final names a key exactly when the encoder sends `ESC [` and that final for it. */
  lemma CsiFinalEncodes(params: seq<byte>, final: byte, k: Key)
    requires final != B('~')
    ensures DispatchCSI(params, final) == Some(Special(k)) <==> Encode(Special(k)) == Some([ESC, LBRACKET, final])
  {
    if Encode(Special(k)) == Some([ESC, LBRACKET, final]) {
      var e := Encode(Special(k)).value;
      assert |e| == 3 && e[1] == LBRACKET && e[2] == final;
      match k
      case KeyArrowUp => assert e == [ESC, LBRACKET] + [] + [B('A')];
      case KeyArrowDown => assert e == [ESC, LBRACKET] + [] + [B('B')];
      case KeyArrowRight => assert e == [ESC, LBRACKET] + [] + [B('C')];
      case KeyArrowLeft => assert e == [ESC, LBRACKET] + [] + [B('D')];
      case KeyHome => assert e == [ESC, LBRACKET] + [] + [B('H')];
      case KeyEnd => assert e == [ESC, LBRACKET] + [] + [B('F')];
      case _ =>
    }
  }

  /** An SS3 function byte names a key exactly when the encoder sends ESC `O` and that byte for it. */
  lemma SS3Encodes(b: byte, k: Key)
    requires k in {KeyF1, KeyF2, KeyF3, KeyF4}
    ensures SS3(b) == Some(Special(k)) <==> Encode(Special(k)) == Some([ESC, B('O'), b])
  {
  }

  /** ESC `O` before a cursor final decodes as the CSI form `ESC [` final. */
  lemma DecodeSS3Cursor(b: byte, rest: seq<byte>)
    requires b in {B('A'), B('B'), B('C'), B('D'), B('H'), B('F')}
    ensures Decode([ESC, B('O'), b] + rest) == Decode([ESC, LBRACKET, b] + rest)
  {
    DecodeSS3(b, rest);
    assert [ESC, LBRACKET, b] + rest == [ESC, LBRACKET] + [] + [b] + rest;
    DecodeCsiKey([], b, SS3(b).value, rest);
  }

  /** Parameters before a cursor final, modifiers included, are dropped. */
  lemma DecodeCursorParams(params: seq<byte>, final: byte, rest: seq<byte>)
    requires forall i :: 0 <= i < |params| ==> !IsFinal(params[i])
    requires final in {B('A'), B('B'), B('C'), B('D'), B('H'), B('F')}
    ensures Decode([ESC, LBRACKET] + params + [final] + rest) == Decode([ESC, LBRACKET, final] + rest)
  {
    DecodeCsiKey(params, final, DispatchCSI(params, final).value, rest);
    assert [ESC, LBRACKET, final] + rest == [ESC, LBRACKET] + [] + [final] + rest;
    DecodeCsiKey([], final, DispatchCSI([], final).value, rest);
  }

  /** The byte sequence a terminal sends for an event, when the decoder can produce it. */
  function Encode(ev: KeyEvent): Option<seq<byte>> {
    match ev.key
    case KeyEnter => if ev == Special(KeyEnter) then Some([0x0D]) else None
    case KeyTab => if ev == Special(KeyTab) then Some([0x09]) else None
    case KeyBackspace => if ev == Special(KeyBackspace) then Some([DEL]) else None
    case KeyEsc => if ev == Special(KeyEsc) then Some([ESC]) else None
    case KeyArrowUp => Csi(ev, [], B('A'))
    case KeyArrowDown => Csi(ev, [], B('B'))
    case KeyArrowRight => Csi(ev, [], B('C'))
    case KeyArrowLeft => Csi(ev, [], B('D'))
    case KeyHome => Csi(ev, [], B('H'))
    case KeyEnd => Csi(ev, [], B('F'))
    case KeyF1 => Ss3Bytes(ev, B('P'))
    case KeyF2 => Ss3Bytes(ev, B('Q'))
    case KeyF3 => Ss3Bytes(ev, B('R'))
    case KeyF4 => Ss3Bytes(ev, B('S'))
    case KeyChar => EncodeChar(ev.rune, ev.mod)
    case KeyInsert | KeyDelete | KeyPgUp | KeyPgDown | KeyF5 | KeyF6 | KeyF7 | KeyF8 | KeyF9 | KeyF10 | KeyF11 | KeyF12 =>
      Csi(ev, TildeSelector(ev.key).value, B('~'))
    case _ => None
  }

  function Csi(ev: KeyEvent, params: seq<byte>, final: byte): Option<seq<byte>> {
    if ev.rune == 0 && ev.mod == ModNone then Some([ESC, LBRACKET] + params + [final]) else None
  }

  function Ss3Bytes(ev: KeyEvent, b: byte): Option<seq<byte>> {
    if ev.rune == 0 && ev.mod == ModNone then Some([ESC, B('O'), b]) else None
  }

  function EncodeChar(r: int, m: Mod): Option<seq<byte>> {
    if m == ModNone && 0x20 <= r <= 0xFF && r != DEL then Some([r])
    else if m == ModCtrl && 0x60 <= r <= 0x7F && r - 0x60 !in {0x0D, 0x09, 0x08, 0x1B} then Some([r - 0x60])
    else if m == ModAlt && 0 <= r <= 0xFF && r != LBRACKET && r != B('O') then Some([ESC, r])
    else None
  }

  lemma DecodeSingle(b: byte, rest: seq<byte>)
    requires b != ESC
    ensures Decode([b] + rest) == [ProcessChar(b)] + Decode(rest)
  {
    assert ([b] + rest)[1..] == rest;
  }

  lemma DecodeSS3(b: byte, rest: seq<byte>)
    ensures Decode([ESC, B('O'), b] + rest) == Emit(SS3(b)) + Decode(rest)
  {
    assert ([ESC, B('O'), b] + rest)[3..] == rest;
  }

  lemma DecodeCsiKey(params: seq<byte>, final: byte, ev: KeyEvent, rest: seq<byte>)
    requires forall i :: 0 <= i < |params| ==> !IsFinal(params[i])
    requires IsFinal(final) && DispatchCSI(params, final) == Some(ev)
    ensures Decode([ESC, LBRACKET] + params + [final] + rest) == [ev] + Decode(rest)
  {
    DecodeCSI(params, final, rest);
  }

  /** An encoded event decodes back to itself, whatever follows (ESC alone only at the end). */
  lemma DecodeEncode(ev: KeyEvent, rest: seq<byte>)
    requires Encode(ev).Some?
    requires ev.key == KeyEsc ==> rest == []
    ensures Decode(Encode(ev).value + rest) == [ev] + Decode(rest)
  {
    if ev.key == KeyChar {
      if ev.mod == ModAlt {
        DecodeAlt(ev.rune, rest);
      } else {
        DecodeSingle(Encode(ev).value[0], rest);
      }
    } else if ev.key in {KeyEnter, KeyTab, KeyBackspace, KeyEsc, KeyF1, KeyF2, KeyF3, KeyF4} {
      DecodeEncodeShort(ev, rest);
    } else if ev.key in {KeyArrowUp, KeyArrowDown, KeyArrowRight, KeyArrowLeft, KeyHome, KeyEnd} {
      DecodeEncodeCursor(ev, rest);
    } else {
      DecodeEncodeTilde(ev, rest);
    }
  }

  lemma DecodeEncodeShort(ev: KeyEvent, rest: seq<byte>)
    requires Encode(ev).Some? && ev.key in {KeyEnter, KeyTab, KeyBackspace, KeyEsc, KeyF1, KeyF2, KeyF3, KeyF4}
    requires ev.key == KeyEsc ==> rest == []
    ensures Decode(Encode(ev).value + rest) == [ev] + Decode(rest)
  {
    if ev.key in {KeyF1, KeyF2, KeyF3, KeyF4} {
      DecodeEncodeFunction(ev, rest);
    } else {
      DecodeEncodeControl(ev, rest);
    }
  }

  lemma DecodeEncodeControl(ev: KeyEvent, rest: seq<byte>)
    requires Encode(ev).Some? && ev.key in {KeyEnter, KeyTab, KeyBackspace, KeyEsc}
    requires ev.key == KeyEsc ==> rest == []
    ensures Decode(Encode(ev).value + rest) == [ev] + Decode(rest)
  {
    match ev.key {
      case KeyEnter => DecodeSingle(0x0D, rest);
      case KeyTab => DecodeSingle(0x09, rest);
      case KeyBackspace => DecodeSingle(DEL, rest);
      case KeyEsc =>
        assert Encode(ev).value + rest == [ESC];
    }
  }

  lemma DecodeEncodeFunction(ev: KeyEvent, rest: seq<byte>)
    requires Encode(ev).Some? && ev.key in {KeyF1, KeyF2, KeyF3, KeyF4}
    ensures Decode(Encode(ev).value + rest) == [ev] + Decode(rest)
  {
    var b := if ev.key == KeyF1 then B('P') else if ev.key == KeyF2 then B('Q')
             else if ev.key == KeyF3 then B('R') else B('S');
    assert Encode(ev) == Some([ESC, B('O'), b]) && SS3(b) == Some(ev);
    DecodeSS3(b, rest);
  }

  lemma DecodeEncodeCursor(ev: KeyEvent, rest: seq<byte>)
    requires Encode(ev).Some? && ev.key in {KeyArrowUp, KeyArrowDown, KeyArrowRight, KeyArrowLeft, KeyHome, KeyEnd}
    ensures Decode(Encode(ev).value + rest) == [ev] + Decode(rest)
  {
    match ev.key {
      case KeyArrowUp => DecodeCsiKey([], B('A'), ev, rest);
      case KeyArrowDown => DecodeCsiKey([], B('B'), ev, rest);
      case KeyArrowRight => DecodeCsiKey([], B('C'), ev, rest);
      case KeyArrowLeft => DecodeCsiKey([], B('D'), ev, rest);
      case KeyHome => DecodeCsiKey([], B('H'), ev, rest);
      case KeyEnd => DecodeCsiKey([], B('F'), ev, rest);
    }
  }

  lemma DecodeTilde(sel: seq<byte>, k: Key, rest: seq<byte>)
    requires forall i :: 0 <= i < |sel| ==> B('0') <= sel[i] <= B('9')
    requires TildeKey(sel) == Some(k)
    ensures Decode([ESC, LBRACKET] + sel + [B('~')] + rest) == [Special(k)] + Decode(rest)
  {
    assert IndexOf(sel, B(';')) == -1;
    assert Selector(sel) == sel;
    assert DispatchCSI(sel, B('~')) == Some(Special(k));
    DecodeCsiKey(sel, B('~'), Special(k), rest);
  }

  lemma TildeCase(ev: KeyEvent, sel: seq<byte>, rest: seq<byte>)
    requires Csi(ev, sel, B('~')).Some? && Encode(ev) == Csi(ev, sel, B('~'))
    requires forall i :: 0 <= i < |sel| ==> B('0') <= sel[i] <= B('9')
    requires TildeKey(sel) == Some(ev.key)
    ensures Decode(Encode(ev).value + rest) == [ev] + Decode(rest)
  {
    DecodeTilde(sel, ev.key, rest);
  }

  lemma DecodeEncodeTilde(ev: KeyEvent, rest: seq<byte>)
    requires Encode(ev).Some?
    requires ev.key in {KeyInsert, KeyDelete, KeyPgUp, KeyPgDown, KeyF5, KeyF6, KeyF7, KeyF8, KeyF9, KeyF10, KeyF11, KeyF12}
    ensures Decode(Encode(ev).value + rest) == [ev] + Decode(rest)
  {
    if ev.key in {KeyInsert, KeyDelete, KeyPgUp, KeyPgDown} {
      DecodeEncodeEditing(ev, rest);
    } else if ev.key in {KeyF5, KeyF6, KeyF7, KeyF8} {
      DecodeEncodeF5to8(ev, rest);
    } else {
      DecodeEncodeF9to12(ev, rest);
    }
  }

  lemma DecodeEncodeEditing(ev: KeyEvent, rest: seq<byte>)
    requires Encode(ev).Some? && ev.key in {KeyInsert, KeyDelete, KeyPgUp, KeyPgDown}
    ensures Decode(Encode(ev).value + rest) == [ev] + Decode(rest)
  {
    match ev.key {
      case KeyInsert => TildeCase(ev, [B('2')], rest);
      case KeyDelete => TildeCase(ev, [B('3')], rest);
      case KeyPgUp => TildeCase(ev, [B('5')], rest);
      case KeyPgDown => TildeCase(ev, [B('6')], rest);
    }
  }

  lemma DecodeEncodeF5to8(ev: KeyEvent, rest: seq<byte>)
    requires Encode(ev).Some? && ev.key in {KeyF5, KeyF6, KeyF7, KeyF8}
    ensures Decode(Encode(ev).value + rest) == [ev] + Decode(rest)
  {
    match ev.key {
      case KeyF5 => TildeCase(ev, [B('1'), B('5')], rest);
      case KeyF6 => TildeCase(ev, [B('1'), B('7')], rest);
      case KeyF7 => TildeCase(ev, [B('1'), B('8')], rest);
      case KeyF8 => TildeCase(ev, [B('1'), B('9')], rest);
    }
  }

  lemma DecodeEncodeF9to12(ev: KeyEvent, rest: seq<byte>)
    requires Encode(ev).Some? && ev.key in {KeyF9, KeyF10, KeyF11, KeyF12}
    ensures Decode(Encode(ev).value + rest) == [ev] + Decode(rest)
  {
    match ev.key {
      case KeyF9 => TildeCase(ev, [B('2'), B('0')], rest);
      case KeyF10 => TildeCase(ev, [B('2'), B('1')], rest);
      case KeyF11 => TildeCase(ev, [B('2'), B('3')], rest);
      case KeyF12 => TildeCase(ev, [B('2'), B('4')], rest);
    }
  }

  function EncodeAll(evs: seq<KeyEvent>): seq<byte>
    requires forall i :: 0 <= i < |evs| ==> Encode(evs[i]).Some?
  {
    if |evs| == 0 then [] else Encode(evs[0]).value + EncodeAll(evs[1..])
  }

  /** Decoding the concatenated encodings of a key sequence gives the sequence back. */
  lemma {:induction false} DecodeEncodeAll(evs: seq<KeyEvent>)
    requires forall i :: 0 <= i < |evs| ==> Encode(evs[i]).Some?
    requires forall i :: 0 <= i < |evs| - 1 ==> evs[i].key != KeyEsc
    ensures Decode(EncodeAll(evs)) == evs
  {
    if |evs| > 0 {
      DecodeEncodeAll(evs[1..]);
      assert evs[0].key == KeyEsc ==> EncodeAll(evs[1..]) == [];
      DecodeEncode(evs[0], EncodeAll(evs[1..]));
    }
  }
}
