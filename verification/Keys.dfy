/** What the keys do, told by their scan codes: whatever state the editor is in, and whatever was read before. */
module Keys {
  import opened Bytes
  import opened Editor

  // ---- The keyboard ----------------------------------------------------------------------------

  /** The key with scan code `code` gives the character `plain`, and with shift `shifted`. */
  predicate Gives(code: u8, plain: char, shifted: char) {
    code < 0x80 && KeyChar(code, false) == plain && KeyChar(code, true) == shifted
  }

  /** The four lines of the maps, one after the other. */
  lemma MapsAt(code: u8)
    requires code < 58
    ensures var plain, shifted := KeyChar(code, false), KeyChar(code, true);
            && (code < 15 ==> plain == PLAIN_1[code] && shifted == SHIFT_1[code])
            && (15 <= code < 29 ==> plain == PLAIN_2[code - 15] && shifted == SHIFT_2[code - 15])
            && (29 <= code < 48 ==> plain == PLAIN_3[code - 29] && shifted == SHIFT_3[code - 29])
            && (48 <= code ==> plain == PLAIN_4[code - 48] && shifted == SHIFT_4[code - 48])
  {
    assert |PLAIN_1| == |SHIFT_1| == 15 && |PLAIN_2| == |SHIFT_2| == 14;
    assert |PLAIN_3| == |SHIFT_3| == 19 && |PLAIN_4| == |SHIFT_4| == 10;
  }

  lemma Row02(i: nat)
    requires i < 6
    ensures Gives(0x02 + i, "123456"[i], "!@#$%^"[i])
  {
    MapsAt(0x02 + i);
  }

  lemma Row08(i: nat)
    requires i < 6
    ensures Gives(0x08 + i, "7890-="[i], "&*()_+"[i])
  {
    MapsAt(0x08 + i);
  }

  lemma Row10(i: nat)
    requires i < 6
    ensures Gives(0x10 + i, "qwerty"[i], "QWERTY"[i])
  {
    MapsAt(0x10 + i);
  }

  lemma Row16(i: nat)
    requires i < 6
    ensures Gives(0x16 + i, "uiop[]"[i], "UIOP{}"[i])
  {
    MapsAt(0x16 + i);
  }

  lemma Row1E(i: nat)
    requires i < 6
    ensures Gives(0x1E + i, "asdfgh"[i], "ASDFGH"[i])
  {
    MapsAt(0x1E + i);
  }

  lemma Row24(i: nat)
    requires i < 6
    ensures Gives(0x24 + i, "jkl;'`"[i], "JKL:\"~"[i])
  {
    MapsAt(0x24 + i);
  }

  lemma Row2C(i: nat)
    requires i < 4
    ensures Gives(0x2C + i, "zxcv"[i], "ZXCV"[i])
  {
    MapsAt(0x2C + i);
  }

  lemma Row30(i: nat)
    requires i < 6
    ensures Gives(0x30 + i, "bnm,./"[i], "BNM<>?"[i])
  {
    MapsAt(0x30 + i);
  }

  lemma EscapeGives()
    ensures Gives(0x01, '\U{001B}', '\U{001B}')
  {
    MapsAt(0x01);
  }

  lemma BackspaceGives()
    ensures Gives(0x0E, '\U{0008}', '\U{0008}')
  {
    MapsAt(0x0E);
  }

  lemma TabGives()
    ensures Gives(0x0F, '\t', '\t')
  {
    MapsAt(0x0F);
  }

  lemma EnterGives()
    ensures Gives(0x1C, '\n', '\n')
  {
    MapsAt(0x1C);
  }

  lemma BackslashGives()
    ensures Gives(0x2B, '\\', '|')
  {
    MapsAt(0x2B);
  }

  lemma StarGives()
    ensures Gives(0x37, '*', '*')
  {
    MapsAt(0x37);
  }

  lemma SpaceGives()
    ensures Gives(0x39, ' ', ' ')
  {
    MapsAt(0x39);
  }

  lemma SilentKeys(code: u8)
    requires code in {0, 0x1D, 0x2A, 0x36, 0x38} || 0x39 < code < 0x80
    ensures Gives(code, '\0', '\0')
  {
    if code < 58 {
      MapsAt(code);
    } else {
      assert |KEYBOARD_MAP| == |KEYBOARD_MAP_SHIFT| == 58;
    }
  }

  predicate RowOfKeys(first: nat, plain: string, shifted: string) {
    |plain| == |shifted| && forall i :: 0 <= i < |plain| ==> GivesAt(first, plain, shifted, i)
  }

  predicate GivesAt(first: nat, plain: string, shifted: string, i: nat)
    requires i < |plain| == |shifted|
  {
    first + i < 0x80 && Gives(first + i, plain[i], shifted[i])
  }

  /** The keyboard: what the keys from a scan code on give without and with shift. All other keys are silent. */
  lemma Keyboard()
    ensures RowOfKeys(0x02, "123456", "!@#$%^") && RowOfKeys(0x08, "7890-=", "&*()_+")
    ensures RowOfKeys(0x10, "qwerty", "QWERTY") && RowOfKeys(0x16, "uiop[]", "UIOP{}")
    ensures RowOfKeys(0x1E, "asdfgh", "ASDFGH") && RowOfKeys(0x24, "jkl;'`", "JKL:\"~")
    ensures RowOfKeys(0x2C, "zxcv", "ZXCV") && RowOfKeys(0x30, "bnm,./", "BNM<>?")
    ensures Gives(0x01, '\U{001B}', '\U{001B}') && Gives(0x0E, '\U{0008}', '\U{0008}') && Gives(0x0F, '\t', '\t')
    ensures Gives(0x1C, '\n', '\n') && Gives(0x2B, '\\', '|') && Gives(0x37, '*', '*') && Gives(0x39, ' ', ' ')
    ensures forall code: u8 :: code in {0, 0x1D, 0x2A, 0x36, 0x38} || 0x39 < code < 0x80 ==> Gives(code, '\0', '\0')
  {
    forall i: nat | i < 6
      ensures GivesAt(0x02, "123456", "!@#$%^", i) && GivesAt(0x08, "7890-=", "&*()_+", i)
      ensures GivesAt(0x10, "qwerty", "QWERTY", i) && GivesAt(0x16, "uiop[]", "UIOP{}", i)
      ensures GivesAt(0x1E, "asdfgh", "ASDFGH", i) && GivesAt(0x24, "jkl;'`", "JKL:\"~", i)
      ensures GivesAt(0x30, "bnm,./", "BNM<>?", i)
    {
      Row02(i);
      Row08(i);
      Row10(i);
      Row16(i);
      Row1E(i);
      Row24(i);
      Row30(i);
    }
    forall i: nat | i < 4
      ensures GivesAt(0x2C, "zxcv", "ZXCV", i)
    {
      Row2C(i);
    }
    EscapeGives();
    BackspaceGives();
    TabGives();
    EnterGives();
    BackslashGives();
    StarGives();
    SpaceGives();
    forall code: u8 | code in {0, 0x1D, 0x2A, 0x36, 0x38} || 0x39 < code < 0x80
      ensures Gives(code, '\0', '\0')
    {
      SilentKeys(code);
    }
  }

  // ---- Single keys -----------------------------------------------------------------------------

  lemma OneCode(ed: Editor, code: u8)
    requires Inv(ed)
    ensures KeyAll(ed, [code]) == Key(ed, code)
  {
    assert [code][..0] == [];
  }

  lemma TwoCodes(ed: Editor, a: u8, b: u8)
    requires Inv(ed)
    ensures KeyAll(ed, [a, b]) == KeyAll(KeyAll(ed, [a]), [b])
  {
    KeyAllAppend(ed, [a], [b]);
    assert [a] + [b] == [a, b];
  }

  lemma ThreeCodes(ed: Editor, a: u8, b: u8, c: u8)
    requires Inv(ed)
    ensures KeyAll(ed, [a, b, c]) == KeyAll(KeyAll(KeyAll(ed, [a]), [b]), [c])
  {
    KeyAllAppend(ed, [a, b], [c]);
    TwoCodes(ed, a, b);
    assert [a, b] + [c] == [a, b, c];
  }

  /** A key below 0x80 that is no modifier, read without a pending prefix. */
  predicate Ordinary(ed: Editor, code: u8) {
    !ed.e0 && code < 0x80 && code !in {0x1D, 0x2A, 0x36}
  }

  lemma KeyBy(ed: Editor, code: u8, plain: char, shifted: char)
    requires Inv(ed) && Ordinary(ed, code) && Gives(code, plain, shifted)
    ensures KeyAll(ed, [code]) == CharKey(ed, if ed.shift then shifted else plain)
  {
    OneCode(ed, code);
    if ed.shift {
      assert KeyChar(code, true) == shifted;
    } else {
      assert KeyChar(code, false) == plain;
    }
  }

  /** A key for a character other than newline and backspace appends it while the line has fewer than 255
      characters, and does nothing from then on; with Ctrl held, w and p are not such keys. */
  lemma TextKey(ed: Editor, code: u8, c: char)
    requires Inv(ed) && Ordinary(ed, code) && KeyChar(code, ed.shift) == c && c !in {'\0', '\n', '\U{0008}'}
    requires ed.ctrl ==> c !in {'w', 'W', 'p', 'P'}
    ensures KeyAll(ed, [code]) == if |ed.line| < 255 then ed.(line := ed.line + [c]) else ed
  {
    KeyBy(ed, code, KeyChar(code, false), KeyChar(code, true));
  }

  function Shorter(s: string, n: nat): string {
    if n <= |s| then s[..|s| - n] else ""
  }

  lemma EraseBy(ed: Editor, code: u8)
    requires Inv(ed) && Ordinary(ed, code) && Gives(code, '\U{0008}', '\U{0008}')
    ensures KeyAll(ed, [code]) == ed.(line := Shorter(ed.line, 1))
  {
    KeyBy(ed, code, '\U{0008}', '\U{0008}');
  }

  /** A character typed and erased leaves everything as it was. */
  lemma TypedThenErased(ed: Editor, code: u8)
    requires Inv(ed) && Ordinary(ed, code) && !ed.ctrl && |ed.line| < 255
    requires KeyChar(code, ed.shift) !in {'\0', '\n', '\U{0008}'}
    ensures KeyAll(ed, [code, 0x0E]) == ed
  {
    TextKey(ed, code, KeyChar(code, ed.shift));
    TwoCodes(ed, code, 0x0E);
    BackspaceGives();
    EraseBy(KeyAll(ed, [code]), 0x0E);
  }

  function Repeated(code: u8, n: nat): seq<u8> {
    seq(n, _ => code)
  }

  lemma {:induction false} ErasesBy(ed: Editor, code: u8, n: nat)
    requires Inv(ed) && Ordinary(ed, code) && Gives(code, '\U{0008}', '\U{0008}')
    ensures KeyAll(ed, Repeated(code, n)) == ed.(line := Shorter(ed.line, n))
    decreases n
  {
    if n > 0 {
      ErasesBy(ed, code, n - 1);
      KeyAllAppend(ed, Repeated(code, n - 1), [code]);
      assert Repeated(code, n - 1) + [code] == Repeated(code, n);
      EraseBy(KeyAll(ed, Repeated(code, n - 1)), code);
    }
  }

  /** `n` backspaces remove exactly the last `n` characters, or all if there are fewer, and nothing else changes. */
  lemma Backspaces(ed: Editor, n: nat)
    requires Inv(ed) && !ed.e0
    ensures KeyAll(ed, Repeated(0x0E, n)) == ed.(line := if n <= |ed.line| then ed.line[..|ed.line| - n] else "")
  {
    BackspaceGives();
    ErasesBy(ed, 0x0E, n);
  }

  lemma EnterBy(ed: Editor, code: u8)
    requires Inv(ed) && Ordinary(ed, code) && Gives(code, '\n', '\n')
    ensures KeyAll(ed, [code]) == Submit(ed)
  {
    KeyBy(ed, code, '\n', '\n');
    CharHistory(ed, '\n');
  }

  /** Enter empties the line, which joins the last ten unless it was empty, and moves behind the newest. */
  lemma EnterKey(ed: Editor)
    requires Inv(ed) && !ed.e0
    ensures var r := KeyAll(ed, [0x1C]);
            && r.line == "" && r.index == |r.hist| && r.shift == ed.shift && r.ctrl == ed.ctrl && !r.e0
            && r.hist == if ed.line == "" then ed.hist
                         else if |ed.hist| < 10 then ed.hist + [ed.line]
                         else ed.hist[1..] + [ed.line]
  {
    EnterGives();
    EnterBy(ed, 0x1C);
  }

  /** The modifiers: shift and Ctrl go down and up, 0xE0 announces an extended key, and that is all. */
  lemma ModifierKeys(ed: Editor)
    requires Inv(ed)
    ensures KeyAll(ed, [0xE0]) == ed.(e0 := true)
    ensures !ed.e0 ==> KeyAll(ed, [0x2A]) == KeyAll(ed, [0x36]) == ed.(shift := true)
    ensures !ed.e0 ==> KeyAll(ed, [0xAA]) == KeyAll(ed, [0xB6]) == ed.(shift := false)
    ensures !ed.e0 ==> KeyAll(ed, [0x1D]) == ed.(ctrl := true) && KeyAll(ed, [0x9D]) == ed.(ctrl := false)
  {
    OneCode(ed, 0xE0);
    OneCode(ed, 0x2A);
    OneCode(ed, 0x36);
    OneCode(ed, 0xAA);
    OneCode(ed, 0xB6);
    OneCode(ed, 0x1D);
    OneCode(ed, 0x9D);
  }

  /** Everything else is ignored: releases, keys without a character, and extended keys other than the arrows
      up and down. */
  lemma OtherCodesIgnored(ed: Editor, code: u8)
    requires Inv(ed) && code != 0xE0
    ensures !ed.e0 && code >= 0x80 && code !in {0x9D, 0xAA, 0xB6} ==> KeyAll(ed, [code]) == ed
    ensures Ordinary(ed, code) && KeyChar(code, ed.shift) == '\0' ==> KeyAll(ed, [code]) == ed
    ensures ed.e0 && code != 0x48 && code != 0x50 ==> KeyAll(ed, [code]) == ed.(e0 := false)
  {
    OneCode(ed, code);
  }

  // ---- Shift -----------------------------------------------------------------------------------

  /** With either shift key held a text key gives its shifted character, and after the release its plain one. */
  lemma ShiftedKey(ed: Editor, down: u8, code: u8, up: u8)
    requires Inv(ed) && !ed.ctrl && Ordinary(ed, code) && |ed.line| < 255
    requires (down, up) in {(0x2A, 0xAA), (0x36, 0xB6), (0x2A, 0xB6), (0x36, 0xAA)}
    requires KeyChar(code, true) !in {'\0', '\n', '\U{0008}'}
    ensures KeyAll(ed, [down, code, up]) == ed.(line := ed.line + [KeyChar(code, true)], shift := false)
  {
    ThreeCodes(ed, down, code, up);
    ModifierKeys(ed);
    var held := ed.(shift := true);
    TextKey(held, code, KeyChar(code, true));
    ModifierKeys(held.(line := ed.line + [KeyChar(code, true)]));
  }

  // ---- Ctrl ------------------------------------------------------------------------------------

  /** A key between the press and the release of Ctrl. */
  lemma WithCtrl(ed: Editor, held: Editor, code: u8, after: Editor)
    requires Inv(ed) && !ed.e0 && held == ed.(ctrl := true)
    requires KeyAll(held, [code]) == after && Inv(after) && !after.e0
    ensures KeyAll(ed, [0x1D, code, 0x9D]) == after.(ctrl := false)
  {
    ThreeCodes(ed, 0x1D, code, 0x9D);
    ModifierKeys(ed);
    ModifierKeys(after);
  }

  lemma HeldW(ed: Editor, code: u8) returns (rest: string, word: string, spaces: string)
    requires Inv(ed) && Ordinary(ed, code) && ed.ctrl && Gives(code, 'w', 'W')
    ensures KeyAll(ed, [code]) == ed.(line := rest) && Inv(ed.(line := rest))
    ensures ed.line == rest + word + spaces && NoSpaces(word) && AllSpaces(spaces)
    ensures (rest == "" || rest[|rest| - 1] == ' ') && (word == "" ==> rest == "")
  {
    rest := DropWord(DropSpaces(ed.line));
    word, spaces := BackspaceWordIs(ed.line);
    KeyBy(ed, code, 'w', 'W');
    PrefixLine(ed.line, rest);
  }

  /** Ctrl-W removes the last word and the spaces behind it, and nothing else. */
  lemma CtrlW(ed: Editor) returns (rest: string, word: string, spaces: string)
    requires Inv(ed) && !ed.e0
    ensures KeyAll(ed, [0x1D, 0x11, 0x9D]) == ed.(line := rest, ctrl := false)
    ensures ed.line == rest + word + spaces && NoSpaces(word) && AllSpaces(spaces)
    ensures (rest == "" || rest[|rest| - 1] == ' ') && (word == "" ==> rest == "")
  {
    var held := ed.(ctrl := true);
    Row10(1);
    rest, word, spaces := HeldW(held, 0x11);
    WithCtrl(ed, held, 0x11, held.(line := rest));
  }

  lemma HeldP(ed: Editor, code: u8)
    requires Inv(ed) && Ordinary(ed, code) && ed.ctrl && Gives(code, 'p', 'P')
    ensures KeyAll(ed, [code]) == HistoryUp(ed)
  {
    KeyBy(ed, code, 'p', 'P');
    CharP(ed, if ed.shift then 'P' else 'p');
  }

  lemma CharP(ed: Editor, c: char)
    requires Inv(ed) && ed.ctrl && (c == 'p' || c == 'P')
    ensures CharKey(ed, c) == HistoryUp(ed)
  {
  }

  lemma UpWhileHeld(ed: Editor, held: Editor)
    requires Inv(ed) && !ed.e0 && held == ed.(ctrl := true)
    ensures Inv(HistoryUp(held)) && HistoryUp(held) == HistoryUp(ed).(ctrl := true) && !HistoryUp(held).e0
    ensures HistoryUp(ed).ctrl == ed.ctrl
  {
    UpInv(held);
  }

  lemma ArrowUp(ed: Editor)
    requires Inv(ed) && !ed.e0
    ensures KeyAll(ed, [0xE0, 0x48]) == HistoryUp(ed)
  {
    TwoCodes(ed, 0xE0, 0x48);
    OneCode(ed, 0xE0);
    OneCode(KeyAll(ed, [0xE0]), 0x48);
    UpKey(ed);
  }

  /** Ctrl-P does what arrow-up does. */
  lemma CtrlP(ed: Editor)
    requires Inv(ed) && !ed.e0 && !ed.ctrl
    ensures KeyAll(ed, [0x1D, 0x19, 0x9D]) == KeyAll(ed, [0xE0, 0x48])
  {
    var held := ed.(ctrl := true);
    Row16(3);
    HeldP(held, 0x19);
    UpWhileHeld(ed, held);
    WithCtrl(ed, held, 0x19, HistoryUp(held));
    ArrowUp(ed);
  }

  // ---- Arrows ----------------------------------------------------------------------------------

  /** The scan codes of `k` presses of the arrow-down key. */
  function DownKeys(k: nat): seq<u8> {
    if k == 0 then [] else DownKeys(k - 1) + [0xE0, 0x50]
  }

  lemma DownKey(ed: Editor)
    requires Inv(ed) && !ed.e0
    ensures Key(Key(ed, 0xE0), 0x50) == HistoryDown(ed) && !HistoryDown(ed).e0
  {
  }

  lemma {:induction false} DownKeysAre(ed: Editor, k: nat)
    requires Inv(ed) && !ed.e0
    ensures KeyAll(ed, DownKeys(k)) == Downs(ed, k) && !Downs(ed, k).e0
    decreases k
  {
    if k > 0 {
      DownKeysAre(ed, k - 1);
      KeyAllTwo(ed, DownKeys(k - 1), 0xE0, 0x50);
      DownKey(Downs(ed, k - 1));
    }
  }

  /** From behind the newest line, as after Enter: `k` presses of arrow-up and `j` of arrow-down show the line
      `k - j` from the end, and as many down as up leave everything as it was. */
  lemma UpsAndDowns(ed: Editor, k: nat, j: nat)
    requires Inv(ed) && !ed.e0 && ed.line == "" && ed.index == |ed.hist| && j <= k <= |ed.hist|
    ensures var i := |ed.hist| - (k - j);
            KeyAll(ed, UpKeys(k) + DownKeys(j)) == ed.(index := i, line := if j == k then "" else ed.hist[i])
  {
    KeyAllAppend(ed, UpKeys(k), DownKeys(j));
    UpKeysAre(ed, k);
    DownKeysAre(Ups(ed, k), j);
    DownsUndoUps(ed, k, j);
  }

  // ---- Whole sessions --------------------------------------------------------------------------

  /** However the keys were hit, a line never gets longer than 255 characters, and the history holds the last
      ten nonempty lines entered. */
  lemma Sessions(codes: seq<u8>)
    ensures |Run(codes).line| <= 255
    ensures var lines := Submitted(codes);
            Run(codes).hist == if |lines| <= 10 then lines else lines[|lines| - 10..]
  {
    HistoryIsLastTen(codes);
  }
}
