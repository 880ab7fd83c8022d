/** The line editor of code/src/kernel.c as a state machine over scan codes: the line under way, the history,
    the place in it, and the modifier keys. */
module Editor {
  import opened Bytes

  const HISTORY_MAX: nat := 10
  const CMD_BUFFER_SIZE: nat := 256

  const BACKSPACE: char := '\U{0008}'

  /** `keyboard_map` and `keyboard_map_shift`, one constant a line; the entries left out are zero. */
  const PLAIN_1: string := "\0\U{001B}1234567890-=\U{0008}"
  const PLAIN_2: string := "\tqwertyuiop[]\n"
  const PLAIN_3: string := "\0asdfghjkl;'`\0\\zxcv"
  const PLAIN_4: string := "bnm,./\0*\0 "
  const SHIFT_1: string := "\0\U{001B}!@#$%^&*()_+\U{0008}"
  const SHIFT_2: string := "\tQWERTYUIOP{}\n"
  const SHIFT_3: string := "\0ASDFGHJKL:\"~\0|ZXCV"
  const SHIFT_4: string := "BNM<>?\0*\0 "
  const KEYBOARD_MAP: string := PLAIN_1 + PLAIN_2 + PLAIN_3 + PLAIN_4
  const KEYBOARD_MAP_SHIFT: string := SHIFT_1 + SHIFT_2 + SHIFT_3 + SHIFT_4

  function KeyChar(code: u8, shift: bool): char {
    var m := if shift then KEYBOARD_MAP_SHIFT else KEYBOARD_MAP;
    if code < |m| then m[code] else '\0'
  }

  /** The characters that can get into a line. */
  predicate TextChar(c: char) {
    c != '\0' && c != '\n' && c != BACKSPACE
  }

  predicate Line(s: string) {
    |s| < CMD_BUFFER_SIZE && forall i :: 0 <= i < |s| ==> TextChar(s[i])
  }

  datatype Editor = Editor(line: string, hist: seq<string>, index: nat, shift: bool, ctrl: bool, e0: bool)

  function HistoryUp(ed: Editor): Editor
    requires ed.index <= |ed.hist|
  {
    if ed.index == 0 then ed else ed.(index := ed.index - 1, line := ed.hist[ed.index - 1])
  }

  function HistoryDown(ed: Editor): Editor
    requires ed.index <= |ed.hist|
  {
    if ed.index + 1 < |ed.hist| then ed.(index := ed.index + 1, line := ed.hist[ed.index + 1])
    else if ed.index + 1 == |ed.hist| then ed.(index := ed.index + 1, line := "")
    else ed
  }

  function DropSpaces(s: string): (r: string)
    ensures r <= s
  {
    if s != "" && s[|s| - 1] == ' ' then DropSpaces(s[..|s| - 1]) else s
  }

  function DropWord(s: string): (r: string)
    ensures r <= s
  {
    if s != "" && s[|s| - 1] != ' ' then DropWord(s[..|s| - 1]) else s
  }

  /** A line joins the history, the oldest leaving when there are ten already. */
  function Push(hist: seq<string>, line: string): seq<string> {
    if |hist| < HISTORY_MAX then hist + [line] else hist[1..] + [line]
  }

  /** The Enter key, as far as the editor is concerned. */
  function Submit(ed: Editor): Editor {
    var hist := if ed.line != "" then Push(ed.hist, ed.line) else ed.hist;
    ed.(line := "", hist := hist, index := |hist|)
  }

  /** A key that stands for the character `c` (zero for none). */
  function CharKey(ed: Editor, c: char): Editor
    requires ed.index <= |ed.hist|
  {
    if ed.ctrl && (c == 'w' || c == 'W') then ed.(line := DropWord(DropSpaces(ed.line)))
    else if ed.ctrl && (c == 'p' || c == 'P') then HistoryUp(ed)
    else if c == '\n' then Submit(ed)
    else if c == BACKSPACE then (if ed.line == "" then ed else ed.(line := ed.line[..|ed.line| - 1]))
    else if c != '\0' && |ed.line| < CMD_BUFFER_SIZE - 1 then ed.(line := ed.line + [c])
    else ed
  }

  /** Codes that reach the keyboard map: no prefix, no modifier, no release. */
  predicate Plain(ed: Editor, code: u8) {
    !ed.e0 && code < 0x80 && code != 0x1D && code != 0x2A && code != 0x36
  }

  /** The code of the Enter key. */
  predicate Entered(ed: Editor, code: u8) {
    Plain(ed, code) && KeyChar(code, ed.shift) == '\n'
  }

  /** One scan code read by `keyboard_handler_main`. */
  function Key(ed: Editor, code: u8): Editor
    requires ed.index <= |ed.hist|
  {
    if code == 0xE0 then ed.(e0 := true)
    else if ed.e0 then
      var e := ed.(e0 := false);
      if code == 0x48 then HistoryUp(e) else if code == 0x50 then HistoryDown(e) else e
    else if code == 0x1D then ed.(ctrl := true)
    else if code == 0x9D then ed.(ctrl := false)
    else if code == 0x2A || code == 0x36 then ed.(shift := true)
    else if code == 0xAA || code == 0xB6 then ed.(shift := false)
    else if code >= 0x80 then ed
    else CharKey(ed, KeyChar(code, ed.shift))
  }

  const START: Editor := Editor("", [], 0, false, false, false)

  ghost predicate GoodLines(lines: seq<string>) {
    forall i :: 0 <= i < |lines| ==> Line(lines[i]) && lines[i] != ""
  }

  ghost predicate Inv(ed: Editor) {
    Line(ed.line) && GoodLines(ed.hist) && ed.index <= |ed.hist| <= HISTORY_MAX
  }

  lemma UpInv(ed: Editor)
    requires Inv(ed)
    ensures Inv(HistoryUp(ed))
  {
  }

  lemma DownInv(ed: Editor)
    requires Inv(ed)
    ensures Inv(HistoryDown(ed))
  {
  }

  lemma PrefixLine(s: string, t: string)
    requires Line(s) && t <= s
    ensures Line(t)
  {
    assert forall i :: 0 <= i < |t| ==> t[i] == s[i];
  }

  lemma SubmitInv(ed: Editor)
    requires Inv(ed)
    ensures Inv(Submit(ed))
  {
  }

  lemma CharKeyInv(ed: Editor, c: char)
    requires Inv(ed)
    ensures Inv(CharKey(ed, c))
  {
    if ed.ctrl && (c == 'w' || c == 'W') {
      PrefixLine(ed.line, DropWord(DropSpaces(ed.line)));
    } else if ed.ctrl && (c == 'p' || c == 'P') {
      UpInv(ed);
    } else if c == '\n' {
      SubmitInv(ed);
    }
  }

  lemma KeyInv(ed: Editor, code: u8)
    requires Inv(ed)
    ensures Inv(Key(ed, code))
  {
    if Plain(ed, code) {
      CharKeyInv(ed, KeyChar(code, ed.shift));
    } else if ed.e0 && code == 0x48 {
      UpInv(ed.(e0 := false));
    } else if ed.e0 && code == 0x50 {
      DownInv(ed.(e0 := false));
    }
  }

  /** A sequence of scan codes, read one after the other. */
  ghost function KeyAll(ed: Editor, codes: seq<u8>): (r: Editor)
    requires Inv(ed)
    ensures Inv(r)
  {
    if codes == [] then ed
    else
      KeyInv(KeyAll(ed, codes[..|codes| - 1]), codes[|codes| - 1]);
      Key(KeyAll(ed, codes[..|codes| - 1]), codes[|codes| - 1])
  }

  ghost function Run(codes: seq<u8>): (ed: Editor)
    ensures Inv(ed)
  {
    KeyAll(START, codes)
  }

  /** The lines that stood in the buffer, nonempty, when Enter was hit. */
  ghost function Submitted(codes: seq<u8>): seq<string> {
    if codes == [] then []
    else
      var before, code := Run(codes[..|codes| - 1]), codes[|codes| - 1];
      Submitted(codes[..|codes| - 1]) + if Entered(before, code) && before.line != "" then [before.line] else []
  }

  /** The last ten of a list. */
  function LastTen(lines: seq<string>): seq<string> {
    if |lines| <= HISTORY_MAX then lines else lines[|lines| - HISTORY_MAX..]
  }

  lemma PushIsLastTen(lines: seq<string>, line: string)
    ensures Push(LastTen(lines), line) == LastTen(lines + [line])
  {
  }

  lemma CharHistory(ed: Editor, c: char)
    requires Inv(ed)
    ensures c == '\n' ==> CharKey(ed, c) == Submit(ed)
    ensures c != '\n' ==> CharKey(ed, c).hist == ed.hist
  {
  }

  lemma KeyHistory(ed: Editor, code: u8)
    requires Inv(ed)
    ensures Entered(ed, code) ==> Key(ed, code) == Submit(ed)
    ensures !Entered(ed, code) ==> Key(ed, code).hist == ed.hist
  {
    if Plain(ed, code) {
      var c := KeyChar(code, ed.shift);
      assert Key(ed, code) == CharKey(ed, c);
      CharHistory(ed, c);
    }
  }

  /** For every sequence of scan codes the history is the last ten nonempty submitted lines, in order, and
      the browsing position stays inside it. */
  lemma {:induction false} HistoryIsLastTen(codes: seq<u8>)
    ensures Run(codes).hist == LastTen(Submitted(codes))
    ensures 0 <= Run(codes).index <= |Run(codes).hist| <= HISTORY_MAX
  {
    if codes != [] {
      var before, code := Run(codes[..|codes| - 1]), codes[|codes| - 1];
      HistoryIsLastTen(codes[..|codes| - 1]);
      KeyHistory(before, code);
      PushIsLastTen(Submitted(codes[..|codes| - 1]), before.line);
      assert Submitted(codes[..|codes| - 1]) + [] == Submitted(codes[..|codes| - 1]);
    }
  }

  // ---- Typing ----------------------------------------------------------------------------------

  /** The characters on the keys. */
  function Text(codes: seq<u8>, shift: bool): (t: string)
    ensures |t| == |codes|
  {
    seq(|codes|, i requires 0 <= i < |codes| => KeyChar(codes[i], shift))
  }

  lemma TextSnoc(codes: seq<u8>, code: u8, shift: bool)
    ensures Text(codes + [code], shift) == Text(codes, shift) + [KeyChar(code, shift)]
  {
  }

  /** What fits into the command buffer. */
  function Fitting(s: string): string {
    if |s| < CMD_BUFFER_SIZE then s else s[..CMD_BUFFER_SIZE - 1]
  }

  /** Typing text keys, without Ctrl or a pending prefix, appends exactly their characters as far as they
      fit, and nothing else changes. */
  lemma {:induction false} TypingAppends(ed: Editor, codes: seq<u8>)
    requires Inv(ed) && !ed.ctrl && !ed.e0
    requires forall i :: 0 <= i < |codes| ==> Plain(ed, codes[i]) && TextChar(KeyChar(codes[i], ed.shift))
    ensures KeyAll(ed, codes) == ed.(line := Fitting(ed.line + Text(codes, ed.shift)))
    decreases |codes|
  {
    if codes == [] {
      assert ed.line + Text(codes, ed.shift) == ed.line;
    } else {
      var before, code := codes[..|codes| - 1], codes[|codes| - 1];
      TypingAppends(ed, before);
      var t, c := ed.line + Text(before, ed.shift), KeyChar(code, ed.shift);
      TextSnoc(before, code, ed.shift);
      assert before + [code] == codes;
      assert ed.line + (Text(before, ed.shift) + [c]) == t + [c];
      assert TextChar(KeyChar(codes[|codes| - 1], ed.shift));
      TypedKey(KeyAll(ed, before), code, t, c);
    }
  }

  lemma TypedKey(ed: Editor, code: u8, t: string, c: char)
    requires ed.index <= |ed.hist| && !ed.ctrl && Plain(ed, code) && ed.line == Fitting(t)
    requires c == KeyChar(code, ed.shift) && TextChar(c)
    ensures Key(ed, code) == ed.(line := Fitting(t + [c]))
  {
    if |t| >= CMD_BUFFER_SIZE - 1 {
      assert Fitting(t + [c]) == Fitting(t);
    }
  }

  // ---- Browsing --------------------------------------------------------------------------------

  function Ups(ed: Editor, k: nat): (r: Editor)
    requires ed.index <= |ed.hist|
    ensures r.hist == ed.hist && r.index <= |r.hist|
  {
    if k == 0 then ed else HistoryUp(Ups(ed, k - 1))
  }

  function Downs(ed: Editor, k: nat): (r: Editor)
    requires ed.index <= |ed.hist|
    ensures r.hist == ed.hist && r.index <= |r.hist|
  {
    if k == 0 then ed else HistoryDown(Downs(ed, k - 1))
  }

  /** Behind the newest line, as right after Enter. */
  predicate AtEnd(ed: Editor) {
    ed.index == |ed.hist| && ed.line == ""
  }

  /** Showing the history line at position `i`, or the empty line behind the newest. */
  function Showing(ed: Editor, i: nat): Editor
    requires i <= |ed.hist|
  {
    ed.(index := i, line := if i == |ed.hist| then "" else ed.hist[i])
  }

  /** Right after Enter, the k-th `history_up` shows the k-th most recent line; at the oldest it stays. */
  lemma {:induction false} UpsShow(s: Editor, k: nat)
    requires AtEnd(s)
    ensures Ups(s, k) == Showing(s, if k <= |s.hist| then |s.hist| - k else 0)
    decreases k
  {
    if k > 0 {
      UpsShow(s, k - 1);
    }
  }

  lemma {:induction false} DownsShow(ed: Editor, i: nat, j: nat)
    requires i <= |ed.hist|
    ensures Downs(Showing(ed, i), j) == Showing(ed, if i + j <= |ed.hist| then i + j else |ed.hist|)
    decreases j
  {
    if j > 0 {
      DownsShow(ed, i, j - 1);
    }
  }

  /** `history_down` takes back what `history_up` did: after k steps up and j down the line k - j from the
      end shows, and after as many down as up everything is as it was. */
  lemma DownsUndoUps(s: Editor, k: nat, j: nat)
    requires AtEnd(s) && j <= k <= |s.hist|
    ensures Downs(Ups(s, k), j) == Showing(s, |s.hist| - (k - j))
    ensures j == k ==> Downs(Ups(s, k), j) == s
  {
    UpsShow(s, k);
    DownsShow(s, |s.hist| - k, j);
  }

  lemma LastTenAt(lines: seq<string>, k: nat)
    requires 1 <= k <= |LastTen(lines)|
    ensures LastTen(lines)[|LastTen(lines)| - k] == lines[|lines| - k]
  {
  }

  lemma Recall(s: Editor, lines: seq<string>, k: nat)
    requires AtEnd(s) && s.hist == LastTen(lines) && 1 <= k <= |s.hist|
    ensures Ups(s, k).line == lines[|lines| - k]
  {
    UpsShow(s, k);
    LastTenAt(lines, k);
  }

  /** The scan codes of `k` presses of the arrow-up key. */
  function UpKeys(k: nat): seq<u8> {
    if k == 0 then [] else UpKeys(k - 1) + [0xE0, 0x48]
  }

  lemma RunSnoc(codes: seq<u8>, code: u8)
    ensures Run(codes + [code]) == Key(Run(codes), code)
    ensures Submitted(codes + [code]) ==
            Submitted(codes) + if Entered(Run(codes), code) && Run(codes).line != "" then [Run(codes).line] else []
  {
    assert (codes + [code])[..|codes|] == codes;
  }

  lemma UpKey(ed: Editor)
    requires Inv(ed) && !ed.e0
    ensures Key(Key(ed, 0xE0), 0x48) == HistoryUp(ed) && !HistoryUp(ed).e0
  {
  }

  lemma KeyAllTwo(ed: Editor, codes: seq<u8>, a: u8, b: u8)
    requires Inv(ed)
    ensures KeyAll(ed, codes + [a, b]) == Key(Key(KeyAll(ed, codes), a), b)
  {
    assert (codes + [a, b])[..|codes| + 1] == codes + [a];
    assert (codes + [a])[..|codes|] == codes;
  }

  /** Arrow-up, pressed `k` times, takes `k` steps up. */
  lemma {:induction false} UpKeysAre(ed: Editor, k: nat)
    requires Inv(ed) && !ed.e0
    ensures KeyAll(ed, UpKeys(k)) == Ups(ed, k) && !Ups(ed, k).e0
    decreases k
  {
    if k > 0 {
      UpKeysAre(ed, k - 1);
      KeyAllTwo(ed, UpKeys(k - 1), 0xE0, 0x48);
      UpKey(Ups(ed, k - 1));
    }
  }

  lemma {:induction false} KeyAllAppend(ed: Editor, xs: seq<u8>, ys: seq<u8>)
    requires Inv(ed)
    ensures KeyAll(ed, xs + ys) == KeyAll(KeyAll(ed, xs), ys)
    decreases |ys|
  {
    if ys == [] {
      assert xs + ys == xs;
    } else {
      KeyAllAppend(ed, xs, ys[..|ys| - 1]);
      assert (xs + ys)[..|xs + ys| - 1] == xs + ys[..|ys| - 1];
    }
  }

  /** The k-th arrow-up after an Enter that ends any sequence of scan codes shows the k-th most recent of all
      lines ever submitted. */
  lemma UpsRecall(codes: seq<u8>, enter: u8, lines: seq<string>, k: nat)
    requires Entered(Run(codes), enter) && lines == Submitted(codes + [enter])
    requires 1 <= k <= HISTORY_MAX && k <= |lines|
    ensures Run(codes + [enter] + UpKeys(k)).line == lines[|lines| - k]
  {
    RunSnoc(codes, enter);
    KeyHistory(Run(codes), enter);
    HistoryIsLastTen(codes + [enter]);
    KeyAllAppend(START, codes + [enter], UpKeys(k));
    UpKeysAre(Run(codes + [enter]), k);
    Recall(Run(codes + [enter]), lines, k);
  }

  // ---- Ctrl-W ----------------------------------------------------------------------------------

  predicate AllSpaces(s: string) {
    forall i :: 0 <= i < |s| ==> s[i] == ' '
  }

  predicate NoSpaces(s: string) {
    forall i :: 0 <= i < |s| ==> s[i] != ' '
  }

  lemma {:induction false} DropSpacesIs(s: string) returns (spaces: string)
    ensures s == DropSpaces(s) + spaces && AllSpaces(spaces)
    ensures DropSpaces(s) == "" || DropSpaces(s)[|DropSpaces(s)| - 1] != ' '
  {
    if s != "" && s[|s| - 1] == ' ' {
      spaces := DropSpacesIs(s[..|s| - 1]);
      spaces := spaces + " ";
    } else {
      spaces := "";
    }
  }

  lemma {:induction false} DropWordIs(s: string) returns (word: string)
    ensures s == DropWord(s) + word && NoSpaces(word)
    ensures DropWord(s) == "" || DropWord(s)[|DropWord(s)| - 1] == ' '
  {
    if s != "" && s[|s| - 1] != ' ' {
      word := DropWordIs(s[..|s| - 1]);
      word := word + [s[|s| - 1]];
    } else {
      word := "";
    }
  }

  /** Ctrl-W removes exactly the last word and the spaces after it: what is left ends in a space or is
      empty, and some word is removed whenever there is one. */
  lemma BackspaceWordIs(s: string) returns (word: string, spaces: string)
    ensures var rest := DropWord(DropSpaces(s));
            && s == rest + word + spaces && NoSpaces(word) && AllSpaces(spaces)
            && (rest == "" || rest[|rest| - 1] == ' ')
            && (word == "" ==> rest == "")
  {
    spaces := DropSpacesIs(s);
    word := DropWordIs(DropSpaces(s));
  }
}
