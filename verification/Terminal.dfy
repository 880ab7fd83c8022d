/** The keyboard handler of code/src/kernel.c in place: the command buffer, the history rows, the cursor and
    the character cells on screen. Video memory is unbounded, as the code never scrolls. */
module Terminal {
  import opened Bytes
  import opened Editor

  const ATTRIBUTE: char := '\U{0007}'
  const PROMPT: string := "OS> "

  /** `vidptr` and `current_loc` */
  datatype Screen = Screen(cells: map<nat, char>, loc: nat)

  /** One character of `kprint`. */
  function PutChar(s: Screen, c: char): Screen {
    if c == '\n' then s.(loc := s.loc + (160 - s.loc % 160))
    else if c == BACKSPACE then (if s.loc >= 2 then Screen(s.cells[s.loc - 2 := ' '][s.loc - 1 := ATTRIBUTE], s.loc - 2) else s)
    else Screen(s.cells[s.loc := c][s.loc + 1 := ATTRIBUTE], s.loc + 2)
  }

  function PutText(s: Screen, str: string): Screen {
    if str == "" then s else PutChar(PutText(s, str[..|str| - 1]), str[|str| - 1])
  }

  /** A newline moves to the start of the next row of 80 cells, a backspace blanks the cell before the cursor and
      steps back onto it unless there is none, and any other character fills a cell in attribute 7. */
  lemma CharShown(s: Screen, c: char)
    ensures PutChar(s, '\n') == s.(loc := (s.loc / 160 + 1) * 160)
    ensures PutChar(s, '\U{0008}') ==
            if s.loc < 2 then s else Screen(s.cells[s.loc - 2 := ' '][s.loc - 1 := '\U{0007}'], s.loc - 2)
    ensures c != '\n' && c != '\U{0008}' ==> PutChar(s, c) == Screen(s.cells[s.loc := c][s.loc + 1 := '\U{0007}'], s.loc + 2)
  {
    assert s.loc == 160 * (s.loc / 160) + s.loc % 160;
  }

  /** Text without newline and backspace fills one cell after the other, and no other. */
  lemma {:induction false} TextShown(s: Screen, str: string)
    requires '\n' !in str && '\U{0008}' !in str
    ensures var r := PutText(s, str);
            && r.loc == s.loc + 2 * |str|
            && (forall i :: 0 <= i < |str| ==> CellIs(r, s.loc + 2 * i, str[i]))
            && (forall x :: x < s.loc || x >= r.loc ==> (x in r.cells <==> x in s.cells) && (x in s.cells ==> r.cells[x] == s.cells[x]))
  {
    if str != "" {
      var before, c := str[..|str| - 1], str[|str| - 1];
      assert c in str && forall x :: x in before ==> x in str;
      TextShown(s, before);
      var u := PutText(s, before);
      forall i | 0 <= i < |str|
        ensures CellIs(PutChar(u, c), s.loc + 2 * i, str[i])
      {
        CellPut(u, c, s.loc + 2 * i, str[i]);
      }
    }
  }

  lemma CellPut(u: Screen, c: char, at: nat, d: char)
    requires c != '\n' && c != '\U{0008}'
    requires (at == u.loc && d == c) || (at + 2 <= u.loc && CellIs(u, at, d))
    ensures CellIs(PutChar(u, c), at, d)
  {
  }

  predicate CellIs(s: Screen, at: nat, c: char) {
    at in s.cells && s.cells[at] == c && at + 1 in s.cells && s.cells[at + 1] == '\U{0007}'
  }

  /** The line `line` stands on screen from `prompt` on, followed by blanks up to the `high`-th cell; what was
      there when the prompt was printed is still there. */
  ghost predicate Shows(s: Screen, prompt: nat, line: string, high: nat, before: map<nat, char>) {
    && s.loc == prompt + 2 * |line| && |line| <= high
    && (forall i :: 0 <= i < |line| ==> prompt + 2 * i in s.cells && s.cells[prompt + 2 * i] == line[i])
    && (forall i :: |line| <= i < high ==> prompt + 2 * i in s.cells && s.cells[prompt + 2 * i] == ' ')
    && (forall x :: x in before && x < prompt ==> x in s.cells && s.cells[x] == before[x])
  }

  lemma FreshPrompt(s: Screen)
    ensures Shows(s, s.loc, "", 0, s.cells)
  {
  }

  lemma TypedShows(s: Screen, prompt: nat, line: string, high: nat, before: map<nat, char>, c: char)
    requires Shows(s, prompt, line, high, before) && TextChar(c)
    ensures Shows(PutChar(s, c), prompt, line + [c], if |line| < high then high else |line| + 1, before)
  {
  }

  lemma ErasedShows(s: Screen, prompt: nat, line: string, high: nat, before: map<nat, char>)
    requires Shows(s, prompt, line, high, before) && line != ""
    ensures s.loc >= 2 && Shows(PutChar(s, BACKSPACE), prompt, line[..|line| - 1], high, before)
  {
  }

  class Terminal {
    const cmdBuffer: array<char>
    const history: array2<char>
    var cmdLen: nat
    var historyCount: nat
    var historyIndex: nat
    var shiftPressed: bool
    var ctrlPressed: bool
    var e0Pressed: bool
    var screen: Screen
    ghost var hist: seq<string>
    ghost var prompt: nat
    ghost var high: nat
    ghost var before: map<nat, char>

    ghost function Ed(): Editor
      requires cmdBuffer.Length == CMD_BUFFER_SIZE && cmdLen < CMD_BUFFER_SIZE
      reads this, cmdBuffer
    {
      Editor(cmdBuffer[..cmdLen], hist, historyIndex, shiftPressed, ctrlPressed, e0Pressed)
    }

    /** Row `j` holds the C string `s`. */
    ghost predicate Row(j: nat, s: string)
      requires history.Length0 == HISTORY_MAX && history.Length1 == CMD_BUFFER_SIZE && j < HISTORY_MAX
      reads history
    {
      |s| < CMD_BUFFER_SIZE && history[j, |s|] == '\0' && forall i :: 0 <= i < |s| ==> history[j, i] == s[i] && s[i] != '\0'
    }

    ghost predicate Sized() {
      cmdBuffer.Length == CMD_BUFFER_SIZE && history.Length0 == HISTORY_MAX && history.Length1 == CMD_BUFFER_SIZE
    }

    /** Buffer, history rows and screen agree with each other. */
    ghost predicate Valid()
      reads this, cmdBuffer, history
    {
      && Sized() && cmdLen < CMD_BUFFER_SIZE
      && Inv(Ed())
      && historyCount == |hist| && (forall j :: 0 <= j < historyCount ==> Row(j, hist[j]))
      && Shows(screen, prompt, cmdBuffer[..cmdLen], high, before)
    }

    /** The state in which the boot code leaves the editor, whatever it has printed. */
    constructor (s: Screen)
      ensures Valid() && Ed() == START && screen == s && prompt == s.loc
    {
      cmdBuffer := new char[CMD_BUFFER_SIZE](_ => '\0');
      history := new char[HISTORY_MAX, CMD_BUFFER_SIZE]((_, _) => '\0');
      cmdLen, historyCount, historyIndex := 0, 0, 0;
      shiftPressed, ctrlPressed, e0Pressed := false, false, false;
      screen := s;
      hist, prompt, high, before := [], s.loc, 0, s.cells;
      new;
      FreshPrompt(s);
      assert cmdBuffer[..0] == "";
    }

    /** `kprint` */
    method Kprint(str: string)
      modifies this`screen
      ensures screen == PutText(old(screen), str)
    {
      var i := 0;
      assert str[..0] == "";
      while i < |str|
        invariant 0 <= i <= |str| && screen == PutText(old(screen), str[..i])
      {
        var c := str[i];
        assert str[..i + 1][..i] == str[..i];
        var loc := screen.loc;
        if c == '\n' {
          screen := screen.(loc := loc + (160 - loc % 160));
        } else if c == BACKSPACE {
          if loc >= 2 {
            screen := Screen(screen.cells[loc - 2 := ' '][loc - 1 := ATTRIBUTE], loc - 2);
          }
        } else {
          screen := Screen(screen.cells[loc := c][loc + 1 := ATTRIBUTE], loc + 2);
        }
        i := i + 1;
      }
      assert str[..i] == str;
    }

    /** Blank the cell before the cursor and step back onto it. */
    method EraseCell()
      modifies this`screen
      ensures screen == PutChar(old(screen), BACKSPACE)
    {
      if screen.loc >= 2 {
        var loc := screen.loc - 2;
        screen := Screen(screen.cells[loc := ' '][loc + 1 := ATTRIBUTE], loc);
      }
    }

    /** The step shared by backspace, Ctrl-W and the clearing of the line: drop the last character. */
    method EraseOne()
      requires Valid() && cmdLen > 0
      modifies this`cmdLen, this`screen
      ensures Valid() && Ed() == old(Ed()).(line := old(Ed()).line[..|old(Ed()).line| - 1])
    {
      ghost var line := cmdBuffer[..cmdLen];
      ErasedShows(screen, prompt, line, high, before);
      cmdLen := cmdLen - 1;
      assert cmdBuffer[..cmdLen] == line[..|line| - 1];
      PrefixLine(line, line[..|line| - 1]);
      EraseCell();
    }

    /** Append a character and echo it. */
    method AppendOne(c: char)
      requires Valid() && TextChar(c) && cmdLen < CMD_BUFFER_SIZE - 1
      modifies this`cmdLen, this`screen, this`high, cmdBuffer
      ensures Valid() && Ed() == old(Ed()).(line := old(Ed()).line + [c])
      ensures high >= old(high)
    {
      ghost var line := cmdBuffer[..cmdLen];
      TypedShows(screen, prompt, line, high, before, c);
      cmdBuffer[cmdLen] := c;
      cmdLen := cmdLen + 1;
      assert cmdBuffer[..cmdLen] == line + [c];
      assert [c][..0] == "";
      Kprint([c]);
      high := if |line| < high then high else |line| + 1;
    }

    /** `cmd_clear_display` */
    method CmdClearDisplay()
      requires Valid()
      modifies this`cmdLen, this`screen
      ensures Valid() && Ed() == old(Ed()).(line := "")
    {
      while cmdLen > 0
        invariant Valid() && Ed() == old(Ed()).(line := Ed().line)
        decreases cmdLen
      {
        EraseOne();
      }
    }

    /** The loop body of `cmd_set`. */
    method TakeFromRow(j: nat, k: nat)
      requires Valid() && j < historyCount && k < |hist[j]| && Ed().line == hist[j][..k]
      modifies this`cmdLen, this`screen, this`high, cmdBuffer
      ensures Valid() && Ed() == old(Ed()).(line := hist[j][..k + 1])
      ensures high >= old(high)
    {
      ghost var s := hist[j];
      assert Row(j, s) && Line(s) && s[..k + 1] == s[..k] + [s[k]];
      if cmdLen < CMD_BUFFER_SIZE - 1 {
        AppendOne(history[j, k]);
      }
    }

    /** `cmd_set` with a history row, read up to its NUL. */
    method CmdSetRow(j: nat)
      requires Valid() && j < historyCount
      modifies this`cmdLen, this`screen, this`high, cmdBuffer
      ensures Valid() && Ed() == old(Ed()).(line := hist[j])
      ensures high >= old(high)
    {
      CmdClearDisplay();
      ghost var ed, s, h := Ed(), hist[j], high;
      var k := 0;
      assert s[..0] == "";
      while history[j, k] != '\0'
        invariant 0 <= k <= |s| && Valid() && Ed() == ed.(line := s[..k]) && high >= h
        decreases |s| - k
      {
        TakeFromRow(j, k);
        k := k + 1;
      }
      assert s[..|s|] == s;
    }

    /** `history_up` */
    method DoHistoryUp()
      requires Valid()
      modifies this`cmdLen, this`screen, this`high, this`historyIndex, cmdBuffer
      ensures Valid() && Ed() == HistoryUp(old(Ed()))
      ensures high >= old(high)
    {
      if historyCount == 0 {
        return;
      }
      if historyIndex > 0 {
        historyIndex := historyIndex - 1;
        CmdSetRow(historyIndex);
      }
    }

    /** `history_down` */
    method DoHistoryDown()
      requires Valid()
      modifies this`cmdLen, this`screen, this`high, this`historyIndex, cmdBuffer
      ensures Valid() && Ed() == HistoryDown(old(Ed()))
      ensures high >= old(high)
    {
      if historyCount == 0 {
        return;
      }
      if historyIndex < historyCount - 1 {
        historyIndex := historyIndex + 1;
        CmdSetRow(historyIndex);
      } else if historyIndex == historyCount - 1 {
        historyIndex := historyIndex + 1;
        CmdClearDisplay();
      }
    }

    /** The first loop of `backspace_word`. */
    method EraseSpaces()
      requires Valid()
      modifies this`cmdLen, this`screen
      ensures Valid() && Ed() == old(Ed()).(line := DropSpaces(old(Ed()).line))
    {
      while cmdLen > 0 && cmdBuffer[cmdLen - 1] == ' '
        invariant Valid() && Ed() == old(Ed()).(line := Ed().line)
        invariant DropSpaces(Ed().line) == DropSpaces(old(Ed()).line)
        decreases cmdLen
      {
        EraseOne();
      }
    }

    /** The second loop of `backspace_word`. */
    method EraseWord()
      requires Valid()
      modifies this`cmdLen, this`screen
      ensures Valid() && Ed() == old(Ed()).(line := DropWord(old(Ed()).line))
    {
      while cmdLen > 0 && cmdBuffer[cmdLen - 1] != ' '
        invariant Valid() && Ed() == old(Ed()).(line := Ed().line)
        invariant DropWord(Ed().line) == DropWord(old(Ed()).line)
        decreases cmdLen
      {
        EraseOne();
      }
    }

    /** `backspace_word` */
    method BackspaceWord()
      requires Valid()
      modifies this`cmdLen, this`screen
      ensures Valid() && Ed() == old(Ed()).(line := DropWord(DropSpaces(old(Ed()).line)))
    {
      EraseSpaces();
      EraseWord();
    }

    // ---- Enter ---------------------------------------------------------------------------------

    /** Copy the command and its NUL into a history row. */
    method StoreRow(j: nat)
      requires Sized() && j < HISTORY_MAX && cmdLen < CMD_BUFFER_SIZE && cmdBuffer[cmdLen] == '\0' && Line(cmdBuffer[..cmdLen])
      modifies history
      ensures Row(j, cmdBuffer[..cmdLen])
      ensures forall i, k :: 0 <= i < HISTORY_MAX && i != j && 0 <= k < CMD_BUFFER_SIZE ==> history[i, k] == old(history[i, k])
    {
      var n := 0;
      while n <= cmdLen
        invariant 0 <= n <= cmdLen + 1
        invariant forall k :: 0 <= k < n ==> history[j, k] == cmdBuffer[k]
        invariant forall i, k :: 0 <= i < HISTORY_MAX && i != j && 0 <= k < CMD_BUFFER_SIZE ==> history[i, k] == old(history[i, k])
      {
        history[j, n] := cmdBuffer[n];
        n := n + 1;
      }
    }

    /** The inner loop of the shift: row `j + 1` is copied onto row `j`, up to its NUL. */
    method CopyRow(j: nat, ghost s: string)
      requires Sized() && j + 1 < HISTORY_MAX && Row(j + 1, s)
      modifies history
      ensures Row(j, s)
      ensures forall i, k :: 0 <= i < HISTORY_MAX && i != j && 0 <= k < CMD_BUFFER_SIZE ==> history[i, k] == old(history[i, k])
    {
      var k := 0;
      while history[j + 1, k] != '\0'
        invariant 0 <= k <= |s| && Row(j + 1, s)
        invariant forall x :: 0 <= x < k ==> history[j, x] == s[x]
        invariant forall i, x :: 0 <= i < HISTORY_MAX && i != j && 0 <= x < CMD_BUFFER_SIZE ==> history[i, x] == old(history[i, x])
        decreases |s| - k
      {
        history[j, k] := history[j + 1, k];
        k := k + 1;
      }
      history[j, k] := '\0';
    }

    /** The shift of a full history: every row moves down by one. */
    method ShiftRows(ghost rows: seq<string>)
      requires Sized() && |rows| == HISTORY_MAX && forall j :: 0 <= j < HISTORY_MAX ==> Row(j, rows[j])
      modifies history
      ensures forall j :: 0 <= j < HISTORY_MAX - 1 ==> Row(j, rows[1..][j])
    {
      for j := 0 to HISTORY_MAX - 1
        invariant forall i :: 0 <= i < j ==> Row(i, rows[1..][i])
        invariant forall i :: j <= i < HISTORY_MAX ==> Row(i, rows[i])
      {
        CopyRow(j, rows[j + 1]);
      }
    }

    /** The history update of the Enter key. */
    method Remember()
      requires Sized() && 0 < cmdLen < CMD_BUFFER_SIZE && cmdBuffer[cmdLen] == '\0' && Line(cmdBuffer[..cmdLen])
      requires historyCount == |hist| <= HISTORY_MAX && forall j :: 0 <= j < historyCount ==> Row(j, hist[j])
      modifies this`historyCount, this`hist, history
      ensures hist == Push(old(hist), cmdBuffer[..cmdLen])
      ensures historyCount == |hist| && forall j :: 0 <= j < historyCount ==> Row(j, hist[j])
    {
      ghost var line := cmdBuffer[..cmdLen];
      if historyCount < HISTORY_MAX {
        StoreRow(historyCount);
        historyCount := historyCount + 1;
      } else {
        ShiftRows(hist);
        StoreRow(HISTORY_MAX - 1);
      }
      hist := Push(hist, line);
    }

    /** What the Enter branch does before it runs the command, the echo excepted. */
    method TakeCommand()
      requires Sized() && cmdLen < CMD_BUFFER_SIZE && Inv(Ed())
      requires historyCount == |hist| && forall j :: 0 <= j < historyCount ==> Row(j, hist[j])
      modifies this`historyCount, this`historyIndex, this`hist, cmdBuffer, history
      ensures cmdBuffer[..cmdLen] == old(cmdBuffer[..cmdLen])
      ensures hist == Submit(old(Ed())).hist && historyIndex == historyCount
      ensures historyCount == |hist| && forall j :: 0 <= j < historyCount ==> Row(j, hist[j])
    {
      ghost var line := cmdBuffer[..cmdLen];
      cmdBuffer[cmdLen] := '\0';
      assert cmdBuffer[..cmdLen] == line;
      if cmdLen > 0 {
        Remember();
      }
      historyIndex := historyCount;
    }

    /** The Enter branch of the handler. `shell` is the screen `execute_command` leaves behind. */
    method Enter(shell: Screen)
      requires Valid()
      modifies this, cmdBuffer, history
      ensures Valid() && Ed() == Submit(old(Ed()))
      ensures screen == PutText(shell, "OS> ") && prompt == screen.loc
    {
      ghost var ed := Ed();
      SubmitInv(ed);
      Kprint("\n");
      TakeCommand();
      screen := shell;
      cmdLen := 0;
      Kprint(PROMPT);
      NewPrompt();
    }

    /** From here on the screen shows an empty line behind a fresh prompt. */
    ghost method NewPrompt()
      requires Sized() && cmdLen == 0 && Inv(Ed())
      requires historyCount == |hist| && forall j :: 0 <= j < historyCount ==> Row(j, hist[j])
      modifies this`prompt, this`high, this`before
      ensures Valid() && prompt == screen.loc && before == screen.cells
    {
      prompt, high, before := screen.loc, 0, screen.cells;
      FreshPrompt(screen);
      assert cmdBuffer[..cmdLen] == "";
    }

    /** The part of `keyboard_handler_main` that follows the lookup in the keyboard map. */
    method OnChar(chr: char, shell: Screen)
      requires Valid()
      modifies this, cmdBuffer, history
      ensures Valid() && Ed() == CharKey(old(Ed()), chr)
      ensures chr != '\n' ==> prompt == old(prompt) && before == old(before) && high >= old(high)
      ensures chr == '\n' ==> screen == PutText(shell, "OS> ") && prompt == screen.loc
    {
      if ctrlPressed {
        if chr == 'w' || chr == 'W' {
          BackspaceWord();
          return;
        }
        if chr == 'p' || chr == 'P' {
          DoHistoryUp();
          return;
        }
      }
      if chr == '\n' {
        Enter(shell);
      } else if chr == BACKSPACE {
        if cmdLen > 0 {
          EraseOne();
        }
      } else if chr != '\0' {
        if cmdLen < CMD_BUFFER_SIZE - 1 {
          AppendOne(chr);
        }
      }
    }

    /** The part of `keyboard_handler_main` for a code that follows 0xE0. */
    method OnPrefixed(keycode: u8)
      requires Valid() && e0Pressed && keycode != 0xE0
      modifies this`cmdLen, this`screen, this`high, this`historyIndex, this`e0Pressed, cmdBuffer
      ensures Valid() && Ed() == Key(old(Ed()), keycode) && high >= old(high)
    {
      e0Pressed := false;
      if keycode >= 0x80 {
        return;
      }
      if keycode == 0x48 {
        DoHistoryUp();
        return;
      }
      if keycode == 0x50 {
        DoHistoryDown();
        return;
      }
    }

    /** `keyboard_handler_main` for a status register with its data bit set: one scan code. */
    method KeyboardHandlerMain(status: u8, keycode: u8, shell: Screen)
      requires Valid()
      modifies this, cmdBuffer, history
      ensures Valid()
      ensures Ed() == if status % 2 == 1 then Key(old(Ed()), keycode) else old(Ed())
      ensures status % 2 == 0 || !Entered(old(Ed()), keycode) ==>
                prompt == old(prompt) && before == old(before) && high >= old(high)
      ensures status % 2 == 1 && Entered(old(Ed()), keycode) ==> screen == PutText(shell, "OS> ") && prompt == screen.loc
    {
      if status % 2 == 0 {
        return;
      }
      if keycode == 0xE0 {
        e0Pressed := true;
        return;
      }
      if e0Pressed {
        OnPrefixed(keycode);
        return;
      }
      if keycode == 0x1D {
        ctrlPressed := true;
        return;
      }
      if keycode == 0x9D {
        ctrlPressed := false;
        return;
      }
      if keycode == 0x2A || keycode == 0x36 {
        shiftPressed := true;
        return;
      }
      if keycode == 0xAA || keycode == 0xB6 {
        shiftPressed := false;
        return;
      }
      if keycode >= 0x80 {
        return;
      }
      var chr := KeyChar(keycode, shiftPressed);
      OnChar(chr, shell);
    }
  }
}
