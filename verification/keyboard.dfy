/** The line editor of the keyboard handler, echoing through the terminal. */
module Keyboard {
  import opened Transcripts
  import opened Terminals

  const INPUT_SIZE: nat := 128

  /** `normal_table` and `shift_table`, a row of keys at a time. */
  function KeyRow(row: nat, shift: bool): (keys: string)
    requires row < 4
    ensures |keys| == if row == 0 then 16 else 14
  {
    if shift then
      if row == 0 then "\0\U{1B}!@#$%^&*()_+\U{8}\t"
      else if row == 1 then "QWERTYUIOP{}\n\0"
      else if row == 2 then "ASDFGHJKL:\"~\0|"
      else "ZXCVBNM<>?\0*\0 "
    else
      if row == 0 then "\0\U{1B}1234567890-=\U{8}\t"
      else if row == 1 then "qwertyuiop[]\n\0"
      else if row == 2 then "asdfghjkl;'`\0\\"
      else "zxcvbnm,./\0*\0 "
  }

  /** Codes from 58 on have no character. */
  function Lookup(scancode: nat, shift: bool): char {
    if scancode < 16 then KeyRow(0, shift)[scancode]
    else if scancode < 30 then KeyRow(1, shift)[scancode - 16]
    else if scancode < 44 then KeyRow(2, shift)[scancode - 30]
    else if scancode < 58 then KeyRow(3, shift)[scancode - 44]
    else '\0'
  }

  /** The keys of the letters from a to z, and of the digits from 0 to 9. */
  function LetterKey(i: nat): (scancode: nat)
    requires i < 26
  {
    [30, 48, 46, 32, 18, 33, 34, 35, 23, 36, 37, 38, 50, 49, 24, 25, 16, 19, 31, 20, 22, 47, 17, 45, 21, 44][i]
  }

  function DigitKey(d: nat): nat
    requires d < 10
  {
    if d == 0 then 11 else d + 1
  }

  /** The tables are found back from the characters: small letters and digits without shift, capital
      letters with it. */
  lemma LettersFound(i: nat)
    requires i < 26
    ensures Lookup(LetterKey(i), false) == 'a' + i as char && Lookup(LetterKey(i), true) == 'A' + i as char
  {
    var keys := [30, 48, 46, 32, 18, 33, 34, 35, 23, 36, 37, 38, 50, 49, 24, 25, 16, 19, 31, 20, 22, 47, 17, 45, 21,
                 44];
    assert LetterKey(i) == keys[i];
  }

  lemma DigitsFound(d: nat)
    requires d < 10
    ensures Lookup(DigitKey(d), false) == '0' + d as char
  {}

  const BACKSPACE: char := '\U{8}'

  /** The character of a key, after the two caps-lock adjustments. */
  function Decode(scancode: nat, shift: bool, capsLock: bool): char {
    var c := Lookup(scancode, shift);
    var d := if capsLock && 'a' <= c <= 'z' then c - ('a' - 'A') else c;
    if capsLock && !shift && 'A' <= d <= 'Z' then d + ('a' - 'A') else d
  }

  predicate NoneOf(keys: string, low: char, high: char) {
    forall i | 0 <= i < |keys| :: !(low <= keys[i] <= high)
  }

  /** No capital letter without shift. */
  lemma SmallRow(row: nat)
    requires row < 4
    ensures NoneOf(KeyRow(row, false), 'A', 'Z')
  {
    if row == 0 {
    } else if row == 1 {
    } else if row == 2 {
    }
  }

  /** No small letter with shift. */
  lemma CapitalRow(row: nat)
    requires row < 4
    ensures NoneOf(KeyRow(row, true), 'a', 'z')
  {
    if row == 0 {
    } else if row == 1 {
    } else if row == 2 {
    }
  }

  /** Caps lock changes no key: without shift the second adjustment undoes the first. */
  lemma CapsLockIdle(scancode: nat, shift: bool)
    ensures Decode(scancode, shift, true) == Decode(scancode, shift, false)
  {
    hide KeyRow;
    var row := if scancode < 16 then 0 else if scancode < 30 then 1 else if scancode < 44 then 2 else 3;
    SmallRow(row);
    CapitalRow(row);
  }

  /** What keyboard, line buffer and screen show, with the cell where the line began. */
  datatype Console = Console(t: Transcript, anchor: nat, text: string, shift: bool, capsLock: bool)

  /** The line is on the screen, from its first cell to the cursor, exactly as it is in the buffer. */
  ghost predicate Echoed(k: Console) {
    && Ok(k.t) && |k.text| < INPUT_SIZE && '\n' !in k.text
    && Top(k.t) <= k.anchor && k.anchor + |k.text| == k.t.pos
    && k.t.cells[k.anchor..k.t.pos] == k.text
  }

  /** What a command does to the screen: it may clear it, and prints. */
  datatype Reply = Reply(clears: bool, output: string)

  /** `execute_command` as far as the screen goes: what the command of a line does. */
  type Shell = string -> Reply

  /** The screen after Enter: the command prints on the row below, or on the cleared screen. */
  function Answered(t: Transcript, reply: Reply): (u: Transcript)
    requires Ok(t)
    ensures Ok(u)
  {
    PutOk(t, '\n');
    Write(if reply.clears then Start() else Put(t, '\n'), reply.output)
  }

  /** One key. On Enter the command runs, and a new line begins after its output. */
  function Typed(k: Console, c: char, shell: Shell): Console
    requires Ok(k.t)
  {
    if c == BACKSPACE then
      if k.text == "" then k else k.(t := Back(k.t), text := k.text[..|k.text| - 1])
    else if c == '\n' then
      var t := Answered(k.t, shell(k.text));
      k.(t := t, anchor := t.pos, text := "")
    else if c != '\0' && |k.text| < INPUT_SIZE - 1 then k.(t := Put(k.t, c), text := k.text + [c])
    else k
  }

  function Handled(k: Console, scancode: nat, shell: Shell): Console
    requires Ok(k.t)
  {
    if scancode >= 128 then
      if scancode - 128 == 42 || scancode - 128 == 54 then k.(shift := false) else k
    else if scancode == 42 || scancode == 54 then k.(shift := true)
    else if scancode == 58 then k.(capsLock := !k.capsLock)
    else Typed(k, Decode(scancode, k.shift, k.capsLock), shell)
  }

  lemma BackEchoed(k: Console)
    requires Echoed(k) && k.text != ""
    ensures Echoed(k.(t := Back(k.t), text := k.text[..|k.text| - 1]))
  {
    BackOk(k.t);
    var cells, p := k.t.cells, k.t.pos;
    assert cells[p - 1 := ' '][k.anchor..p - 1] == cells[k.anchor..p][..|k.text| - 1];
  }

  lemma PutEchoed(k: Console, c: char)
    requires Echoed(k) && c != '\n' && |k.text| < INPUT_SIZE - 1
    ensures Echoed(k.(t := Put(k.t, c), text := k.text + [c]))
  {
    PutOk(k.t, c);
    var cells, p := k.t.cells, k.t.pos;
    assert Put(k.t, c).cells[k.anchor..p + 1] == cells[k.anchor..p] + [c];
  }

  /** A line is shorter than the screen, so its start never scrolls away and every backspace finds
      the character it takes out of the buffer. */
  lemma TypedEchoed(k: Console, c: char, shell: Shell)
    requires Echoed(k)
    ensures Echoed(Typed(k, c, shell))
  {
    hide Put, Back;
    if c == BACKSPACE && k.text != "" {
      BackEchoed(k);
    } else if c != BACKSPACE && c != '\n' && c != '\0' && |k.text| < INPUT_SIZE - 1 {
      PutEchoed(k, c);
    }
  }

  /** A scancode, and what commands do by then. */
  datatype Key = Key(scancode: nat, shell: Shell)

  /** The console after the keys of a run. */
  function Session(k: Console, keys: seq<Key>): Console
    requires Echoed(k)
    ensures Echoed(Session(k, keys))
    decreases |keys|
  {
    if keys == [] then k
    else
      var last := keys[|keys| - 1];
      var u := Session(k, keys[..|keys| - 1]);
      TypedEchoed(u, Decode(last.scancode, u.shift, u.capsLock), last.shell);
      Handled(u, last.scancode, last.shell)
  }

  /** Just before key i a shift key has been pressed with no release of one since. */
  predicate ShiftDown(keys: seq<Key>, i: nat)
    requires i <= |keys|
  {
    exists j | 0 <= j < i ::
      && (keys[j].scancode == 42 || keys[j].scancode == 54)
      && forall m | j < m < i :: keys[m].scancode != 170 && keys[m].scancode != 182
  }

  /** The characters of the keys, by the two tables; modifier keys and releases have code 0. */
  function Chars(keys: seq<Key>): string {
    seq(|keys|, i requires 0 <= i < |keys| => Lookup(keys[i].scancode, ShiftDown(keys, i)))
  }

  /** A line after one more character: a backspace drops the last one, Enter starts over, code 0
      does nothing, and 127 characters are all it holds. */
  function After(line: string, c: char): string {
    if c == '\U{8}' then (if line == "" then "" else line[..|line| - 1])
    else if c == '\n' then ""
    else if c == '\0' || |line| >= 127 then line
    else line + [c]
  }

  function Line(chars: string): (line: string)
    ensures |line| <= 127
  {
    if chars == "" then "" else After(Line(chars[..|chars| - 1]), chars[|chars| - 1])
  }

  lemma LineStep(chars: string, c: char)
    ensures Line("") == "" && Line(chars + [c]) == After(Line(chars), c)
  {
    assert (chars + [c])[..|chars|] == chars;
  }

  /** Plain characters stand as they are typed. */
  lemma {:induction false} PlainLine(chars: string)
    requires |chars| <= 127 && forall i | 0 <= i < |chars| :: chars[i] !in ['\U{8}', '\n', '\0']
    ensures Line(chars) == chars
  {
    if chars != "" {
      PlainLine(chars[..|chars| - 1]);
    }
  }

  /** A backspace undoes the character before it, unless the line was full. */
  lemma BackspaceUndoes(chars: string, c: char)
    requires c !in ['\U{8}', '\n', '\0'] && |Line(chars)| < 127
    ensures Line(chars + [c, '\U{8}']) == Line(chars)
  {
    hide Line;
    LineStep(chars, c);
    LineStep(chars + [c], '\U{8}');
    assert chars + [c, '\U{8}'] == chars + [c] + ['\U{8}'];
  }

  /** Shift after one more key. */
  lemma ShiftStep(keys: seq<Key>, i: nat)
    requires i < |keys|
    ensures keys[i].scancode == 42 || keys[i].scancode == 54 ==> ShiftDown(keys, i + 1)
    ensures keys[i].scancode == 170 || keys[i].scancode == 182 ==> !ShiftDown(keys, i + 1)
    ensures keys[i].scancode !in [42, 54, 170, 182] ==> ShiftDown(keys, i + 1) == ShiftDown(keys, i)
  {
    if keys[i].scancode !in [42, 54, 170, 182] && ShiftDown(keys, i) {
      var j :| 0 <= j < i && (keys[j].scancode == 42 || keys[j].scancode == 54) &&
               forall m | j < m < i :: keys[m].scancode != 170 && keys[m].scancode != 182;
      assert forall m | j < m < i + 1 :: keys[m].scancode != 170 && keys[m].scancode != 182;
    }
    if keys[i].scancode !in [42, 54, 170, 182] && ShiftDown(keys, i + 1) {
      var j :| 0 <= j < i + 1 && (keys[j].scancode == 42 || keys[j].scancode == 54) &&
               forall m | j < m < i + 1 :: keys[m].scancode != 170 && keys[m].scancode != 182;
      assert forall m | j < m < i :: keys[m].scancode != 170 && keys[m].scancode != 182;
    }
  }

  lemma ShiftPrefix(keys: seq<Key>, n: nat, i: nat)
    requires i <= n <= |keys|
    ensures ShiftDown(keys[..n], i) == ShiftDown(keys, i)
  {
    if ShiftDown(keys, i) {
      var j :| 0 <= j < i && (keys[j].scancode == 42 || keys[j].scancode == 54) &&
               forall m | j < m < i :: keys[m].scancode != 170 && keys[m].scancode != 182;
      assert keys[..n][j] == keys[j];
    }
    if ShiftDown(keys[..n], i) {
      var j :| 0 <= j < i && (keys[..n][j].scancode == 42 || keys[..n][j].scancode == 54) &&
               forall m | j < m < i :: keys[..n][m].scancode != 170 && keys[..n][m].scancode != 182;
      assert forall m | j < m < i :: keys[m] == keys[..n][m];
    }
  }

  lemma CharsPrefix(keys: seq<Key>)
    requires keys != []
    ensures Chars(keys) == Chars(keys[..|keys| - 1]) + [Lookup(keys[|keys| - 1].scancode, ShiftDown(keys, |keys| - 1))]
  {
    forall i | 0 <= i < |keys| - 1 ensures ShiftDown(keys[..|keys| - 1], i) == ShiftDown(keys, i) {
      ShiftPrefix(keys, |keys| - 1, i);
    }
  }

  /** Modifier keys, releases and the keys past the tables have no character. */
  lemma NoCharacter(scancode: nat, shift: bool)
    requires scancode == 42 || scancode == 54 || scancode >= 58
    ensures Lookup(scancode, shift) == '\0'
  {}

  /** One key does to line and shift what its character by the tables says. */
  lemma HandledTypes(k: Console, scancode: nat, shell: Shell)
    requires Echoed(k)
    ensures var u, c := Handled(k, scancode, shell), Lookup(scancode, k.shift);
            && u.text == After(k.text, c)
            && u.shift == (scancode in [42, 54] || (k.shift && scancode !in [170, 182]))
            && (if c == '\n' then
                  u.t == Answered(k.t, shell(k.text)) && u.anchor == u.t.pos
                else u.anchor == k.anchor && u.t.cells[..k.anchor] == k.t.cells[..k.anchor])
  {
    hide KeyRow, Lookup, Answered;
    CapsLockIdle(scancode, k.shift);
    if scancode == 42 || scancode == 54 || scancode >= 58 {
      NoCharacter(scancode, k.shift);
    }
  }

  lemma HandledBlank(k: Console, scancode: nat, shell: Shell)
    requires Echoed(k) && BlankAfter(k.t)
    ensures BlankAfter(Handled(k, scancode, shell).t)
  {
    hide KeyRow, Decode, Answered, Put, Back, BlankAfter;
    EditedBlank(k.t, Backspace);
    EditedBlank(k.t, PutChar(Decode(scancode, k.shift, k.capsLock)));
    AnsweredBlank(k.t, shell(k.text));
  }

  lemma AnsweredBlank(t: Transcript, reply: Reply)
    requires Ok(t) && BlankAfter(t)
    ensures BlankAfter(Answered(t, reply))
  {
    PutOk(t, '\n');
    EditedBlank(t, PutChar('\n'));
    WriteBlank(if reply.clears then Start() else Put(t, '\n'), reply.output);
  }

  /** What a command prints are its lines from column 0 on: on a cleared screen from the first row
      on, else from the row after the cursor's on, with all that was shown above. */
  lemma AnsweredShows(t: Transcript, reply: Reply, lines: seq<string>)
    requires Ok(t) && BlankAfter(t) && NoBreaks(lines) && Joined(lines) == reply.output
    ensures var u := Answered(t, reply);
            && u.cells[..u.pos] == (if reply.clears then Rendered(0, lines)
                                    else t.cells[..t.pos] + Rendered(t.pos % 80, [""] + lines))
            && BlankAfter(u)
  {
    hide Put, Write, Rendered;
    AnsweredBlank(t, reply);
    if reply.clears {
      LinesAppear(Start(), lines);
    } else {
      var below := [""] + lines;
      assert below[1..] == lines && Joined(below) == "\n" + reply.output;
      WriteJoin(t, "\n", reply.output);
      WriteOne(t);
      LinesAppear(t, below);
    }
  }

  lemma WriteOne(t: Transcript)
    requires Ok(t)
    ensures Write(t, "\n") == Put(t, '\n')
  {
    PutOk(t, '\n');
    assert Write(Put(t, '\n'), "") == Put(t, '\n');
  }

  lemma NoKeys()
    ensures Chars([]) == "" && !ShiftDown([], 0)
  {}

  /** From an empty line with shift up, after any keys: the buffer is the line that the characters of
      the keys make, the screen shows it from its first cell to the cursor and nothing after it, and
      shift is on exactly while a shift key is down. Until Enter nothing before the line changes. */
  lemma {:induction false} SessionTypes(k: Console, keys: seq<Key>)
    requires Echoed(k) && BlankAfter(k.t) && k.text == "" && !k.shift
    ensures var u, line := Session(k, keys), Line(Chars(keys));
            && u.text == line && u.anchor + |line| == u.t.pos
            && u.t.cells[u.anchor..u.t.pos] == line && BlankAfter(u.t)
            && u.shift == ShiftDown(keys, |keys|)
            && ('\n' !in Chars(keys) ==> u.anchor == k.anchor && u.t.cells[..k.anchor] == k.t.cells[..k.anchor])
    decreases |keys|
  {
    hide Handled, After, Lookup, ShiftDown, BlankAfter, Chars;
    if keys == [] {
      NoKeys();
    } else {
      var n := |keys| - 1;
      var v := Session(k, keys[..n]);
      SessionTypes(k, keys[..n]);
      HandledTypes(v, keys[n].scancode, keys[n].shell);
      HandledBlank(v, keys[n].scancode, keys[n].shell);
      CharsPrefix(keys);
      LineStep(Chars(keys[..n]), Lookup(keys[n].scancode, ShiftDown(keys, n)));
      ShiftStep(keys, n);
      ShiftPrefix(keys, n, n);
    }
  }

  /** Enter runs the command of exactly the line typed: the lines it prints follow below that line, or
      stand alone on the cleared screen. */
  lemma EnterRuns(k: Console, keys: seq<Key>, enter: Key, lines: seq<string>)
    requires Echoed(k) && BlankAfter(k.t) && k.text == "" && !k.shift
    requires Lookup(enter.scancode, ShiftDown(keys, |keys|)) == '\n'
    requires NoBreaks(lines) && Joined(lines) == enter.shell(Line(Chars(keys))).output
    ensures var t, u := Session(k, keys).t, Session(k, keys + [enter]);
            && u.t.cells[..u.t.pos] == (if enter.shell(Line(Chars(keys))).clears then Rendered(0, lines)
                                        else t.cells[..t.pos] + Rendered(t.pos % 80, [""] + lines))
            && u.text == "" && u.anchor == u.t.pos && BlankAfter(u.t)
  {
    hide Handled, Lookup, ShiftDown, BlankAfter, Chars, Answered, Rendered, Joined, NoBreaks;
    SessionTypes(k, keys);
    assert (keys + [enter])[..|keys|] == keys;
    HandledTypes(Session(k, keys), enter.scancode, enter.shell);
    AnsweredShows(Session(k, keys).t, enter.shell(Line(Chars(keys))), lines);
  }

  class Editor {
    const screen: Terminal
    const input: array<char>
    var shift: bool
    var capsLock: bool
    var length: nat
    /** The cell where the line began. */
    ghost var anchor: nat

    ghost function Snapshot(): Console
      requires length <= input.Length
      reads this, screen, input
    {
      Console(screen.transcript, anchor, input[..length], shift, capsLock)
    }

    ghost predicate Valid()
      reads this, screen, screen.video, input
    {
      && screen.Valid() && input.Length == INPUT_SIZE && length < INPUT_SIZE && input != screen.video
      && Echoed(Snapshot())
    }

    constructor (screen: Terminal, input: array<char>)
      requires screen.Valid() && input.Length == INPUT_SIZE && input != screen.video
      ensures Valid() && this.screen == screen && this.input == input
      ensures Snapshot() == Console(screen.transcript, screen.transcript.pos, "", false, false)
    {
      this.screen, this.input := screen, input;
      shift, capsLock, length, anchor := false, false, 0, screen.transcript.pos;
    }

    /** The characters in the buffer are the last ones on the screen before the cursor. */
    lemma LineOnScreen()
      requires Valid()
      ensures length <= screen.row * 80 + screen.column
      ensures forall j | 0 <= j < length ::
                screen.video[screen.row * 80 + screen.column - length + j] == input[j]
    {
      screen.Shows();
      var t := screen.transcript;
      forall j | 0 <= j < length ensures t.cells[t.pos - length + j] == input[j] {
        assert input[..length][j] == t.cells[anchor..t.pos][j];
      }
    }

    /** `keyboard_handler` while the text shell owns the screen. */
    method Handle(scancode: nat, shell: Shell)
      requires Valid() && scancode < 256
      modifies this, input, screen, screen.video
      ensures Valid() && Snapshot() == Handled(old(Snapshot()), scancode, shell)
      ensures Snapshot().text == After(old(Snapshot()).text, Lookup(scancode, old(shift)))
    {
      hide Put, Back, Decode, Typed, Write, Screen, Lookup, After;
      HandledTypes(Snapshot(), scancode, shell);
      if scancode >= 128 {
        var key := scancode - 128;
        if key == 42 || key == 54 {
          shift := false;
        }
      } else if scancode == 42 || scancode == 54 {
        shift := true;
      } else if scancode == 58 {
        capsLock := !capsLock;
      } else {
        Type(Decode(scancode, shift, capsLock), shell);
      }
    }

    /** The handler from the backspace key on. */
    method Type(c: char, shell: Shell)
      requires Valid()
      modifies this, input, screen, screen.video
      ensures Valid() && Snapshot() == Typed(old(Snapshot()), c, shell)
      ensures Snapshot().text == After(old(Snapshot()).text, c)
    {
      hide Put, Back, Ok, Write, Screen, Top;
      ghost var k := Snapshot();
      TypedEchoed(k, c, shell);
      if c == BACKSPACE {
        if length > 0 {
          length := length - 1;
          screen.Backspace();
        }
        input[length] := '\0';
      } else if c == '\n' {
        screen.PutChar('\n');
        input[length] := '\0';
        var reply := shell(input[..length]);
        if reply.clears {
          screen.Reset();
        }
        screen.WriteString(reply.output);
        length := 0;
        anchor := screen.transcript.pos;
      } else if c != '\0' && length < INPUT_SIZE - 1 {
        input[length] := c;
        length := length + 1;
        screen.PutChar(c);
        assert input[..length] == k.text + [c];
      }
    }
  }
}
