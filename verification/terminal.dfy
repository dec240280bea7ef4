/** The text screen as a window onto an unbounded transcript of 80-column rows. */
module Transcripts {

  /** All rows ever reached, one after the other, and the cursor's cell. */
  datatype Transcript = Transcript(cells: seq<char>, pos: nat)

  function BlankRow(): (r: seq<char>)
    ensures |r| == 80 && forall i | 0 <= i < 80 :: r[i] == ' '
  {
    seq(80, _ => ' ')
  }

  function Start(): Transcript {
    Transcript(BlankRow(), 0)
  }

  /** The first cell on the screen. */
  function Top(t: Transcript): nat {
    if |t.cells| <= 2000 then 0 else |t.cells| - 2000
  }

  /** Whole rows, and the cursor on the screen. */
  ghost predicate Ok(t: Transcript) {
    |t.cells| % 80 == 0 && Top(t) <= t.pos < |t.cells|
  }

  /** One more row when the cursor has run past the last one. */
  function Grown(cells: seq<char>, pos: nat): seq<char> {
    if pos == |cells| then cells + BlankRow() else cells
  }

  function Put(t: Transcript, c: char): Transcript
    requires t.pos < |t.cells|
  {
    if c == '\n' then
      var pos := (t.pos / 80 + 1) * 80;
      Transcript(Grown(t.cells, pos), pos)
    else Transcript(Grown(t.cells[t.pos := c], t.pos + 1), t.pos + 1)
  }

  /** The cell before the cursor is blanked, unless it has left the screen. */
  function Back(t: Transcript): Transcript
    requires t.pos < |t.cells|
  {
    if t.pos <= Top(t) then t else Transcript(t.cells[t.pos - 1 := ' '], t.pos - 1)
  }

  /** The i-th character of the screen: rows below the last one reached are blank. */
  function Screen(t: Transcript, i: nat): char {
    if Top(t) + i < |t.cells| then t.cells[Top(t) + i] else ' '
  }

  /** A row added below a full screen moves it up by one row. */
  lemma GrownScreen(t: Transcript, u: Transcript)
    requires |t.cells| % 80 == 0 && u.cells == t.cells + BlankRow()
    ensures forall i | 0 <= i < 2000 ::
              Screen(u, i) == if |t.cells| < 2000 then Screen(t, i) else if i < 1920 then Screen(t, i + 80) else ' '
  {
    assert |t.cells| < 2000 ==> |t.cells| <= 1920;
    forall i | 0 <= i < 2000
      ensures Screen(u, i) == if |t.cells| < 2000 then Screen(t, i) else if i < 1920 then Screen(t, i + 80) else ' '
    {
      if |t.cells| >= 2000 {
        assert Top(u) == Top(t) + 80;
      }
    }
  }

  /** The cursor's place on the screen, and where a new row begins. */
  lemma CursorPlace(t: Transcript, row: nat, column: nat)
    requires Ok(t) && column < 80 && Top(t) + row * 80 + column == t.pos
    ensures (t.pos / 80 + 1) * 80 == Top(t) + (row + 1) * 80
    ensures t.pos + 1 < |t.cells| || (t.pos + 1 == |t.cells| && column == 79)
  {
    var k := Top(t) / 80;
    assert Top(t) == 80 * k;
    assert t.pos == 80 * (k + row) + column;
    assert t.pos / 80 == k + row;
    var rows := |t.cells| / 80;
    assert |t.cells| == 80 * rows;
  }

  lemma PutOk(t: Transcript, c: char)
    requires Ok(t)
    ensures Ok(Put(t, c))
    ensures |Put(t, c).cells| == if Put(t, c).pos == |t.cells| then |t.cells| + 80 else |t.cells|
  {}

  lemma BackOk(t: Transcript)
    requires Ok(t)
    ensures Ok(Back(t))
  {}

  function Row(t: Transcript): nat {
    t.pos / 80
  }

  /** The number of rows is one more than the highest row that the cursor has been on. */
  lemma HighWater(t: Transcript, c: char)
    requires Ok(t)
    ensures |Put(t, c).cells| / 80 == if Row(Put(t, c)) >= |t.cells| / 80 then Row(Put(t, c)) + 1 else |t.cells| / 80
    ensures |Back(t).cells| / 80 == |t.cells| / 80 && Row(Back(t)) <= Row(t)
    ensures Row(t) < |t.cells| / 80
  {
    var rows := |t.cells| / 80;
    assert |t.cells| == 80 * rows;
    var p := Put(t, c);
    assert |p.cells| == |t.cells| || |p.cells| == 80 * (rows + 1);
  }

  /** A character put, or a backspace. */
  datatype Edit = PutChar(c: char) | Backspace

  function Edited(t: Transcript, e: Edit): Transcript
    requires Ok(t)
    ensures Ok(Edited(t, e))
  {
    match e
    case PutChar(c) =>
      PutOk(t, c);
      Put(t, c)
    case Backspace =>
      BackOk(t);
      Back(t)
  }

  function Play(t: Transcript, edits: seq<Edit>): Transcript
    requires Ok(t)
    ensures Ok(Play(t, edits))
    decreases |edits|
  {
    if edits == [] then t else Play(Edited(t, edits[0]), edits[1..])
  }

  function Max(a: nat, b: nat): nat {
    if a < b then b else a
  }

  /** The highest row that the cursor is on during the edits. */
  function Highest(t: Transcript, edits: seq<Edit>): nat
    requires Ok(t)
    decreases |edits|
  {
    if edits == [] then Row(t) else Max(Row(t), Highest(Edited(t, edits[0]), edits[1..]))
  }

  lemma EditedRows(t: Transcript, e: Edit)
    requires Ok(t)
    ensures |Edited(t, e).cells| / 80 == Max(|t.cells| / 80, Row(Edited(t, e)) + 1)
  {
    match e
    case PutChar(c) => HighWater(t, c);
    case Backspace => HighWater(t, ' ');
  }

  lemma WholeRows(t: Transcript)
    requires Ok(t)
    ensures |t.cells| == 80 * (|t.cells| / 80) && Row(t) < |t.cells| / 80
  {}

  lemma {:induction false} RowsReached(t: Transcript, edits: seq<Edit>)
    requires Ok(t)
    ensures |Play(t, edits).cells| == 80 * Max(|t.cells| / 80, Highest(t, edits) + 1)
    decreases |edits|
  {
    hide Edited, Ok, Row;
    WholeRows(t);
    if edits != [] {
      EditedRows(t, edits[0]);
      RowsReached(Edited(t, edits[0]), edits[1..]);
      HighestFirst(Edited(t, edits[0]), edits[1..]);
    }
  }

  lemma HighestFirst(t: Transcript, edits: seq<Edit>)
    requires Ok(t)
    ensures Highest(t, edits) >= Row(t)
  {}

  /** The screen begins 24 rows above the highest row that the cursor has ever been on, or at the
      first row. */
  lemma WindowPlace(edits: seq<Edit>)
    ensures Ok(Start())
    ensures Top(Play(Start(), edits)) ==
            80 * (if Highest(Start(), edits) <= 24 then 0 else Highest(Start(), edits) - 24)
  {
    RowsReached(Start(), edits);
  }

  function Write(t: Transcript, s: string): Transcript
    requires Ok(t)
    ensures Ok(Write(t, s))
    decreases |s|
  {
    if s == "" then t
    else
      PutOk(t, s[0]);
      Write(Put(t, s[0]), s[1..])
  }

  lemma CursorInside(t: Transcript)
    requires Ok(t)
    ensures t.pos < |t.cells|
  {}

  /** A character lands in the cursor's cell; nothing before it changes. */
  lemma PutLands(t: Transcript, c: char)
    requires Ok(t)
    ensures Ok(Put(t, c)) && Put(t, c).pos > t.pos && |Put(t, c).cells| >= |t.cells|
    ensures Put(t, c).cells[..t.pos] == t.cells[..t.pos]
    ensures c != '\n' ==> Put(t, c).pos == t.pos + 1 && Put(t, c).cells[t.pos] == c
  {
    PutOk(t, c);
  }

  /** Writing touches no cell before the cursor; text without line breaks appears as it is from the
      cursor on, wrapped into rows of 80. */
  lemma {:induction false} WriteAppears(t: Transcript, s: string)
    requires Ok(t)
    ensures |Write(t, s).cells| >= |t.cells| && Write(t, s).cells[..t.pos] == t.cells[..t.pos]
    ensures Write(t, s).pos >= t.pos
    ensures '\n' !in s ==> Write(t, s).pos == t.pos + |s| && Write(t, s).cells[t.pos..t.pos + |s|] == s
    decreases |s|
  {
    hide Put, Ok;
    CursorInside(t);
    if s != "" {
      PutLands(t, s[0]);
      var u := Put(t, s[0]);
      var w := Write(t, s);
      CursorInside(u);
      WriteAppears(u, s[1..]);
      CursorInside(w);
      assert w.cells[..t.pos] == w.cells[..u.pos][..t.pos] == u.cells[..u.pos][..t.pos] == u.cells[..t.pos];
      if '\n' !in s {
        assert w.cells[t.pos] == w.cells[..u.pos][t.pos] == u.cells[..u.pos][t.pos] == s[0];
        assert w.cells[t.pos..t.pos + |s|] == [w.cells[t.pos]] + w.cells[u.pos..u.pos + |s| - 1];
      }
    }
  }

  /** A line break takes the cursor to column 0 of the next row and changes no cell that is there. */
  lemma LineBreak(t: Transcript)
    requires Ok(t)
    ensures Put(t, '\n').pos % 80 == 0 && Put(t, '\n').pos / 80 == t.pos / 80 + 1
    ensures |t.cells| <= |Put(t, '\n').cells| && Put(t, '\n').cells[..|t.cells|] == t.cells
  {
    var next := t.pos / 80 + 1;
    assert next * 80 % 80 == 0 && next * 80 / 80 == next;
  }

  /** A backspace leaves the cursor on a blank cell and changes no other; the screen's first cell stops it. */
  lemma BackBlanks(t: Transcript)
    requires Ok(t)
    ensures t.pos == Top(t) ==> Back(t) == t
    ensures t.pos > Top(t) ==> Back(t).pos == t.pos - 1 && |Back(t).cells| == |t.cells|
    ensures t.pos > Top(t) ==>
              forall i | 0 <= i < |t.cells| :: Back(t).cells[i] == if i == t.pos - 1 then ' ' else t.cells[i]
  {}

  /** Nothing is shown from the cursor on. */
  predicate BlankAfter(t: Transcript) {
    forall i | t.pos <= i < |t.cells| :: t.cells[i] == ' '
  }

  lemma EditedBlank(t: Transcript, e: Edit)
    requires Ok(t) && BlankAfter(t)
    ensures BlankAfter(Edited(t, e))
  {}

  /** That is so from the empty screen on, whatever is put and taken back. */
  lemma {:induction false} PlayBlank(t: Transcript, edits: seq<Edit>)
    requires Ok(t) && BlankAfter(t)
    ensures BlankAfter(Play(t, edits))
    decreases |edits|
  {
    hide Edited, BlankAfter, Ok;
    if edits != [] {
      EditedBlank(t, edits[0]);
      PlayBlank(Edited(t, edits[0]), edits[1..]);
    }
  }

  lemma {:induction false} WriteBlank(t: Transcript, s: string)
    requires Ok(t) && BlankAfter(t)
    ensures BlankAfter(Write(t, s))
    decreases |s|
  {
    if s != "" {
      EditedBlank(t, PutChar(s[0]));
      WriteBlank(Put(t, s[0]), s[1..]);
    }
  }

  lemma {:induction false} WriteJoin(t: Transcript, a: string, b: string)
    requires Ok(t)
    ensures Write(t, a + b) == Write(Write(t, a), b)
    decreases |a|
  {
    if a == "" {
      assert a + b == b;
    } else {
      PutOk(t, a[0]);
      assert (a + b)[1..] == a[1..] + b;
      WriteJoin(Put(t, a[0]), a[1..], b);
    }
  }

  function Blanks(n: nat): (r: string)
    ensures |r| == n && forall i | 0 <= i < n :: r[i] == ' '
  {
    seq(n, _ => ' ')
  }

  /** The lines with a line break between each two. */
  function Joined(lines: seq<string>): string
    requires lines != []
  {
    if |lines| == 1 then lines[0] else lines[0] + "\n" + Joined(lines[1..])
  }

  predicate NoBreaks(lines: seq<string>) {
    lines != [] && forall i | 0 <= i < |lines| :: '\n' !in lines[i]
  }

  /** Every string is such lines joined. */
  lemma {:induction false} StringIsLines(s: string) returns (lines: seq<string>)
    ensures NoBreaks(lines) && Joined(lines) == s
    decreases |s|
  {
    if s == "" {
      lines := [""];
    } else {
      var rest := StringIsLines(s[1..]);
      if s[0] == '\n' {
        lines := [""] + rest;
        assert lines[1..] == rest;
      } else {
        lines := [[s[0]] + rest[0]] + rest[1..];
        assert lines[1..] == rest[1..];
      }
    }
  }

  /** The lines in rows of 80 from the given column on: the row in which a line ends is filled up
      with blanks, and the next line begins in the row below. */
  function Rendered(column: nat, lines: seq<string>): string
    requires lines != []
  {
    if |lines| == 1 then lines[0]
    else lines[0] + Blanks(80 - (column + |lines[0]|) % 80) + Rendered(0, lines[1..])
  }

  lemma LastLine(t: Transcript, line: string)
    requires Ok(t) && '\n' !in line
    ensures Write(t, line).cells[..Write(t, line).pos] == t.cells[..t.pos] + line
  {
    WriteAppears(t, line);
    var w := Write(t, line);
    assert w.cells[..w.pos] == w.cells[..t.pos] + w.cells[t.pos..w.pos];
  }

  /** One line of text and the break after it fill whole rows. */
  lemma LineWritten(t: Transcript, line: string)
    requires Ok(t) && BlankAfter(t) && '\n' !in line
    ensures var u := Put(Write(t, line), '\n');
            && Ok(u) && BlankAfter(u) && u.pos % 80 == 0
            && u.cells[..u.pos] == t.cells[..t.pos] + (line + Blanks(80 - (t.pos % 80 + |line|) % 80))
  {
    hide Put, Write, Blanks, BlankAfter;
    var w := Write(t, line);
    var u := Put(w, '\n');
    WriteAppears(t, line);
    LastLine(t, line);
    WriteBlank(t, line);
    PutOk(w, '\n');
    LineBreak(w);
    BreakBlank(w);
    NextRowAt(w.pos, t.pos, |line|, u.pos);
    RowFilled(w, u, w.cells[..w.pos]);
  }

  lemma BreakBlank(t: Transcript)
    requires Ok(t) && BlankAfter(t)
    ensures BlankAfter(Put(t, '\n'))
  {
    EditedBlank(t, PutChar('\n'));
  }

  lemma NextRowAt(p: nat, from: nat, n: nat, next: nat)
    requires p == from + n && next % 80 == 0 && next / 80 == p / 80 + 1
    ensures next - p == 80 - (from % 80 + n) % 80
  {
    var q := from / 80;
    assert from == 80 * q + from % 80;
    assert p % 80 == (from % 80 + n) % 80;
  }

  lemma RowFilled(w: Transcript, u: Transcript, shown: string)
    requires Ok(w) && u == Put(w, '\n') && BlankAfter(u) && BlankAfter(w) && u.pos <= |u.cells|
    requires shown == w.cells[..w.pos]
    ensures w.pos <= u.pos && u.cells[..u.pos] == shown + Blanks(u.pos - w.pos)
  {}

  /** For every text the rows written are its lines, wrapped at 80 columns; what was before the
      cursor stays, and nothing is shown after the text. */
  lemma {:induction false} LinesAppear(t: Transcript, lines: seq<string>)
    requires Ok(t) && BlankAfter(t) && NoBreaks(lines)
    ensures var w := Write(t, Joined(lines));
            && w.cells[..w.pos] == t.cells[..t.pos] + Rendered(t.pos % 80, lines)
            && BlankAfter(w)
    decreases |lines|
  {
    hide Put, BlankAfter, Blanks, Write;
    if |lines| == 1 {
      WriteAppears(t, lines[0]);
      WriteBlank(t, lines[0]);
      LastLine(t, lines[0]);
    } else {
      var u := Put(Write(t, lines[0]), '\n');
      LineWritten(t, lines[0]);
      LinesAppear(u, lines[1..]);
      WriteBreak(t, lines[0], Joined(lines[1..]));
      assert u.cells[..u.pos] + Rendered(0, lines[1..]) == t.cells[..t.pos] + Rendered(t.pos % 80, lines);
    }
  }

  lemma WriteBreak(t: Transcript, line: string, rest: string)
    requires Ok(t)
    ensures Ok(Put(Write(t, line), '\n'))
    ensures Write(t, line + "\n" + rest) == Write(Put(Write(t, line), '\n'), rest)
  {
    PutOk(Write(t, line), '\n');
    WriteJoin(t, line, "\n" + rest);
    assert line + "\n" + rest == line + ("\n" + rest);
    assert ("\n" + rest)[1..] == rest;
  }
}

/** `terminal.c` without its colours and cursor registers. */
module Terminals {
  import opened Transcripts

  class Terminal {
    const video: array<char>
    var row: nat
    var column: nat
    ghost var transcript: Transcript

    ghost predicate Valid()
      reads this, video
    {
      && video.Length == 2000 && Ok(transcript)
      && row < 25 && column < 80 && Top(transcript) + row * 80 + column == transcript.pos
      && forall i | 0 <= i < 2000 :: video[i] == Screen(transcript, i)
    }

    constructor (video: array<char>)
      requires video.Length == 2000
      modifies video
      ensures this.video == video && Valid() && transcript == Start()
    {
      this.video, row, column := video, 0, 0;
      transcript := Start();
      new;
      Reset();
    }

    /** The cells of the screen before the cursor are the last ones of the transcript before its cursor,
        and the rest is blank if nothing follows there. */
    lemma Shows()
      requires Valid()
      ensures row * 80 + column <= transcript.pos < |transcript.cells|
      ensures forall i | 0 <= i < row * 80 + column ::
                video[i] == transcript.cells[transcript.pos - (row * 80 + column) + i]
      ensures BlankAfter(transcript) ==> forall i | row * 80 + column <= i < 2000 :: video[i] == ' '
    {}

    /** `terminal_initialize` */
    method Reset()
      requires video.Length == 2000
      modifies this, video
      ensures Valid() && transcript == Start()
      ensures row == 0 && column == 0 && forall i | 0 <= i < 2000 :: video[i] == ' '
    {
      row := 0;
      column := 0;
      Clear();
      transcript := Start();
    }

    /** `clear` */
    method Clear()
      requires video.Length == 2000
      modifies video
      ensures forall i | 0 <= i < 2000 :: video[i] == ' '
    {
      for i := 0 to 2000
        invariant forall k | 0 <= k < i :: video[k] == ' '
      {
        video[i] := ' ';
      }
    }

    /** The loops of `scroll`: all rows move up by one, the last one is cleared. */
    method Scroll()
      requires video.Length == 2000 && row <= 25
      modifies this`row, video
      ensures row == if old(row) < 25 then old(row) else 24
      ensures old(row) < 25 ==> forall i | 0 <= i < 2000 :: video[i] == old(video[i])
      ensures old(row) == 25 ==> forall i | 0 <= i < 2000 :: video[i] == if i < 1920 then old(video[i + 80]) else ' '
    {
      if row < 25 {
        return;
      }
      for y := 1 to 25
        invariant forall i | 0 <= i < 2000 :: video[i] == if i < (y - 1) * 80 then old(video[i + 80]) else old(video[i])
      {
        for x := 0 to 80
          invariant forall i | 0 <= i < 2000 ::
                      video[i] == if i < (y - 1) * 80 + x then old(video[i + 80]) else old(video[i])
        {
          video[(y - 1) * 80 + x] := video[y * 80 + x];
        }
      }
      for x := 0 to 80
        invariant forall i | 0 <= i < 2000 ::
                    video[i] == if i < 1920 then old(video[i + 80]) else if i < 1920 + x then ' ' else old(video[i])
      {
        video[24 * 80 + x] := ' ';
      }
      row := 24;
    }

    /** `column = 0; row++; scroll()` */
    method NextRow()
      requires video.Length == 2000 && |transcript.cells| % 80 == 0 && row < 25
      requires Top(transcript) + row * 80 < |transcript.cells|
      requires forall i | 0 <= i < 2000 :: video[i] == Screen(transcript, i)
      modifies this, video
      ensures Valid() && transcript.pos == Top(old(transcript)) + (old(row) + 1) * 80
      ensures transcript.cells == Grown(old(transcript).cells, transcript.pos)
    {
      ghost var t := transcript;
      ghost var p := Top(t) + (row + 1) * 80;
      column := 0;
      row := row + 1;
      Scroll();
      transcript := Transcript(Grown(t.cells, p), p);
      if p == |t.cells| {
        GrownScreen(t, transcript);
      }
    }

    /** `terminal_putchar_locked_nocursor` */
    method PutChar(c: char)
      requires Valid()
      modifies this, video
      ensures Valid() && transcript == Put(old(transcript), c)
    {
      CursorPlace(transcript, row, column);
      if c == '\n' {
        NextRow();
        return;
      }
      video[row * 80 + column] := c;
      transcript := transcript.(cells := transcript.cells[transcript.pos := c]);
      column := column + 1;
      if column >= 80 {
        NextRow();
      } else {
        transcript := transcript.(pos := transcript.pos + 1);
      }
    }

    /** `terminal_backspace` */
    method Backspace()
      requires Valid()
      modifies this, video
      ensures Valid() && transcript == Back(old(transcript))
    {
      BackOk(transcript);
      if column == 0 && row == 0 {
        return;
      }
      if column > 0 {
        column := column - 1;
      } else {
        row := row - 1;
        column := 79;
      }
      video[row * 80 + column] := ' ';
      transcript := Back(transcript);
    }

    /** `terminal_write` */
    method WriteString(s: string)
      requires Valid()
      modifies this, video
      ensures Valid() && transcript == Write(old(transcript), s)
    {
      var i := 0;
      while i < |s|
        invariant i <= |s| && Valid()
        invariant Write(old(transcript), s) == Write(transcript, s[i..])
      {
        assert s[i..][1..] == s[i + 1..];
        PutChar(s[i]);
        i := i + 1;
      }
    }
  }
}
