/** The editor state: the line buffer and the cursor, the open and save
    paths over the buffer, cursor movement and the key dispatch. */
module EditorCore {
  import opened LineBuffer
  import opened KeyDecoder

  /** The code a key pressed together with Ctrl sends: its low five bits. */
  function CtrlKey(k: Byte): (c: int)
    ensures c == k % 0x20
  {
    ((k as bv8) & 0x1f) as int
  }

  const QuitKey: int := CtrlKey('c' as int)
  const SaveKey: int := CtrlKey('s' as int)

  /** What the key dispatch does with a decoded key. */
  datatype Command = Quit | SaveFile | Move | Ignore

  function CommandFor(key: int): Command
  {
    if key == QuitKey then Quit
    else if key == SaveKey then SaveFile
    else if key == ArrowUp || key == ArrowDown || key == ArrowLeft || key == ArrowRight then Move
    else Ignore
  }

  /** What one pass of the key loop ends in. */
  datatype Outcome =
    | Blocked                   // no key could be read yet: the editor waits
    | Continue                  // the key was handled (or ignored)
    | Exit                      // Ctrl-C: the process ends
    | Wrote(bytes: seq<Byte>)   // Ctrl-S: these bytes go to the file

  datatype Cursor = Cursor(x: int, y: int)

  /** The length of row `y`, or 0 when there is no such row. */
  function RowLengthAt(lines: seq<Line>, y: int): nat
  {
    if 0 <= y < |lines| then RowLength(lines[y]) else 0
  }

  /** The cursor sits on an existing row, at most one past its last byte;
      with no rows it sits at the origin. */
  predicate InBounds(lines: seq<Line>, c: Cursor)
  {
    if lines == [] then c == Cursor(0, 0)
    else 0 <= c.y < |lines| && 0 <= c.x <= RowLength(lines[c.y])
  }

  /** The arrow step of one key, with its bounds checks. */
  function Stepped(lines: seq<Line>, c: Cursor, key: int): Cursor
    requires 0 <= c.y
  {
    if key == ArrowLeft then (if c.x != 0 then c.(x := c.x - 1) else c)
    else if key == ArrowRight then
      (if c.x < LineSize && c.x < RowLengthAt(lines, c.y) then c.(x := c.x + 1) else c)
    else if key == ArrowUp then (if c.y != 0 then c.(y := c.y - 1) else c)
    else if key == ArrowDown then (if c.y < |lines| - 1 then c.(y := c.y + 1) else c)
    else c
  }

  /** The column clamped to the length of the cursor's row. */
  function Clamped(lines: seq<Line>, c: Cursor): Cursor
  {
    var len := RowLengthAt(lines, c.y);
    if c.x > len then c.(x := len) else c
  }

  /** The cursor after one key: the arrow step, then the column clamp. */
  function Moved(lines: seq<Line>, c: Cursor, key: int): Cursor
    requires 0 <= c.y
  {
    Clamped(lines, Stepped(lines, c, key))
  }

  /** Line::clear: zero all 80 slots. */
  method ClearLine(contents: array<Byte>)
    requires contents.Length == LineSize
    modifies contents
    ensures contents[..] == Blank
  {
    forall j | 0 <= j < LineSize {
      contents[j] := NUL;
    }
    assert contents[..] == Blank;
  }

  /** One byte stored into the scratch line. */
  method Store(contents: array<Byte>, col: int, c: Byte)
    requires 0 <= col < contents.Length
    modifies contents
    ensures contents[..] == old(contents[..])[col := c]
  {
    contents[col] := c;
  }

  class Editor {
    var cursorX: int
    var cursorY: int
    var lines: seq<Line>
    var fileName: string

    predicate Valid()
      reads this
    {
      InBounds(lines, Cursor(cursorX, cursorY))
    }

    constructor (fileName: string)
      ensures this.fileName == fileName
      ensures cursorX == 0 && cursorY == 0 && lines == []
      ensures Valid()
    {
      this.fileName := fileName;
      cursorX := 0;
      cursorY := 0;
      lines := [];
    }

    /** The parse loop of open_file: split the file content into stored lines. */
    method OpenFile(contents: seq<Byte>)
      modifies this`lines
      ensures lines == Parse(contents)
      ensures cursorX == 0 && cursorY == 0 ==> Valid()
    {
      var parsed: seq<Line> := [];
      var col := 0;
      var temp := new Byte[LineSize](_ => NUL);
      ghost var start: nat := 0;
      assert temp[..] == Blank;
      ScanStart(contents);
      for i := 0 to |contents|
        invariant InSegment(contents, i, start, col, temp[..])
        invariant ParsedUpTo(contents, start, parsed)
      {
        var c := contents[i];
        if col >= MaxContent && c != NL {
          ScanDrop(contents, i, start, col, temp[..]);
          continue;
        }
        ghost var scratch := temp[..];
        if c != NL {
          ScanKeep(contents, i, start, col, scratch);
          Store(temp, col, c);
          col := col + 1;
        } else {
          ScanNewline(contents, i, start, col, scratch, parsed);
          Store(temp, col, c);
          var line: Line := temp[..];
          parsed := parsed + [line];
          ClearLine(temp);
          col := 0;
          start := i + 1;
        }
      }
      ScanEnd(contents, start, col, temp[..], parsed);
      if col > 0 {
        Store(temp, col, NL);
        var line: Line := temp[..];
        parsed := parsed + [line];
      }
      lines := parsed;
    }

    /** save_buffer: the bytes written for the buffer, line by line. */
    method SaveBuffer() returns (written: seq<Byte>)
      ensures written == Save(lines)
    {
      written := [];
      for row := 0 to |lines|
        invariant written == Save(lines[..row])
      {
        var line := lines[row];
        ghost var before := written;
        var col := 0;
        while col < LineSize
          invariant 0 <= col <= LineSize
          invariant forall j :: 0 <= j < col ==> line[j] != NUL && line[j] != NL
          invariant written == before + line[..col]
        {
          var c := line[col];
          if c == NUL {
            break;
          }
          written := written + [c];
          assert line[..col + 1] == line[..col] + [c];
          if c == NL {
            break;
          }
          col := col + 1;
        }
        EmittedStop(line, col);
        SavePrefix(lines, row);
      }
      assert lines[..|lines|] == lines;
    }

    /** editor_move_cursor: one arrow step, then the column clamp. */
    method MoveCursor(key: int)
      requires 0 <= cursorY
      modifies this`cursorX, this`cursorY
      ensures Cursor(cursorX, cursorY) == Moved(lines, Cursor(old(cursorX), old(cursorY)), key)
      ensures old(Valid()) ==> Valid()
    {
      ghost var c0 := Cursor(cursorX, cursorY);
      ghost var valid0 := InBounds(lines, c0);
      var x, y := cursorX, cursorY;
      var rowLen := RowLengthAt(lines, y);
      if key == ArrowLeft {
        if x != 0 {
          x := x - 1;
        }
      } else if key == ArrowRight {
        if x < LineSize && x < rowLen {
          x := x + 1;
        }
      } else if key == ArrowUp {
        if y != 0 {
          y := y - 1;
        }
      } else if key == ArrowDown {
        if y < |lines| - 1 {
          y := y + 1;
        }
      }
      assert Cursor(x, y) == Stepped(lines, c0, key);
      var newRowLen := RowLengthAt(lines, y);
      if x > newRowLen {
        x := newRowLen;
      }
      MovePreservesBounds(lines, c0, key);
      assert valid0 ==> InBounds(lines, Cursor(x, y));
      cursorX, cursorY := x, y;
    }

    /** editor_process_key_pressed after the key is read: quit, save, move or nothing. */
    method ProcessKey(key: int) returns (outcome: Outcome)
      requires 0 <= cursorY
      modifies this`cursorX, this`cursorY
      ensures lines == old(lines)
      ensures CommandFor(key) == Move ==>
        outcome == Continue && Cursor(cursorX, cursorY) == Moved(lines, Cursor(old(cursorX), old(cursorY)), key)
      ensures CommandFor(key) != Move ==> cursorX == old(cursorX) && cursorY == old(cursorY)
      ensures CommandFor(key) == Quit ==> outcome == Exit
      ensures CommandFor(key) == SaveFile ==> outcome == Wrote(Save(lines))
      ensures CommandFor(key) == Ignore ==> outcome == Continue
      ensures old(Valid()) ==> Valid()
    {
      match CommandFor(key)
      case Quit =>
        outcome := Exit;
      case SaveFile =>
        var bytes := SaveBuffer();
        outcome := Wrote(bytes);
      case Move =>
        MoveCursor(key);
        outcome := Continue;
      case Ignore =>
        outcome := Continue;
    }

    /** editor_process_key_pressed: read one key from the terminal's read
        results, then dispatch it. */
    method ProcessKeyPressed(input: seq<ReadResult>) returns (outcome: Outcome, consumed: nat)
      requires 0 <= cursorY
      modifies this`cursorX, this`cursorY
      ensures lines == old(lines)
      ensures DecodeKey(input) == Pending ==>
        outcome == Blocked && consumed == 0 && cursorX == old(cursorX) && cursorY == old(cursorY)
      ensures DecodeKey(input).Key? ==> consumed == DecodeKey(input).consumed
      ensures DecodeKey(input).Key? && CommandFor(DecodeKey(input).code) == Move ==>
        Cursor(cursorX, cursorY) == Moved(lines, Cursor(old(cursorX), old(cursorY)), DecodeKey(input).code)
      ensures DecodeKey(input).Key? && CommandFor(DecodeKey(input).code) != Move ==>
        cursorX == old(cursorX) && cursorY == old(cursorY)
      ensures DecodeKey(input).Key? && CommandFor(DecodeKey(input).code) == Quit ==> outcome == Exit
      ensures DecodeKey(input).Key? && CommandFor(DecodeKey(input).code) == SaveFile ==>
        outcome == Wrote(Save(lines))
      ensures DecodeKey(input).Key? && CommandFor(DecodeKey(input).code) in {Move, Ignore} ==>
        outcome == Continue
      ensures old(Valid()) ==> Valid()
    {
      var d := ReadKey(input);
      if d.Pending? {
        return Blocked, 0;
      }
      outcome := ProcessKey(d.code);
      consumed := d.consumed;
    }
  }

  // ---------------------------------------------------------------------
  // Lemmas

  /** The key bindings: Ctrl-C (0x03) quits, Ctrl-S (0x13) saves, the four
      arrow codes move the cursor, and every other key does nothing. */
  lemma KeyBindings(key: int)
    ensures QuitKey == 0x03 && SaveKey == 0x13
    ensures CommandFor(key) == Quit <==> key == 0x03
    ensures CommandFor(key) == SaveFile <==> key == 0x13
    ensures CommandFor(key) == Move <==> IsArrow(key)
    ensures CommandFor(key) == Ignore <==> key != 0x03 && key != 0x13 && !IsArrow(key)
  {
    assert ('c' as int as bv8) & 0x1f == 0x03;
    assert ('s' as int as bv8) & 0x1f == 0x13;
  }

  /** Printable characters are ignored: this editor inserts nothing. */
  lemma PrintableIgnored(b: Byte)
    requires 0x20 <= b < 0x7f
    ensures CommandFor(Signed(b)) == Ignore
  {
    KeyBindings(Signed(b));
  }

  /** A cursor in bounds stays in bounds after any key. */
  lemma MovePreservesBounds(lines: seq<Line>, c: Cursor, key: int)
    requires 0 <= c.y
    ensures InBounds(lines, c) ==> InBounds(lines, Moved(lines, c, key))
  {
  }

  /** On a non-empty buffer, a cursor on an existing row at a non-negative
      column ends on an existing row within that row's length. */
  lemma MoveRestoresBounds(lines: seq<Line>, c: Cursor, key: int)
    requires lines != [] && 0 <= c.y < |lines| && 0 <= c.x
    ensures var m := Moved(lines, c, key);
      0 <= m.y < |lines| && 0 <= m.x <= RowLength(lines[m.y])
  {
  }

  /** With an empty buffer the cursor ends in column 0. */
  lemma MoveOnEmpty(c: Cursor, key: int)
    requires 0 <= c.y && 0 <= c.x
    ensures Moved([], c, key).x == 0
  {
  }

  /** Left and right stay on the row: left stops at column 0, right stops at
      the row's length and does not wrap to the next row. */
  lemma MoveHorizontal(lines: seq<Line>, c: Cursor)
    requires lines != [] && InBounds(lines, c)
    ensures Moved(lines, c, ArrowLeft) == Cursor(if c.x == 0 then 0 else c.x - 1, c.y)
    ensures Moved(lines, c, ArrowRight) == Cursor(Min(c.x + 1, RowLength(lines[c.y])), c.y)
  {
  }

  /** Up and down change the row by exactly one unless at the top or bottom
      row, then clamp the column to the new row's length. */
  lemma MoveVertical(lines: seq<Line>, c: Cursor)
    requires lines != [] && 0 <= c.y < |lines| && 0 <= c.x
    ensures var up := if c.y == 0 then c.y else c.y - 1;
      Moved(lines, c, ArrowUp) == Cursor(Min(c.x, RowLength(lines[up])), up)
    ensures var down := if c.y == |lines| - 1 then c.y else c.y + 1;
      Moved(lines, c, ArrowDown) == Cursor(Min(c.x, RowLength(lines[down])), down)
  {
  }

  /** At the edges of the buffer left (column 0) and up (row 0) change nothing. */
  lemma MoveAtEdges(lines: seq<Line>, c: Cursor)
    requires lines != [] && InBounds(lines, c)
    ensures c.x == 0 ==> Moved(lines, c, ArrowLeft) == c
    ensures c.y == 0 ==> Moved(lines, c, ArrowUp) == c
    ensures c.x == RowLength(lines[c.y]) ==> Moved(lines, c, ArrowRight) == c
  {
  }

  /** Opening a file leaves a cursor at the origin in bounds of the parsed buffer. */
  lemma OriginInBounds(contents: seq<Byte>)
    ensures InBounds(Parse(contents), Cursor(0, 0))
  {
  }
}
