# edi: a verified model of the editor core

`edi` is a small terminal text editor in one C++ file, `main.cpp`. This
project models the parts of it that are sequential logic and proves what
they do:

- the **line buffer** (`Line`, 80 zero-filled bytes per line);
- the **open-file parse loop**, which turns the file's bytes into lines;
- the **save loop**, which writes the lines back out as bytes;
- the **key decoder**, which reads one key from single-byte reads and
  recognises the `ESC [ A|B|C|D` arrow sequences;
- **cursor movement**, with its bounds checks and the column clamp;
- the **key dispatch**: Ctrl-C quits, Ctrl-S saves and the arrows move.

The code is split into three modules:

- `LineBuffer` (`line_buffer.dfy`) holds bytes, lines and the functions that
  specify the parser and the serialiser:
  - `Segments` splits the content at each newline;
  - `Parse` gives the stored line of each segment;
  - `Save` gives the bytes written;
  - `RowLength` gives the row length that the cursor logic measures.

  It also holds the lemmas about those functions, including the parse/save
  round trip.
- `KeyDecoder` (`key_decoder.dfy`) models what `read` returns as a sequence
  of results: a byte, nothing read (0), or an error (-1). `DecodeKey`
  specifies one key read. `ReadKey` is the retry loop and the escape
  lookahead, proved equal to it.
- `EditorCore` (`editor.dfy`) models the state the source updates in place:
  - The `Editor` class has the fields `cursorX`, `cursorY`, `lines` and
    `fileName`.
  - `OpenFile` is the parse loop. It runs over an 80-slot `array` scratch
    line, with a column counter and a growing list of lines, and is proved
    to leave `lines == Parse(contents)`.
  - `SaveBuffer` is the nested save loop with its early exits, proved to
    return exactly `Save(lines)`.
  - `MoveCursor` updates the two cursor fields and is proved equal to the
    cursor function `Moved`.
  - `ProcessKey` and `ProcessKeyPressed` are the dispatch.

Bytes are integers 0 to 255 (`Byte`). The source reads into a plain `char`
and returns it as an `int`. Where plain `char` is signed (as with g++ on
x86-64), a byte of 0x80 or more comes back negative; `Signed` models that
widening.

When the given read results run out, every further `read` is taken to
return 0. So a key read that finds no byte at all is `Pending`, which
stands for the editor going on waiting. An escape sequence whose lookahead
finds no byte ends as the ESC key, as it does in the source.

## Model

| member | source | states |
|---|---|---|
| EditorCore.Editor.constructor | main.cpp:62-66 | the file name is kept, the cursor starts at (0, 0) and the buffer is empty, which satisfies the cursor invariant |
| EditorCore.Store | main.cpp:95 | storing a byte into the scratch line changes slot `col` to that byte and no other slot |
| LineBuffer.RowLength | main.cpp:177-182 | the row length is the length of the line up to its first NUL (within the 80 slots), less one exactly when the byte before that NUL is a newline |
| EditorCore.CtrlKey | main.cpp:35 | the code sent for a key pressed with Ctrl is the key's value modulo 32, its low five bits |
| EditorCore.ClearLine | main.cpp:51-53 | after clearing, all 80 slots of the line are NUL |
| EditorCore.Editor.OpenFile | main.cpp:84-110 | the parse loop leaves the buffer equal to `Parse` of the file content; a cursor at the origin is then in bounds |
| LineBuffer.ScanKeep | main.cpp:94-97 | a non-newline byte read with fewer than 79 bytes kept goes into slot `col`, and `col` grows by one; the scratch line stays the kept bytes followed by NULs |
| LineBuffer.ScanDrop | main.cpp:90-92 | a non-newline byte read once 79 bytes are kept is dropped, and the scratch line and `col` stay the same |
| LineBuffer.ScanNewline | main.cpp:98-103 | a newline stored at `col` completes exactly the stored line of the current segment; that line is appended, and the scratch line is cleared with `col` reset to 0 |
| LineBuffer.ScanEnd | main.cpp:106-109 | at the end of the content, a non-empty unterminated last segment is stored with a newline added at `col`; an empty one adds no line |
| LineBuffer.SegmentsUnsplit | main.cpp:87-109 | the parser's segments are exactly the newline-delimited pieces of the content: joined back with a newline after each, they give the content, plus one newline when the content is non-empty and does not end in one |
| LineBuffer.ParseShape | main.cpp:87-109 | each stored line holds the first min(length, 79) bytes of its segment, then its first newline at that index (at most 79), then only NULs; bytes past column 79 are gone |
| LineBuffer.ParseCount | main.cpp:87-110 | the number of lines is the number of newlines in the content, plus one when the content is non-empty and its last byte is not a newline; an empty file gives no lines |
| EditorCore.Editor.SaveBuffer | main.cpp:116-123 | the nested save loop writes exactly `Save(lines)`: for each line in order, the bytes up to and including its newline, stopping before a NUL or after 80 slots |
| LineBuffer.EmittedStop | main.cpp:117-122 | the inner save loop stops before a NUL, just after a newline, or after all 80 slots, and in each case what it wrote is the line's saved bytes |
| LineBuffer.SavePrefix | main.cpp:116-123 | saving one more line appends exactly that line's saved bytes to what was written for the lines before it |
| LineBuffer.SaveParse | main.cpp:87-123 | for NUL-free content, saving the parsed buffer writes, for each segment in order, its first 79 bytes followed by a newline |
| LineBuffer.RoundTripExact | main.cpp:87-123 | for NUL-free content, save(parse(s)) equals s if and only if every segment is at most 79 bytes and s is empty or ends with a newline |
| LineBuffer.RoundTripAddsNewline | main.cpp:87-123 | for NUL-free content whose segments all fit but whose last byte is not a newline, save(parse(s)) is s with exactly one newline appended |
| LineBuffer.RowLengthOfLine | main.cpp:177-182 | for a stored line of NUL-free content, the row length is the number of kept bytes (at most 79), also for a 79-byte line with no NUL in its slots |
| LineBuffer.RowLengthBound | main.cpp:177-182 | every line the parser stores has a row length of at most 79, whether or not the file holds NUL bytes |
| LineBuffer.StrlenOverrun | main.cpp:179 | a segment of 79 bytes or more is stored with no NUL in any of the 80 slots, so the C string length of that line reads past the array |
| KeyDecoder.Signed | main.cpp:151 | a byte widened from a signed `char` lies in -128..127 and is congruent to the byte modulo 256 |
| KeyDecoder.ReadKey | main.cpp:149-174 | the retry loop and escape lookahead return exactly `DecodeKey` of the read results; a decoded key uses between 1 and all of them |
| KeyDecoder.DecodeConsumes | main.cpp:149-174 | every decoded key uses at least one and at most all of the read results |
| KeyDecoder.SkipsNoData | main.cpp:152-154 | reads that return 0 before a key are retried: n of them change nothing but add n to the results used |
| KeyDecoder.ErrorIsZero | main.cpp:152-153 | a read error where the first byte is expected gives key 0, using one result |
| KeyDecoder.ArrowSequences | main.cpp:157-169 | `ESC [ A`, `ESC [ B`, `ESC [ C` and `ESC [ D` decode to ARROW_UP 1002, ARROW_DOWN 1003, ARROW_RIGHT 1001 and ARROW_LEFT 1000, each using exactly three results |
| KeyDecoder.IncompleteEscape | main.cpp:157-160 | ESC whose two lookahead reads do not both return a byte decodes to ESC (0x1b) |
| KeyDecoder.UnknownEscape | main.cpp:162-170 | ESC followed by any two bytes other than `[` plus A to D decodes to ESC, and both bytes are used up |
| KeyDecoder.PlainByte | main.cpp:173 | any byte other than ESC is returned as its signed `char` value, using one result; that value is never an arrow code 1000..1003, and bytes of 0x80 or more come back as the byte minus 256 |
| KeyDecoder.DecodedRange | main.cpp:149-174 | every decoded key is an arrow code or a value in -128..127, and an arrow code is only ever read from the three results ESC, `[` and a letter A to D that end the results used |
| EditorCore.Editor.MoveCursor | main.cpp:176-216 | the new cursor is `Moved` of the old one: the arrow step with its bounds checks, then the column clamped to the new row's length; the buffer is unchanged, and a cursor in bounds stays in bounds |
| EditorCore.MovePreservesBounds | main.cpp:176-216 | for every key, a cursor on an existing row within that row's length (or at the origin of an empty buffer) stays so after the move |
| EditorCore.MoveRestoresBounds | main.cpp:176-216 | on a non-empty buffer, a cursor on an existing row at any non-negative column ends on an existing row, within that row's length |
| EditorCore.MoveOnEmpty | main.cpp:177-215 | with an empty buffer, the cursor ends in column 0 after any key |
| EditorCore.MoveHorizontal | main.cpp:185-194 | left decreases the column by one unless it is 0, and right increases it by one up to the row's length; neither changes the row or wraps to another row |
| EditorCore.MoveVertical | main.cpp:195-215 | up and down change the row by exactly one unless at the top or bottom row, then clamp the column to the new row's length |
| EditorCore.MoveAtEdges | main.cpp:185-198 | left in column 0, up on row 0 and right at the row's length change nothing |
| EditorCore.OriginInBounds | main.cpp:244-245 | opening a file leaves the constructor's origin cursor in bounds of whatever buffer the file parses to |
| EditorCore.KeyBindings | main.cpp:221-235 | Ctrl-C is 0x03 and Ctrl-S is 0x13. A key quits if and only if it is 0x03, saves if and only if it is 0x13, and moves if and only if it is one of the four arrow codes. Every other key does nothing |
| EditorCore.PrintableIgnored | main.cpp:221-235 | printable characters are ignored, because this editor inserts nothing |
| EditorCore.Editor.ProcessKey | main.cpp:221-235 | Ctrl-C exits, Ctrl-S produces exactly `Save(lines)` for the file, and an arrow moves the cursor as `Moved` says. Every other key changes nothing. The buffer never changes, and the cursor invariant is kept |
| EditorCore.Editor.ProcessKeyPressed | main.cpp:218-236 | one key is read and then dispatched. With no byte available the editor waits and changes nothing. Otherwise the results used are those of the decoded key: Ctrl-C exits, Ctrl-S produces exactly `Save(lines)`, an arrow moves the cursor as `Moved` says and every other key changes nothing, both continuing; the buffer never changes |

## Left out

- Raw terminal mode (`enableRawMode`, `disableRawMode` and the `atexit` hook, main.cpp:13-32) is left out: it is termios I/O and process-wide state.
- Rendering (`print_buffer`, main.cpp:127-147) is left out: it only writes ANSI escapes to the terminal. Its fixed gutter width of 5 (main.cpp:142) matches the `"N:   "` prefix only for line numbers 1 to 9, so the cursor shows one column off for each digit of the line number beyond the first. That is a display defect, not core logic.
- File access is left out. This covers opening and reading the file (main.cpp:70-82), creating a missing file and calling `open_file` again (main.cpp:72-77), and the output stream of the save (main.cpp:115 and 124). `OpenFile` takes the file's bytes as a parameter, and `SaveBuffer` returns the bytes it would write.
- Blocking is left out. A `read` that returns 0 is retried (main.cpp:152); with no byte available at all, the model returns `Pending` instead of waiting.
- Process control is left out: clearing the screen and `exit(0)` on Ctrl-C (main.cpp:223-224) are modelled as the `Exit` outcome, and `main`'s argument check and endless key loop (main.cpp:238-256) are not modelled.
- C string length past the array is not modelled. `strlen` on a line's 80 slots (main.cpp:179 and 209) reads past the array when a line holds 79 bytes and a newline. `RowLength` looks only inside the 80 slots; see Findings.
- LineBuffer.RoundTripExact: stated only for NUL-free content. The parser stores NUL bytes (main.cpp:95), but the save loop stops at the first one (main.cpp:119), so such content does not come back.
- LineBuffer.RoundTripAddsNewline: stated only for NUL-free content, for the same reason.
- LineBuffer.SaveParse: stated only for NUL-free content, for the same reason.
- EditorCore.Editor.MoveCursor: requires `cursorY >= 0`. With a negative row, the guard at main.cpp:178 lets `lines[cursor_y]` read before the start of the vector. That is undefined behaviour, and the model gives it no meaning.
- EditorCore.Editor.ProcessKey: requires `cursorY >= 0`, because it calls `MoveCursor`.
- EditorCore.Editor.ProcessKeyPressed: requires `cursorY >= 0`, because it calls `MoveCursor`.
- Inserting characters, Enter and Backspace, removing `'\r'`, scrolling and a buffer that is never empty belong to later versions of edi; `main.cpp` has none of them. The model follows `main.cpp`, so an empty file gives an empty buffer and printable keys are ignored.
- KeyDecoder.Signed: models plain `char` as signed. Where it is unsigned (as with g++ on AArch64 Linux), main.cpp:173 returns 128..255 for the high bytes instead; that platform is not modelled.

## Findings

| source | as written | input that shows it | evidently intended | confidence | as-written member | corrected member |
|---|---|---|---|---|---|---|
| main.cpp:179 | the row length is `strlen` of the line's 80 slots, and a stored line of 79 bytes plus a newline has no NUL in them, so the scan runs past the array (the same holds at main.cpp:209) | a file line of 79 or more bytes, e.g. 79 `a` then `\n`, with the cursor on that row | the length of the row within its 80 slots: the bytes before the newline, at most 79 | not executed | LineBuffer.StrlenOverrun | LineBuffer.RowLengthOfLine |
