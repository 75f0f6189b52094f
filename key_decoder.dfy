/** The key decoder: one keystroke from a stream of single-byte reads, with
    two bytes of lookahead after ESC for the arrow-key sequences. */
module KeyDecoder {
  import opened LineBuffer

  /** What one `read` of one byte from the terminal returns. */
  datatype ReadResult =
    | Got(b: Byte)    // returned 1: one byte
    | NoData          // returned 0: nothing read
    | ReadError       // returned -1

  const ESC: Byte := 0x1b
  const LeftBracket: Byte := 0x5b   // '['

  const ArrowLeft: int := 1000
  const ArrowRight: int := 1001
  const ArrowUp: int := 1002
  const ArrowDown: int := 1003

  predicate IsArrow(key: int) { ArrowLeft <= key <= ArrowDown }

  /** A byte held in a plain (signed) `char`, widened to `int`. */
  function Signed(b: Byte): (c: int)
    ensures -0x80 <= c < 0x80
    ensures c % 0x100 == b
  {
    if b < 0x80 then b else b - 0x100
  }

  /** The key an `ESC '['` sequence ends in, or ESC for an unknown final byte. */
  function ArrowFor(b: Byte): int
  {
    if b == 'A' as int then ArrowUp
    else if b == 'B' as int then ArrowDown
    else if b == 'C' as int then ArrowRight
    else if b == 'D' as int then ArrowLeft
    else ESC
  }

  /** The outcome of reading one key: the decoded key and how many read results
      it used, or Pending when the input holds no byte and no error yet (the
      editor would go on waiting). */
  datatype Decoded = Pending | Key(code: int, consumed: nat)

  /** Reads past the end of the given results return 0 (nothing read). */
  function ReadAt(input: seq<ReadResult>, i: nat): ReadResult
  {
    if i < |input| then input[i] else NoData
  }

  /** The position after one read at `i`. */
  function After(input: seq<ReadResult>, i: nat): nat
  {
    if i < |input| then i + 1 else i
  }

  /** The key and the number of results used by the two lookahead reads
      that follow ESC. */
  function EscapeKey(input: seq<ReadResult>): (r: (int, nat))
    ensures r.1 <= |input| && r.1 <= 2
  {
    var first := ReadAt(input, 0);
    var p := After(input, 0);
    if !first.Got? then (ESC as int, p)
    else
      var second := ReadAt(input, p);
      var q := After(input, p);
      if !second.Got? then (ESC as int, q)
      else if first.b == LeftBracket then (ArrowFor(second.b), q)
      else (ESC as int, q)
  }

  /** The specification of one key read: results that read nothing are
      skipped; an error gives key 0; ESC starts an escape sequence; any other
      byte is the key, as a signed char. */
  function DecodeKey(input: seq<ReadResult>): Decoded
    decreases |input|
  {
    if input == [] then Pending
    else match input[0]
      case NoData =>
        (match DecodeKey(input[1..])
         case Pending => Pending
         case Key(code, n) => Key(code, n + 1))
      case ReadError => Key(0, 1)
      case Got(b) =>
        if b == ESC then
          var (code, used) := EscapeKey(input[1..]);
          Key(code, used + 1)
        else Key(Signed(b), 1)
  }

  /** The decode loop: retry while nothing is read, then decode the byte. */
  method ReadKey(input: seq<ReadResult>) returns (d: Decoded)
    ensures d == DecodeKey(input)
    ensures d.Key? ==> 1 <= d.consumed <= |input|
  {
    var i := 0;
    while i < |input| && input[i].NoData?
      invariant 0 <= i <= |input|
      invariant DecodeKey(input) == Shift(DecodeKey(input[i..]), i)
    {
      assert input[i..][1..] == input[i + 1..];
      i := i + 1;
    }
    if i == |input| {
      return Pending;
    }
    match input[i]
    case ReadError =>
      d := Key(0, i + 1);
    case Got(c) =>
      if c == ESC {
        var p := i + 1;
        var first := ReadAt(input, p);
        p := After(input, p);
        if !first.Got? {
          return Key(ESC as int, p);
        }
        var second := ReadAt(input, p);
        p := After(input, p);
        if !second.Got? {
          return Key(ESC as int, p);
        }
        if first.b == LeftBracket {
          var code := ArrowFor(second.b);
          if code != ESC as int {
            return Key(code, p);
          }
        }
        return Key(ESC as int, p);
      }
      d := Key(Signed(c), i + 1);
  }

  function Shift(d: Decoded, n: nat): Decoded
  {
    match d
    case Pending => Pending
    case Key(code, m) => Key(code, m + n)
  }

  // ---------------------------------------------------------------------
  // Lemmas

  /** Every decoded key uses at least one and at most the given results. */
  lemma {:induction false} DecodeConsumes(input: seq<ReadResult>)
    ensures DecodeKey(input).Key? ==> 1 <= DecodeKey(input).consumed <= |input|
    decreases |input|
  {
    if input != [] && input[0].NoData? {
      DecodeConsumes(input[1..]);
    }
  }

  /** Results that read nothing before a key only add to the count of results used. */
  lemma {:induction false} SkipsNoData(n: nat, input: seq<ReadResult>)
    ensures DecodeKey(seq(n, _ => NoData) + input) == Shift(DecodeKey(input), n)
  {
    if n > 0 {
      var s := seq(n, _ => NoData) + input;
      assert s[0] == NoData;
      assert s[1..] == seq(n - 1, _ => NoData) + input;
      SkipsNoData(n - 1, input);
      assert DecodeKey(s) == Shift(DecodeKey(s[1..]), 1);
      match DecodeKey(input)
      case Pending =>
      case Key(code, m) =>
    } else {
      assert seq(n, _ => NoData) + input == input;
    }
  }

  /** ESC '[' followed by A, B, C or D is the matching arrow key, read in three bytes. */
  lemma ArrowSequences(rest: seq<ReadResult>)
    ensures DecodeKey([Got(ESC), Got(LeftBracket), Got('A' as int)] + rest) == Key(ArrowUp, 3)
    ensures DecodeKey([Got(ESC), Got(LeftBracket), Got('B' as int)] + rest) == Key(ArrowDown, 3)
    ensures DecodeKey([Got(ESC), Got(LeftBracket), Got('C' as int)] + rest) == Key(ArrowRight, 3)
    ensures DecodeKey([Got(ESC), Got(LeftBracket), Got('D' as int)] + rest) == Key(ArrowLeft, 3)
  {
  }

  /** ESC whose lookahead does not give two bytes is the ESC key. */
  lemma IncompleteEscape(rest: seq<ReadResult>)
    requires |rest| < 2 || !rest[0].Got? || !rest[1].Got?
    ensures DecodeKey([Got(ESC)] + rest).Key?
    ensures DecodeKey([Got(ESC)] + rest).code == ESC as int
  {
    assert ([Got(ESC)] + rest)[1..] == rest;
  }

  /** ESC and two bytes other than '[' and A to D is the ESC key; both bytes are swallowed. */
  lemma UnknownEscape(x: Byte, y: Byte, rest: seq<ReadResult>)
    requires !(x == LeftBracket && 'A' as int <= y <= 'D' as int)
    ensures DecodeKey([Got(ESC), Got(x), Got(y)] + rest) == Key(ESC as int, 3)
  {
    assert ([Got(ESC), Got(x), Got(y)] + rest)[1..] == [Got(x), Got(y)] + rest;
  }

  /** A read error where the first byte was expected gives key 0. */
  lemma ErrorIsZero(rest: seq<ReadResult>)
    ensures DecodeKey([ReadError] + rest) == Key(0, 1)
  {
  }

  /** Any byte other than ESC is its own key, as a signed char; it is never an arrow code. */
  lemma PlainByte(b: Byte, rest: seq<ReadResult>)
    requires b != ESC
    ensures DecodeKey([Got(b)] + rest) == Key(Signed(b), 1)
    ensures !IsArrow(Signed(b))
    ensures b >= 0x80 ==> Signed(b) == b - 0x100
  {
  }

  /** Every decoded key is an arrow code or a signed char, and an arrow code
      is read only from the three results ESC, '[' and a letter A to D that
      end the results it used. */
  lemma {:induction false} DecodedRange(input: seq<ReadResult>)
    requires DecodeKey(input).Key?
    ensures var code := DecodeKey(input).code;
      IsArrow(code) || -0x80 <= code < 0x80
    ensures var d := DecodeKey(input);
      IsArrow(d.code) ==>
        && 3 <= d.consumed <= |input|
        && input[d.consumed - 3] == Got(ESC)
        && input[d.consumed - 2] == Got(LeftBracket)
        && input[d.consumed - 1].Got?
        && 'A' as int <= input[d.consumed - 1].b <= 'D' as int
    decreases |input|
  {
    DecodeConsumes(input);
    match input[0]
    case NoData =>
      DecodedRange(input[1..]);
    case ReadError =>
    case Got(b) =>
  }
}
