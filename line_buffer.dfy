/** The editor's line buffer: fixed 80-byte lines, the parser that fills
    them from file content and the serialiser that writes them back. */
module LineBuffer {

  /** One byte of file content, as it sits in a `char` slot of a line. */
  type Byte = b: int | 0 <= b < 0x100

  const NUL: Byte := 0
  const NL: Byte := 10

  /** Every line is a fixed, zero-filled array of this many bytes. */
  const LineSize: nat := 80
  /** Content bytes a stored line keeps; the slot after them holds the newline. */
  const MaxContent: nat := LineSize - 1

  type Line = s: seq<Byte> | |s| == LineSize witness seq(80, _ => 0)

  function Min(a: int, b: int): int { if a <= b then a else b }

  /** The zero fill of the unused slots of a line. */
  function Padding(n: nat): (p: seq<Byte>)
    ensures |p| == n && forall j :: 0 <= j < n ==> p[j] == NUL
  {
    seq(n, _ => NUL)
  }

  /** A line with every slot zero, as the line buffer is cleared to. */
  const Blank: Line := Padding(LineSize)

  /** Index of the first byte of `s` that is in `stops`, or |s| if there is none. */
  function FirstOf(s: seq<Byte>, stops: set<Byte>): (k: nat)
    ensures k <= |s|
    ensures forall j :: 0 <= j < k ==> s[j] !in stops
    ensures k < |s| ==> s[k] in stops
  {
    if s == [] || s[0] in stops then 0 else 1 + FirstOf(s[1..], stops)
  }

  // ---------------------------------------------------------------------
  // Segments of the file content

  /** The '\n'-delimited segments of `s`, without their newlines. A final
      newline does not open an empty last segment, so an empty input has none. */
  function Segments(s: seq<Byte>): (segs: seq<seq<Byte>>)
    ensures forall k :: 0 <= k < |segs| ==> NL !in segs[k]
    decreases |s|
  {
    if s == [] then []
    else
      var n := FirstOf(s, {NL});
      assert forall j :: 0 <= j < n ==> s[..n][j] != NL;
      [s[..n]] + (if n < |s| then Segments(s[n + 1..]) else [])
  }

  /** The part of a segment the parser keeps: bytes past the 79th are dropped. */
  function Clip(seg: seq<Byte>): (c: seq<Byte>)
    ensures |c| == Min(|seg|, MaxContent)
    ensures c <= seg
  {
    if |seg| <= MaxContent then seg else seg[..MaxContent]
  }

  /** A stored line: the kept bytes, one newline, then NUL padding. */
  function MakeLine(content: seq<Byte>): Line
    requires |content| <= MaxContent
  {
    content + [NL] + Padding(LineSize - 1 - |content|)
  }

  /** The line stored for one segment of the file. */
  function LineOf(seg: seq<Byte>): Line
  {
    MakeLine(Clip(seg))
  }

  function LinesOf(segs: seq<seq<Byte>>): (ls: seq<Line>)
    ensures |ls| == |segs|
    ensures forall k :: 0 <= k < |segs| ==> ls[k] == LineOf(segs[k])
  {
    if segs == [] then [] else [LineOf(segs[0])] + LinesOf(segs[1..])
  }

  /** What the open-file parse loop leaves in the editor: one line per segment. */
  function Parse(s: seq<Byte>): seq<Line>
  {
    LinesOf(Segments(s))
  }

  // ---------------------------------------------------------------------
  // Serialisation

  /** The bytes save writes for one line: everything up to and including its
      newline, stopping before a NUL or at the end of the 80 slots. */
  function Emitted(l: Line): (out: seq<Byte>)
    ensures out <= l
    ensures NUL !in out
  {
    var n := FirstOf(l, {NUL, NL});
    assert forall j :: 0 <= j < n ==> l[..n][j] != NUL;
    if n < LineSize && l[n] == NL then l[..n + 1] else l[..n]
  }

  /** The bytes save writes for the whole buffer, line after line. */
  function Save(ls: seq<Line>): seq<Byte>
  {
    if ls == [] then [] else Emitted(ls[0]) + Save(ls[1..])
  }

  // ---------------------------------------------------------------------
  // Row length, as the cursor logic measures it

  /** Bytes before the first NUL, looking only inside the 80 slots. */
  function CLength(l: Line): (n: nat)
    ensures n <= LineSize
    ensures forall j :: 0 <= j < n ==> l[j] != NUL
    ensures n < LineSize ==> l[n] == NUL
  {
    FirstOf(l, {NUL})
  }

  /** Row length: the bytes before the first NUL, minus a newline directly before it. */
  function RowLength(l: Line): (n: nat)
    ensures n <= LineSize
    ensures n <= CLength(l) <= n + 1
    ensures CLength(l) == n + 1 ==> l[n] == NL
    ensures CLength(l) == n ==> n == 0 || l[n - 1] != NL
  {
    var len := CLength(l);
    if len > 0 && l[len - 1] == NL then len - 1 else len
  }

  /** Every segment of the file is short enough to be kept whole. */
  predicate Fits(s: seq<Byte>)
  {
    forall k :: 0 <= k < |Segments(s)| ==> |Segments(s)[k]| <= MaxContent
  }

  /** The concatenation, over the segments, of the kept bytes and a newline. */
  function JoinClipped(segs: seq<seq<Byte>>): seq<Byte>
  {
    if segs == [] then [] else Clip(segs[0]) + [NL] + JoinClipped(segs[1..])
  }

  // ---------------------------------------------------------------------
  // Lemmas

  lemma FirstOfIs(s: seq<Byte>, stops: set<Byte>, k: nat)
    requires k <= |s|
    requires forall j :: 0 <= j < k ==> s[j] !in stops
    requires k < |s| ==> s[k] in stops
    ensures FirstOf(s, stops) == k
  {
  }

  /** A segment ended by a newline is split off first. */
  lemma SegmentsCons(seg: seq<Byte>, rest: seq<Byte>)
    requires NL !in seg
    ensures Segments(seg + [NL] + rest) == [seg] + Segments(rest)
  {
    var s := seg + [NL] + rest;
    FirstOfIs(s, {NL}, |seg|);
    assert s[..|seg|] == seg;
    assert s[|seg| + 1..] == rest;
  }

  /** A non-empty tail without a newline is one segment. */
  lemma SegmentsLast(seg: seq<Byte>)
    requires seg != [] && NL !in seg
    ensures Segments(seg) == [seg]
  {
    FirstOfIs(seg, {NL}, |seg|);
    assert seg[..|seg|] == seg;
  }

  /** The parse of content that starts with a terminated segment. */
  lemma ParseCons(seg: seq<Byte>, rest: seq<Byte>)
    requires NL !in seg
    ensures Parse(seg + [NL] + rest) == [LineOf(seg)] + Parse(rest)
  {
    SegmentsCons(seg, rest);
    var segs := Segments(seg + [NL] + rest);
    assert segs[0] == seg && segs[1..] == Segments(rest);
  }

  /** The parse of a non-empty tail without a newline is one line. */
  lemma ParseLast(seg: seq<Byte>)
    requires seg != [] && NL !in seg
    ensures Parse(seg) == [LineOf(seg)]
  {
    SegmentsLast(seg);
  }

  /** The scratch line while a segment is being read: the bytes kept so far, then NULs. */
  function Scratch(seg: seq<Byte>): Line
  {
    Clip(seg) + Padding(LineSize - |Clip(seg)|)
  }

  lemma ScratchEmpty()
    ensures Scratch([]) == Blank
  {
  }

  /** A byte read while there is room is stored at the next column. */
  lemma ScratchAppend(seg: seq<Byte>, c: Byte)
    requires |seg| < MaxContent
    ensures Clip(seg + [c]) == seg + [c]
    ensures Scratch(seg + [c]) == Scratch(seg)[|seg| := c]
  {
    assert Clip(seg) == seg;
  }

  /** A byte read once 79 are kept is dropped. */
  lemma ScratchFull(seg: seq<Byte>, c: Byte)
    requires |seg| >= MaxContent
    ensures Clip(seg + [c]) == Clip(seg)
  {
    assert (seg + [c])[..MaxContent] == seg[..MaxContent];
  }

  /** Writing the newline after the kept bytes completes the stored line. */
  lemma ScratchDone(seg: seq<Byte>)
    ensures Scratch(seg)[|Clip(seg)| := NL] == LineOf(seg)
  {
  }

  lemma SliceSnoc(s: seq<Byte>, a: nat, b: nat)
    requires a <= b < |s|
    ensures s[a..b + 1] == s[a..b] + [s[b]]
  {
  }

  lemma SliceSplit(s: seq<Byte>, a: nat, i: nat)
    requires a <= i < |s|
    ensures s[a..] == s[a..i] + [s[i]] + s[i + 1..]
  {
  }

  /** The open-file parse loop's current segment after reading `s[..i]`: it
      starts at `start`, and the scratch line holds the `col` bytes of it that
      are kept. */
  ghost predicate InSegment(s: seq<Byte>, i: nat, start: nat, col: int, scratch: seq<Byte>)
  {
    && start <= i <= |s|
    && NL !in s[start..i]
    && col == |Clip(s[start..i])|
    && scratch == Scratch(s[start..i])
  }

  /** The lines of the finished segments, `parsed`, followed by the lines of
      the content from `start` on, make up the whole parse. */
  ghost predicate ParsedUpTo(s: seq<Byte>, start: nat, parsed: seq<Line>)
  {
    start <= |s| && Parse(s) == parsed + Parse(s[start..])
  }

  lemma ScanStart(s: seq<Byte>)
    ensures InSegment(s, 0, 0, 0, Blank)
    ensures ParsedUpTo(s, 0, [])
  {
    assert s[0..] == s;
    ScanRestart(s, 0);
  }

  /** A byte other than a newline, read while there is room, is kept. */
  lemma ScanKeep(s: seq<Byte>, i: nat, start: nat, col: int, scratch: seq<Byte>)
    requires InSegment(s, i, start, col, scratch)
    requires i < |s| && s[i] != NL && col < MaxContent
    ensures 0 <= col < LineSize
    ensures InSegment(s, i + 1, start, col + 1, scratch[col := s[i]])
  {
    SliceSnoc(s, start, i);
    ScratchAppend(s[start..i], s[i]);
  }

  /** A byte other than a newline, read once 79 are kept, is dropped. */
  lemma ScanDrop(s: seq<Byte>, i: nat, start: nat, col: int, scratch: seq<Byte>)
    requires InSegment(s, i, start, col, scratch)
    requires i < |s| && s[i] != NL && col >= MaxContent
    ensures InSegment(s, i + 1, start, col, scratch)
  {
    SliceSnoc(s, start, i);
    ScratchFull(s[start..i], s[i]);
  }

  /** A new, empty segment starts at `j` with a cleared scratch line. */
  lemma ScanRestart(s: seq<Byte>, j: nat)
    requires j <= |s|
    ensures InSegment(s, j, j, 0, Blank)
  {
    assert s[j..j] == [];
    ScratchEmpty();
  }

  /** The segment from `start` to the newline at `i` is the next parsed line. */
  lemma ParsedStep(s: seq<Byte>, start: nat, i: nat, parsed: seq<Line>)
    requires ParsedUpTo(s, start, parsed)
    requires start <= i < |s| && s[i] == NL && NL !in s[start..i]
    ensures ParsedUpTo(s, i + 1, parsed + [LineOf(s[start..i])])
  {
    var seg := s[start..i];
    SliceSplit(s, start, i);
    ParseCons(seg, s[i + 1..]);
    assert Parse(s[start..]) == [LineOf(seg)] + Parse(s[i + 1..]);
  }

  /** A newline completes the scratch line, which is stored; a new segment starts. */
  lemma ScanNewline(s: seq<Byte>, i: nat, start: nat, col: int, scratch: seq<Byte>, parsed: seq<Line>)
    requires InSegment(s, i, start, col, scratch) && ParsedUpTo(s, start, parsed)
    requires i < |s| && s[i] == NL
    ensures 0 <= col < LineSize
    ensures scratch[col := NL] == LineOf(s[start..i])
    ensures InSegment(s, i + 1, i + 1, 0, Blank)
    ensures ParsedUpTo(s, i + 1, parsed + [LineOf(s[start..i])])
  {
    ScratchDone(s[start..i]);
    ScanRestart(s, i + 1);
    ParsedStep(s, start, i, parsed);
  }

  /** At the end of the content, a non-empty last segment is stored with a newline. */
  lemma ScanEnd(s: seq<Byte>, start: nat, col: int, scratch: seq<Byte>, parsed: seq<Line>)
    requires InSegment(s, |s|, start, col, scratch) && ParsedUpTo(s, start, parsed)
    ensures 0 <= col < LineSize
    ensures col > 0 ==> scratch[col := NL] == LineOf(s[start..]) && Parse(s) == parsed + [LineOf(s[start..])]
    ensures col <= 0 ==> Parse(s) == parsed
  {
    var seg := s[start..];
    assert s[start..|s|] == seg;
    if col > 0 {
      ScratchDone(seg);
      ParseLast(seg);
    } else {
      assert seg == [];
    }
  }

  /** Parser line shape: each stored line holds the first (at most 79) bytes of its
      segment, then exactly one newline at an index of at most 79, then NULs. */
  lemma ParseShape(s: seq<Byte>, k: nat)
    requires k < |Parse(s)|
    ensures |Parse(s)| == |Segments(s)|
    ensures var l := Parse(s)[k]; var n := FirstOf(l, {NL});
      && n == Min(|Segments(s)[k]|, MaxContent)
      && l[..n] == Segments(s)[k][..n]
      && l[n] == NL
      && forall j :: n < j < LineSize ==> l[j] == NUL
  {
    var seg := Segments(s)[k];
    var c := Clip(seg);
    var l := Parse(s)[k];
    assert l == MakeLine(c);
    assert l[..|c|] == c;
    assert NL !in c by {
      forall j | 0 <= j < |c| ensures c[j] != NL {
        assert c[j] == seg[j];
      }
    }
    FirstOfIs(l, {NL}, |c|);
  }

  lemma {:induction false} SegmentCount(s: seq<Byte>)
    ensures |Segments(s)| == multiset(s)[NL] + (if s != [] && s[|s| - 1] != NL then 1 else 0)
    decreases |s|
  {
    if s != [] {
      var n := FirstOf(s, {NL});
      SplitFirstNewline(s);
      if n < |s| {
        var rest := s[n + 1..];
        SegmentsCons(s[..n], rest);
        SegmentCount(rest);
        NewlineCountSplit(s[..n], rest);
        LastAfterSplit(s[..n], rest);
      } else {
        SegmentsLast(s);
        NewlineCountNone(s);
      }
    }
  }

  /** Content splits at its first newline, if it has one. */
  lemma SplitFirstNewline(s: seq<Byte>)
    ensures var n := FirstOf(s, {NL});
      && NL !in s[..n]
      && (n < |s| ==> s == s[..n] + [NL] + s[n + 1..])
      && (n == |s| ==> s[..n] == s)
  {
    var n := FirstOf(s, {NL});
    assert forall j :: 0 <= j < n ==> s[..n][j] != NL;
    if n < |s| {
      SplitAt(s, n);
    }
  }

  lemma SplitAt(s: seq<Byte>, n: nat)
    requires n < |s|
    ensures s == s[..n] + [s[n]] + s[n + 1..]
  {
  }

  /** The last byte of content split at a newline. */
  lemma LastAfterSplit(seg: seq<Byte>, rest: seq<Byte>)
    ensures var s := seg + [NL] + rest;
      s[|s| - 1] == if rest == [] then NL else rest[|rest| - 1]
  {
  }

  lemma NewlineCountNone(seg: seq<Byte>)
    requires NL !in seg
    ensures multiset(seg)[NL] == 0
  {
    assert NL !in multiset(seg);
  }

  lemma NewlineCountSplit(seg: seq<Byte>, rest: seq<Byte>)
    requires NL !in seg
    ensures multiset(seg + [NL] + rest)[NL] == 1 + multiset(rest)[NL]
  {
    NewlineCountNone(seg);
    assert multiset(seg + [NL] + rest) == multiset(seg) + multiset([NL]) + multiset(rest);
  }

  /** The segments joined back, each followed by a newline. */
  function Unsplit(segs: seq<seq<Byte>>): seq<Byte>
  {
    if segs == [] then [] else segs[0] + [NL] + Unsplit(segs[1..])
  }

  /** The segments are exactly the newline-delimited pieces of the content:
      joined back with newlines they give the content, with a newline added
      when the content is non-empty and does not end in one. */
  lemma {:induction false} SegmentsUnsplit(s: seq<Byte>)
    ensures Unsplit(Segments(s)) == if s != [] && s[|s| - 1] != NL then s + [NL] else s
    decreases |s|
  {
    if s != [] {
      var n := FirstOf(s, {NL});
      var seg := s[..n];
      SplitFirstNewline(s);
      if n < |s| {
        var rest := s[n + 1..];
        LastAfterSplit(seg, rest);
        calc {
          Unsplit(Segments(s));
          { SegmentsCons(seg, rest); assert Segments(s)[1..] == Segments(rest); }
          seg + [NL] + Unsplit(Segments(rest));
          { SegmentsUnsplit(rest); }
          seg + [NL] + (if rest != [] && rest[|rest| - 1] != NL then rest + [NL] else rest);
          { AppendNewlineAssoc(seg, rest); }
          if rest != [] && rest[|rest| - 1] != NL then s + [NL] else s;
        }
      } else {
        SegmentsLast(s);
        assert Segments(s)[1..] == [];
      }
    }
  }

  /** Parser line count: one line per newline, plus one for a non-empty
      unterminated tail; in particular no lines for an empty file. */
  lemma ParseCount(s: seq<Byte>)
    ensures |Parse(s)| == multiset(s)[NL] + (if s != [] && s[|s| - 1] != NL then 1 else 0)
    ensures s == [] ==> Parse(s) == []
  {
    SegmentCount(s);
  }

  lemma SegmentsWithin(s: seq<Byte>, x: Byte)
    requires x !in s
    ensures forall k :: 0 <= k < |Segments(s)| ==> x !in Segments(s)[k]
    decreases |s|
  {
    if s != [] {
      var n := FirstOf(s, {NL});
      assert x !in s[..n];
      if n < |s| {
        assert x !in s[n + 1..];
        SegmentsWithin(s[n + 1..], x);
      }
    }
  }

  /** Saving a stored line writes back its kept bytes and the newline. */
  lemma EmittedLineOf(seg: seq<Byte>)
    requires NUL !in seg && NL !in seg
    ensures Emitted(LineOf(seg)) == Clip(seg) + [NL]
  {
    var c := Clip(seg);
    var l := LineOf(seg);
    assert forall j :: 0 <= j < |c| ==> l[j] == c[j] && c[j] == seg[j];
    assert l[|c|] == NL;
    FirstOfIs(l, {NUL, NL}, |c|);
    assert l[..|c| + 1] == c + [NL];
  }

  lemma {:induction false} SaveLinesOf(segs: seq<seq<Byte>>)
    requires forall k :: 0 <= k < |segs| ==> NUL !in segs[k] && NL !in segs[k]
    ensures Save(LinesOf(segs)) == JoinClipped(segs)
  {
    if segs != [] {
      EmittedLineOf(segs[0]);
      assert LinesOf(segs)[1..] == LinesOf(segs[1..]);
      SaveLinesOf(segs[1..]);
    }
  }

  /** Parse/save round trip: for NUL-free content, saving the parsed buffer
      writes each segment's first 79 bytes followed by a newline. */
  lemma SaveParse(s: seq<Byte>)
    requires NUL !in s
    ensures Save(Parse(s)) == JoinClipped(Segments(s))
  {
    SegmentsWithin(s, NUL);
    SaveLinesOf(Segments(s));
  }

  /** Where the save loop stops in a line: before a NUL, after a newline, or
      at the end of the 80 slots. */
  lemma EmittedStop(l: Line, col: nat)
    requires col <= LineSize
    requires forall j :: 0 <= j < col ==> l[j] != NUL && l[j] != NL
    ensures col < LineSize && l[col] == NUL ==> Emitted(l) == l[..col]
    ensures col < LineSize && l[col] == NL ==> Emitted(l) == l[..col + 1]
    ensures col == LineSize ==> Emitted(l) == l
  {
    if col < LineSize && (l[col] == NUL || l[col] == NL) {
      FirstOfIs(l, {NUL, NL}, col);
    } else if col == LineSize {
      FirstOfIs(l, {NUL, NL}, col);
      assert l[..LineSize] == l;
    }
  }

  /** Saving appends lines' bytes in order. */
  lemma {:induction false} SaveSnoc(ls: seq<Line>, l: Line)
    ensures Save(ls + [l]) == Save(ls) + Emitted(l)
  {
    if ls == [] {
      assert [l][1..] == [];
    } else {
      assert (ls + [l])[1..] == ls[1..] + [l];
      SaveSnoc(ls[1..], l);
    }
  }

  /** Saving one more line of the buffer appends that line's bytes. */
  lemma SavePrefix(ls: seq<Line>, row: nat)
    requires row < |ls|
    ensures Save(ls[..row + 1]) == Save(ls[..row]) + Emitted(ls[row])
  {
    assert ls[..row + 1] == ls[..row] + [ls[row]];
    SaveSnoc(ls[..row], ls[row]);
  }

  lemma ClipNoNewline(seg: seq<Byte>)
    requires NL !in seg
    ensures NL !in Clip(seg)
  {
    var c := Clip(seg);
    forall j | 0 <= j < |c| ensures c[j] != NL { assert c[j] == seg[j]; }
  }

  lemma JoinCons(seg: seq<Byte>, rest: seq<Byte>)
    requires NL !in seg
    ensures JoinClipped(Segments(seg + [NL] + rest)) == Clip(seg) + [NL] + JoinClipped(Segments(rest))
  {
    SegmentsCons(seg, rest);
    assert Segments(seg + [NL] + rest)[1..] == Segments(rest);
  }

  lemma FitsCons(seg: seq<Byte>, rest: seq<Byte>)
    requires NL !in seg
    ensures Fits(seg + [NL] + rest) <==> |seg| <= MaxContent && Fits(rest)
  {
    SegmentsCons(seg, rest);
    var segs := Segments(seg + [NL] + rest);
    assert segs[0] == seg;
    assert forall k :: 0 <= k < |Segments(rest)| ==> segs[k + 1] == Segments(rest)[k];
    if |seg| <= MaxContent && Fits(rest) {
      forall k | 0 <= k < |segs| ensures |segs[k]| <= MaxContent {
        if k > 0 { assert segs[k] == Segments(rest)[k - 1]; }
      }
    }
  }

  lemma FitsLast(s: seq<Byte>)
    requires s != [] && NL !in s
    ensures Fits(s) <==> |s| <= MaxContent
    ensures JoinClipped(Segments(s)) == Clip(s) + [NL]
  {
    SegmentsLast(s);
    var segs := Segments(s);
    assert |segs| == 1 && segs[0] == s;
    assert Fits(s) ==> |segs[0]| <= MaxContent;
    assert segs[1..] == [];
  }

  /** The segment join reproduces the content exactly when every segment fits
      and the content is empty or ends with a newline. */
  lemma {:induction false} JoinExact(s: seq<Byte>)
    ensures JoinClipped(Segments(s)) == s <==> Fits(s) && (s == [] || s[|s| - 1] == NL)
    decreases |s|
  {
    if s != [] {
      var n := FirstOf(s, {NL});
      var seg := s[..n];
      SplitFirstNewline(s);
      ClipNoNewline(seg);
      var c := Clip(seg);
      if n < |s| {
        var rest := s[n + 1..];
        JoinCons(seg, rest);
        FitsCons(seg, rest);
        JoinExact(rest);
        LastAfterSplit(seg, rest);
        var out := c + [NL] + JoinClipped(Segments(rest));
        if out == s {
          FirstOfIs(out, {NL}, |c|);
          assert |c| == |seg|;
          assert c == seg;
          assert out[|seg| + 1..] == JoinClipped(Segments(rest));
        }
        if |seg| <= MaxContent && JoinClipped(Segments(rest)) == rest {
          assert c == seg;
        }
      } else {
        FitsLast(s);
        assert (c + [NL])[|c|] == NL;
      }
    }
  }

  lemma AppendNewlineAssoc(a: seq<Byte>, b: seq<Byte>)
    ensures a + [NL] + (b + [NL]) == (a + [NL] + b) + [NL]
  {
  }

  /** When every segment fits but the last byte is not a newline, the segment
      join is the content with one newline added. */
  lemma {:induction false} JoinAddsNewline(s: seq<Byte>)
    requires Fits(s)
    requires s != [] && s[|s| - 1] != NL
    ensures JoinClipped(Segments(s)) == s + [NL]
    decreases |s|
  {
    var n := FirstOf(s, {NL});
    var seg := s[..n];
    SplitFirstNewline(s);
    if n < |s| {
      var rest := s[n + 1..];
      FitsCons(seg, rest);
      LastAfterSplit(seg, rest);
      assert Clip(seg) == seg;
      calc {
        JoinClipped(Segments(s));
        { JoinCons(seg, rest); }
        Clip(seg) + [NL] + JoinClipped(Segments(rest));
        { JoinAddsNewline(rest); }
        seg + [NL] + (rest + [NL]);
        { AppendNewlineAssoc(seg, rest); }
        s + [NL];
      }
    } else {
      FitsLast(s);
    }
  }

  /** The round trip reproduces NUL-free content exactly when every segment
      fits and the content is empty or ends with a newline. */
  lemma RoundTripExact(s: seq<Byte>)
    requires NUL !in s
    ensures Save(Parse(s)) == s <==> Fits(s) && (s == [] || s[|s| - 1] == NL)
  {
    SaveParse(s);
    JoinExact(s);
  }

  /** NUL-free content whose segments all fit but whose last byte is not a
      newline comes back with exactly one newline added. */
  lemma RoundTripAddsNewline(s: seq<Byte>)
    requires NUL !in s && Fits(s)
    requires s != [] && s[|s| - 1] != NL
    ensures Save(Parse(s)) == s + [NL]
  {
    SaveParse(s);
    JoinAddsNewline(s);
  }

  /** For a stored line, the row length the cursor logic measures is the
      number of kept bytes, even when the line has no NUL in its 80 slots. */
  lemma RowLengthOfLine(seg: seq<Byte>)
    requires NUL !in seg
    ensures RowLength(LineOf(seg)) == |Clip(seg)| <= MaxContent
  {
    var c := Clip(seg);
    var l := LineOf(seg);
    assert forall j :: 0 <= j < |c| ==> l[j] == c[j] && c[j] == seg[j];
    assert l[|c|] == NL;
    if |c| < MaxContent {
      assert l[|c| + 1] == NUL;
      FirstOfIs(l, {NUL}, |c| + 1);
    } else {
      FirstOfIs(l, {NUL}, LineSize);
    }
  }

  /** Every row the parser produces measures at most 79 bytes, NULs in the file or not. */
  lemma RowLengthBound(seg: seq<Byte>)
    ensures RowLength(LineOf(seg)) <= MaxContent
  {
    var c := Clip(seg);
    var l := LineOf(seg);
    assert l[|c|] == NL;
    assert |c| < MaxContent ==> l[|c| + 1] == NUL;
    var len := CLength(l);
    assert len <= |c| + 1;
  }

  /** A segment of 79 bytes or more is stored without any NUL in the line's
      80 slots, so a C string scan of that line runs past its end. */
  lemma StrlenOverrun(seg: seq<Byte>)
    requires NUL !in seg && |seg| >= MaxContent
    ensures forall j :: 0 <= j < LineSize ==> LineOf(seg)[j] != NUL
  {
    var c := Clip(seg);
    var l := LineOf(seg);
    assert |c| == MaxContent;
    forall j | 0 <= j < LineSize ensures l[j] != NUL {
      if j < MaxContent { assert l[j] == c[j] == seg[j]; }
    }
  }
}
