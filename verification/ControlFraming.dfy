/** Control-line framing (src/control.rs): a bounded reader that takes one line at a time out of a
    stream delivered in chunks, and must agree with splitting the flat stream at its newlines. */
module ControlFraming {
  import opened Octets
  import opened Wrappers

  const NEWLINE: Byte := 10
  const CARRIAGE_RETURN: Byte := 13

  /** Largest line a client may send, including the trailing newline. */
  const MAX_CONTROL_MESSAGE: nat := 1024 * 1024

  /** What reading one line comes to. */
  datatype Outcome = EndOfStream | Line(text: Bytes) | Oversized | NotUtf8

  predicate OverLimit(size: nat, limit: Option<nat>) {
    limit.Some? && size > limit.value
  }

  function Flat(chunks: seq<Bytes>): Bytes {
    if chunks == [] then [] else chunks[0] + Flat(chunks[1..])
  }

  // ---------------------------------------------------------------- the simple split

  /** The pieces between newlines: one more than there are newlines. */
  function Pieces(s: Bytes): (pieces: seq<Bytes>)
    ensures pieces != []
  {
    if s == [] then [[]]
    else
      var rest := Pieces(s[1..]);
      if s[0] == NEWLINE then [[]] + rest else [[s[0]] + rest[0]] + rest[1..]
  }

  /** One trailing carriage return, gone. */
  function StripReturn(piece: Bytes): Bytes {
    if piece != [] && piece[|piece| - 1] == CARRIAGE_RETURN then piece[..|piece| - 1] else piece
  }

  /** The lines of a split stream, up to its end or its first error. A piece that a newline ended
      counts that newline against the limit and loses its carriage return; the last piece does
      neither, and is no line at all when it is empty. */
  function SplitLines(pieces: seq<Bytes>, limit: Option<nat>, utf8: Bytes -> bool): (seq<Bytes>, Outcome)
    requires pieces != []
    decreases |pieces|
  {
    var piece := pieces[0];
    if |pieces| == 1 then
      if OverLimit(|piece|, limit) then ([], Oversized)
      else if piece == [] then ([], EndOfStream)
      else if !utf8(piece) then ([], NotUtf8)
      else ([piece], EndOfStream)
    else if OverLimit(|piece| + 1, limit) then ([], Oversized)
    else if !utf8(StripReturn(piece)) then ([], NotUtf8)
    else
      var (lines, end) := SplitLines(pieces[1..], limit, utf8);
      ([StripReturn(piece)] + lines, end)
  }

  /** Joining the pieces with newlines gives the stream back. */
  function Join(pieces: seq<Bytes>): Bytes
    requires pieces != []
    decreases |pieces|
  {
    if |pieces| == 1 then pieces[0] else pieces[0] + [NEWLINE] + Join(pieces[1..])
  }

  lemma {:induction false} PiecesJoin(s: Bytes)
    ensures Join(Pieces(s)) == s
    ensures forall piece | piece in Pieces(s) :: NEWLINE !in piece
  {
    if s != [] {
      PiecesJoin(s[1..]);
      var rest := Pieces(s[1..]);
      assert s == [s[0]] + s[1..];
      assert rest[0] in rest;
      if s[0] == NEWLINE {
        assert ([[]] + rest)[1..] == rest;
        assert [] + [NEWLINE] + Join(rest) == s;
      } else {
        var front := [s[0]] + rest[0];
        assert ([front] + rest[1..])[1..] == rest[1..];
        if |rest| > 1 {
          assert front + [NEWLINE] + Join(rest[1..]) == [s[0]] + (rest[0] + [NEWLINE] + Join(rest[1..]));
        }
      }
    }
  }

  // ---------------------------------------------------------------- one line of the flat stream

  /** The first line with its newline, and whether there was one. */
  function TakeLine(s: Bytes): (r: (Bytes, bool))
    ensures r.0 <= s
    ensures r.1 ==> r.0 != []
    ensures !r.1 ==> r.0 == s
  {
    if s == [] then ([], false)
    else if s[0] == NEWLINE then ([NEWLINE], true)
    else
      var (line, found) := TakeLine(s[1..]);
      ([s[0]] + line, found)
  }

  lemma TakeLineCons(c: Byte, s: Bytes)
    requires c != NEWLINE
    ensures TakeLine([c] + s) == ([c] + TakeLine(s).0, TakeLine(s).1)
  {
    assert ([c] + s)[1..] == s;
  }

  /** A newline-free prefix belongs to the first line. */
  lemma {:induction false} TakeLineAfter(prefix: Bytes, s: Bytes)
    requires NEWLINE !in prefix
    ensures TakeLine(prefix + s) == (prefix + TakeLine(s).0, TakeLine(s).1)
  {
    if prefix == [] {
      assert prefix + s == s && prefix + TakeLine(s).0 == TakeLine(s).0;
    } else {
      var (c, rest) := (prefix[0], prefix[1..]);
      assert c in prefix && forall d | d in rest :: d in prefix;
      TakeLineAfter(rest, s);
      TakeLineCons(c, rest + s);
      assert prefix + s == [c] + (rest + s);
      assert [c] + (rest + TakeLine(s).0) == prefix + TakeLine(s).0;
    }
  }

  /** A newline-free beginning is part of the first line; a newline right after it ends the line. */
  lemma TakeLineFrom(s: Bytes, prefix: Bytes)
    requires prefix <= s && NEWLINE !in prefix
    ensures |TakeLine(s).0| >= |prefix|
    ensures |prefix| < |s| && s[|prefix|] == NEWLINE ==> TakeLine(s) == (prefix + [NEWLINE], true)
  {
    assert s == prefix + s[|prefix|..];
    TakeLineAfter(prefix, s[|prefix|..]);
  }

  /** Reading one line of the flat stream, and what is left of it. */
  function ReadOne(s: Bytes, limit: Option<nat>, utf8: Bytes -> bool): (r: (Outcome, Bytes))
    ensures r.0.Line? ==> |r.1| < |s|
  {
    var (line, found) := TakeLine(s);
    var rest := s[|line|..];
    if OverLimit(|line|, limit) then (Oversized, rest)
    else if line == [] && !found then (EndOfStream, rest)
    else
      var text := if found then StripReturn(line[..|line| - 1]) else line;
      (if utf8(text) then Line(text) else NotUtf8, rest)
  }

  /** Reading lines until the stream ends or a line is refused. */
  function ReadLines(s: Bytes, limit: Option<nat>, utf8: Bytes -> bool): (seq<Bytes>, Outcome)
    decreases |s|
  {
    var (outcome, rest) := ReadOne(s, limit, utf8);
    if outcome.Line? then
      var (lines, end) := ReadLines(rest, limit, utf8);
      ([outcome.text] + lines, end)
    else ([], outcome)
  }

  lemma {:induction false} PiecesTakeLine(s: Bytes)
    ensures var (line, found) := TakeLine(s);
            Pieces(s) == if found then [line[..|line| - 1]] + Pieces(s[|line|..]) else [s]
  {
    if s != [] {
      var (line, found) := TakeLine(s);
      if s[0] == NEWLINE {
        assert line[..|line| - 1] == [];
      } else {
        PiecesTakeLine(s[1..]);
        var (short, _) := TakeLine(s[1..]);
        if found {
          assert s[|line|..] == s[1..][|short|..];
          assert [s[0]] + short[..|short| - 1] == line[..|line| - 1];
        } else {
          assert [s[0]] + s[1..] == s;
        }
      }
    }
  }

  /** Line by line or all at once, the flat stream has the same lines and the same first error. */
  lemma {:induction false} ReadLinesIsSplit(s: Bytes, limit: Option<nat>, utf8: Bytes -> bool)
    ensures ReadLines(s, limit, utf8) == SplitLines(Pieces(s), limit, utf8)
    decreases |s|
  {
    var (line, found) := TakeLine(s);
    var (outcome, rest) := ReadOne(s, limit, utf8);
    PiecesTakeLine(s);
    if found {
      assert Pieces(s)[1..] == Pieces(rest);
      if outcome.Line? {
        ReadLinesIsSplit(rest, limit, utf8);
      }
    } else {
      assert rest == [];
      assert ReadOne(rest, limit, utf8).0 == if OverLimit(0, limit) then Oversized else EndOfStream;
    }
  }

  /** A piece that a newline ended is read as a line. */
  predicate Accepted(piece: Bytes, limit: nat, utf8: Bytes -> bool) {
    |piece| + 1 <= limit && utf8(StripReturn(piece))
  }

  /** Piece `k`, counting its newline if it has one, is over the limit, and every one before it is
      read as a line. */
  predicate RefusedAt(pieces: seq<Bytes>, k: int, limit: nat, utf8: Bytes -> bool) {
    && 0 <= k < |pieces|
    && |pieces[k]| + (if k < |pieces| - 1 then 1 else 0) > limit
    && forall j | 0 <= j < k :: Accepted(pieces[j], limit, utf8)
  }

  lemma RefusedLater(pieces: seq<Bytes>, k: int, limit: nat, utf8: Bytes -> bool)
    requires |pieces| > 1 && Accepted(pieces[0], limit, utf8) && k >= 0
    ensures RefusedAt(pieces, k + 1, limit, utf8) <==> RefusedAt(pieces[1..], k, limit, utf8)
  {
    var rest := pieces[1..];
    if k < |rest| {
      assert pieces[k + 1] == rest[k];
      assert forall j | 0 <= j < k :: rest[j] == pieces[j + 1];
      assert RefusedAt(rest, k, limit, utf8) ==> forall j | 0 < j < k + 1 :: pieces[j] == rest[j - 1];
    }
  }

  /** A stream is refused for size exactly when some line, counting its newline, is over the limit
      and every line before it is text. */
  lemma {:induction false} OversizedExactly(pieces: seq<Bytes>, limit: nat, utf8: Bytes -> bool)
    requires pieces != []
    ensures SplitLines(pieces, Some(limit), utf8).1 == Oversized <==> exists k :: RefusedAt(pieces, k, limit, utf8)
    decreases |pieces|
  {
    if |pieces| > 1 && Accepted(pieces[0], limit, utf8) {
      var rest := pieces[1..];
      OversizedExactly(rest, limit, utf8);
      assert !RefusedAt(pieces, 0, limit, utf8);
      if k :| RefusedAt(rest, k, limit, utf8) {
        RefusedLater(pieces, k, limit, utf8);
        assert RefusedAt(pieces, k + 1, limit, utf8);
      }
      if k :| RefusedAt(pieces, k, limit, utf8) {
        RefusedLater(pieces, k - 1, limit, utf8);
      }
    } else {
      assert RefusedAt(pieces, 0, limit, utf8) <==>
             OverLimit(|pieces[0]| + (if |pieces| > 1 then 1 else 0), Some(limit));
    }
  }

  // ---------------------------------------------------------------- what reading a stream means

  /** How a line ended in the stream. */
  datatype Ending = Newline | ReturnNewline | End

  function EndingBytes(ending: Ending): Bytes {
    match ending
    case Newline => [NEWLINE]
    case ReturnNewline => [CARRIAGE_RETURN, NEWLINE]
    case End => []
  }

  /** The lines, each followed by what ended it. */
  function Assemble(lines: seq<Bytes>, endings: seq<Ending>): Bytes
    requires |lines| == |endings|
  {
    if lines == [] then [] else lines[0] + EndingBytes(endings[0]) + Assemble(lines[1..], endings[1..])
  }

  /** The first line of a stream: a carriage return right before the newline belongs to the ending,
      and only the last line, and not an empty one, goes without an ending. */
  predicate Opens(s: Bytes, line: Bytes, ending: Ending, rest: Bytes) {
    && s == line + EndingBytes(ending) + rest
    && NEWLINE !in line
    && (ending == End ==> rest == [] && line != [])
    && (ending == Newline ==> line == [] || line[|line| - 1] != CARRIAGE_RETURN)
  }

  predicate FitsWith(line: Bytes, ending: Ending, limit: Option<nat>) {
    !OverLimit(|line| + |EndingBytes(ending)|, limit)
  }

  /** What a line that is not read comes to: over the limit with its ending, or else not text. */
  ghost predicate Refuses(s: Bytes, end: Outcome, limit: Option<nat>, utf8: Bytes -> bool) {
    exists line, ending, rest ::
      Opens(s, line, ending, rest) && (if FitsWith(line, ending, limit) then !utf8(line) && end == NotUtf8
                                       else end == Oversized)
  }

  /** One line that is read, by itself. */
  predicate IsRead(line: Bytes, ending: Ending, limit: Option<nat>, utf8: Bytes -> bool) {
    utf8(line) && FitsWith(line, ending, limit) && Opens(line + EndingBytes(ending), line, ending, [])
  }

  /** Lines that are read: text within the limit, and nothing of the stream lost but how each of them
      ended. */
  predicate Reads(s: Bytes, lines: seq<Bytes>, endings: seq<Ending>, rest: Bytes,
                  limit: Option<nat>, utf8: Bytes -> bool) {
    && |lines| == |endings| && s == Assemble(lines, endings) + rest
    && (forall k | 0 <= k < |lines| :: IsRead(lines[k], endings[k], limit, utf8))
    && (forall k | 0 <= k < |lines| && endings[k] == End :: k == |lines| - 1 && rest == [])
  }

  /** What reading a whole stream means: lines up to its end, or up to a line that is refused. */
  ghost predicate ReadsAs(s: Bytes, lines: seq<Bytes>, end: Outcome, limit: Option<nat>, utf8: Bytes -> bool) {
    exists endings, rest ::
      && Reads(s, lines, endings, rest, limit, utf8)
      && (if end == EndOfStream then rest == [] else Refuses(rest, end, limit, utf8))
  }

  lemma ReadsNothing(s: Bytes, end: Outcome, limit: Option<nat>, utf8: Bytes -> bool)
    requires if end == EndOfStream then s == [] else Refuses(s, end, limit, utf8)
    ensures ReadsAs(s, [], end, limit, utf8)
  {
    assert [] + s == s;
    assert Reads(s, [], [], s, limit, utf8);
  }

  lemma AssembleOneMore(line: Bytes, ending: Ending, lines: seq<Bytes>, endings: seq<Ending>, rest: Bytes)
    requires |lines| == |endings|
    ensures Assemble([line] + lines, [ending] + endings) + rest ==
            line + EndingBytes(ending) + (Assemble(lines, endings) + rest)
  {
    assert ([line] + lines)[1..] == lines && ([ending] + endings)[1..] == endings;
  }

  lemma OpensAlone(s: Bytes, line: Bytes, ending: Ending, rest: Bytes)
    requires Opens(s, line, ending, rest)
    ensures Opens(line + EndingBytes(ending), line, ending, [])
  {
    assert line + EndingBytes(ending) + [] == line + EndingBytes(ending);
  }

  lemma ReadsOneMore(s: Bytes, line: Bytes, ending: Ending, after: Bytes, lines: seq<Bytes>, end: Outcome,
                     limit: Option<nat>, utf8: Bytes -> bool)
    requires Opens(s, line, ending, after) && utf8(line) && FitsWith(line, ending, limit)
    requires ReadsAs(after, lines, end, limit, utf8)
    requires ending == End ==> lines == [] && end == EndOfStream
    ensures ReadsAs(s, [line] + lines, end, limit, utf8)
  {
    var endings, rest :|
      && Reads(after, lines, endings, rest, limit, utf8)
      && (if end == EndOfStream then rest == [] else Refuses(rest, end, limit, utf8));
    AssembleOneMore(line, ending, lines, endings, rest);
    OpensAlone(s, line, ending, after);
    assert Reads(s, [line] + lines, [ending] + endings, rest, limit, utf8);
  }

  lemma {:induction false} TakenLineIs(s: Bytes)
    ensures var (line, found) := TakeLine(s);
            if found then line != [] && line[|line| - 1] == NEWLINE && NEWLINE !in line[..|line| - 1]
            else NEWLINE !in line
  {
    if s != [] {
      var (line, found) := TakeLine(s);
      if s[0] == NEWLINE {
        assert line[..|line| - 1] == [];
      } else {
        TakenLineIs(s[1..]);
        var (short, _) := TakeLine(s[1..]);
        assert line == [s[0]] + short;
        if found {
          assert line[..|line| - 1] == [s[0]] + short[..|short| - 1];
        }
      }
    }
  }

  /** A line with its newline is its text with the ending that was taken off. */
  lemma StripLeavesText(line: Bytes, rest: Bytes) returns (ending: Ending)
    requires line != [] && line[|line| - 1] == NEWLINE && NEWLINE !in line[..|line| - 1]
    ensures ending != End && line == StripReturn(line[..|line| - 1]) + EndingBytes(ending)
    ensures Opens(line + rest, StripReturn(line[..|line| - 1]), ending, rest)
  {
    var piece := line[..|line| - 1];
    var text := StripReturn(piece);
    ending := if text == piece then Newline else ReturnNewline;
    assert line == piece + [NEWLINE];
    assert forall c | c in text :: c in piece;
    if text != piece {
      assert piece == text + [CARRIAGE_RETURN];
      assert line == text + [CARRIAGE_RETURN, NEWLINE];
    }
  }

  /** The line that is taken opens the stream, and is refused or read as itself. */
  lemma ReadOneOpens(s: Bytes, limit: Option<nat>, utf8: Bytes -> bool) returns (line: Bytes, ending: Ending)
    requires s != []
    ensures var (outcome, rest) := ReadOne(s, limit, utf8);
            && Opens(s, line, ending, rest)
            && (ending == End ==> rest == [])
            && outcome == if !FitsWith(line, ending, limit) then Oversized
                          else if utf8(line) then Line(line) else NotUtf8
  {
    var (taken, found) := TakeLine(s);
    var rest := s[|taken|..];
    assert s == taken + rest;
    TakenLineIs(s);
    if found {
      line := StripReturn(taken[..|taken| - 1]);
      ending := StripLeavesText(taken, rest);
    } else {
      line, ending := s, End;
      assert s + [] + [] == s;
    }
  }

  lemma NothingToRead(limit: Option<nat>, utf8: Bytes -> bool)
    ensures ReadLines([], limit, utf8) == ([], EndOfStream)
  {
  }

  /** Reading gives the lines of the stream: each is text within the limit, with its ending it is
      found again in the stream, and what stops the reading is its end or the line that follows. */
  lemma {:induction false} ReadLinesReadsAs(s: Bytes, limit: Option<nat>, utf8: Bytes -> bool)
    ensures ReadsAs(s, ReadLines(s, limit, utf8).0, ReadLines(s, limit, utf8).1, limit, utf8)
    decreases |s|
  {
    if s == [] {
      NothingToRead(limit, utf8);
      ReadsNothing(s, EndOfStream, limit, utf8);
    } else {
      var (outcome, rest) := ReadOne(s, limit, utf8);
      var line, ending := ReadOneOpens(s, limit, utf8);
      if outcome.Line? {
        ReadLinesReadsAs(rest, limit, utf8);
        if ending == End {
          NothingToRead(limit, utf8);
        }
        var (lines, end) := ReadLines(rest, limit, utf8);
        ReadsOneMore(s, line, ending, rest, lines, end, limit, utf8);
      } else {
        assert Opens(s, line, ending, rest);
        ReadsNothing(s, outcome, limit, utf8);
      }
    }
  }

  /** A stream opens with one line only. */
  lemma OpensOnce(s: Bytes, a: Bytes, x: Ending, after: Bytes, b: Bytes, y: Ending, behind: Bytes)
    requires Opens(s, a, x, after) && Opens(s, b, y, behind)
    ensures (a, x, after) == (b, y, behind)
  {
    var (n, m) := (|a + EndingBytes(x)|, |b + EndingBytes(y)|);
    assert x != End ==> s[n - 1] == NEWLINE;
    assert y != End ==> s[m - 1] == NEWLINE;
    assert forall k | 0 <= k < n - 1 :: s[k] == (a + EndingBytes(x))[k] != NEWLINE;
    assert forall k | 0 <= k < m - 1 :: s[k] == (b + EndingBytes(y))[k] != NEWLINE;
    assert x == End ==> NEWLINE !in s && a == s;
    assert y == End ==> NEWLINE !in s && b == s;
    assert n == m;
    assert a + EndingBytes(x) == s[..n] == b + EndingBytes(y);
    assert after == s[n..] == behind;
    if x != End {
      assert a == s[..|a|] && b == s[..|b|];
    }
  }

  lemma ReadsTail(s: Bytes, lines: seq<Bytes>, endings: seq<Ending>, rest: Bytes,
                  limit: Option<nat>, utf8: Bytes -> bool)
    requires lines != [] && Reads(s, lines, endings, rest, limit, utf8)
    ensures var after := Assemble(lines[1..], endings[1..]) + rest;
            && Opens(s, lines[0], endings[0], after)
            && Reads(after, lines[1..], endings[1..], rest, limit, utf8)
  {
    var after := Assemble(lines[1..], endings[1..]) + rest;
    assert IsRead(lines[0], endings[0], limit, utf8);
    assert s == lines[0] + EndingBytes(endings[0]) + after;
  }

  /** What a line that opens the stream comes to. */
  lemma OpeningIsRead(s: Bytes, line: Bytes, ending: Ending, rest: Bytes, limit: Option<nat>, utf8: Bytes -> bool)
    requires Opens(s, line, ending, rest)
    ensures ReadOne(s, limit, utf8) ==
            (if !FitsWith(line, ending, limit) then Oversized else if utf8(line) then Line(line) else NotUtf8, rest)
  {
    assert s != [];
    var opening, how := ReadOneOpens(s, limit, utf8);
    OpensOnce(s, opening, how, ReadOne(s, limit, utf8).1, line, ending, rest);
  }

  lemma RefusedIsRead(s: Bytes, end: Outcome, limit: Option<nat>, utf8: Bytes -> bool)
    requires Refuses(s, end, limit, utf8)
    ensures ReadLines(s, limit, utf8) == ([], end)
  {
    var line, ending, rest :|
      Opens(s, line, ending, rest) && (if FitsWith(line, ending, limit) then !utf8(line) && end == NotUtf8
                                       else end == Oversized);
    OpeningIsRead(s, line, ending, rest, limit, utf8);
  }

  /** A line that is read comes before what the rest is read as. */
  lemma ReadFirst(s: Bytes, line: Bytes, after: Bytes, others: seq<Bytes>, more: seq<Bytes>, end: Outcome,
                  limit: Option<nat>, utf8: Bytes -> bool)
    requires ReadOne(s, limit, utf8) == (Line(line), after)
    requires ReadLines(after, limit, utf8) == (others + more, end)
    ensures ReadLines(s, limit, utf8) == ([line] + others + more, end)
  {
    assert [line] + (others + more) == [line] + others + more;
  }

  lemma {:induction false} ReadsIsReadLines(s: Bytes, lines: seq<Bytes>, endings: seq<Ending>, rest: Bytes,
                                            limit: Option<nat>, utf8: Bytes -> bool)
    requires Reads(s, lines, endings, rest, limit, utf8)
    ensures var (more, end) := ReadLines(rest, limit, utf8);
            ReadLines(s, limit, utf8) == (lines + more, end)
    decreases |lines|
  {
    var (more, end) := ReadLines(rest, limit, utf8);
    if lines == [] {
      assert [] + rest == rest && lines + more == more;
    } else {
      var (first, others) := (lines[0], lines[1..]);
      ReadsTail(s, lines, endings, rest, limit, utf8);
      var after := Assemble(others, endings[1..]) + rest;
      ReadsIsReadLines(after, others, endings[1..], rest, limit, utf8);
      assert ReadOne(s, limit, utf8) == (Line(first), after) by {
        assert IsRead(first, endings[0], limit, utf8);
        OpeningIsRead(s, first, endings[0], after, limit, utf8);
      }
      ReadFirst(s, first, after, others, more, end, limit, utf8);
      assert lines == [first] + others;
    }
  }

  /** There is only one way to read a stream. */
  lemma ReadsOneWay(s: Bytes, lines: seq<Bytes>, end: Outcome, limit: Option<nat>, utf8: Bytes -> bool)
    requires ReadsAs(s, lines, end, limit, utf8)
    ensures (lines, end) == ReadLines(s, limit, utf8)
  {
    var endings, rest :|
      && Reads(s, lines, endings, rest, limit, utf8)
      && (if end == EndOfStream then rest == [] else Refuses(rest, end, limit, utf8));
    ReadsIsReadLines(s, lines, endings, rest, limit, utf8);
    if end == EndOfStream {
      NothingToRead(limit, utf8);
    } else {
      RefusedIsRead(rest, end, limit, utf8);
    }
    assert lines + [] == lines;
  }

  // ---------------------------------------------------------------- the chunked reader

  /** A buffered reader: `FillBuf` shows what is available, `Consume` takes some of it. */
  class Reader {
    var chunks: seq<Bytes>

    predicate Valid()
      reads this
    {
      forall chunk | chunk in chunks :: chunk != []
    }

    constructor (chunks: seq<Bytes>)
      requires forall chunk | chunk in chunks :: chunk != []
      ensures Valid() && this.chunks == chunks
    {
      this.chunks := chunks;
    }

    method FillBuf() returns (available: Bytes)
      requires Valid()
      ensures available == if chunks == [] then [] else chunks[0]
      ensures available == [] <==> Flat(chunks) == []
      ensures available <= Flat(chunks)
    {
      if chunks == [] {
        return [];
      }
      assert chunks[0] in chunks;
      return chunks[0];
    }

    method Consume(count: nat)
      requires Valid() && chunks != [] && 0 < count <= |chunks[0]|
      modifies this
      ensures Valid()
      ensures Flat(chunks) == Flat(old(chunks))[count..]
    {
      var left := chunks[0][count..];
      ghost var rest := chunks[1..];
      chunks := if left == [] then chunks[1..] else [left] + chunks[1..];
      assert left != [] ==> chunks[1..] == rest;
      assert forall chunk | chunk in rest :: chunk in old(chunks);
      assert old(chunks)[0][count..] + Flat(rest) == (old(chunks)[0] + Flat(rest))[count..];
    }
  }

  method FirstNewline(available: Bytes) returns (at: Option<nat>)
    ensures at.Some? ==> at.value < |available| && available[at.value] == NEWLINE && NEWLINE !in available[..at.value]
    ensures at.None? ==> NEWLINE !in available
  {
    for i := 0 to |available|
      invariant NEWLINE !in available[..i]
    {
      if available[i] == NEWLINE {
        return Some(i);
      }
    }
    return None;
  }

  /** One turn of the loop: as much of what is available as belongs to the line, if it fits. */
  method TakeAvailable(ghost flat: Bytes, buf: Bytes, available: Bytes, limit: Option<nat>)
    returns (next: Bytes, found: Result<bool, Outcome>)
    requires buf <= flat && NEWLINE !in buf && available != [] && available <= flat[|buf|..] && !OverLimit(|buf|, limit)
    ensures found.Err? ==> found.error == Oversized && next == buf && OverLimit(|TakeLine(flat).0|, limit)
    ensures found.Ok? ==> buf <= next && 0 < |next| - |buf| <= |available| && !OverLimit(|next|, limit)
    ensures found == Ok(true) ==> TakeLine(flat) == (next, true)
    ensures found == Ok(false) ==> next <= flat && NEWLINE !in next
  {
    var newline := FirstNewline(available);
    ghost var prefix := buf + if newline.Some? then available[..newline.value] else available;
    assert flat == buf + flat[|buf|..];
    assert newline.Some? ==> flat[|prefix|] == flat[|buf|..][newline.value] == NEWLINE;
    TakeLineFrom(flat, prefix);
    if newline.Some? {
      var take := newline.value + 1;
      if OverLimit(|buf| + take, limit) {
        return buf, Err(Oversized);
      }
      assert buf + available[..take] == prefix + [NEWLINE];
      return buf + available[..take], Ok(true);
    }
    if OverLimit(|buf| + |available|, limit) {
      return buf, Err(Oversized);
    }
    return buf + available, Ok(false);
  }

  /** `append_until_newline`: the first line, however the stream is divided, and never more than the
      limit in `buf` - not even when the line is refused. */
  method AppendUntilNewline(reader: Reader, limit: Option<nat>) returns (buf: Bytes, found: Result<bool, Outcome>)
    requires reader.Valid()
    modifies reader
    ensures reader.Valid()
    ensures !OverLimit(|buf|, limit)
    ensures found.Err? <==> OverLimit(|TakeLine(Flat(old(reader.chunks))).0|, limit)
    ensures found.Err? ==> found.error == Oversized
    ensures found.Ok? ==> (buf, found.value) == TakeLine(Flat(old(reader.chunks)))
    ensures found.Err? ==> buf <= Flat(old(reader.chunks)) && NEWLINE !in buf
    ensures |buf| <= |Flat(old(reader.chunks))| && Flat(reader.chunks) == Flat(old(reader.chunks))[|buf|..]
  {
    buf := [];
    ghost var flat := Flat(reader.chunks);
    assert flat[|buf|..] == flat;
    while true
      invariant reader.Valid()
      invariant buf <= flat && NEWLINE !in buf && Flat(reader.chunks) == flat[|buf|..]
      invariant !OverLimit(|buf|, limit)
      decreases |flat| - |buf|
    {
      var available := reader.FillBuf();
      if available == [] {
        assert flat[|buf|..] == [] && buf == flat == buf + [];
        TakeLineAfter(buf, []);
        return buf, Ok(false);
      }
      var next, step := TakeAvailable(flat, buf, available, limit);
      if step.Err? {
        return buf, step;
      }
      var taken := |next| - |buf|;
      assert flat[|buf|..][taken..] == flat[|next|..];
      buf := next;
      reader.Consume(taken);
      if step.value {
        return buf, Ok(true);
      }
    }
  }

  /** `trim_trailing_newline`. */
  method TrimTrailingNewline(buf: Bytes) returns (text: Bytes)
    requires buf != [] && buf[|buf| - 1] == NEWLINE
    ensures text == StripReturn(buf[..|buf| - 1])
    ensures buf == text + if |buf| > 1 && buf[|buf| - 2] == CARRIAGE_RETURN then [CARRIAGE_RETURN, NEWLINE]
                          else [NEWLINE]
  {
    text := buf[..|buf| - 1];
    if text != [] && text[|text| - 1] == CARRIAGE_RETURN {
      text := text[..|text| - 1];
    }
  }

  /** After an oversized line the reader stands somewhere inside it, having taken no more than the
      limit. */
  predicate StopsInside(flat: Bytes, left: Bytes, limit: Option<nat>) {
    && |left| <= |flat|
    && var taken := |flat| - |left|;
       flat[taken..] == left && NEWLINE !in flat[..taken] && !OverLimit(taken, limit)
  }

  method ReadDelimitedLine(reader: Reader, limit: Option<nat>, utf8: Bytes -> bool) returns (outcome: Outcome)
    requires reader.Valid()
    modifies reader
    ensures reader.Valid()
    ensures outcome == ReadOne(Flat(old(reader.chunks)), limit, utf8).0
    ensures !outcome.Oversized? ==> Flat(reader.chunks) == ReadOne(Flat(old(reader.chunks)), limit, utf8).1
    ensures outcome.Oversized? ==> StopsInside(Flat(old(reader.chunks)), Flat(reader.chunks), limit)
  {
    var buf, found := AppendUntilNewline(reader, limit);
    if found.Err? {
      return found.error;
    }
    if buf == [] && !found.value {
      return EndOfStream;
    }
    if found.value {
      TakenLineIs(Flat(old(reader.chunks)));
      buf := TrimTrailingNewline(buf);
    }
    return if utf8(buf) then Line(buf) else NotUtf8;
  }

  /** A line a client sent. */
  method ReadControlLine(reader: Reader, utf8: Bytes -> bool) returns (outcome: Outcome)
    requires reader.Valid()
    modifies reader
    ensures reader.Valid()
    ensures outcome == ReadOne(Flat(old(reader.chunks)), Some(MAX_CONTROL_MESSAGE), utf8).0
    ensures outcome.Oversized? <==> |TakeLine(Flat(old(reader.chunks))).0| > MAX_CONTROL_MESSAGE
  {
    outcome := ReadDelimitedLine(reader, Some(MAX_CONTROL_MESSAGE), utf8);
  }

  /** A line Rozi wrote, which may be longer than any request. */
  method ReadControlReplyLine(reader: Reader, utf8: Bytes -> bool) returns (outcome: Outcome)
    requires reader.Valid()
    modifies reader
    ensures reader.Valid()
    ensures outcome == ReadOne(Flat(old(reader.chunks)), None, utf8).0 && !outcome.Oversized?
  {
    outcome := ReadDelimitedLine(reader, None, utf8);
  }

  function Prepend(lines: seq<Bytes>, read: (seq<Bytes>, Outcome)): (seq<Bytes>, Outcome) {
    (lines + read.0, read.1)
  }

  lemma PrependLines(a: seq<Bytes>, b: seq<Bytes>, read: (seq<Bytes>, Outcome))
    ensures Prepend(a, Prepend(b, read)) == Prepend(a + b, read)
    ensures Prepend([], read) == read
  {
    assert a + (b + read.0) == a + b + read.0;
    assert [] + read.0 == read.0;
  }

  /** Reading a whole stream line by line: for every division into chunks, the lines and the end are
      those of splitting the flat stream. */
  method ReadAll(reader: Reader, limit: Option<nat>, utf8: Bytes -> bool) returns (lines: seq<Bytes>, end: Outcome)
    requires reader.Valid()
    modifies reader
    ensures (lines, end) == SplitLines(Pieces(Flat(old(reader.chunks))), limit, utf8)
    ensures ReadsAs(Flat(old(reader.chunks)), lines, end, limit, utf8)
  {
    lines := [];
    ghost var flat := Flat(reader.chunks);
    PrependLines([], [], ReadLines(flat, limit, utf8));
    while true
      invariant reader.Valid()
      invariant ReadLines(flat, limit, utf8) == Prepend(lines, ReadLines(Flat(reader.chunks), limit, utf8))
      decreases |Flat(reader.chunks)|
    {
      ghost var rest := Flat(reader.chunks);
      var outcome := ReadDelimitedLine(reader, limit, utf8);
      if !outcome.Line? {
        ReadLinesIsSplit(flat, limit, utf8);
        ReadLinesReadsAs(flat, limit, utf8);
        assert ReadLines(rest, limit, utf8) == ([], outcome);
        assert lines + [] == lines;
        return lines, outcome;
      }
      PrependLines(lines, [outcome.text], ReadLines(Flat(reader.chunks), limit, utf8));
      assert ReadLines(rest, limit, utf8) == Prepend([outcome.text], ReadLines(Flat(reader.chunks), limit, utf8));
      lines := lines + [outcome.text];
    }
  }
}
